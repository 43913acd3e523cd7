/** Output services with a shared write buffer, and the clients that join, move between and
    leave them (net_io.c). */
module BeastWriter {
  import opened BeastFrame
  import opened Options

  const OUT_BUF_SIZE: nat := 1500
  /** The default, and the most there can be, for the fill level from which a buffer is flushed. */
  const OUT_FLUSH_SIZE: nat := OUT_BUF_SIZE - 256

  predicate AllItems(items: seq<Item>) {
    forall k :: 0 <= k < |items| ==> IsItem(items[k])
  }

  lemma {:induction false} EncodeAllAppend(a: seq<Item>, b: seq<Item>)
    requires AllItems(a) && AllItems(b)
    ensures AllItems(a + b) && EncodeAll(a + b) == EncodeAll(a) + EncodeAll(b)
    decreases |b|
  {
    hide Encode;
    if b == [] {
      assert a + b == a;
    } else {
      assert (a + b)[..|a + b| - 1] == a + b[..|b| - 1];
      EncodeAllAppend(a, b[..|b| - 1]);
    }
  }

  /** struct net_service together with its net_writer. `pending` is what the buffer holds. */
  class Service {
    var connections: int
    var dataUsed: nat
    const data: array<bv8>
    ghost var pending: seq<Item>

    constructor ()
      ensures connections == 0 && dataUsed == 0 && pending == [] && data.Length == OUT_BUF_SIZE && fresh(data)
    {
      connections, dataUsed, pending := 0, 0, [];
      data := new bv8[OUT_BUF_SIZE];
    }

    /** At any time the buffer is a concatenation of whole frames. */
    ghost predicate Framed()
      reads this, data
    {
      && data.Length == OUT_BUF_SIZE && dataUsed <= OUT_BUF_SIZE
      && AllItems(pending) && data[..dataUsed] == EncodeAll(pending)
    }
  }

  /** struct client; `service == null` once it is closed. `sent` is what was written to its
      descriptor, `queued` the messages queued while it belonged to the service of the time,
      `delivered` those among them that were flushed. */
  class NetClient {
    var service: Service?
    ghost var sent: seq<bv8>
    ghost var queued: seq<Item>
    ghost var delivered: seq<Item>

    constructor ()
      ensures service == null && sent == [] && queued == [] && delivered == []
    {
      service := null;
      sent, queued, delivered := [], [], [];
    }

    /** While the client is open only the messages still in the buffer are missing; a client that
        was closed got a part of the stream. */
    ghost predicate InStep()
      reads this, service
    {
      && AllItems(queued)
      && if service == null then sent <= EncodeAll(queued)
         else AllItems(delivered) && sent == EncodeAll(delivered) && queued == delivered + service.pending
    }
  }

  /** What was written to a client, closed or not, is the beginning of its encoded queue. */
  lemma SentIsPrefix(c: NetClient)
    requires c.InStep()
    ensures c.sent <= EncodeAll(c.queued)
  {
    if c.service != null {
      assert forall k :: 0 <= k < |c.service.pending| ==> c.service.pending[k] == c.queued[|c.delivered| + k];
      EncodeAllAppend(c.delivered, c.service.pending);
    }
  }

  class Network {
    var clients: seq<NetClient>
    const services: seq<Service>
    const flushSize: int

    /** No clients yet. */
    constructor (services: seq<Service>, flushSize: int)
      requires forall i, j :: 0 <= i < j < |services| ==>
        services[i] != services[j] && services[i].data != services[j].data
      requires forall s :: s in services ==> s.connections == 0 && s.Framed()
      ensures Valid() && this.services == services && this.flushSize == flushSize && clients == []
    {
      this.services := services;
      this.flushSize := flushSize;
      clients := [];
    }

    ghost function Owners(): (o: seq<Service?>)
      reads this, clients
      ensures |o| == |clients| && forall i :: 0 <= i < |clients| ==> o[i] == clients[i].service
    {
      seq(|clients|, i requires 0 <= i < |clients| reads this, clients => clients[i].service)
    }

    ghost function Buffers(): set<object>
    {
      set i | 0 <= i < |services| :: services[i].data
    }

    ghost predicate Distinct()
      reads this
    {
      && (forall i, j :: 0 <= i < j < |clients| ==> clients[i] != clients[j])
      && (forall i, j :: 0 <= i < j < |services| ==> services[i] != services[j] && services[i].data != services[j].data)
    }

    /** Every service counts its clients correctly. */
    ghost predicate Counted()
      reads this, clients, services
    {
      forall s :: s in services ==> s.connections == multiset(Owners())[s]
    }

    twostate lemma StillCounted()
      requires old(Counted()) && clients == old(clients)
      requires forall c :: c in clients ==> c.service == old(c.service)
      requires forall s :: s in services ==> s.connections == old(s.connections)
      ensures Counted()
    {
      assert Owners() == old(Owners());
    }

    ghost predicate Valid()
      reads this, clients, services, Buffers()
    {
      && Distinct()
      && (forall s :: s in services ==> s.Framed())
      && Counted()
      && (forall c :: c in clients ==> (c.service == null || c.service in services) && c.InStep())
    }

    /** modesCloseClient; removal from the list is deferred in the source. It is called for a short
        write and by the reading side, at any time. */
    method CloseClient(c: NetClient)
      requires c in clients && c.service != null && c.service in services && Distinct()
      requires Counted()
      modifies c`service, c.service`connections
      ensures c.service == null && c.queued == old(c.queued) && c.sent == old(c.sent)
      ensures Counted()
      ensures old(Valid()) ==> Valid()
    {
      hide EncodeAll, AllItems, NetClient.InStep, Service.Framed, Network.Valid, Network.SentPart, Network.Counted;
      if Valid() {
        ValidInStep(c);
        InStepSentPart(c);
      }
      c.service.connections := c.service.connections - 1;
      c.service := null;
      MovedCounted(c);
      if old(Valid()) {
        ClosedInStep(c);
        ValidAfterClosing(c);
      }
    }

    static lemma ClosedInStep(c: NetClient)
      requires c.service == null && SentPart(c)
      ensures c.InStep()
    {
    }

    lemma ValidInStep(c: NetClient)
      requires Valid() && c in clients
      ensures c.InStep()
    {
    }

    static lemma InStepSentPart(c: NetClient)
      requires c.InStep()
      ensures SentPart(c)
    {
      SentIsPrefix(c);
    }

    twostate lemma ValidAfterClosing(c: NetClient)
      requires old(Valid()) && clients == old(clients) && c in clients && Counted()
      requires c.service == null && c.InStep()
      requires forall d :: d in clients && d != c ==> unchanged(d)
      requires forall s :: s in services ==>
        s.pending == old(s.pending) && s.dataUsed == old(s.dataUsed) && s.data[..] == old(s.data[..])
      ensures Valid()
    {
      hide EncodeAll, AllItems, Network.Counted;
      forall d | d in clients ensures d.InStep() && (d.service == null || d.service in services) {
        assert old(d.InStep());
      }
      forall s | s in services ensures s.Framed() {
        assert old(s.Framed());
        assert s.data[..s.dataUsed] == s.data[..][..s.dataUsed];
      }
    }

    /** Everything queued for c has been written to it. */
    static ghost predicate CaughtUp(c: NetClient)
      reads c
    {
      AllItems(c.delivered) && c.sent == EncodeAll(c.delivered) && c.queued == c.delivered
    }

    static ghost predicate SentWhole(c: NetClient)
      reads c
    {
      AllItems(c.delivered) && c.sent == EncodeAll(c.delivered)
    }

    static ghost predicate SentPart(c: NetClient)
      reads c
    {
      AllItems(c.queued) && c.sent <= EncodeAll(c.queued)
    }

    /** c after a write that succeeded or fell short. */
    static ghost predicate Written(c: NetClient, svc: Service, ok: bool)
      reads c
    {
      if ok then c.service == svc && CaughtUp(c) else c.service == null && SentPart(c)
    }

    /** One write of the whole buffer to one client, which is closed if the write falls short. */
    method WriteTo(c: NetClient, svc: Service, ok: bool)
      requires c in clients && c.service == svc && svc in services && Distinct()
      requires Counted()
      requires svc.Framed() && c.InStep()
      modifies c`sent, c`delivered, c`service, svc`connections
      ensures Counted()
      ensures Written(c, svc, ok) && svc.Framed()
    {
      hide EncodeAll, Network.Valid;
      EncodeAllAppend(c.delivered, svc.pending);
      if ok {
        c.sent := c.sent + svc.data[..svc.dataUsed];
        c.delivered := c.delivered + svc.pending;
        StillCounted();
      } else {
        ghost var written: nat :| written < svc.dataUsed || written == 0;
        c.sent := c.sent + svc.data[..written];
        StillCounted();
        CloseClient(c);
      }
    }

    /** flushWrites: a client whose write falls short is closed. `ok` are the clients whose
        writes succeed this time. */
    method FlushWrites(svc: Service, ok: set<NetClient>)
      requires Valid() && svc in services
      modifies svc`dataUsed, svc`pending, svc`connections, clients
      ensures Valid() && svc.dataUsed == 0 && svc.pending == []
      ensures forall c :: c in clients ==> c.queued == old(c.queued)
      ensures forall c :: c in clients ==>
        c.service == if old(c.service) == svc && c !in ok then null else old(c.service)
      ensures forall c :: c in clients && c.service == svc ==> CaughtUp(c)
      ensures forall c :: c in clients && old(c.service) != svc ==> unchanged(c)
    {
      hide EncodeAll, AllItems, Network.Counted, Service.Framed;
      WriteToMembers(svc, ok);
      Emptied(svc, ok);
    }

    /** The loop of flushWrites. */
    method WriteToMembers(svc: Service, ok: set<NetClient>)
      requires Valid() && svc in services
      modifies svc`connections, clients
      ensures Distinct() && svc.pending == old(svc.pending) && clients == old(clients)
      ensures Counted() && forall s :: s in services ==> s.Framed()
      ensures forall c :: c in clients && old(c.service) == svc ==>
        Written(c, svc, c in ok) && c.queued == old(c.queued)
      ensures forall c :: c in clients && old(c.service) != svc ==> unchanged(c)
    {
      hide EncodeAll, AllItems, Network.Counted, Service.Framed;
      for i := 0 to |clients|
        invariant Distinct()
        invariant Counted() && forall s :: s in services ==> s.Framed()
        invariant svc.pending == old(svc.pending)
        invariant forall k :: 0 <= k < i && old(clients[k].service) == svc ==>
          Written(clients[k], svc, clients[k] in ok) && clients[k].queued == old(clients[k].queued)
        invariant forall k :: 0 <= k < i && old(clients[k].service) != svc ==> unchanged(clients[k])
        invariant forall k :: i <= k < |clients| ==> unchanged(clients[k])
      {
        if clients[i].service == svc {
          assert clients[i].InStep();
          WriteTo(clients[i], svc, clients[i] in ok);
        }
      }
    }

    /** The end of flushWrites: the buffer is empty again. */
    method Emptied(svc: Service, ghost ok: set<NetClient>)
      requires Distinct() && svc in services
      requires Counted() && forall s :: s in services ==> s.Framed()
      requires forall c :: c in clients ==> (c.service == null || c.service in services)
      requires forall c :: c in clients ==>
        if c.service == null then SentPart(c) else if c.service == svc then CaughtUp(c) else c.InStep()
      modifies svc`dataUsed, svc`pending
      ensures Valid() && svc.dataUsed == 0 && svc.pending == []
    {
      hide EncodeAll, AllItems;
      svc.dataUsed := 0;
      svc.pending := [];
      EncodeNothing();
      assert svc.data[..0] == [];
      StillCounted();
      forall c | c in clients ensures c.InStep() {
        if c.service == svc {
          assert CaughtUp(c);
        } else if c.service != null {
          assert c.service.pending == old(c.service.pending);
        }
      }
    }

    lemma ValidFramed(svc: Service)
      requires Valid() && svc in services
      ensures svc.Framed()
    {
    }

    static lemma NothingWaits(svc: Service)
      requires svc.Framed()
      ensures svc.pending == [] <==> svc.dataUsed == 0
    {
      assert |svc.data[..svc.dataUsed]| == svc.dataUsed;
    }

    static lemma OneWaits(svc: Service, item: Item)
      requires svc.Framed() && IsItem(item) && svc.pending == [item]
      ensures svc.dataUsed == |Encode(item)|
    {
      assert [item][..0] == [] && |svc.data[..svc.dataUsed]| == svc.dataUsed;
      EncodeNothing();
      assert EncodeAll([item]) == EncodeAll([]) + Encode(item);
    }

    static lemma EncodeNothing()
      ensures EncodeAll([]) == [] && AllItems([])
    {
    }

    // ---- Queueing ---------------------------------------------------------------------

    /** What happened to the clients: who was closed, and whose queue grew by what. */
    twostate predicate Queued(svc: Service, items: seq<Item>)
      reads this, clients
    {
      && clients == old(clients)
      && forall c :: c in clients ==>
           && (c.service == old(c.service) || (c.service == null && old(c.service) == svc))
           && (c.service != null ==> c.queued == old(c.queued) + (if c.service == svc then items else []))
    }

    /** A client that belongs to a service keeps its connection count positive. */
    lemma MemberCounts(c: NetClient)
      requires Valid() && c in clients && c.service != null
      ensures c.service.connections > 0
    {
      var i: nat :| i < |clients| && clients[i] == c;
      assert Owners()[i] == c.service;
      assert c.service in multiset(Owners());
    }

    /** Nothing was flushed. */
    twostate predicate Untouched(svc: Service)
      reads this, svc, clients
    {
      && clients == old(clients) && svc.dataUsed == old(svc.dataUsed) && svc.pending == old(svc.pending)
      && forall c :: c in clients ==> unchanged(c)
    }

    /** Room in the buffer of a service somebody is connected to, and no reason to flush it: the
        message will wait in the buffer. */
    predicate WillWait(svc: Service, item: Item)
      reads this, svc
      requires IsItem(item)
    {
      && svc.connections != 0 && svc.dataUsed + 2 + 2 * (7 + |item.msg|) < OUT_BUF_SIZE
      && svc.dataUsed + |Encode(item)| < flushSize
    }

    /** prepareWrite: None skips the write; otherwise there is room for len bytes. */
    method PrepareWrite(svc: Service, len: nat, ok: set<NetClient>) returns (p: Option<nat>)
      requires Valid() && svc in services
      modifies svc`dataUsed, svc`pending, svc`connections, clients
      ensures Valid() && clients == old(clients)
      ensures forall c :: c in clients ==> c.queued == old(c.queued)
      ensures forall c :: c in clients ==> c.service == old(c.service) || (c.service == null && old(c.service) == svc)
      ensures svc.dataUsed <= OUT_BUF_SIZE
      ensures p.None? ==> len > OUT_BUF_SIZE || forall c :: c in clients ==> c.service != svc
      ensures p.Some? ==> p.value == svc.dataUsed && svc.dataUsed + len <= OUT_BUF_SIZE
      ensures old(svc.connections) != 0 && old(svc.dataUsed) + len < OUT_BUF_SIZE ==> p.Some? && Untouched(svc)
    {
      if svc.connections == 0 {
        forall c | c in clients ensures c.service != svc {
          if c.service == svc {
            MemberCounts(c);
          }
        }
        return None;
      }
      if len > OUT_BUF_SIZE {
        return None;
      }
      if svc.dataUsed + len >= OUT_BUF_SIZE {
        FlushWrites(svc, ok);
      }
      p := Some(svc.dataUsed);
    }

    /** completeWrite: the bytes up to endp, which encode one more message, become part of
        the buffer. */
    method CompleteWrite(svc: Service, endp: nat, ghost item: Item, ok: set<NetClient>)
      requires Valid() && svc in services
      requires IsItem(item) && svc.dataUsed <= endp <= OUT_BUF_SIZE == svc.data.Length
      requires svc.data[..endp] == svc.data[..svc.dataUsed] + Encode(item)
      modifies svc`dataUsed, svc`pending, svc`connections, clients
      ensures Valid() && Queued(svc, [item])
      ensures svc.dataUsed <= OUT_BUF_SIZE && (svc.dataUsed < flushSize || svc.dataUsed == 0)
      ensures endp < flushSize ==> svc.pending == old(svc.pending) + [item] && svc.dataUsed == endp
      ensures endp < flushSize ==> forall c :: c in clients ==> c.service == old(c.service)
    {
      hide Encode, EncodeAll, AllItems, Network.Counted, Service.Framed, Network.Valid;
      Extend(svc, endp, item);
      if svc.dataUsed >= flushSize {
        FlushWrites(svc, ok);
      }
    }

    method Extend(svc: Service, endp: nat, ghost item: Item)
      requires Valid() && svc in services
      requires IsItem(item) && svc.dataUsed <= endp <= OUT_BUF_SIZE == svc.data.Length
      requires svc.data[..endp] == svc.data[..svc.dataUsed] + Encode(item)
      modifies svc`dataUsed, svc`pending, clients
      ensures Valid() && svc.dataUsed == endp && clients == old(clients) && svc.pending == old(svc.pending) + [item]
      ensures forall c :: c in clients ==>
        c.service == old(c.service) && c.queued == old(c.queued) + (if c.service == svc then [item] else [])
    {
      hide Network.Counted, Service.Framed, Encode;
      QueueForMembers(svc, item);
      StillCounted();
      forall c | c in clients && c.service != svc ensures c.InStep() {
        assert old(c.InStep()) && c.queued == old(c.queued);
      }
      AdvanceBuffer(svc, endp, item);
    }

    method AdvanceBuffer(svc: Service, endp: nat, ghost item: Item)
      requires Distinct() && svc in services
      requires Counted() && forall s :: s in services ==> s.Framed()
      requires forall c :: c in clients ==> c.service == null || c.service in services
      requires forall c :: c in clients && c.service == svc ==>
        SentWhole(c) && AllItems(c.queued) && c.queued == c.delivered + svc.pending + [item]
      requires forall c :: c in clients && c.service != svc ==> c.InStep()
      requires IsItem(item) && svc.dataUsed <= endp <= OUT_BUF_SIZE == svc.data.Length
      requires svc.data[..endp] == svc.data[..svc.dataUsed] + Encode(item)
      modifies svc`dataUsed, svc`pending
      ensures Valid() && svc.dataUsed == endp && svc.pending == old(svc.pending) + [item]
    {
      hide Encode, EncodeAll, AllItems, Network.Counted;
      OneMore(svc.pending, item);
      svc.dataUsed := endp;
      svc.pending := svc.pending + [item];
      StillCounted();
      forall c | c in clients ensures c.InStep() {
        if c.service == svc {
          assert c.queued == c.delivered + svc.pending;
        } else if c.service != null {
          assert c.service.pending == old(c.service.pending);
        }
      }
    }

    static lemma OneMore(items: seq<Item>, item: Item)
      requires AllItems(items) && IsItem(item)
      ensures AllItems(items + [item]) && EncodeAll(items + [item]) == EncodeAll(items) + Encode(item)
    {
      assert (items + [item])[..|items|] == items;
    }

    ghost method QueueForMembers(svc: Service, item: Item)
      requires Distinct()
      modifies set c | c in clients :: c`queued
      ensures forall c :: c in clients ==> c.queued == old(c.queued) + (if c.service == svc then [item] else [])
    {
      forall c | c in clients {
        c.queued := c.queued + (if c.service == svc then [item] else []);
      }
    }

    // ---- Writing a frame ----------------------------------------------------------------

    /** One byte, doubled if it is the escape byte. */
    static method Put(data: array<bv8>, p: nat, ch: bv8) returns (q: nat)
      requires p + 2 <= data.Length
      modifies data
      ensures p < q <= p + 2
      ensures data[..q] == old(data[..p]) + Escaped([ch])
    {
      assert [ch][1..] == [];
      data[p] := ch;
      q := p + 1;
      if ch == ESCAPE {
        data[q] := ch;
        q := q + 1;
      }
    }

    /** Put for a run of bytes. */
    static method PutAll(data: array<bv8>, p: nat, s: seq<bv8>) returns (q: nat)
      requires p + 2 * |s| <= data.Length
      modifies data
      ensures p <= q <= p + 2 * |s|
      ensures data[..q] == old(data[..p]) + Escaped(s)
    {
      hide Escaped;
      q := p;
      ghost var start := data[..p];
      assert Escaped(s[..0]) == [] by { EscapedNothing(); }
      for j := 0 to |s|
        invariant p <= q <= p + 2 * j
        invariant data[..q] == start + Escaped(s[..j])
      {
        q := Put(data, q, s[j]);
        assert s[..j + 1] == s[..j] + [s[j]];
        EscapedAppend(s[..j], [s[j]]);
      }
      assert s[..|s|] == s;
    }

    static lemma EscapedNothing()
      ensures Escaped([]) == []
    {
    }

    /** writeBeastMessage: the message is queued for every client of the service, unless its
        length is not that of a Mode A/C, short or long message. */
    method WriteBeastMessage(svc: Service, item: Item, ok: set<NetClient>)
      requires Valid() && svc in services
      modifies svc`dataUsed, svc`pending, svc`connections, svc.data, clients
      ensures Valid() && svc.dataUsed <= OUT_BUF_SIZE
      ensures IsItem(item) ==> Queued(svc, [item])
      ensures !IsItem(item) ==> forall c :: c in clients ==> c.queued == old(c.queued)
      ensures IsItem(item) && old(WillWait(svc, item)) ==>
        svc.pending == old(svc.pending) + [item] && forall c :: c in clients ==> c.service == old(c.service)
    {
      hide Encode, EncodeAll, AllItems, Network.Counted, Service.Framed;
      var room := PrepareWrite(svc, 2 + 2 * (7 + |item.msg|), ok);
      if room.None? || !IsItem(item) {
        return;
      }
      var p := PutFrame(svc, item);
      CompleteWrite(svc, p, item, ok);
    }

    method PutFrame(svc: Service, item: Item) returns (p: nat)
      requires Valid() && svc in services && IsItem(item)
      requires svc.dataUsed + 2 + 2 * (7 + |item.msg|) <= OUT_BUF_SIZE
      modifies svc.data
      ensures Valid() && svc.dataUsed <= p <= OUT_BUF_SIZE == svc.data.Length
      ensures svc.data[..p] == svc.data[..svc.dataUsed] + Encode(item)
    {
      hide Escaped, Data, EncodeAll, Network.Counted, TypeByte;
      var data := svc.data;
      ghost var used := data[..svc.dataUsed];
      p := svc.dataUsed;
      data[p] := ESCAPE;
      data[p + 1] := TypeByte(|item.msg|);
      p := p + 2;
      assert data[..p] == used + [ESCAPE, TypeByte(|item.msg|)];
      DataLength(item);
      p := PutAll(data, p, Data(item));
      assert data[..p] == used + Encode(item);
      assert data[..svc.dataUsed] == data[..p][..svc.dataUsed];
    }

    static lemma DataLength(item: Item)
      ensures |Data(item)| == 7 + |item.msg|
    {
    }

    /** send_beast_heartbeat */
    method SendHeartbeat(svc: Service, ok: set<NetClient>)
      requires Valid() && svc in services
      modifies svc`dataUsed, svc`pending, svc`connections, svc.data, clients
      ensures Valid() && Queued(svc, [Item(0, 0, [0, 0])])
    {
      hide Encode, EncodeAll, AllItems, Network.Counted, Service.Framed;
      var heartbeat: seq<bv8> := [0x1a, 0x31, 0, 0, 0, 0, 0, 0, 0, 0, 0];
      HeartbeatIsAFrame();
      var room := PrepareWrite(svc, |heartbeat|, ok);
      if room.None? {
        return;
      }
      var p := Copy(svc, heartbeat);
      CompleteWrite(svc, p, Item(0, 0, [0, 0]), ok);
    }

    method Copy(svc: Service, bytes: seq<bv8>) returns (p: nat)
      requires Valid() && svc in services && svc.dataUsed + |bytes| <= OUT_BUF_SIZE
      modifies svc.data
      ensures Valid() && svc.dataUsed <= p <= OUT_BUF_SIZE == svc.data.Length
      ensures svc.data[..p] == svc.data[..svc.dataUsed] + bytes
    {
      hide EncodeAll, Network.Counted;
      ghost var used := svc.data[..svc.dataUsed];
      p := svc.dataUsed + |bytes|;
      forall i | 0 <= i < |bytes| {
        svc.data[svc.dataUsed + i] := bytes[i];
      }
      assert svc.data[..svc.dataUsed] == used;
      assert svc.data[..p] == used + bytes;
    }

    // ---- Joining, moving, leaving ---------------------------------------------------------

    lemma OneMoreOwner(owners: seq<Service?>, i: nat, s: Service?, t: Service?)
      requires i < |owners|
      ensures multiset(owners[i := t])[s]
           == multiset(owners)[s] - (if owners[i] == s then 1 else 0) + (if t == s then 1 else 0)
    {
      assert owners == owners[..i] + [owners[i]] + owners[i + 1..];
      assert owners[i := t] == owners[..i] + [t] + owners[i + 1..];
    }

    /** moveNetClient: both buffers are flushed first, so that frames stay whole and the client
        misses nothing and sees nothing twice. If the flush closes the client itself, the source
        goes on to count down the connections of a service that is no longer there. */
    method MoveNetClient(c: NetClient, newService: Service, ok: set<NetClient>) returns (survived: bool)
      requires Valid() && c in clients && newService in services
      requires c.service == null ==> CaughtUp(c)
      modifies services, clients
      ensures Valid() && clients == old(clients)
      ensures survived <==> old(c.service) == null || old(c.service) == newService || c in ok
      ensures c.service == if survived then newService else null
      ensures survived && old(c.service) != newService ==> c.delivered == c.queued && newService.pending == []
      ensures forall d :: d in clients ==> d.queued == old(d.queued)
      ensures forall d :: d in clients && d != c ==> d.service == old(d.service) || d.service == null
    {
      hide EncodeAll, AllItems, Network.Counted, Service.Framed;
      if c.service == newService {
        return true;
      }
      if c.service != null {
        FlushWrites(c.service, ok);
        if c.service == null {
          return false;
        }
      }
      FlushWrites(newService, ok);
      Reassign(c, newService);
      survived := true;
    }

    /** The two counter updates and the assignment at the end of moveNetClient. */
    method Reassign(c: NetClient, newService: Service)
      requires Valid() && c in clients && newService in services && c.service != newService
      requires newService.pending == [] && CaughtUp(c)
      modifies services`connections, c`service
      ensures Valid() && c.service == newService && newService.pending == [] && clients == old(clients)
    {
      hide EncodeAll, AllItems, Network.Counted;
      if c.service != null {
        c.service.connections := c.service.connections - 1;
      }
      newService.connections := newService.connections + 1;
      c.service := newService;
      MovedCounted(c);
    }

    twostate lemma MovedCounted(c: NetClient)
      requires old(Counted()) && Distinct() && clients == old(clients) && c in clients
      requires forall d :: d in clients && d != c ==> d.service == old(d.service)
      requires forall s :: s in services ==>
        s.connections == old(s.connections) - (if old(c.service) == s then 1 else 0) + (if c.service == s then 1 else 0)
      ensures Counted()
    {
      var i: nat :| i < |clients| && clients[i] == c;
      assert Owners() == old(Owners())[i := c.service];
      forall s | s in services ensures s.connections == multiset(Owners())[s] {
        OneMoreOwner(old(Owners()), i, s, c.service);
      }
    }

    /** A new client is put at the front of the list before it belongs to any service. */
    method Enlist(c: NetClient)
      requires Valid() && c !in clients && c.service == null && c.InStep()
      modifies `clients
      ensures Valid() && clients == [c] + old(clients)
    {
      hide EncodeAll, AllItems, Network.Counted, Service.Framed;
      clients := [c] + clients;
      EnlistedCounted(c);
    }

    twostate lemma EnlistedCounted(c: NetClient)
      requires old(Counted()) && clients == [c] + old(clients) && c.service == null
      requires forall d :: d in clients ==> d.service == old(d.service)
      requires forall s :: s in services ==> s.connections == old(s.connections)
      ensures Counted()
    {
      assert Owners() == [null] + old(Owners());
      forall s | s in services ensures s.connections == multiset(Owners())[s] {
        assert multiset([null] + old(Owners())) == multiset([null]) + multiset(old(Owners()));
      }
    }

    /** createGenericClient */
    method CreateClient(svc: Service, ok: set<NetClient>) returns (c: NetClient)
      requires Valid() && svc in services
      modifies this`clients, services, clients
      ensures Valid() && fresh(c) && clients == [c] + old(clients)
      ensures c.service == svc && c.sent == [] && c.queued == [] && svc.pending == []
    {
      hide EncodeAll, Network.Counted, Service.Framed;
      c := new NetClient();
      assert EncodeAll([]) == [] by { EncodeNothing(); }
      Enlist(c);
      var survived := MoveNetClient(c, svc, ok);
    }
  }

  /** A network of two services, with one client on the first of them. */
  method OneClient() returns (net: Network, c: NetClient, s1: Service, s2: Service)
    ensures net.Valid() && net.flushSize == OUT_FLUSH_SIZE && fresh(net) && fresh(s1) && fresh(s2) && fresh(c)
    ensures net.services == [s1, s2] && s1 != s2 && fresh(s1.data) && fresh(s2.data)
    ensures net.clients == [c] && c.service == s1 && c.queued == [] && s1.pending == []
  {
    hide Network.Counted;
    s1 := new Service();
    s2 := new Service();
    Network.EncodeNothing();
    net := new Network([s1, s2], OUT_FLUSH_SIZE);
    hide *;
    c := net.CreateClient(s1, {});
  }

  /** A client that is moved while a message waits for it and its connection takes no more data:
      the flush closes it, and the move does not survive. */
  method MoveStrandsClient() returns (net: Network, c: NetClient, waiting: nat, survived: bool)
    ensures net.Valid() && c in net.clients && c.queued == [Item(0, 0, [0, 0])]
    ensures waiting == 11 && !survived && c.service == null
  {
    hide EncodeAll, Encode, Network.Valid, Service.Framed, NetClient.InStep;
    var s1, s2;
    net, c, s1, s2 := OneClient();
    net.MemberCounts(c);
    HeartbeatIsAFrame();
    net.ValidFramed(s1);
    Network.NothingWaits(s1);
    net.WriteBeastMessage(s1, Item(0, 0, [0, 0]), {c});
    net.ValidFramed(s1);
    Network.OneWaits(s1, Item(0, 0, [0, 0]));
    waiting := s1.dataUsed;
    survived := net.MoveNetClient(c, s2, {});
  }
}
