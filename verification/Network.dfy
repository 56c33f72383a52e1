/**
 Two endpoints and a network that loses, duplicates and reorders datagrams.

 Each endpoint carries a ledger of what it sends, the unbounded indices behind what it receives and
 acknowledges, and the bytes it gave to its application. The network only remembers; a
 datagram may be delivered any number of times, in any order, or never. The one assumption is on
 age: a datagram is delivered only while the numbers in it are at most half the number space old.
 */
module Network {
  import opened Serial
  import opened Segment
  import opened Codec
  import opened AckList
  import Congestion
  import opened SendQueue
  import opened SendBuffer
  import opened Receiver
  import opened State
  import opened Timer
  import opened Packing
  import opened Flush
  import opened FlushFacts
  import opened Operations
  import opened Trace
  import opened Tracking
  import opened Ledger

  /** Receive windows for which a number in flight is never half the number space ahead. */
  const RECEIVE_WINDOW_LIMIT: u32 := 0x7fff_0000

  datatype Node = Node(
    ep: Endpoint,
    book: Book,
    rcv: nat,
    ackIdx: seq<nat>,
    delivered: seq<Fragment>,
    received: seq<byte>
  )

  /** A datagram, with the true index behind each segment's number, and behind its `una` fields. */
  datatype Packet = Packet(wires: seq<Wire>, tags: seq<nat>, una: nat)

  // ---------- what happens at one node ----------

  ghost function NewNode(conv: u32, mtu: u32): Node
    requires mtu >= OVERHEAD
  {
    Node(Create(conv, mtu), NEW_BOOK, 0, [], [], [])
  }

  ghost function AfterSend(n: Node, bytes: seq<byte>): Node
    requires n.ep.cfg.mss > 0
  {
    n.(ep := Accept(n.ep, bytes).0, book := EnterSend(n.ep, n.book, bytes))
  }

  /** A receive call; a peek, with a negative length, delivers nothing. */
  ghost function AfterReceive(n: Node, len: i32): Node {
    var (ep, d) := Deliver(n.ep, len);
    var taken := if d.taken <= |n.ep.rcv.queue| then n.ep.rcv.queue[..d.taken] else [];
    n.(ep := ep,
       rcv := n.rcv + Sub(ep.rcv.nxt, n.ep.rcv.nxt),
       delivered := n.delivered + Views(taken),
       received := n.received + if len < 0 then [] else d.bytes)
  }

  /** One segment of a datagram. */
  ghost function Absorb(n: Node, p: Inbox, w: Wire, tag: nat): Node {
    var ep := Process(p, w).ep;
    n.(ep := ep,
       book := EnterAdvance(n.ep.snd, n.book, ep.snd),
       rcv := n.rcv + Sub(ep.rcv.nxt, n.ep.rcv.nxt),
       ackIdx := if |ep.acks| > |n.ep.acks| then n.ackIdx + [tag] else n.ackIdx)
  }

  ghost function AbsorbAll(n: Node, acked: bool, maxAck: u32, ws: seq<Wire>, tags: seq<nat>): Node
    requires |tags| == |ws|
    decreases |ws|
  {
    if ws == [] then n
    else
      var p := Inbox(n.ep, acked, maxAck);
      var p' := Process(p, ws[0]);
      AbsorbAll(Absorb(n, p, ws[0], tags[0]), p'.acked, p'.maxAck, ws[1..], tags[1..])
  }

  /** A datagram is input as bytes; its segments are absorbed in turn. */
  ghost function AfterInput(n: Node, p: Packet): Node
    requires n.ep.cfg.mss > 0 && |p.tags| == |p.wires|
  {
    AbsorbAll(n, false, 0, p.wires, p.tags).(ep := Input(n.ep, EncodeAll(p.wires)).0)
  }

  ghost function AckedBy(n: Node, f: Flushed): nat {
    if |f.ep.acks| <= |n.ackIdx| then |n.ackIdx| - |f.ep.acks| else 0
  }

  /** The true index of the `k`-th segment a flush sends. */
  ghost function TagOf(n: Node, f: Flushed, k: nat, w: Wire): nat {
    if k < AckedBy(n, f) then n.ackIdx[k] else n.book.una + Sub(w.sn, n.ep.snd.una)
  }

  ghost function TagsOf(n: Node, f: Flushed): (r: seq<nat>)
    ensures |r| == |Flat(f.out)|
  {
    var flat := Flat(f.out);
    seq(|flat|, k requires 0 <= k < |flat| => TagOf(n, f, k, flat[k]))
  }

  /** The datagrams of a flush, each with its part of the tags. */
  ghost function Packets(out: seq<seq<Wire>>, tags: seq<nat>, una: nat): set<Packet>
    requires |tags| == |Flat(out)|
  {
    if out == [] then {}
    else
      var front, d := out[..|out| - 1], out[|out| - 1];
      var m := |Flat(front)|;
      Packets(front, tags[..m], una) + {Packet(d, tags[m..], una)}
  }

  ghost function AfterFlush(n: Node, f: Flushed): Node {
    n.(ep := f.ep, book := EnterFlush(n.ep, n.book, f), ackIdx := n.ackIdx[AckedBy(n, f)..])
  }

  // ---------- events ----------

  datatype Action =
    | Send(bytes: seq<byte>)
    | Receive(len: i32)
    | Update(t: u32, refuse: Oracle)
    | Flush(refuse: Oracle)
    | Arrival(p: Packet)
    | NoDelay(nodelay: i32, interval: i32, resend: i32, nc: i32)
    | Windows(sndWnd: i32, rcvWnd: i32)
    | Stream

  ghost function Perform(n: Node, a: Action): (Node, set<Packet>)
    requires n.ep.cfg.mss > 0 && (a.Arrival? ==> |a.p.tags| == |a.p.wires|)
  {
    match a
    case Send(bytes) => (AfterSend(n, bytes), {})
    case Receive(len) => (AfterReceive(n, len), {})
    case Update(t, refuse) =>
      var (clock, flushes) := Tick(n.ep.clock, n.ep.cfg.interval, t);
      var n := n.(ep := n.ep.(clock := clock));
      if flushes then Flushing(n, refuse) else (n, {})
    case Flush(refuse) => Flushing(n, refuse)
    case Arrival(p) => (AfterInput(n, p), {})
    case NoDelay(nodelay, interval, resend, nc) =>
      (n.(ep := SetNoDelay(n.ep, nodelay, interval, resend, nc)), {})
    case Windows(sndWnd, rcvWnd) => (n.(ep := SetWindows(n.ep, sndWnd, rcvWnd)), {})
    case Stream => (n.(ep := n.ep.(cfg := n.ep.cfg.(stream := true))), {})
  }

  ghost function Flushing(n: Node, refuse: Oracle): (Node, set<Packet>) {
    var f := Flush.Flush(n.ep, refuse);
    (AfterFlush(n, f), Packets(f.out, TagsOf(n, f), n.rcv))
  }

  /** No number in `p`, sent by `s` to `r`, is more than half the number space old. */
  ghost predicate NotStale(s: Node, r: Node, p: Packet) {
    && r.book.nxt <= p.una + HALF
    && forall i :: 0 <= i < |p.wires| && i < |p.tags| ==>
         && (p.wires[i].cmd == PUSH ==> s.book.nxt <= p.tags[i] + HALF)
         && (p.wires[i].cmd == ACK ==> r.book.nxt <= p.tags[i] + HALF)
  }

  /** What the node may do, given its peer and what the peer has sent. */
  ghost predicate Enabled(n: Node, peer: Node, inbound: set<Packet>, a: Action) {
    && n.ep.cfg.mss > 0
    && match a
       case Arrival(p) => p in inbound && |p.tags| == |p.wires| && NotStale(peer, n, p)
       case Windows(_, rcvWnd) => rcvWnd <= RECEIVE_WINDOW_LIMIT
       case _ => true
  }

  // ---------- invariants ----------

  ghost predicate Numbers(acks: seq<Ack>, idx: seq<nat>) {
    |idx| == |acks| && forall i :: 0 <= i < |acks| ==> acks[i].sn == Number(idx[i])
  }

  ghost predicate NodeOk(n: Node) {
    && Inv(n.ep) && n.ep.rcv.wnd <= RECEIVE_WINDOW_LIMIT && Reaches(n.ep.rcv, RECEIVE_WINDOW_LIMIT)
    && Agrees(n.ep.snd, n.book)
    && Payload(n.delivered) == n.received
    && Numbers(n.ep.acks, n.ackIdx)
  }

  /** Every numbered segment is still with the sender or already with the receiver. */
  ghost predicate AckSafe(s: Node, r: Node) {
    forall j :: 0 <= j < s.book.nxt ==> Holds(r.rcv, r.ep.rcv, j) || Flying(s.book.una, s.ep.snd, j)
  }

  /** One direction: from the sending side of `s` to the receiving side of `r`. */
  ghost predicate Half(s: Node, r: Node) {
    && Placed(r.rcv, r.ep.rcv, r.delivered, s.book.history)
    && AckSafe(s, r)
    && AcksHeld(s, r)
  }

  /** What waits to be acknowledged is held. */
  ghost predicate AcksHeld(s: Node, r: Node) {
    forall i :: 0 <= i < |r.ackIdx| ==> Holds(r.rcv, r.ep.rcv, r.ackIdx[i]) && r.ackIdx[i] < s.book.nxt
  }

  ghost predicate WireOk(s: Node, r: Node, w: Wire, tag: nat, una: nat) {
    && w.conv == s.ep.cfg.conv
    && w.una == Number(una) && una <= s.rcv
    && Accepted(w.cmd) && w.cmd != NOTIFY_BUFFER_FULL
    && (w.cmd == PUSH ==>
          w.sn == Number(tag) && Remembered(s.book.history, tag, Fragment(w.frg, w.data)) && tag < r.rcv + HALF)
    && (w.cmd == ACK ==> w.sn == Number(tag) && Holds(s.rcv, s.ep.rcv, tag) && tag < r.book.nxt)
  }

  ghost predicate PacketOk(s: Node, r: Node, p: Packet) {
    && |p.tags| == |p.wires|
    && OVERHEAD <= Size(p.wires) <= 65535 + OVERHEAD
    && forall i :: 0 <= i < |p.wires| ==> WireOk(s, r, p.wires[i], p.tags[i], p.una)
  }

  ghost predicate PairOk(x: Node, y: Node, out: set<Packet>, inbound: set<Packet>) {
    && NodeOk(x) && NodeOk(y) && x.ep.cfg.conv == y.ep.cfg.conv
    && Half(x, y) && Half(y, x)
    && (forall p :: p in out ==> PacketOk(x, y, p))
    && (forall p :: p in inbound ==> PacketOk(y, x, p))
  }

  // ---------- progress ----------

  /** What never goes back at a node, and is all that packets in flight depend on. */
  ghost predicate Progress(n: Node, n': Node) {
    && n'.ep.cfg.conv == n.ep.cfg.conv
    && n.book.history <= n'.book.history && n.book.nxt <= n'.book.nxt && n.rcv <= n'.rcv
    && Onward(n.rcv, n.ep.rcv, n'.rcv, n'.ep.rcv)
  }

  lemma OutboundPersists(n: Node, n': Node, r: Node, p: Packet)
    requires Progress(n, n') && PacketOk(n, r, p)
    ensures PacketOk(n', r, p)
  {
    forall i | 0 <= i < |p.wires| ensures WireOk(n', r, p.wires[i], p.tags[i], p.una) {
      assert WireOk(n, r, p.wires[i], p.tags[i], p.una);
    }
  }

  lemma InboundPersists(s: Node, n: Node, n': Node, p: Packet)
    requires Progress(n, n') && PacketOk(s, n, p)
    ensures PacketOk(s, n', p)
  {
    forall i | 0 <= i < |p.wires| ensures WireOk(s, n', p.wires[i], p.tags[i], p.una) {
      assert WireOk(s, n, p.wires[i], p.tags[i], p.una);
    }
  }

  /** A step at `x` that keeps the node and both directions, and only sends good packets, keeps the pair. */
  lemma PairKept(x: Node, x': Node, y: Node, out: set<Packet>, more: set<Packet>, inbound: set<Packet>)
    requires PairOk(x, y, out, inbound) && Progress(x, x')
    requires NodeOk(x') && Half(x', y) && Half(y, x')
    requires forall p :: p in more ==> PacketOk(x', y, p)
    ensures PairOk(x', y, out + more, inbound)
  {
    forall p | p in out ensures PacketOk(x', y, p) {
      OutboundPersists(x, x', y, p);
    }
    forall p | p in inbound ensures PacketOk(y, x', p) {
      InboundPersists(y, x, x', p);
    }
  }

  lemma PlacedLonger(rcv: nat, r: Rcv, delivered: seq<Fragment>, history: seq<Fragment>, longer: seq<Fragment>)
    requires Placed(rcv, r, delivered, history) && history <= longer
    ensures Placed(rcv, r, delivered, longer)
  {
    assert longer[..rcv] == history[..rcv];
    forall i | 0 <= i < |r.buf|
      ensures Remembered(longer, rcv + Sub(r.buf[i].sn, r.nxt), View(r.buf[i]))
    {
      assert Remembered(history, rcv + Sub(r.buf[i].sn, r.nxt), View(r.buf[i]));
    }
  }

  /** The outgoing direction depends on history, and on nothing leaving the buffer unconfirmed. */
  lemma HalfForSender(x: Node, x': Node, y: Node)
    requires Half(x, y) && x.book.history <= x'.book.history && x.book.nxt <= x'.book.nxt && AckSafe(x', y)
    ensures Half(x', y)
  {
    PlacedLonger(y.rcv, y.ep.rcv, y.delivered, x.book.history, x'.book.history);
  }

  /** The incoming direction depends on what is placed and held, and on the acknowledgements due. */
  lemma HalfForReceiver(y: Node, x: Node, x': Node)
    requires Half(y, x) && Onward(x.rcv, x.ep.rcv, x'.rcv, x'.ep.rcv)
    requires Placed(x'.rcv, x'.ep.rcv, x'.delivered, y.book.history)
    requires forall i :: 0 <= i < |x'.ackIdx| ==>
               x'.ackIdx[i] in x.ackIdx ||
               (Holds(x'.rcv, x'.ep.rcv, x'.ackIdx[i]) && x'.ackIdx[i] < y.book.nxt)
    ensures Half(y, x')
  {
    forall i | 0 <= i < |x'.ackIdx|
      ensures Holds(x'.rcv, x'.ep.rcv, x'.ackIdx[i]) && x'.ackIdx[i] < y.book.nxt
    {
      if x'.ackIdx[i] in x.ackIdx {
        var l :| 0 <= l < |x.ackIdx| && x.ackIdx[l] == x'.ackIdx[i];
        assert Holds(x.rcv, x.ep.rcv, x.ackIdx[l]);
      }
    }
    forall j | 0 <= j < y.book.nxt ensures Holds(x'.rcv, x'.ep.rcv, j) || Flying(y.book.una, y.ep.snd, j) {
      assert Holds(x.rcv, x.ep.rcv, j) || Flying(y.book.una, y.ep.snd, j);
    }
  }

  /** A step that sends nothing: what is left to show of it. */
  lemma SilentStep(x: Node, x': Node, y: Node, out: set<Packet>, inbound: set<Packet>)
    requires PairOk(x, y, out, inbound) && NodeOk(x') && AckSafe(x', y)
    requires x'.ep.cfg.conv == x.ep.cfg.conv && x.rcv <= x'.rcv
    requires x.book.history <= x'.book.history && x.book.nxt <= x'.book.nxt
    requires Onward(x.rcv, x.ep.rcv, x'.rcv, x'.ep.rcv)
    requires Placed(x'.rcv, x'.ep.rcv, x'.delivered, y.book.history)
    requires forall i :: 0 <= i < |x'.ackIdx| ==>
               x'.ackIdx[i] in x.ackIdx ||
               (Holds(x'.rcv, x'.ep.rcv, x'.ackIdx[i]) && x'.ackIdx[i] < y.book.nxt)
    ensures PairOk(x', y, out, inbound) && Progress(x, x')
  {
    HalfForSender(x, x', y);
    HalfForReceiver(y, x, x');
    assert out + {} == out;
    PairKept(x, x', y, out, {}, inbound);
  }

  lemma AckSafeKept(x: Node, x': Node, y: Node)
    requires AckSafe(x, y) && x'.book.nxt == x.book.nxt
    requires forall j :: Flying(x.book.una, x.ep.snd, j) ==> Flying(x'.book.una, x'.ep.snd, j)
    ensures AckSafe(x', y)
  {
    forall j | 0 <= j < x.book.nxt ensures Holds(y.rcv, y.ep.rcv, j) || Flying(x'.book.una, x'.ep.snd, j) {
      assert Holds(y.rcv, y.ep.rcv, j) || Flying(x.book.una, x.ep.snd, j);
    }
  }

  lemma ProgressTwice(a: Node, b: Node, c: Node)
    requires Progress(a, b) && Progress(b, c)
    ensures Progress(a, c)
  {
    OnwardTwice(a.rcv, a.ep.rcv, b.rcv, b.ep.rcv, c.rcv, c.ep.rcv);
  }

  // ---------- sending ----------

  lemma SendNodeOk(n: Node, bytes: seq<byte>)
    requires NodeOk(n)
    ensures NodeOk(AfterSend(n, bytes))
  {
    AcceptKeeps(n.ep, bytes);
    SendAgrees(n.ep, n.book, bytes);
  }

  /** A step that leaves the numbered segments, the receiver and the acknowledgements alone. */
  lemma QuietStep(x: Node, x': Node, y: Node, out: set<Packet>, inbound: set<Packet>)
    requires PairOk(x, y, out, inbound) && NodeOk(x')
    requires x'.book == x.book.(accepted := x'.book.accepted)
    requires x'.ep.snd.una == x.ep.snd.una && x'.ep.snd.buf == x.ep.snd.buf && x'.ep.snd.nxt == x.ep.snd.nxt
    requires x'.rcv == x.rcv && x'.delivered == x.delivered && x'.ackIdx == x.ackIdx
    requires x'.ep.rcv.(wnd := x.ep.rcv.wnd) == x.ep.rcv && x'.ep.cfg.conv == x.ep.cfg.conv
    ensures PairOk(x', y, out, inbound) && Progress(x, x')
  {
    SameNumbering(x.book.una, x.book.nxt, x.ep.snd, x'.ep.snd, x.book.history, x.book.log);
    HoldsMore(x.rcv, x.ep.rcv, x'.ep.rcv);
    AckSafeKept(x, x', y);
    SilentStep(x, x', y, out, inbound);
  }

  // ---------- receiving ----------

  lemma ReceiveNodeOk(n: Node, len: i32)
    requires NodeOk(n)
    ensures NodeOk(AfterReceive(n, len))
  {
    DeliverKeeps(n.ep, len);
    var k := ReceiveMoves(n.ep.rcv, len);
    ReceiveReaches(n.ep.rcv, len, RECEIVE_WINDOW_LIMIT);
    ReceivedPayload(n.ep.rcv, len, n.delivered);
    SameBuffer(n.ep.snd, AfterReceive(n, len).ep.snd, n.book);
  }

  lemma ReceivedPayload(r: Rcv, len: i32, delivered: seq<Fragment>)
    requires Sorted(r)
    ensures var d := Receiver.Receive(r, len);
            && d.taken <= |r.queue|
            && Payload(delivered + Views(r.queue[..d.taken])) ==
               Payload(delivered) + if len < 0 then [] else d.bytes
  {
    var k := ReceiveMoves(r, len);
    PayloadConcat(delivered, Views(r.queue[..Receiver.Receive(r, len).taken]));
  }

  lemma ReceiveStep(x: Node, y: Node, out: set<Packet>, inbound: set<Packet>, len: i32)
    requires PairOk(x, y, out, inbound)
    ensures PairOk(AfterReceive(x, len), y, out, inbound) && Progress(x, AfterReceive(x, len))
  {
    var x' := AfterReceive(x, len);
    var rcv' := DeliveredPlaced(x.rcv, x.ep.rcv, len, x.delivered, y.book.history);
    assert x'.rcv == rcv';
    ReceiveNodeOk(x, len);
    SameBuffer(x.ep.snd, x'.ep.snd, x.book);
    AckSafeKept(x, x', y);
    SilentStep(x, x', y, out, inbound);
  }

  lemma SendStep(x: Node, y: Node, out: set<Packet>, inbound: set<Packet>, bytes: seq<byte>)
    requires PairOk(x, y, out, inbound)
    ensures PairOk(AfterSend(x, bytes), y, out, inbound) && Progress(x, AfterSend(x, bytes))
  {
    SendNodeOk(x, bytes);
    QuietStep(x, AfterSend(x, bytes), y, out, inbound);
  }

  // ---------- arrival ----------

  lemma ProcessShape(p: Inbox, w: Wire)
    ensures var ep := Process(p, w).ep;
            && ep.cfg == p.ep.cfg
            && ep.snd == ApplyAcks(p.ep.snd, w)
            && ep.rcv == (if w.cmd == PUSH then Arrive(p.ep.rcv, FromWire(w)) else p.ep.rcv)
            && ep.acks == (if Acknowledges(p.ep.rcv, w) then p.ep.acks + [Ack(w.sn, w.ts)] else p.ep.acks)
  {
  }

  /** Input puts the segment on the acknowledgement list, before it looks at whether to keep it. */
  ghost predicate Acknowledges(r: Rcv, w: Wire) {
    w.cmd == PUSH && Diff(w.sn, Add(r.nxt, r.wnd)) < 0
  }

  /** The sending side of a node that absorbs a segment: only what its peer holds leaves the buffer. */
  lemma AbsorbAcks(x: Node, y: Node, w: Wire, tag: nat, una: nat) returns (s': Snd, b': Book)
    requires NodeOk(x) && Half(x, y) && WireOk(y, x, w, tag, una)
    requires x.book.nxt <= una + HALF && (w.cmd == ACK ==> x.book.nxt <= tag + HALF)
    ensures s' == ApplyAcks(x.ep.snd, w) && b' == EnterAdvance(x.ep.snd, x.book, s') && Agrees(s', b')
    ensures forall j :: 0 <= j < x.book.nxt ==> Holds(y.rcv, y.ep.rcv, j) || Flying(b'.una, s', j)
  {
    s' := ApplyAcks(x.ep.snd, w);
    b' := EnterAdvance(x.ep.snd, x.book, s');
    AcksAgree(x.ep.snd, x.book, w);
    var una' := AcksTracked(x.book.una, x.book.nxt, x.ep.snd, x.book.history, w, una, tag);
    forall j | 0 <= j < x.book.nxt ensures Holds(y.rcv, y.ep.rcv, j) || Flying(b'.una, s', j) {
      assert Holds(y.rcv, y.ep.rcv, j) || Flying(x.book.una, x.ep.snd, j);
    }
  }

  /** The receiving side: the segment goes where it belongs, and is held once it is acknowledged. */
  lemma AbsorbData(x: Node, y: Node, w: Wire, tag: nat, una: nat) returns (r': Rcv, rcv': nat)
    requires NodeOk(x) && NodeOk(y) && Half(y, x) && WireOk(y, x, w, tag, una)
    requires w.cmd == PUSH ==> y.book.nxt <= tag + HALF
    ensures r' == (if w.cmd == PUSH then Arrive(x.ep.rcv, FromWire(w)) else x.ep.rcv)
    ensures rcv' == x.rcv + Sub(r'.nxt, x.ep.rcv.nxt)
    ensures Placed(rcv', r', x.delivered, y.book.history)
    ensures Onward(x.rcv, x.ep.rcv, rcv', r')
    ensures Acknowledges(x.ep.rcv, w) ==> Holds(rcv', r', tag) && tag < y.book.nxt
  {
    if w.cmd == PUSH {
      r' := Arrive(x.ep.rcv, FromWire(w));
      rcv' := ArrivePlaced(x.rcv, x.ep.rcv, FromWire(w), tag, x.delivered, y.book.history);
    } else {
      r', rcv' := x.ep.rcv, x.rcv;
    }
  }

  lemma AbsorbNodeOk(x: Node, y: Node, p: Inbox, w: Wire, tag: nat, una: nat)
    requires NodeOk(x) && Half(x, y) && WireOk(y, x, w, tag, una) && p.ep == x.ep
    requires x.book.nxt <= una + HALF && (w.cmd == ACK ==> x.book.nxt <= tag + HALF)
    ensures NodeOk(Absorb(x, p, w, tag))
    ensures AckSafe(Absorb(x, p, w, tag), y)
  {
    var x' := AbsorbShape(x, p, w, tag);
    var s', b' := AbsorbAcks(x, y, w, tag, una);
    AbsorbInv(x, p, w);
  }

  lemma AbsorbInv(x: Node, p: Inbox, w: Wire)
    requires Inv(x.ep) && Reaches(x.ep.rcv, RECEIVE_WINDOW_LIMIT) && x.ep.rcv.wnd <= RECEIVE_WINDOW_LIMIT
    requires p.ep == x.ep
    ensures var ep := Process(p, w).ep;
            Inv(ep) && Reaches(ep.rcv, RECEIVE_WINDOW_LIMIT) && ep.rcv.wnd <= RECEIVE_WINDOW_LIMIT
  {
    ProcessKeeps(p, w);
    ProcessShape(p, w);
    ArriveKeepsSorted(x.ep.rcv, FromWire(w), RECEIVE_WINDOW_LIMIT);
  }

  /** What absorbing does to the parts of a node. */
  lemma AbsorbShape(x: Node, p: Inbox, w: Wire, tag: nat) returns (x': Node)
    requires p.ep == x.ep && Numbers(x.ep.acks, x.ackIdx) && (w.cmd == PUSH ==> w.sn == Number(tag))
    ensures x' == Absorb(x, p, w, tag) && x'.ep == Process(p, w).ep && x'.ep.snd == ApplyAcks(x.ep.snd, w)
    ensures x'.book == EnterAdvance(x.ep.snd, x.book, x'.ep.snd)
    ensures x'.delivered == x.delivered && x'.received == x.received && Numbers(x'.ep.acks, x'.ackIdx)
    ensures x'.ackIdx == if Acknowledges(x.ep.rcv, w) then x.ackIdx + [tag] else x.ackIdx
    ensures x'.ep.rcv == if w.cmd == PUSH then Arrive(x.ep.rcv, FromWire(w)) else x.ep.rcv
    ensures x'.rcv == x.rcv + Sub(x'.ep.rcv.nxt, x.ep.rcv.nxt) && x'.ep.cfg == x.ep.cfg
  {
    ProcessShape(p, w);
    x' := Absorb(x, p, w, tag);
  }

  lemma AbsorbStep(
      x: Node, y: Node, out: set<Packet>, inbound: set<Packet>, p: Inbox, w: Wire, tag: nat, una: nat)
    requires PairOk(x, y, out, inbound) && WireOk(y, x, w, tag, una) && p.ep == x.ep
    requires x.book.nxt <= una + HALF && (w.cmd == ACK ==> x.book.nxt <= tag + HALF)
    requires w.cmd == PUSH ==> y.book.nxt <= tag + HALF
    ensures PairOk(Absorb(x, p, w, tag), y, out, inbound)
    ensures Progress(x, Absorb(x, p, w, tag))
  {
    var x' := Absorb(x, p, w, tag);
    AbsorbNodeOk(x, y, p, w, tag, una);
    var received := AbsorbReceives(x, y, p, w, tag, una);
    SilentStep(x, x', y, out, inbound);
  }

  /** The receiving side of the node after a segment. */
  lemma AbsorbReceives(x: Node, y: Node, p: Inbox, w: Wire, tag: nat, una: nat) returns (x': Node)
    requires NodeOk(x) && NodeOk(y) && Half(y, x) && WireOk(y, x, w, tag, una) && p.ep == x.ep
    requires w.cmd == PUSH ==> y.book.nxt <= tag + HALF
    ensures x' == Absorb(x, p, w, tag) && x'.rcv >= x.rcv && x'.ep.cfg == x.ep.cfg
    ensures x'.book.history == x.book.history && x'.book.nxt == x.book.nxt
    ensures Onward(x.rcv, x.ep.rcv, x'.rcv, x'.ep.rcv)
    ensures Placed(x'.rcv, x'.ep.rcv, x'.delivered, y.book.history)
    ensures forall i :: 0 <= i < |x'.ackIdx| ==>
              x'.ackIdx[i] in x.ackIdx ||
              (Holds(x'.rcv, x'.ep.rcv, x'.ackIdx[i]) && x'.ackIdx[i] < y.book.nxt)
  {
    x' := AbsorbShape(x, p, w, tag);
    var r', rcv' := AbsorbData(x, y, w, tag, una);
    assert x'.ep.rcv == r' && x'.rcv == rcv' && x'.delivered == x.delivered;
    OneMoreIndex(x.ackIdx, x'.ackIdx, tag);
  }

  lemma OneMoreIndex(before: seq<nat>, after: seq<nat>, tag: nat)
    requires after == before || after == before + [tag]
    ensures forall i :: 0 <= i < |after| ==> after[i] in before || (after[i] == tag && after != before)
  {
  }

  lemma {:induction false} AbsorbAllStep(
      x: Node, y: Node, out: set<Packet>, inbound: set<Packet>, p: Inbox,
      ws: seq<Wire>, tags: seq<nat>, una: nat, x': Node, p': Inbox)
    requires PairOk(x, y, out, inbound) && |tags| == |ws| && x.book.nxt <= una + HALF && p.ep == x.ep
    requires AllWelcome(x, y, ws, tags, una)
    requires x' == AbsorbAll(x, p.acked, p.maxAck, ws, tags) && p' == ProcessAll(p, ws)
    ensures PairOk(x', y, out, inbound) && Progress(x, x')
    ensures x'.ep == p'.ep && x'.book.nxt == x.book.nxt
    decreases |ws|
  {
    if ws != [] {
      var x1, p1 := AbsorbOne(x, y, out, inbound, p, ws[0], tags[0], una);
      RestWelcome(x, x1, y, ws, tags, una);
      AbsorbAllStep(x1, y, out, inbound, p1, ws[1..], tags[1..], una, x', p');
      ProgressTwice(x, x1, x');
    }
  }

  ghost predicate AllWelcome(x: Node, y: Node, ws: seq<Wire>, tags: seq<nat>, una: nat) {
    |tags| == |ws| && forall i :: 0 <= i < |ws| ==> Welcome(x, y, ws[i], tags[i], una)
  }

  /** Segments that are good before a step are good after it. */
  lemma RestWelcome(x: Node, x1: Node, y: Node, ws: seq<Wire>, tags: seq<nat>, una: nat)
    requires Progress(x, x1) && x1.book.nxt == x.book.nxt && AllWelcome(x, y, ws, tags, una) && ws != []
    ensures AllWelcome(x1, y, ws[1..], tags[1..], una)
  {
    forall i | 1 <= i < |ws| ensures Welcome(x1, y, ws[i], tags[i], una) {
      assert Welcome(x, y, ws[i], tags[i], una);
    }
  }

  lemma AbsorbOne(
      x: Node, y: Node, out: set<Packet>, inbound: set<Packet>, p: Inbox, w: Wire, tag: nat, una: nat)
      returns (x1: Node, p1: Inbox)
    requires PairOk(x, y, out, inbound) && Welcome(x, y, w, tag, una) && p.ep == x.ep && x.book.nxt <= una + HALF
    ensures p1 == Process(p, w) && x1 == Absorb(x, p, w, tag) && x1.ep == p1.ep && x1.book.nxt == x.book.nxt
    ensures PairOk(x1, y, out, inbound) && Progress(x, x1)
  {
    AbsorbStep(x, y, out, inbound, p, w, tag, una);
    x1, p1 := Absorb(x, p, w, tag), Process(p, w);
  }

  /** A good segment that is not stale. */
  ghost predicate Welcome(x: Node, y: Node, w: Wire, tag: nat, una: nat) {
    && WireOk(y, x, w, tag, una)
    && (w.cmd == ACK ==> x.book.nxt <= tag + HALF)
    && (w.cmd == PUSH ==> y.book.nxt <= tag + HALF)
  }

  lemma ConcludeStep(x: Node, y: Node, out: set<Packet>, inbound: set<Packet>, p: Inbox, una: u32)
    requires PairOk(x, y, out, inbound) && p.ep == x.ep
    ensures PairOk(x.(ep := Conclude(p, una)), y, out, inbound) && Progress(x, x.(ep := Conclude(p, una)))
  {
    var ep := ConcludeNodeOk(x, p, una);
    AckSafeKept(x, x.(ep := ep), y);
    SilentStep(x, x.(ep := ep), y, out, inbound);
  }

  /** The end of input, as a value: it touches the send buffer's fast-acknowledgement counts only. */
  lemma ConcludeNodeOk(x: Node, p: Inbox, una: u32) returns (ep: Endpoint)
    requires NodeOk(x) && p.ep == x.ep
    ensures ep == Conclude(p, una) && NodeOk(x.(ep := ep))
    ensures ep.rcv == x.ep.rcv && ep.cfg == x.ep.cfg
    ensures forall j :: Flying(x.book.una, x.ep.snd, j) ==> Flying(x.book.una, ep.snd, j)
  {
    ep := ConcludeAgrees(p, x.book, una);
    var end := ConcludeKeeps(p, una);
    if p.acked { FastAckAgrees(p.ep.snd, x.book, p.maxAck); }
  }

  lemma {:induction false} DataWithinSize(ws: seq<Wire>, i: nat)
    requires i < |ws|
    ensures |ws[i].data| <= Size(ws)
  {
    if i < |ws| - 1 { DataWithinSize(ws[..|ws| - 1], i); }
  }

  /** A good packet, as bytes, is decoded to exactly its segments. */
  lemma PacketDecodes(s: Node, r: Node, p: Packet)
    requires PacketOk(s, r, p)
    ensures Parse(EncodeAll(p.wires), s.ep.cfg.conv) == Parsed(p.wires, Codec.OK, [])
    ensures |EncodeAll(p.wires)| >= OVERHEAD
  {
    forall i | 0 <= i < |p.wires|
      ensures p.wires[i].conv == s.ep.cfg.conv && |p.wires[i].data| < HALF && Accepted(p.wires[i].cmd) &&
              Normal(p.wires[i]) == p.wires[i]
    {
      assert WireOk(s, r, p.wires[i], p.tags[i], p.una);
      DataWithinSize(p.wires, i);
    }
    DatagramRoundTrip(p.wires, s.ep.cfg.conv);
    assert Normals(p.wires) == p.wires;
    EncodeAllSize(p.wires);
  }

  lemma ArrivalStep(x: Node, y: Node, out: set<Packet>, inbound: set<Packet>, p: Packet)
    requires PairOk(x, y, out, inbound) && p in inbound && NotStale(y, x, p)
    ensures PacketOk(y, x, p)
    ensures PairOk(AfterInput(x, p), y, out, inbound) && Progress(x, AfterInput(x, p))
  {
    PacketDecodes(y, x, p);
    forall i | 0 <= i < |p.wires| ensures Welcome(x, y, p.wires[i], p.tags[i], p.una) {
      assert WireOk(y, x, p.wires[i], p.tags[i], p.una);
    }
    var start := Inbox(x.ep, false, 0);
    var x1, end := AbsorbAll(x, false, 0, p.wires, p.tags), ProcessAll(start, p.wires);
    AbsorbAllStep(x, y, out, inbound, start, p.wires, p.tags, p.una, x1, end);
    ConcludeStep(x1, y, out, inbound, end, x.ep.snd.una);
    ProgressTwice(x, x1, AfterInput(x, p));
  }

  // ---------- flushing ----------

  /** A packet's segments and tags are those from position `at` on. */
  ghost predicate SliceAt(p: Packet, flat: seq<Wire>, tags: seq<nat>, at: nat) {
    && |p.tags| == |p.wires| && at + |p.wires| <= |flat| == |tags|
    && forall k :: 0 <= k < |p.wires| ==> p.wires[k] == flat[at + k] && p.tags[k] == tags[at + k]
  }

  lemma SliceOfMore(p: Packet, front: seq<Wire>, last: seq<Wire>, tags: seq<nat>, at: nat)
    requires |tags| == |front| + |last| && SliceAt(p, front, tags[..|front|], at)
    ensures SliceAt(p, front + last, tags, at)
  {
  }

  lemma SliceAtEnd(front: seq<Wire>, last: seq<Wire>, tags: seq<nat>, una: nat)
    requires |tags| == |front| + |last|
    ensures SliceAt(Packet(last, tags[|front|..], una), front + last, tags, |front|)
  {
  }

  lemma {:induction false} PacketsAreSlices(out: seq<seq<Wire>>, tags: seq<nat>, una: nat, p: Packet)
      returns (i: nat, at: nat)
    requires |tags| == |Flat(out)| && p in Packets(out, tags, una)
    ensures i < |out| && p.wires == out[i] && p.una == una
    ensures SliceAt(p, Flat(out), tags, at)
  {
    LastPacket(out, tags, una, p);
    var n := |out| - 1;
    var front := Flat(out[..n]);
    if p in Packets(out[..n], tags[..|front|], una) {
      i, at := PacketsAreSlices(out[..n], tags[..|front|], una, p);
      SliceOfMore(p, front, out[n], tags, at);
    } else {
      i, at := n, |front|;
      SliceAtEnd(front, out[n], tags, una);
    }
  }

  lemma LastPacket(out: seq<seq<Wire>>, tags: seq<nat>, una: nat, p: Packet)
    requires |tags| == |Flat(out)| && p in Packets(out, tags, una)
    ensures out != []
    ensures var n := |out| - 1;
            var m := |Flat(out[..n])|;
            && Flat(out) == Flat(out[..n]) + out[n]
            && (p in Packets(out[..n], tags[..m], una) || p == Packet(out[n], tags[m..], una))
  {
  }

  /** The send window starts no further ahead of the receiver than the receive window reaches. */
  lemma WindowStart(x: Node, y: Node)
    requires NodeOk(x) && NodeOk(y) && Half(x, y)
    ensures x.book.una <= y.rcv + RECEIVE_WINDOW_LIMIT
  {
    if x.book.una > 0 {
      var j := x.book.una - 1;
      assert Holds(y.rcv, y.ep.rcv, j) || Flying(x.book.una, x.ep.snd, j);
    }
  }

  ghost predicate AcksGood(x: Node, x': Node, y: Node) {
    forall k :: 0 <= k < |x.ep.acks| && k < |x.ackIdx| ==>
      WireOk(x', y, ToWire(AckSeg(Template(x.ep), x.ep.acks[k])), x.ackIdx[k], x.rcv)
  }

  ghost predicate PushesGood(x: Node, x': Node, y: Node, before: seq<Seg>, after: seq<Seg>) {
    forall l :: 0 <= l < |after| && l < |before| && after[l].xmit != before[l].xmit ==>
      WireOk(x', y, ToWire(after[l]), x.book.una + Sub(after[l].sn, x.ep.snd.una), x.rcv)
  }

  /** What a flush puts into its datagrams is good: acknowledgements of what is held, data in its place. */
  lemma SentWireOk(x: Node, x': Node, y: Node, f: Flushed, a: Account, k: nat, w: Wire, tag: nat)
    requires |x.ackIdx| == |x.ep.acks| && AccountOf(x.ep, f, a)
    requires AcksGood(x, x', y) && (a.data ==> PushesGood(x, x', y, a.buf, f.ep.snd.buf))
    requires x'.rcv == x.rcv && x'.ep.cfg == x.ep.cfg && x.ep.rcv.nxt == Number(x.rcv)
    requires k < |Flat(f.out)| && w == Flat(f.out)[k] && tag == TagsOf(x, f)[k]
    ensures WireOk(x', y, w, tag, x.rcv)
  {
    FlatAt(x, f, a, k);
    if k < a.acked {
      assert w == ToWire(AckSeg(Template(x.ep), x.ep.acks[k]));
    } else if k >= a.acked + |a.probes| {
      var i := k - a.acked - |a.probes|;
      TransmittedAre(a.buf, f.ep.snd.buf, 0, i);
      var l :| 0 <= l < |f.ep.snd.buf| && f.ep.snd.buf[l].xmit != a.buf[l].xmit && w == ToWire(f.ep.snd.buf[l]);
    }
  }

  /** Acknowledgements, then probes, then data: what stands at position `k`, and its tag. */
  lemma FlatAt(x: Node, f: Flushed, a: Account, k: nat)
    requires |x.ackIdx| == |x.ep.acks| && AccountOf(x.ep, f, a) && k < |Flat(f.out)|
    ensures var w, tag := Flat(f.out)[k], TagsOf(x, f)[k];
            if k < a.acked then tag == x.ackIdx[k]
            else
              && tag == x.book.una + Sub(w.sn, x.ep.snd.una)
              && (k < a.acked + |a.probes| ==> IsProbe(w, Template(x.ep)))
              && (k >= a.acked + |a.probes| ==>
                    && a.data && k - a.acked - |a.probes| < |Transmitted(a.buf, f.ep.snd.buf, 0)|
                    && w == Transmitted(a.buf, f.ep.snd.buf, 0)[k - a.acked - |a.probes|])
  {
    TagAt(x, f, a, k);
    if a.data {
      PartAt(AckWires(Template(x.ep), x.ep.acks), a.probes, Transmitted(a.buf, f.ep.snd.buf, 0), k);
    } else if k >= a.acked {
      PartAt(AckWires(Template(x.ep), x.ep.acks[..a.acked]), a.probes, [], k);
    }
  }

  lemma TagAt(x: Node, f: Flushed, a: Account, k: nat)
    requires |x.ackIdx| == |x.ep.acks| && AccountOf(x.ep, f, a) && k < |Flat(f.out)|
    ensures TagsOf(x, f)[k] ==
            if k < a.acked then x.ackIdx[k] else x.book.una + Sub(Flat(f.out)[k].sn, x.ep.snd.una)
  {
    assert AckedBy(x, f) == a.acked;
  }

  lemma PartAt<T>(a: seq<T>, b: seq<T>, c: seq<T>, k: nat)
    requires k < |a| + |b| + |c|
    ensures |a| <= k < |a| + |b| ==> (a + b)[k] == (a + b + c)[k] == b[k - |a|]
    ensures k >= |a| + |b| ==> (a + b + c)[k] == c[k - |a| - |b|]
  {
  }

  lemma AcksAreGood(x: Node, x': Node, y: Node)
    requires Numbers(x.ep.acks, x.ackIdx) && AcksHeld(y, x) && x.ep.rcv.nxt == Number(x.rcv)
    requires x'.rcv == x.rcv && x'.ep.rcv == x.ep.rcv && x'.ep.cfg == x.ep.cfg
    ensures AcksGood(x, x', y)
  {
    forall k | 0 <= k < |x.ep.acks|
      ensures WireOk(x', y, ToWire(AckSeg(Template(x.ep), x.ep.acks[k])), x.ackIdx[k], x.rcv)
    {
      AckWireOk(x, x', y, x.ep.acks[k], x.ackIdx[k]);
    }
  }

  lemma AckWireOk(x: Node, x': Node, y: Node, a: Ack, tag: nat)
    requires a.sn == Number(tag) && Holds(x.rcv, x.ep.rcv, tag) && tag < y.book.nxt
    requires x.ep.rcv.nxt == Number(x.rcv)
    requires x'.rcv == x.rcv && x'.ep.rcv == x.ep.rcv && x'.ep.cfg == x.ep.cfg
    ensures WireOk(x', y, ToWire(AckSeg(Template(x.ep), a)), tag, x.rcv)
  {
  }

  lemma PushesAreGood(x: Node, x': Node, y: Node, before: seq<Seg>)
    requires AllSendable(x', y) && Raised(before, x'.ep.snd.buf, x.ep.rcv.nxt)
    requires x'.book.una == x.book.una && x'.ep.snd.una == x.ep.snd.una
    requires x.ep.rcv.nxt == Number(x.rcv) && x'.rcv == x.rcv
    ensures PushesGood(x, x', y, before, x'.ep.snd.buf)
  {
    var after := x'.ep.snd.buf;
    forall l | 0 <= l < |after| && after[l].xmit != before[l].xmit
      ensures WireOk(x', y, ToWire(after[l]), x.book.una + Sub(after[l].sn, x.ep.snd.una), x.rcv)
    {
      PushWireOk(x, x', y, after[l]);
    }
  }

  /** No buffered number is half the number space ahead of the receiver. */
  lemma BufferedReaches(x: Node, y: Node, l: nat)
    requires NodeOk(x) && NodeOk(y) && Half(x, y) && l < |x.ep.snd.buf|
    ensures SendIndex(x.book.una, x.ep.snd, x.ep.snd.buf[l]) < y.rcv + HALF
  {
    WindowStart(x, y);
    assert Sub(x.ep.snd.buf[l].sn, x.ep.snd.una) < Sub(x.ep.snd.nxt, x.ep.snd.una);
  }

  /** A buffered segment that would be good to send. */
  ghost predicate Sendable(x: Node, y: Node, s: Seg) {
    && s.cmd == PUSH && s.conv == x.ep.cfg.conv
    && s.sn == Number(SendIndex(x.book.una, x.ep.snd, s))
    && SendIndex(x.book.una, x.ep.snd, s) < y.rcv + HALF
    && Carries(x.book.una, x.ep.snd, ToWire(s), x.book.history)
  }

  lemma BufferSendable(x: Node, y: Node, l: nat)
    requires NodeOk(x) && NodeOk(y) && Half(x, y) && l < |x.ep.snd.buf|
    ensures Sendable(x, y, x.ep.snd.buf[l])
  {
    BufferedFaithful(x.ep.snd, x.book, l);
    BufferedReaches(x, y, l);
    NumberMoved(x.book.una, x.ep.snd.una, x.ep.snd.buf[l].sn);
  }

  ghost predicate AllSendable(x: Node, y: Node) {
    forall l :: 0 <= l < |x.ep.snd.buf| ==> Sendable(x, y, x.ep.snd.buf[l])
  }

  lemma BufferAllSendable(x: Node, y: Node)
    requires NodeOk(x) && NodeOk(y) && Half(x, y)
    ensures AllSendable(x, y)
  {
    forall l | 0 <= l < |x.ep.snd.buf| ensures Sendable(x, y, x.ep.snd.buf[l]) {
      BufferSendable(x, y, l);
    }
  }

  lemma PushWireOk(x: Node, x': Node, y: Node, s: Seg)
    requires Sendable(x', y, s) && s.una == x.ep.rcv.nxt
    requires x'.book.una == x.book.una && x'.ep.snd.una == x.ep.snd.una
    requires x.ep.rcv.nxt == Number(x.rcv) && x'.rcv == x.rcv
    ensures WireOk(x', y, ToWire(s), x.book.una + Sub(s.sn, x.ep.snd.una), x.rcv)
  {
  }

  lemma FlushNodeOk(x: Node, f: Flushed, a: Account)
    requires NodeOk(x) && AccountOf(x.ep, f, a) && Inv(f.ep) && f.ep.cfg == x.ep.cfg && f.ep.rcv == x.ep.rcv
    ensures NodeOk(AfterFlush(x, f))
    ensures AfterFlush(x, f).book.nxt == x.book.nxt + NumberedIn(a)
    ensures forall j :: Flying(x.book.una, x.ep.snd, j) ==> Flying(x.book.una, f.ep.snd, j)
    ensures forall j :: x.book.nxt <= j < x.book.nxt + NumberedIn(a) ==> Flying(x.book.una, f.ep.snd, j)
  {
    FlushEntered(x.ep, x.book, f, a);
    FlushNumbers(x, f, a.acked);
    FlushAssembled(x, AfterFlush(x, f));
  }

  lemma FlushNumbers(x: Node, f: Flushed, acked: nat)
    requires Numbers(x.ep.acks, x.ackIdx) && acked <= |x.ep.acks| && f.ep.acks == x.ep.acks[acked..]
    ensures AckedBy(x, f) == acked && Numbers(f.ep.acks, AfterFlush(x, f).ackIdx)
  {
  }

  lemma FlushAssembled(x: Node, x': Node)
    requires NodeOk(x) && Inv(x'.ep) && x'.ep.rcv == x.ep.rcv && Agrees(x'.ep.snd, x'.book)
    requires x'.delivered == x.delivered && x'.received == x.received && Numbers(x'.ep.acks, x'.ackIdx)
    ensures NodeOk(x')
  {
  }

  lemma FlushPacketsOk(x: Node, x': Node, y: Node, f: Flushed, a: Account)
    requires NodeOk(x) && NodeOk(y) && Half(x, y) && Half(y, x) && AccountOf(x.ep, f, a)
    requires Inv(f.ep) && f.ep.cfg == x.ep.cfg && f.ep.rcv == x.ep.rcv && f.ep.snd.una == x.ep.snd.una
    requires Trace.Packed(f, x.ep.cfg.mtu)
    requires x' == AfterFlush(x, f) && NodeOk(x') && Half(x', y)
    ensures forall p :: p in Packets(f.out, TagsOf(x, f), x.rcv) ==> PacketOk(x', y, p)
  {
    AcksAreGood(x, x', y);
    BufferAllSendable(x', y);
    if a.data { PushesAreGood(x, x', y, a.buf); }
    forall p | p in Packets(f.out, TagsOf(x, f), x.rcv) ensures PacketOk(x', y, p) {
      SentPacketOk(x, x', y, f, a, p);
    }
  }

  lemma SentPacketOk(x: Node, x': Node, y: Node, f: Flushed, a: Account, p: Packet)
    requires |x.ackIdx| == |x.ep.acks| && AccountOf(x.ep, f, a)
    requires AcksGood(x, x', y) && (a.data ==> PushesGood(x, x', y, a.buf, f.ep.snd.buf))
    requires x'.rcv == x.rcv && x'.ep.cfg == x.ep.cfg && x.ep.rcv.nxt == Number(x.rcv)
    requires Trace.Packed(f, x.ep.cfg.mtu) && x.ep.cfg.mtu <= 65535 + OVERHEAD
    requires p in Packets(f.out, TagsOf(x, f), x.rcv)
    ensures PacketOk(x', y, p)
  {
    var i, at := PacketsAreSlices(f.out, TagsOf(x, f), x.rcv, p);
    NonEmptySize(p.wires);
    forall k | 0 <= k < |p.wires| ensures WireOk(x', y, p.wires[k], p.tags[k], p.una) {
      SentWireOk(x, x', y, f, a, at + k, p.wires[k], p.tags[k]);
    }
  }

  lemma NonEmptySize(ws: seq<Wire>)
    requires ws != []
    ensures Size(ws) >= OVERHEAD
  {
  }

  /** What was just numbered is in flight. */
  lemma NumberedSafe(x: Node, x': Node, y: Node)
    requires AckSafe(x, y)
    requires forall j :: Flying(x.book.una, x.ep.snd, j) ==> Flying(x'.book.una, x'.ep.snd, j)
    requires forall j :: x.book.nxt <= j < x'.book.nxt ==> Flying(x'.book.una, x'.ep.snd, j)
    ensures AckSafe(x', y)
  {
    forall j | 0 <= j < x'.book.nxt ensures Holds(y.rcv, y.ep.rcv, j) || Flying(x'.book.una, x'.ep.snd, j) {
      if j < x.book.nxt { assert Holds(y.rcv, y.ep.rcv, j) || Flying(x.book.una, x.ep.snd, j); }
    }
  }

  /** What is known of a flush, for the network. */
  ghost predicate GoodFlush(x: Node, f: Flushed, a: Account) {
    && Inv(f.ep) && f.ep.cfg == x.ep.cfg && f.ep.rcv == x.ep.rcv && f.ep.snd.una == x.ep.snd.una
    && AccountOf(x.ep, f, a) && Trace.Packed(f, x.ep.cfg.mtu)
  }

  lemma FlushIsGood(x: Node, refuse: Oracle) returns (f: Flushed, a: Account)
    requires NodeOk(x)
    ensures f == Flush.Flush(x.ep, refuse) && GoodFlush(x, f, a)
  {
    FlushKeeps(x.ep, refuse);
    a := FlushAccount(x.ep, refuse);
    f := Flush.Flush(x.ep, refuse);
  }

  lemma FlushedHalves(x: Node, y: Node, f: Flushed, a: Account) returns (x': Node)
    requires NodeOk(x) && Half(x, y) && Half(y, x) && GoodFlush(x, f, a)
    ensures x' == AfterFlush(x, f) && NodeOk(x') && Progress(x, x') && Half(x', y) && Half(y, x')
  {
    x' := AfterFlush(x, f);
    FlushNodeOk(x, f, a);
    NumberedSafe(x, x', y);
    HalfForSender(x, x', y);
    forall i | 0 <= i < |x'.ackIdx| ensures x'.ackIdx[i] in x.ackIdx {
    }
    HalfForReceiver(y, x, x');
  }

  lemma FlushStep(x: Node, y: Node, out: set<Packet>, inbound: set<Packet>, refuse: Oracle)
    requires PairOk(x, y, out, inbound)
    ensures PairOk(Flushing(x, refuse).0, y, out + Flushing(x, refuse).1, inbound)
    ensures Progress(x, Flushing(x, refuse).0)
  {
    var f, a := FlushIsGood(x, refuse);
    var x' := FlushedHalves(x, y, f, a);
    FlushPacketsOk(x, x', y, f, a);
    PairKept(x, x', y, out, Packets(f.out, TagsOf(x, f), x.rcv), inbound);
  }

  // ---------- every step ----------

  lemma UpdateStep(x: Node, y: Node, out: set<Packet>, inbound: set<Packet>, t: u32, refuse: Oracle)
    requires PairOk(x, y, out, inbound)
    ensures var (x', more) := Perform(x, Update(t, refuse));
            PairOk(x', y, out + more, inbound) && Progress(x, x')
  {
    var (clock, flushes) := Tick(x.ep.clock, x.ep.cfg.interval, t);
    var x1 := x.(ep := x.ep.(clock := clock));
    ClockStep(x, y, out, inbound, clock);
    if flushes {
      FlushStep(x1, y, out, inbound, refuse);
      ProgressTwice(x, x1, Flushing(x1, refuse).0);
    } else {
      assert out + {} == out;
    }
  }

  lemma ClockStep(x: Node, y: Node, out: set<Packet>, inbound: set<Packet>, clock: Clock)
    requires PairOk(x, y, out, inbound)
    ensures PairOk(x.(ep := x.ep.(clock := clock)), y, out, inbound)
    ensures Progress(x, x.(ep := x.ep.(clock := clock)))
  {
    var x1 := x.(ep := x.ep.(clock := clock));
    SameBuffer(x.ep.snd, x1.ep.snd, x.book);
    QuietStep(x, x1, y, out, inbound);
  }

  lemma SettingStep(x: Node, y: Node, out: set<Packet>, inbound: set<Packet>, ep: Endpoint)
    requires PairOk(x, y, out, inbound) && Inv(ep) && ep.rcv.wnd <= RECEIVE_WINDOW_LIMIT
    requires ep.snd == x.ep.snd && ep.acks == x.ep.acks && ep.rcv.(wnd := x.ep.rcv.wnd) == x.ep.rcv
    requires ep.cfg.conv == x.ep.cfg.conv
    ensures PairOk(x.(ep := ep), y, out, inbound) && Progress(x, x.(ep := ep))
  {
    SameBuffer(x.ep.snd, ep.snd, x.book);
    QuietStep(x, x.(ep := ep), y, out, inbound);
  }

  lemma PerformKeeps(x: Node, y: Node, out: set<Packet>, inbound: set<Packet>, a: Action)
    requires PairOk(x, y, out, inbound) && Enabled(x, y, inbound, a)
    ensures var (x', more) := Perform(x, a); PairOk(x', y, out + more, inbound) && Progress(x, x')
  {
    assert out + {} == out;
    if a.NoDelay? || a.Windows? || a.Stream? {
      PerformSettingKeeps(x, y, out, inbound, a);
      return;
    }
    match a
    case Send(bytes) => SendStep(x, y, out, inbound, bytes);
    case Receive(len) => ReceiveStep(x, y, out, inbound, len);
    case Update(t, refuse) => UpdateStep(x, y, out, inbound, t, refuse);
    case Flush(refuse) => FlushStep(x, y, out, inbound, refuse);
    case Arrival(p) => ArrivalStep(x, y, out, inbound, p);
  }

  lemma PerformSettingKeeps(x: Node, y: Node, out: set<Packet>, inbound: set<Packet>, a: Action)
    requires PairOk(x, y, out, inbound) && Enabled(x, y, inbound, a)
    requires a.NoDelay? || a.Windows? || a.Stream?
    ensures Perform(x, a).1 == {} && PairOk(Perform(x, a).0, y, out, inbound) && Progress(x, Perform(x, a).0)
  {
    match a
    case NoDelay(nodelay, interval, resend, nc) => NoDelayStep(x, y, out, inbound, a);
    case Windows(sndWnd, rcvWnd) => WindowsStep(x, y, out, inbound, a);
    case Stream =>
      SettingStep(x, y, out, inbound, x.ep.(cfg := x.ep.cfg.(stream := true)));
  }

  lemma NoDelayStep(x: Node, y: Node, out: set<Packet>, inbound: set<Packet>, a: Action)
    requires PairOk(x, y, out, inbound) && Enabled(x, y, inbound, a) && a.NoDelay?
    ensures PairOk(Perform(x, a).0, y, out, inbound) && Progress(x, Perform(x, a).0)
  {
    ApplyKeeps(x.ep, NoDelayOp(a.nodelay, a.interval, a.resend, a.nc));
    SettingStep(x, y, out, inbound, SetNoDelay(x.ep, a.nodelay, a.interval, a.resend, a.nc));
  }

  lemma WindowsStep(x: Node, y: Node, out: set<Packet>, inbound: set<Packet>, a: Action)
    requires PairOk(x, y, out, inbound) && Enabled(x, y, inbound, a) && a.Windows?
    ensures PairOk(Perform(x, a).0, y, out, inbound) && Progress(x, Perform(x, a).0)
  {
    ApplyKeeps(x.ep, WindowsOp(a.sndWnd, a.rcvWnd));
    SettingStep(x, y, out, inbound, SetWindows(x.ep, a.sndWnd, a.rcvWnd));
  }

  // ---------- the system ----------

  datatype System = System(a: Node, b: Node, ab: set<Packet>, ba: set<Packet>)

  datatype Event = AtA(act: Action) | AtB(act: Action)

  ghost predicate Possible(s: System, e: Event) {
    match e
    case AtA(act) => Enabled(s.a, s.b, s.ba, act)
    case AtB(act) => Enabled(s.b, s.a, s.ab, act)
  }

  ghost function After(s: System, e: Event): System
    requires Possible(s, e)
  {
    match e
    case AtA(act) => var (a, more) := Perform(s.a, act); s.(a := a, ab := s.ab + more)
    case AtB(act) => var (b, more) := Perform(s.b, act); s.(b := b, ba := s.ba + more)
  }

  ghost predicate Safe(s: System) {
    PairOk(s.a, s.b, s.ab, s.ba)
  }

  lemma Mirror(x: Node, y: Node, out: set<Packet>, inbound: set<Packet>)
    requires PairOk(x, y, out, inbound)
    ensures PairOk(y, x, inbound, out)
  {
  }

  /** What has been numbered stays numbered, with its fragment; what has been received stays received. */
  ghost predicate Extends(s: System, s': System) {
    && s.a.book.history <= s'.a.book.history && s.b.book.history <= s'.b.book.history
    && s.a.rcv <= s'.a.rcv && s.b.rcv <= s'.b.rcv
  }

  /** Every event keeps the system safe, and alters nothing that was numbered. */
  lemma StepKeepsSafe(s: System, e: Event)
    requires Safe(s) && Possible(s, e)
    ensures Safe(After(s, e)) && Extends(s, After(s, e))
  {
    match e
    case AtA(act) => PerformKeeps(s.a, s.b, s.ab, s.ba, act);
    case AtB(act) =>
      Mirror(s.a, s.b, s.ab, s.ba);
      PerformKeeps(s.b, s.a, s.ba, s.ab, act);
      var (b, more) := Perform(s.b, act);
      Mirror(b, s.a, s.ba + more, s.ab);
  }

  /** A run: every event possible when it happens. */
  ghost predicate Run(s: System, events: seq<Event>, s': System)
    decreases |events|
  {
    if events == [] then s == s'
    else Possible(s, events[0]) && Run(After(s, events[0]), events[1..], s')
  }

  lemma {:induction false} RunKeepsSafe(s: System, events: seq<Event>, s': System)
    requires Safe(s) && Run(s, events, s')
    ensures Safe(s') && Extends(s, s')
    decreases |events|
  {
    if events != [] {
      StepKeepsSafe(s, events[0]);
      RunKeepsSafe(After(s, events[0]), events[1..], s');
    }
  }

  ghost function Start(conv: u32, mtuA: u32, mtuB: u32): System
    requires mtuA >= OVERHEAD && mtuB >= OVERHEAD
  {
    System(NewNode(conv, mtuA), NewNode(conv, mtuB), {}, {})
  }

  lemma StartIsSafe(conv: u32, mtuA: u32, mtuB: u32)
    requires OVERHEAD < mtuA <= 65535 + OVERHEAD && OVERHEAD < mtuB <= 65535 + OVERHEAD
    ensures Safe(Start(conv, mtuA, mtuB))
  {
    NewNodeOk(conv, mtuA);
    NewNodeOk(conv, mtuB);
    NewHalf(conv, mtuA, mtuB);
    NewHalf(conv, mtuB, mtuA);
  }

  lemma NewHalf(conv: u32, mtuA: u32, mtuB: u32)
    requires OVERHEAD < mtuA && OVERHEAD < mtuB
    ensures Half(NewNode(conv, mtuA), NewNode(conv, mtuB))
  {
    assert [] + Views([]) == [];
  }

  lemma NewNodeOk(conv: u32, mtu: u32)
    requires OVERHEAD < mtu <= 65535 + OVERHEAD
    ensures NodeOk(NewNode(conv, mtu))
  {
    CreateInv(conv, mtu);
    assert [] + Views([]) == [] && Payload([]) == [];
  }

  // ---------- what it means ----------

  lemma PayloadPrefix(a: seq<Fragment>, b: seq<Fragment>)
    requires a <= b
    ensures Payload(a) <= Payload(b)
  {
    assert b == a + b[|a|..];
    PayloadConcat(a, b[|a|..]);
  }

  lemma ChainedPart(all: seq<Fragment>, i: nat, j: nat)
    requires Chained(all) && i <= j <= |all|
    ensures Chained(all[i..j])
  {
  }

  /** One direction of a safe system, in the application's terms. */
  ghost predicate Delivers(s: Node, r: Node) {
    && r.received + Bytes(r.ep.rcv.queue) <= s.book.accepted
    && Chained(Views(r.ep.rcv.queue))
    && AckSafe(s, r)
  }

  /** The front of what was numbered, split into what was delivered and what is queued. */
  lemma FrontDelivers(all: seq<Fragment>, front: seq<Fragment>, delivered: seq<Fragment>, queued: seq<Fragment>)
    requires delivered + queued == front <= all && Chained(all)
    ensures Payload(delivered) + Payload(queued) <= Payload(all) && Chained(queued)
  {
    PayloadPrefix(front, all);
    PayloadConcat(delivered, queued);
    assert queued == all[|delivered|..|front|];
    ChainedPart(all, |delivered|, |front|);
  }

  lemma SafeDelivers(s: Node, r: Node)
    requires NodeOk(s) && NodeOk(r) && Half(s, r)
    ensures Delivers(s, r)
  {
    var all := s.book.history + Views(s.ep.snd.queue);
    var front := s.book.history[..r.rcv];
    assert front <= all;
    FrontDelivers(all, front, r.delivered, Views(r.ep.rcv.queue));
  }

  /**
   End to end, in every run, in both directions and in either mode: what the application has received,
   followed by what waits in the receive queue, is a prefix of what the peer's application has sent;
   the queue is a contiguous part of the peer's fragments; and every numbered segment is in the
   sender's buffer or accepted at the receiver.
   */
  lemma EndToEnd(conv: u32, mtuA: u32, mtuB: u32, events: seq<Event>, s: System)
    requires OVERHEAD < mtuA <= 65535 + OVERHEAD && OVERHEAD < mtuB <= 65535 + OVERHEAD
    requires Run(Start(conv, mtuA, mtuB), events, s)
    ensures Delivers(s.a, s.b) && Delivers(s.b, s.a)
  {
    StartIsSafe(conv, mtuA, mtuB);
    RunKeepsSafe(Start(conv, mtuA, mtuB), events, s);
    SafeDelivers(s.a, s.b);
    SafeDelivers(s.b, s.a);
  }

  ghost predicate SizeKnown(queue: seq<Seg>) {
    && (PeekSize(queue) >= 0 <==> exists m :: EndsAt(queue, m))
    && forall m :: EndsAt(queue, m) ==> PeekSize(queue) == |Bytes(queue[..m + 1])|
  }

  /** In every run the size of the next message is reported exactly when all of it has arrived. */
  lemma PeekSizeInRun(conv: u32, mtuA: u32, mtuB: u32, events: seq<Event>, s: System)
    requires OVERHEAD < mtuA <= 65535 + OVERHEAD && OVERHEAD < mtuB <= 65535 + OVERHEAD
    requires Run(Start(conv, mtuA, mtuB), events, s)
    ensures SizeKnown(s.a.ep.rcv.queue) && SizeKnown(s.b.ep.rcv.queue)
  {
    EndToEnd(conv, mtuA, mtuB, events, s);
    PeekSizeIsRemainder(s.a.ep.rcv.queue);
    PeekSizeIsRemainder(s.b.ep.rcv.queue);
  }

  /**
   In every run, at both endpoints: each buffered segment's count is the number of times it has been
   sent, in 32 bits, and it still carries the fragment that it was numbered with.
   */
  lemma CountsInRun(conv: u32, mtuA: u32, mtuB: u32, events: seq<Event>, s: System)
    requires OVERHEAD < mtuA <= 65535 + OVERHEAD && OVERHEAD < mtuB <= 65535 + OVERHEAD
    requires Run(Start(conv, mtuA, mtuB), events, s)
    ensures Counts(s.a.ep.snd, s.a.book) && Counts(s.b.ep.snd, s.b.book)
  {
    StartIsSafe(conv, mtuA, mtuB);
    RunKeepsSafe(Start(conv, mtuA, mtuB), events, s);
    AgreesCounts(s.a.ep.snd, s.a.book);
    AgreesCounts(s.b.ep.snd, s.b.book);
  }
}
