/**
 The ledger of one sender, whatever its peer does: the unbounded indices behind its numbers, the
 fragments in the order in which it numbered them, the bytes it took from its application, and the
 index of every data segment it encoded. Nothing is assumed of the bytes that arrive.
 */
module Ledger {
  import opened Serial
  import opened Segment
  import opened Codec
  import opened AckList
  import opened SendQueue
  import opened SendBuffer
  import opened State
  import opened Timer
  import opened Packing
  import opened Flush
  import opened FlushFacts
  import opened Operations
  import opened Trace
  import opened Tracking

  datatype Book = Book(una: nat, nxt: nat, history: seq<Fragment>, accepted: seq<byte>, log: seq<nat>)

  const NEW_BOOK: Book := Book(0, 0, [], [], [])

  // ---------- entries ----------

  /** The indices of the data segments among `ws`, for a window that starts at index `una`. */
  ghost function PushIndices(una: nat, s: Snd, ws: seq<Wire>): seq<nat> {
    if ws == [] then []
    else
      PushIndices(una, s, ws[..|ws| - 1]) +
      if ws[|ws| - 1].cmd == PUSH then [una + Sub(ws[|ws| - 1].sn, s.una)] else []
  }

  ghost function EnterSend(ep: Endpoint, b: Book, bytes: seq<byte>): Book
    requires ep.cfg.mss > 0
  {
    b.(accepted := b.accepted + Taken(ep.snd.queue, ep.cfg.stream, ep.cfg.mss, bytes))
  }

  /** The window moved: what was acknowledged stays in the history. */
  ghost function EnterAdvance(s: Snd, b: Book, s': Snd): Book {
    b.(una := b.una + Sub(s'.una, s.una))
  }

  ghost function EnterFlush(ep: Endpoint, b: Book, f: Flushed): Book {
    var k := if |f.ep.snd.queue| <= |ep.snd.queue| then |ep.snd.queue| - |f.ep.snd.queue| else 0;
    b.(nxt := b.nxt + k,
       history := b.history + Views(ep.snd.queue[..k]),
       log := b.log + PushIndices(b.una, ep.snd, Flat(f.out)))
  }

  // ---------- the invariant ----------

  ghost function Count(log: seq<nat>, j: nat): nat {
    if log == [] then 0 else Count(log[..|log| - 1], j) + if log[|log| - 1] == j then 1 else 0
  }

  /** Transmission counts are the number of times each segment was encoded, in 32 bits. */
  ghost predicate Counted(una: nat, nxt: nat, s: Snd, log: seq<nat>) {
    && (forall i :: 0 <= i < |s.buf| ==> s.buf[i].xmit == Number(Count(log, SendIndex(una, s, s.buf[i]))))
    && (forall i :: 0 <= i < |log| ==> log[i] < nxt)
  }

  ghost predicate Agrees(s: Snd, b: Book) {
    && Tracked(b.una, b.nxt, s, b.history)
    && Complete(b.history + Views(s.queue))
    && Payload(b.history + Views(s.queue)) == b.accepted
    && Counted(b.una, b.nxt, s, b.log)
  }

  /** Entries are only added. */
  ghost predicate Longer(b: Book, b': Book) {
    && b.una <= b'.una && b.nxt <= b'.nxt
    && b.history <= b'.history && b.accepted <= b'.accepted && b.log <= b'.log
  }

  // ---------- sending ----------

  lemma SendAgrees(ep: Endpoint, b: Book, bytes: seq<byte>)
    requires Inv(ep) && Agrees(ep.snd, b)
    ensures Agrees(Accept(ep, bytes).0.snd, EnterSend(ep, b, bytes))
  {
    var s, cfg := ep.snd, ep.cfg;
    SendTakes(s.queue, cfg.stream, cfg.mss, bytes);
    SendCompletes(b.history, s.queue, cfg.stream, cfg.mss, bytes);
    var queue := SendQueue.Send(s.queue, cfg.stream, cfg.mss, bytes).0;
    PayloadConcat(b.history, Views(s.queue));
    PayloadConcat(b.history, Views(queue));
    Associative(Payload(b.history), Payload(Views(s.queue)), Taken(s.queue, cfg.stream, cfg.mss, bytes));
    SameNumbering(b.una, b.nxt, s, s.(queue := queue), b.history, b.log);
  }

  /** Nothing in the send buffer changed. */
  lemma SameNumbering(una: nat, nxt: nat, s: Snd, s': Snd, history: seq<Fragment>, log: seq<nat>)
    requires Tracked(una, nxt, s, history) && Counted(una, nxt, s, log)
    requires s'.una == s.una && s'.nxt == s.nxt && s'.buf == s.buf
    ensures Tracked(una, nxt, s', history) && Counted(una, nxt, s', log)
    ensures forall j :: Flying(una, s, j) ==> Flying(una, s', j)
  {
    forall i | 0 <= i < |s'.buf| ensures Remembered(history, SendIndex(una, s', s'.buf[i]), View(s'.buf[i])) {
      assert Remembered(history, SendIndex(una, s, s.buf[i]), View(s.buf[i]));
    }
    forall j | Flying(una, s, j) ensures Flying(una, s', j) {
      var i :| 0 <= i < |s.buf| && SendIndex(una, s, s.buf[i]) == j;
      assert SendIndex(una, s', s'.buf[i]) == j;
    }
  }

  /** The send queue did not change either. */
  lemma SameBuffer(s: Snd, s': Snd, b: Book)
    requires Agrees(s, b) && s'.una == s.una && s'.nxt == s.nxt && s'.buf == s.buf && s'.queue == s.queue
    ensures Agrees(s', b) && forall j :: Flying(b.una, s, j) ==> Flying(b.una, s', j)
  {
    assert s' == s;
  }

  // ---------- input ----------

  lemma FewerCounted(una: nat, nxt: nat, s: Snd, una': nat, s': Snd, log: seq<nat>)
    requires Counted(una, nxt, s, log) && Fewer(s, s') && una' == una + Sub(s'.una, s.una)
    ensures Counted(una', nxt, s', log)
  {
    forall i | 0 <= i < |s'.buf|
      ensures s'.buf[i].xmit == Number(Count(log, SendIndex(una', s', s'.buf[i])))
    {
      assert s'.buf[i] in s.buf;
      var l :| 0 <= l < |s.buf| && s.buf[l] == s'.buf[i];
      assert SendIndex(una', s', s'.buf[i]) == SendIndex(una, s, s.buf[l]);
    }
  }

  /** Any segment at all: what stays in the buffer keeps its index, fragment and count. */
  lemma AcksAgree(s: Snd, b: Book, w: Wire)
    requires Agrees(s, b)
    ensures Agrees(ApplyAcks(s, w), EnterAdvance(s, b, ApplyAcks(s, w)))
    ensures Advanced(s, ApplyAcks(s, w))
  {
    ApplyAcksFewer(s, w);
    FewerAgrees(s, ApplyAcks(s, w), b);
  }

  lemma FewerAgrees(s: Snd, s': Snd, b: Book)
    requires Agrees(s, b) && Fewer(s, s')
    ensures Agrees(s', EnterAdvance(s, b, s'))
  {
    var una' := b.una + Sub(s'.una, s.una);
    NumberMoved(b.una, s.una, s'.una);
    FewerRemembered(b.una, una', s, s', b.history);
    FewerCounted(b.una, b.nxt, s, una', s', b.log);
  }

  lemma AdvancesAdd(a: Snd, b: Snd, c: Snd, book: Book)
    requires Advanced(a, b) && Advanced(b, c)
    ensures EnterAdvance(b, EnterAdvance(a, book, b), c) == EnterAdvance(a, book, c)
  {
  }

  lemma {:induction false} ProcessAllAgrees(p: Inbox, b: Book, ws: seq<Wire>)
    requires Inv(p.ep) && Agrees(p.ep.snd, b)
    ensures Agrees(ProcessAll(p, ws).ep.snd, EnterAdvance(p.ep.snd, b, ProcessAll(p, ws).ep.snd))
    decreases |ws|
  {
    if ws != [] {
      var w := ws[0];
      var ep := ProcessedParts(p, w);
      AcksAgree(p.ep.snd, b, w);
      ProcessKeeps(p, w);
      ProcessAllKeeps(Process(p, w), ws[1..]);
      ProcessAllAgrees(Process(p, w), EnterAdvance(p.ep.snd, b, ep.snd), ws[1..]);
      AdvancesAdd(p.ep.snd, ep.snd, ProcessAll(p, ws).ep.snd, b);
    }
  }

  /** Fast acknowledgement touches neither numbers, payloads nor transmission counts. */
  lemma FastAckSame(s: Snd, sn: u32)
    requires Ordered(s.una, s.nxt, s.buf)
    ensures SameSegments(s.buf, ParseFastAck(s.una, s.nxt, s.buf, sn))
    ensures forall i :: 0 <= i < |s.buf| ==> ParseFastAck(s.una, s.nxt, s.buf, sn)[i].xmit == s.buf[i].xmit
  {
    if InWindow(s.una, s.nxt, sn) {
      forall i | 0 <= i < |s.buf|
        ensures SameSegment(s.buf[i], Overtake(s.buf, sn)[i]) && Overtake(s.buf, sn)[i].xmit == s.buf[i].xmit
      {
        OvertakeBumps(s.una, s.nxt, s.buf, sn, i);
      }
    }
  }

  lemma SameCounted(una: nat, nxt: nat, s: Snd, buf: seq<Seg>, log: seq<nat>)
    requires Counted(una, nxt, s, log) && SameSegments(s.buf, buf)
    requires forall i :: 0 <= i < |buf| ==> buf[i].xmit == s.buf[i].xmit
    ensures Counted(una, nxt, s.(buf := buf), log)
  {
    forall i | 0 <= i < |buf| ensures buf[i].xmit == Number(Count(log, SendIndex(una, s.(buf := buf), buf[i]))) {
      assert SendIndex(una, s.(buf := buf), buf[i]) == SendIndex(una, s, s.buf[i]);
    }
  }

  lemma FastAckAgrees(s: Snd, b: Book, sn: u32)
    requires Agrees(s, b)
    ensures var s' := s.(buf := ParseFastAck(s.una, s.nxt, s.buf, sn));
            && Agrees(s', b)
            && forall j :: Flying(b.una, s, j) ==> Flying(b.una, s', j)
  {
    FastAckSame(s, sn);
    var buf := ParseFastAck(s.una, s.nxt, s.buf, sn);
    SameTracked(b.una, b.nxt, s, buf, b.history);
    SameCounted(b.una, b.nxt, s, buf, b.log);
  }

  lemma ConcludeAgrees(p: Inbox, b: Book, una: u32) returns (ep: Endpoint)
    requires Inv(p.ep) && Agrees(p.ep.snd, b)
    ensures ep == Conclude(p, una) && Agrees(ep.snd, b) && ep.snd.una == p.ep.snd.una
  {
    ep := ConcludeKeeps(p, una);
    if p.acked { FastAckAgrees(p.ep.snd, b, p.maxAck); }
  }

  lemma SegmentsAgree(ep: Endpoint, b: Book, p: Inbox, ws: seq<Wire>) returns (b': Book)
    requires Inv(ep) && Agrees(ep.snd, b) && p == ProcessAll(Inbox(ep, false, 0), ws)
    ensures Agrees(p.ep.snd, b')
    ensures forall s: Snd :: s.una == p.ep.snd.una ==> EnterAdvance(ep.snd, b, s) == b'
  {
    b' := EnterAdvance(ep.snd, b, p.ep.snd);
    ProcessAllAgrees(Inbox(ep, false, 0), b, ws);
  }

  lemma EndAgrees(p: Inbox, b: Book, una: u32, ep: Endpoint)
    requires Inv(p.ep) && Agrees(p.ep.snd, b) && (ep == p.ep || ep == Conclude(p, una))
    ensures Agrees(ep.snd, b) && ep.snd.una == p.ep.snd.una
  {
    if ep != p.ep { var end := ConcludeAgrees(p, b, una); }
  }

  /** Arbitrary bytes, on every return path. */
  lemma InputAgrees(ep: Endpoint, b: Book, bytes: seq<byte>) returns (ep': Endpoint, b': Book)
    requires Inv(ep) && Agrees(ep.snd, b)
    ensures ep' == Input(ep, bytes).0 && b' == EnterAdvance(ep.snd, b, ep'.snd) && Agrees(ep'.snd, b')
  {
    var p, ws;
    ep', p, ws := InputEnds(ep, bytes);
    b' := SegmentsAgree(ep, b, p, ws);
    EndAgrees(p, b', ep.snd.una, ep');
  }

  // ---------- flushing ----------

  lemma {:induction false} CountConcat(a: seq<nat>, b: seq<nat>, j: nat)
    ensures Count(a + b, j) == Count(a, j) + Count(b, j)
  {
    if b == [] {
      assert a + b == a;
    } else {
      CountConcat(a, b[..|b| - 1], j);
      assert (a + b)[..|a + b| - 1] == a + b[..|b| - 1];
    }
  }

  lemma {:induction false} CountAbsent(a: seq<nat>, j: nat)
    requires forall i :: 0 <= i < |a| ==> a[i] != j
    ensures Count(a, j) == 0
  {
    if a != [] { CountAbsent(a[..|a| - 1], j); }
  }

  lemma {:induction false} PushConcat(una: nat, s: Snd, a: seq<Wire>, b: seq<Wire>)
    ensures PushIndices(una, s, a + b) == PushIndices(una, s, a) + PushIndices(una, s, b)
  {
    if b == [] {
      assert a + b == a && PushIndices(una, s, a) + [] == PushIndices(una, s, a);
    } else {
      var m := |b| - 1;
      PushConcat(una, s, a, b[..m]);
      assert (a + b)[..|a + b| - 1] == a + b[..m];
      var last: seq<nat> := if b[m].cmd == PUSH then [una + Sub(b[m].sn, s.una)] else [];
      Associative(PushIndices(una, s, a), PushIndices(una, s, b[..m]), last);
    }
  }

  lemma {:induction false} NoPush(una: nat, s: Snd, ws: seq<Wire>)
    requires forall i :: 0 <= i < |ws| ==> ws[i].cmd != PUSH
    ensures PushIndices(una, s, ws) == []
  {
    if ws != [] { NoPush(una, s, ws[..|ws| - 1]); }
  }

  ghost predicate AllData(buf: seq<Seg>) {
    forall l :: 0 <= l < |buf| ==> buf[l].cmd == PUSH
  }

  ghost predicate Distinct(buf: seq<Seg>) {
    forall l, m :: 0 <= l < m < |buf| ==> buf[l].sn != buf[m].sn
  }

  ghost predicate Without(ws: seq<Wire>, sn: u32) {
    forall k :: 0 <= k < |ws| ==> ws[k].sn != sn
  }

  lemma {:induction false} RestWithout(before: seq<Seg>, after: seq<Seg>, i: nat, sn: u32)
    requires |before| == |after| && i <= |before| && forall l :: i <= l < |after| ==> after[l].sn != sn
    ensures Without(Transmitted(before, after, i), sn)
    decreases |before| - i
  {
    if i < |before| { RestWithout(before, after, i + 1, sn); }
  }

  lemma TransmittedFirst(before: seq<Seg>, after: seq<Seg>, i: nat, sn: u32)
    requires i < |before| == |after|
    ensures Transmitted(before, after, i) == Difference(before[i], after[i]) + Transmitted(before, after, i + 1)
    ensures after[i].sn != sn ==> Without(Difference(before[i], after[i]), sn)
  {
  }

  lemma WithoutMore(first: seq<Wire>, later: seq<Wire>, front: seq<Wire>, tail: seq<Wire>, sn: u32)
    requires later == front + tail && Without(first, sn) && Without(front, sn)
    ensures first + later == first + front + tail && Without(first + front, sn)
  {
    Associative(first, front, tail);
  }

  /** Around the `j`-th segment nothing with its number is sent. */
  lemma {:induction false} TransmittedSplit(
      before: seq<Seg>, after: seq<Seg>, i: nat, j: nat, all: seq<Wire>)
      returns (front: seq<Wire>, tail: seq<Wire>)
    requires i <= j < |before| == |after| && Distinct(after) && all == Transmitted(before, after, i)
    ensures all == front + tail && tail == Transmitted(before, after, j) && Without(front, after[j].sn)
    decreases j - i
  {
    if i == j {
      front, tail := [], all;
    } else {
      TransmittedFirst(before, after, i, after[j].sn);
      var later := Transmitted(before, after, i + 1);
      var front1;
      front1, tail := TransmittedSplit(before, after, i + 1, j, later);
      WithoutMore(Difference(before[i], after[i]), later, front1, tail, after[j].sn);
      front := Difference(before[i], after[i]) + front1;
    }
  }

  lemma TransmittedAround(before: seq<Seg>, after: seq<Seg>, j: nat, all: seq<Wire>)
      returns (front: seq<Wire>, rest: seq<Wire>)
    requires j < |before| == |after| && Distinct(after) && all == Transmitted(before, after, 0)
    ensures all == front + (Difference(before[j], after[j]) + rest)
    ensures Without(front, after[j].sn) && Without(rest, after[j].sn)
  {
    var tail;
    front, tail := TransmittedSplit(before, after, 0, j, all);
    rest := Transmitted(before, after, j + 1);
    TransmittedFirst(before, after, j, after[j].sn);
    RestWithout(before, after, j + 1, after[j].sn);
  }

  lemma CountWithout(una: nat, s: Snd, ws: seq<Wire>, sn: u32)
    requires Without(ws, sn)
    ensures Count(PushIndices(una, s, ws), una + Sub(sn, s.una)) == 0
  {
    var indices := PushIndices(una, s, ws);
    forall k | 0 <= k < |indices| ensures indices[k] != una + Sub(sn, s.una) {
      PushIndicesAre(una, s, ws, k);
      var m :| 0 <= m < |ws| && ws[m].cmd == PUSH && indices[k] == una + Sub(ws[m].sn, s.una);
      OffsetInjective(ws[m].sn, sn, s.una);
    }
    CountAbsent(indices, una + Sub(sn, s.una));
  }

  /** In the data phase each segment is sent once if its count rose, and not otherwise. */
  lemma CountTransmitted(una: nat, s: Snd, before: seq<Seg>, after: seq<Seg>, j: nat, all: seq<Wire>)
    requires |before| == |after| && j < |before| && AllData(after) && Distinct(after)
    requires all == Transmitted(before, after, 0)
    ensures Count(PushIndices(una, s, all), SendIndex(una, s, after[j])) ==
            if after[j].xmit != before[j].xmit then 1 else 0
  {
    var front, rest := TransmittedAround(before, after, j, all);
    CountOne(una, s, before[j], after[j], front, rest, all);
  }

  lemma CountOne(una: nat, s: Snd, before: Seg, after: Seg, front: seq<Wire>, rest: seq<Wire>, all: seq<Wire>)
    requires after.cmd == PUSH && Without(front, after.sn) && Without(rest, after.sn)
    requires all == front + (Difference(before, after) + rest)
    ensures Count(PushIndices(una, s, all), SendIndex(una, s, after)) ==
            if after.xmit != before.xmit then 1 else 0
  {
    CountAround(una, s, front, Difference(before, after), rest, after.sn);
    OneIndex(una, s, before, after, SendIndex(una, s, after));
  }

  lemma CountAround(una: nat, s: Snd, front: seq<Wire>, one: seq<Wire>, rest: seq<Wire>, sn: u32)
    requires Without(front, sn) && Without(rest, sn)
    ensures Count(PushIndices(una, s, front + (one + rest)), una + Sub(sn, s.una)) ==
            Count(PushIndices(una, s, one), una + Sub(sn, s.una))
  {
    CountPieces(una, s, front, one + rest, una + Sub(sn, s.una));
    CountPieces(una, s, one, rest, una + Sub(sn, s.una));
    CountWithout(una, s, front, sn);
    CountWithout(una, s, rest, sn);
  }

  lemma CountPieces(una: nat, s: Snd, a: seq<Wire>, b: seq<Wire>, j: nat)
    ensures Count(PushIndices(una, s, a + b), j) == Count(PushIndices(una, s, a), j) + Count(PushIndices(una, s, b), j)
  {
    PushConcat(una, s, a, b);
    CountConcat(PushIndices(una, s, a), PushIndices(una, s, b), j);
  }

  lemma OneIndex(una: nat, s: Snd, before: Seg, after: Seg, target: nat)
    requires after.cmd == PUSH
    ensures Count(PushIndices(una, s, Difference(before, after)), target) ==
            if after.xmit != before.xmit && SendIndex(una, s, after) == target then 1 else 0
  {
    var ws := Difference(before, after);
    if ws != [] {
      assert ws[..0] == [] && PushIndices(una, s, ws[..0]) == [];
      var one := [SendIndex(una, s, after)];
      assert PushIndices(una, s, ws) == [] + one == one;
      assert one[..0] == [] && Count(one[..0], target) == 0;
    } else {
      assert Count([], target) == 0;
    }
  }

  lemma {:induction false} TransmittedAre(before: seq<Seg>, after: seq<Seg>, i: nat, k: nat)
    requires |before| == |after| && i <= |before| && k < |Transmitted(before, after, i)|
    ensures exists l :: i <= l < |after| && after[l].xmit != before[l].xmit &&
                        Transmitted(before, after, i)[k] == ToWire(after[l])
    decreases |before| - i
  {
    var m := |Difference(before[i], after[i])|;
    if k >= m {
      TransmittedAre(before, after, i + 1, k - m);
      var l :| i + 1 <= l < |after| && after[l].xmit != before[l].xmit &&
               Transmitted(before, after, i + 1)[k - m] == ToWire(after[l]);
      assert Transmitted(before, after, i)[k] == ToWire(after[l]);
    }
  }

  lemma {:induction false} PushIndicesAre(una: nat, s: Snd, ws: seq<Wire>, k: nat)
    requires k < |PushIndices(una, s, ws)|
    ensures exists m :: 0 <= m < |ws| && ws[m].cmd == PUSH &&
                        PushIndices(una, s, ws)[k] == una + Sub(ws[m].sn, s.una)
  {
    var front := ws[..|ws| - 1];
    if k < |PushIndices(una, s, front)| {
      PushIndicesAre(una, s, front, k);
    } else {
      assert ws[|ws| - 1].cmd == PUSH;
    }
  }

  /** How many segments a flush numbered. */
  function NumberedIn(a: Account): nat {
    if a.data then a.numbered else 0
  }

  /** The sender's part of the account, with nothing numbered when it did not come to the data phase. */
  ghost predicate Sent(ep: Endpoint, b: Book, f: Flushed, a: Account, pushes: seq<nat>) {
    && NumberedIn(a) <= |ep.snd.queue|
    && f.ep.snd.queue == ep.snd.queue[NumberedIn(a)..]
    && Tracked(b.una, b.nxt + NumberedIn(a), f.ep.snd, b.history + Views(ep.snd.queue[..NumberedIn(a)]))
    && Counted(b.una, b.nxt + NumberedIn(a), f.ep.snd, b.log + pushes)
    && (forall j :: Flying(b.una, ep.snd, j) ==> Flying(b.una, f.ep.snd, j))
    && (forall j :: b.nxt <= j < b.nxt + NumberedIn(a) ==> Flying(b.una, f.ep.snd, j))
  }

  lemma HeadersOnly(flat: seq<Wire>, hdr: Seg, acks: seq<Ack>, probes: seq<Wire>)
    requires hdr.cmd == ACK && (forall i :: 0 <= i < |probes| ==> IsProbe(probes[i], hdr))
    requires flat <= AckWires(hdr, acks) + probes
    ensures forall i :: 0 <= i < |flat| ==> flat[i].cmd != PUSH
  {
    forall i | 0 <= i < |flat| ensures flat[i].cmd != PUSH {
      assert flat[i] == (AckWires(hdr, acks) + probes)[i];
    }
  }

  lemma NoPushInPrefix(una: nat, s: Snd, flat: seq<Wire>, hdr: Seg, acks: seq<Ack>, probes: seq<Wire>)
    requires hdr.cmd == ACK && (forall i :: 0 <= i < |probes| ==> IsProbe(probes[i], hdr))
    requires flat <= AckWires(hdr, acks) + probes
    ensures PushIndices(una, s, flat) == []
  {
    HeadersOnly(flat, hdr, acks, probes);
    NoPush(una, s, flat);
  }

  lemma SentNothing(ep: Endpoint, b: Book, f: Flushed, a: Account)
    requires Inv(ep) && Agrees(ep.snd, b) && AccountOf(ep, f, a) && !a.data
    ensures Sent(ep, b, f, a, PushIndices(b.una, ep.snd, Flat(f.out)))
  {
    NoPushInPrefix(b.una, ep.snd, Flat(f.out), Template(ep), ep.acks[..a.acked], a.probes);
    assert b.log + [] == b.log;
    assert Views(ep.snd.queue[..0]) == [] && b.history + [] == b.history;
    assert ep.snd.queue[0..] == ep.snd.queue;
  }

  lemma PushesOfFlat(una: nat, s: Snd, hdr: Seg, acks: seq<Ack>, probes: seq<Wire>, data: seq<Wire>)
    requires hdr.cmd == ACK && (forall i :: 0 <= i < |probes| ==> IsProbe(probes[i], hdr))
    ensures PushIndices(una, s, AckWires(hdr, acks) + probes + data) == PushIndices(una, s, data)
  {
    var front := AckWires(hdr, acks) + probes;
    NoPushInPrefix(una, s, front, hdr, acks, probes);
    PushConcat(una, s, front, data);
    assert [] + PushIndices(una, s, data) == PushIndices(una, s, data);
  }

  lemma SentData(ep: Endpoint, b: Book, f: Flushed, a: Account)
    requires Inv(ep) && Agrees(ep.snd, b) && AccountOf(ep, f, a) && a.data && Inv(f.ep) && f.ep.cfg == ep.cfg
    ensures Sent(ep, b, f, a, PushIndices(b.una, ep.snd, Flat(f.out)))
  {
    SentSender(ep.snd, b, f.ep.snd, a.numbered, a.buf, ep.rcv.nxt);
    PushesOfFlat(b.una, ep.snd, Template(ep), ep.acks, a.probes, Transmitted(a.buf, f.ep.snd.buf, 0));
  }

  lemma SentSender(s: Snd, b: Book, s': Snd, k: nat, buf: seq<Seg>, field: u32)
    requires Agrees(s, b) && SenderAccounted(s, s', k, buf, field)
    requires Ordered(s'.una, s'.nxt, s'.buf) && AllData(s'.buf)
    ensures Tracked(b.una, b.nxt + k, s', b.history + Views(s.queue[..k]))
    ensures Counted(b.una, b.nxt + k, s', b.log + PushIndices(b.una, s, Transmitted(buf, s'.buf, 0)))
    ensures forall j :: Flying(b.una, s, j) ==> Flying(b.una, s', j)
    ensures forall j :: b.nxt <= j < b.nxt + k ==> Flying(b.una, s', j)
  {
    SentTracked(s, b, s', k, buf);
    CountedData(s, b, s', k, buf, field);
  }

  /** Numbering and transmission, as far as indices go. */
  lemma SentTracked(s: Snd, b: Book, s': Snd, k: nat, mid: seq<Seg>)
    requires Tracked(b.una, b.nxt, s, b.history)
    requires NumberedInto(s, k, mid) && Ordered(s'.una, s'.nxt, s'.buf)
    requires s'.una == s.una && s'.nxt == Number(s.nxt + k) && SameSegments(mid, s'.buf)
    requires Sub(s'.nxt, s.una) == Sub(s.nxt, s.una) + k
    requires s'.queue == s.queue[k..]
    ensures Tracked(b.una, b.nxt + k, s', b.history + Views(s.queue[..k]))
    ensures forall j :: Flying(b.una, s, j) ==> Flying(b.una, s', j)
    ensures forall j :: b.nxt <= j < b.nxt + k ==> Flying(b.una, s', j)
  {
    var before := s'.(buf := mid);
    SameNumbersAscend(s'.una, s'.nxt, s'.buf, mid);
    NumberedTracked(b.una, b.nxt, s, k, before, b.history);
    SameTracked(b.una, b.nxt + k, before, s'.buf, b.history + Views(s.queue[..k]));
    assert before.(buf := s'.buf) == s';
  }

  lemma DistinctNumbers(s: Snd)
    requires Ordered(s.una, s.nxt, s.buf)
    ensures Distinct(s.buf)
  {
    forall l, m | 0 <= l < m < |s.buf| ensures s.buf[l].sn != s.buf[m].sn {
      assert Sub(s.buf[l].sn, s.una) < Sub(s.buf[m].sn, s.una);
    }
  }

  /** Counts in the buffer and in the log rise together. */
  lemma CountedData(s: Snd, b: Book, s': Snd, k: nat, mid: seq<Seg>, field: u32)
    requires Agrees(s, b) && NumberedInto(s, k, mid)
    requires SameSegments(mid, s'.buf) && Raised(mid, s'.buf, field)
    requires Ordered(s'.una, s'.nxt, s'.buf) && AllData(s'.buf) && s'.una == s.una
    requires Sub(s'.nxt, s'.una) == Sub(s.nxt, s.una) + k
    ensures Counted(b.una, b.nxt + k, s', b.log + PushIndices(b.una, s, Transmitted(mid, s'.buf, 0)))
  {
    var all := Transmitted(mid, s'.buf, 0);
    var pushes := PushIndices(b.una, s, all);
    forall i | 0 <= i < |s'.buf|
      ensures s'.buf[i].xmit == Number(Count(b.log + pushes, SendIndex(b.una, s', s'.buf[i])))
    {
      CountedAt(s, b, s', k, mid, field, i, all);
    }
    forall i | 0 <= i < |b.log + pushes| ensures (b.log + pushes)[i] < b.nxt + k {
      if i >= |b.log| { PushBelow(s, b, s', k, mid, i - |b.log|); }
    }
  }

  lemma CountedAt(s: Snd, b: Book, s': Snd, k: nat, mid: seq<Seg>, field: u32, i: nat, all: seq<Wire>)
    requires |mid| == |s'.buf| && all == Transmitted(mid, s'.buf, 0)
    requires Tracked(b.una, b.nxt, s, b.history) && Counted(b.una, b.nxt, s, b.log)
    requires NumberedInto(s, k, mid) && i < |s'.buf|
    requires SameSegments(mid, s'.buf) && Raised(mid, s'.buf, field)
    requires Ordered(s'.una, s'.nxt, s'.buf) && AllData(s'.buf) && s'.una == s.una
    requires Sub(s'.nxt, s'.una) == Sub(s.nxt, s.una) + k
    ensures s'.buf[i].xmit ==
            Number(Count(b.log + PushIndices(b.una, s, all), SendIndex(b.una, s', s'.buf[i])))
  {
    var j := SendIndex(b.una, s', s'.buf[i]);
    var pushes := PushIndices(b.una, s, all);
    CountPushes(s, b, s', mid, i, all);
    CountConcat(b.log, pushes, j);
    CountBefore(s, b, k, mid, i);
    assert SendIndex(b.una, s, mid[i]) == j;
    NextNumber(Count(b.log, j));
  }

  lemma CountPushes(s: Snd, b: Book, s': Snd, mid: seq<Seg>, i: nat, all: seq<Wire>)
    requires |mid| == |s'.buf| && all == Transmitted(mid, s'.buf, 0)
    requires i < |mid| && Ordered(s'.una, s'.nxt, s'.buf) && AllData(s'.buf)
    requires s'.una == s.una
    ensures Count(PushIndices(b.una, s, all), SendIndex(b.una, s', s'.buf[i])) ==
            if s'.buf[i].xmit != mid[i].xmit then 1 else 0
  {
    DistinctNumbers(s');
    CountTransmitted(b.una, s, mid, s'.buf, i, all);
  }

  lemma NextNumber(c: nat)
    ensures Number(c + 1) == Next(Number(c))
  {
    NumberAdvance(c, 1);
  }

  lemma PushBelow(s: Snd, b: Book, s': Snd, k: nat, mid: seq<Seg>, i: nat)
    requires Agrees(s, b) && SameSegments(mid, s'.buf)
    requires Ordered(s'.una, s'.nxt, s'.buf) && s'.una == s.una
    requires Sub(s'.nxt, s'.una) == Sub(s.nxt, s.una) + k
    requires i < |PushIndices(b.una, s, Transmitted(mid, s'.buf, 0))|
    ensures PushIndices(b.una, s, Transmitted(mid, s'.buf, 0))[i] < b.nxt + k
  {
    var ws := Transmitted(mid, s'.buf, 0);
    PushIndicesAre(b.una, s, ws, i);
    var m :| 0 <= m < |ws| && ws[m].cmd == PUSH &&
             PushIndices(b.una, s, ws)[i] == b.una + Sub(ws[m].sn, s.una);
    TransmittedAre(mid, s'.buf, 0, m);
    var l :| 0 <= l < |s'.buf| && s'.buf[l].xmit != mid[l].xmit && ws[m] == ToWire(s'.buf[l]);
    assert Sub(s'.buf[l].sn, s'.una) < Sub(s'.nxt, s'.una);
  }

  /** Before the flush: buffered segments have their counts, newly numbered ones none. */
  lemma CountBefore(s: Snd, b: Book, k: nat, mid: seq<Seg>, i: nat)
    requires Tracked(b.una, b.nxt, s, b.history) && Counted(b.una, b.nxt, s, b.log)
    requires NumberedInto(s, k, mid) && i < |mid|
    requires Sub(s.nxt, s.una) + k <= WINDOW_LIMIT
    ensures mid[i].xmit == Number(Count(b.log, SendIndex(b.una, s, mid[i])))
  {
    if i >= |s.buf| {
      assert mid[i].sn == Number(s.nxt + (i - |s.buf|));
      NewOffset(b.una, b.nxt, s, i - |s.buf|);
      CountAbsent(b.log, SendIndex(b.una, s, mid[i]));
    } else {
      assert mid[i] == s.buf[i];
    }
  }

  /** Every data segment in `out` carries the fragment that the history has at its index. */
  ghost predicate Faithful(una: nat, s: Snd, ws: seq<Wire>, history: seq<Fragment>) {
    forall k :: 0 <= k < |ws| && ws[k].cmd == PUSH ==> Carries(una, s, ws[k], history)
  }

  /** The segment carries the fragment of its index. */
  ghost predicate Carries(una: nat, s: Snd, w: Wire, history: seq<Fragment>) {
    Remembered(history, una + Sub(w.sn, s.una), Fragment(w.frg, w.data))
  }

  /** What stands in the send buffer is the fragment of its index, also after the cut to the header's widths. */
  lemma BufferedFaithful(s: Snd, b: Book, l: nat)
    requires Agrees(s, b) && l < |s.buf|
    ensures Carries(b.una, s, ToWire(s.buf[l]), b.history)
  {
    var j := SendIndex(b.una, s, s.buf[l]);
    assert Remembered(b.history, j, View(s.buf[l]));
    assert (b.history + Views(s.queue))[j] == View(s.buf[l]);
    assert s.buf[l].frg < FRAGMENT_LIMIT;
  }

  lemma BufferFaithful(s: Snd, b: Book)
    requires Agrees(s, b)
    ensures forall l :: 0 <= l < |s.buf| ==> Carries(b.una, s, ToWire(s.buf[l]), b.history)
  {
    forall l | 0 <= l < |s.buf| ensures Carries(b.una, s, ToWire(s.buf[l]), b.history) {
      BufferedFaithful(s, b, l);
    }
  }

  lemma TransmittedFaithful(una: nat, s: Snd, mid: seq<Seg>, history: seq<Fragment>)
    requires |mid| == |s.buf| && forall l :: 0 <= l < |s.buf| ==> Carries(una, s, ToWire(s.buf[l]), history)
    ensures Faithful(una, s, Transmitted(mid, s.buf, 0), history)
  {
    var ws := Transmitted(mid, s.buf, 0);
    forall k | 0 <= k < |ws| ensures Carries(una, s, ws[k], history) {
      TransmittedAre(mid, s.buf, 0, k);
      var l :| 0 <= l < |s.buf| && s.buf[l].xmit != mid[l].xmit && ws[k] == ToWire(s.buf[l]);
    }
  }

  /** A flush, whatever its callback answers: the account is entered. */
  lemma FlushEntered(ep: Endpoint, b: Book, f: Flushed, a: Account)
    requires Inv(ep) && Agrees(ep.snd, b) && AccountOf(ep, f, a) && Inv(f.ep) && f.ep.cfg == ep.cfg
    ensures Agrees(f.ep.snd, EnterFlush(ep, b, f)) && EnterFlush(ep, b, f).nxt == b.nxt + NumberedIn(a)
    ensures forall j :: Flying(b.una, ep.snd, j) ==> Flying(b.una, f.ep.snd, j)
    ensures forall j :: b.nxt <= j < b.nxt + NumberedIn(a) ==> Flying(b.una, f.ep.snd, j)
  {
    if a.data { SentData(ep, b, f, a); } else { SentNothing(ep, b, f, a); }
    EntryOfSent(ep, b, f, a);
  }

  lemma EntryOfSent(ep: Endpoint, b: Book, f: Flushed, a: Account)
    requires Complete(b.history + Views(ep.snd.queue)) && Payload(b.history + Views(ep.snd.queue)) == b.accepted
    requires Sent(ep, b, f, a, PushIndices(b.una, ep.snd, Flat(f.out)))
    ensures Agrees(f.ep.snd, EnterFlush(ep, b, f)) && EnterFlush(ep, b, f).nxt == b.nxt + NumberedIn(a)
  {
    var k := NumberedIn(a);
    assert |f.ep.snd.queue| == |ep.snd.queue| - k;
    QueueSplits(b.history, ep.snd.queue, k);
  }

  lemma FlushAgrees(ep: Endpoint, b: Book, refuse: Oracle)
    requires Inv(ep) && Agrees(ep.snd, b)
    ensures var f := Flush.Flush(ep, refuse);
            && Agrees(f.ep.snd, EnterFlush(ep, b, f))
            && Faithful(b.una, ep.snd, Flat(f.out), EnterFlush(ep, b, f).history)
  {
    var f := Flush.Flush(ep, refuse);
    FlushKeeps(ep, refuse);
    var a := FlushAccount(ep, refuse);
    FlushEntered(ep, b, f, a);
    FlushFaithful(ep, b, f, a);
  }

  lemma FlushFaithful(ep: Endpoint, b: Book, f: Flushed, a: Account)
    requires AccountOf(ep, f, a) && Agrees(f.ep.snd, EnterFlush(ep, b, f)) && f.ep.snd.una == ep.snd.una
    ensures Faithful(b.una, ep.snd, Flat(f.out), EnterFlush(ep, b, f).history)
  {
    if a.data {
      HeadersOnly(AckWires(Template(ep), ep.acks) + a.probes, Template(ep), ep.acks, a.probes);
      BufferFaithful(f.ep.snd, EnterFlush(ep, b, f));
      TransmittedFaithful(b.una, f.ep.snd, a.buf, EnterFlush(ep, b, f).history);
    } else {
      HeadersOnly(Flat(f.out), Template(ep), ep.acks[..a.acked], a.probes);
    }
  }

  // ---------- runs ----------

  /** The segments that a call encodes for output. */
  ghost function Shipped(ep: Endpoint, op: Op): seq<Wire> {
    match op
    case FlushOp(refuse) => Flat(Flush.Flush(ep, refuse).out)
    case UpdateOp(t, refuse) => Flat(Advance(ep, t, refuse).out)
    case _ => []
  }

  /** What a call enters. */
  ghost function Enter(ep: Endpoint, b: Book, op: Op): Book
    requires ep.cfg.mss > 0
  {
    match op
    case SendOp(bytes) => EnterSend(ep, b, bytes)
    case InputOp(datagram) => EnterAdvance(ep.snd, b, Input(ep, datagram).0.snd)
    case FlushOp(refuse) => EnterFlush(ep, b, Flush.Flush(ep, refuse))
    case UpdateOp(t, refuse) => EnterFlush(ep, b, Advance(ep, t, refuse))
    case _ => b
  }

  lemma EnterNothing(ep: Endpoint, b: Book, ep': Endpoint)
    requires ep'.snd == ep.snd
    ensures EnterFlush(ep, b, Flushed(ep', [], false)) == b
  {
    assert Flat([]) == [] && b.log + [] == b.log;
    assert Views(ep.snd.queue[..0]) == [] && b.history + [] == b.history;
  }

  lemma SameEntry(ep: Endpoint, ep1: Endpoint, b: Book, f: Flushed)
    requires ep1.snd == ep.snd
    ensures EnterFlush(ep, b, f) == EnterFlush(ep1, b, f)
  {
  }

  lemma AdvanceAgrees(ep: Endpoint, b: Book, t: u32, refuse: Oracle)
    requires Inv(ep) && Agrees(ep.snd, b)
    ensures var f := Advance(ep, t, refuse);
            && Agrees(f.ep.snd, EnterFlush(ep, b, f))
            && Faithful(b.una, ep.snd, Flat(f.out), EnterFlush(ep, b, f).history)
  {
    var (clock, flushes) := Tick(ep.clock, ep.cfg.interval, t);
    var ep1 := ep.(clock := clock);
    if flushes {
      FlushAgrees(ep1, b, refuse);
      SameEntry(ep, ep1, b, Flush.Flush(ep1, refuse));
    } else {
      EnterNothing(ep, b, ep1);
    }
  }

  lemma ApplyAgrees(ep: Endpoint, b: Book, op: Op)
    requires Inv(ep) && Agrees(ep.snd, b)
    ensures Agrees(Apply(ep, op).snd, Enter(ep, b, op)) && Longer(b, Enter(ep, b, op))
    ensures Faithful(b.una, ep.snd, Shipped(ep, op), Enter(ep, b, op).history)
  {
    match op
    case SendOp(bytes) => SendAgrees(ep, b, bytes);
    case InputOp(datagram) => var ep', b' := InputAgrees(ep, b, datagram);
    case FlushOp(refuse) => FlushAgrees(ep, b, refuse);
    case UpdateOp(t, refuse) => AdvanceAgrees(ep, b, t, refuse);
    case _ =>
  }

  /** Along the calls `ops`, the ledger goes from `b` to `b'`. */
  ghost predicate Records(ep: Endpoint, b: Book, ops: seq<Op>, b': Book)
    decreases |ops|
  {
    if ops == [] then b == b'
    else ep.cfg.mss > 0 && Records(Apply(ep, ops[0]), Enter(ep, b, ops[0]), ops[1..], b')
  }

  /** Whatever the calls encode carries the fragments of `history`. */
  ghost predicate ShipsOnly(ep: Endpoint, b: Book, ops: seq<Op>, history: seq<Fragment>)
    decreases |ops|
  {
    ops == [] ||
    (&& ep.cfg.mss > 0
     && Faithful(b.una, ep.snd, Shipped(ep, ops[0]), history)
     && ShipsOnly(Apply(ep, ops[0]), Enter(ep, b, ops[0]), ops[1..], history))
  }

  lemma {:induction false} RunAgrees(ep: Endpoint, b: Book, ops: seq<Op>, ep': Endpoint) returns (b': Book)
    requires Inv(ep) && Agrees(ep.snd, b) && Leads(ep, ops, ep')
    ensures Records(ep, b, ops, b') && Agrees(ep'.snd, b') && Longer(b, b')
    ensures ShipsOnly(ep, b, ops, b'.history)
    decreases |ops|
  {
    if ops == [] {
      b' := b;
    } else {
      var ep1, b1 := Apply(ep, ops[0]), Enter(ep, b, ops[0]);
      ApplyKeeps(ep, ops[0]);
      ApplyAgrees(ep, b, ops[0]);
      b' := RunAgrees(ep1, b1, ops[1..], ep');
      FaithfulStill(b.una, ep.snd, Shipped(ep, ops[0]), b1.history, b'.history);
    }
  }

  lemma FaithfulStill(una: nat, s: Snd, ws: seq<Wire>, history: seq<Fragment>, longer: seq<Fragment>)
    requires Faithful(una, s, ws, history) && history <= longer
    ensures Faithful(una, s, ws, longer)
  {
    forall k | 0 <= k < |ws| && ws[k].cmd == PUSH ensures Carries(una, s, ws[k], longer) {
      assert Carries(una, s, ws[k], history);
    }
  }

  /** Each buffered segment's count is the number of times it was encoded, and its data is what was numbered. */
  ghost predicate Counts(s: Snd, b: Book) {
    forall i :: 0 <= i < |s.buf| ==>
      var j := SendIndex(b.una, s, s.buf[i]);
      b.una <= j < b.nxt && s.buf[i].xmit == Number(Count(b.log, j)) && Remembered(b.history, j, View(s.buf[i]))
  }

  lemma AgreesCounts(s: Snd, b: Book)
    requires Agrees(s, b)
    ensures Counts(s, b)
  {
    forall i | 0 <= i < |s.buf| ensures Remembered(b.history, SendIndex(b.una, s, s.buf[i]), View(s.buf[i])) {
    }
  }

  lemma NewBookAgrees(conv: u32, mtu: u32)
    requires OVERHEAD < mtu <= 65535 + OVERHEAD
    ensures Inv(Create(conv, mtu)) && Agrees(Create(conv, mtu).snd, NEW_BOOK)
  {
    CreateInv(conv, mtu);
    assert [] + Views([]) == [] && Payload([]) == [];
  }

  /**
   In every run of one endpoint, with any bytes arriving, from any peer or none: each buffered segment's
   count is the number of times it was encoded, in 32 bits; it still carries the fragment it was numbered
   with, and so did every encoding of it; and the bytes taken from the application are the numbered
   fragments followed by the queue.
   */
  lemma LedgerInRun(conv: u32, mtu: u32, ops: seq<Op>, ep: Endpoint) returns (b: Book)
    requires OVERHEAD < mtu <= 65535 + OVERHEAD && Leads(Create(conv, mtu), ops, ep)
    ensures Records(Create(conv, mtu), NEW_BOOK, ops, b)
    ensures Counts(ep.snd, b) && |b.history| == b.nxt
    ensures ShipsOnly(Create(conv, mtu), NEW_BOOK, ops, b.history)
    ensures b.accepted == Payload(b.history + Views(ep.snd.queue))
  {
    NewBookAgrees(conv, mtu);
    b := RunAgrees(Create(conv, mtu), NEW_BOOK, ops, ep);
    AgreesCounts(ep.snd, b);
  }
}
