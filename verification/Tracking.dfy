/**
 Unbounded indices behind the 32-bit numbers, for one direction of a connection.

 `una`, `nxt` and `rcv` count segments from the start of the connection; `history` lists the
 fragments in the order in which the sender numbered them.
 */
module Tracking {
  import opened Serial
  import opened Segment
  import opened SendQueue
  import opened SendBuffer
  import opened Receiver
  import opened State
  import opened Operations
  import opened Trace
  import opened FlushFacts

  // ---------- the sender ----------

  /** Index of a buffered segment of the sender. */
  function SendIndex(una: nat, s: Snd, seg: Seg): nat {
    una + Sub(seg.sn, s.una)
  }

  ghost predicate Tracked(una: nat, nxt: nat, s: Snd, history: seq<Fragment>) {
    && Ordered(s.una, s.nxt, s.buf)
    && s.una == Number(una) && nxt == una + Sub(s.nxt, s.una)
    && |history| == nxt
    && (forall i :: 0 <= i < |s.buf| ==> Remembered(history, SendIndex(una, s, s.buf[i]), View(s.buf[i])))
  }

  /** The fragment numbered `j`. */
  ghost predicate Remembered(history: seq<Fragment>, j: int, f: Fragment) {
    0 <= j < |history| && history[j] == f
  }

  ghost predicate Flying(una: nat, s: Snd, j: int) {
    exists i :: 0 <= i < |s.buf| && SendIndex(una, s, s.buf[i]) == j
  }

  // ---------- the receiver ----------

  function ReceiveIndex(rcv: nat, r: Rcv, seg: Seg): nat {
    rcv + Sub(seg.sn, r.nxt)
  }

  ghost predicate Holds(rcv: nat, r: Rcv, j: int) {
    0 <= j < rcv || exists i :: 0 <= i < |r.buf| && ReceiveIndex(rcv, r, r.buf[i]) == j
  }

  /** Delivered and queued fragments are the start of the history, buffered ones are in their place. */
  ghost predicate Placed(rcv: nat, r: Rcv, delivered: seq<Fragment>, history: seq<Fragment>) {
    InOrder(rcv, r.nxt, r.queue, delivered, history) && InPlace(rcv, r.nxt, r.buf, history)
  }

  ghost predicate InOrder(
      rcv: nat, nxt: u32, queue: seq<Seg>, delivered: seq<Fragment>, history: seq<Fragment>) {
    && nxt == Number(rcv)
    && |delivered| + |queue| == rcv <= |history|
    && delivered + Views(queue) == history[..rcv]
  }

  ghost predicate InPlace(rcv: nat, nxt: u32, buf: seq<Seg>, history: seq<Fragment>) {
    forall i :: 0 <= i < |buf| ==> Remembered(history, rcv + Sub(buf[i].sn, nxt), View(buf[i]))
  }

  /** Nothing that was held is lost. */
  ghost predicate Onward(rcv: nat, r: Rcv, rcv': nat, r': Rcv) {
    forall j :: Holds(rcv, r, j) ==> Holds(rcv', r', j)
  }

  lemma OnwardTwice(a: nat, ra: Rcv, b: nat, rb: Rcv, c: nat, rc: Rcv)
    requires Onward(a, ra, b, rb) && Onward(b, rb, c, rc)
    ensures Onward(a, ra, c, rc)
  {
  }

  // ---------- arrival ----------

  lemma OffsetOfIndex(rcv: nat, tag: nat)
    ensures rcv <= tag < rcv + MODULUS ==> Sub(Number(tag), Number(rcv)) == tag - rcv
    ensures tag < rcv <= tag + HALF ==> Sub(Number(tag), Number(rcv)) >= HALF
  {
  }

  /** `k` segments drained: the placement moves up by `k`, and nothing held is lost. */
  lemma DrainedPlaced(rcv: nat, r: Rcv, r': Rcv, k: nat, delivered: seq<Fragment>, history: seq<Fragment>)
    requires Sorted(r) && Sorted(r') && Moved(r, r', k) && Placed(rcv, r, delivered, history)
    ensures Placed(rcv + k, r', delivered, history)
    ensures Sub(r'.nxt, r.nxt) == k
    ensures Onward(rcv, r, rcv + k, r')
  {
    BufferFits(r.nxt, r.buf, HALF);
    NumberAhead(rcv, k);
    DrainedInPlace(rcv, r, r', k, history);
    QueueExtends(rcv, r, k, delivered, history);
    ViewsConcat(r.queue, r.buf[..k]);
    Associative(delivered, Views(r.queue), Views(r.buf[..k]));
  }

  /** The same, with the advance read off the numbers. */
  lemma DrainedOnward(rcv: nat, r: Rcv, delivered: seq<Fragment>, history: seq<Fragment>)
      returns (rcv': nat)
    requires Sorted(r) && Placed(rcv, r, delivered, history)
    ensures rcv' == rcv + Sub(Drain(r).nxt, r.nxt)
    ensures Placed(rcv', Drain(r), delivered, history)
    ensures Onward(rcv, r, rcv', Drain(r))
  {
    var r', k := DrainTo(r);
    DrainedPlaced(rcv, r, r', k, delivered, history);
    rcv' := rcv + k;
  }

  lemma DrainTo(r: Rcv) returns (r': Rcv, k: nat)
    requires Sorted(r)
    ensures r' == Drain(r) && Sorted(r') && Moved(r, r', k)
  {
    k := DrainMoves(r);
    r' := Drain(r);
  }

  lemma DrainedInPlace(rcv: nat, r: Rcv, r': Rcv, k: nat, history: seq<Fragment>)
    requires Sorted(r) && Moved(r, r', k) && InPlace(rcv, r.nxt, r.buf, history)
    ensures InPlace(rcv + k, r'.nxt, r'.buf, history)
    ensures Onward(rcv, r, rcv + k, r')
  {
    forall i | k <= i < |r.buf|
      ensures ReceiveIndex(rcv + k, r', r'.buf[i - k]) == ReceiveIndex(rcv, r, r.buf[i])
    {
      assert r'.buf[i - k] == r.buf[i];
      LaterOffset(r, k, i);
    }
    forall i | 0 <= i < |r'.buf|
      ensures Remembered(history, rcv + k + Sub(r'.buf[i].sn, r'.nxt), View(r'.buf[i]))
    {
      assert r'.buf[i] == r.buf[i + k];
      assert Remembered(history, rcv + Sub(r.buf[i + k].sn, r.nxt), View(r.buf[i + k]));
    }
    forall j | Holds(rcv, r, j) ensures Holds(rcv + k, r', j) {
      if !(0 <= j < rcv) {
        var i :| 0 <= i < |r.buf| && ReceiveIndex(rcv, r, r.buf[i]) == j;
        if i >= k { assert ReceiveIndex(rcv + k, r', r'.buf[i - k]) == j; }
      }
    }
  }

  lemma LaterOffset(r: Rcv, k: nat, i: nat)
    requires Sorted(r) && k <= i < |r.buf| && forall l :: 0 <= l < k ==> Sub(r.buf[l].sn, r.nxt) == l
    ensures Sub(r.buf[i].sn, r.nxt) >= k
    ensures Sub(r.buf[i].sn, Number(r.nxt + k)) == Sub(r.buf[i].sn, r.nxt) - k
  {
    if k > 0 { assert Sub(r.buf[k - 1].sn, r.nxt) < Sub(r.buf[i].sn, r.nxt); }
    NumberAdvance(r.nxt, k);
    assert Number(r.nxt) == r.nxt;
  }

  lemma QueueExtends(rcv: nat, r: Rcv, k: nat, delivered: seq<Fragment>, history: seq<Fragment>)
    requires Placed(rcv, r, delivered, history) && k <= |r.buf|
    requires forall i :: 0 <= i < k ==> Sub(r.buf[i].sn, r.nxt) == i
    ensures rcv + k <= |history|
    ensures delivered + Views(r.queue) + Views(r.buf[..k]) == history[..rcv + k]
  {
    forall i | 0 <= i < k ensures rcv + i < |history| && history[rcv + i] == View(r.buf[i]) {
      assert Remembered(history, rcv + Sub(r.buf[i].sn, r.nxt), View(r.buf[i]));
    }
    if k > 0 { assert Remembered(history, rcv + Sub(r.buf[k - 1].sn, r.nxt), View(r.buf[k - 1])); }
    var more, moved := history[rcv..rcv + k], Views(r.buf[..k]);
    assert history[..rcv + k] == history[..rcv] + more;
    forall i | 0 <= i < k ensures more[i] == moved[i] {
      assert history[rcv + i] == View(r.buf[i]);
      assert moved[i] == View(r.buf[..k][i]);
    }
    assert more == moved;
  }

  /** A buffer with all of another's segments holds all that the other holds. */
  lemma HoldsMore(rcv: nat, r: Rcv, r1: Rcv)
    requires r1.nxt == r.nxt && forall i :: 0 <= i < |r.buf| ==> r.buf[i] in r1.buf
    ensures Onward(rcv, r, rcv, r1)
  {
    forall j | Holds(rcv, r, j) ensures Holds(rcv, r1, j) {
      if !(0 <= j < rcv) {
        var i :| 0 <= i < |r.buf| && ReceiveIndex(rcv, r, r.buf[i]) == j;
        var l :| 0 <= l < |r1.buf| && r1.buf[l] == r.buf[i];
        assert ReceiveIndex(rcv, r1, r1.buf[l]) == j;
      }
    }
  }

  lemma InsertMembers<T>(q: seq<T>, k: nat, x: T)
    requires k <= |q|
    ensures var q' := q[..k] + [x] + q[k..];
            && x in q'
            && (forall i :: 0 <= i < |q| ==> q[i] in q')
            && (forall i :: 0 <= i < |q'| ==> q'[i] == x || q'[i] in q)
  {
    var q' := q[..k] + [x] + q[k..];
    assert q'[k] == x;
    forall i | 0 <= i < |q| ensures q[i] in q' {
      assert q[i] == q'[if i < k then i else i + 1];
    }
  }

  lemma StoredPlaced(rcv: nat, r: Rcv, s: Seg, tag: nat, delivered: seq<Fragment>, history: seq<Fragment>)
    requires Sorted(r) && Placed(rcv, r, delivered, history)
    requires rcv <= tag < rcv + r.wnd && s.sn == Number(tag) && Remembered(history, tag, View(s))
    ensures var r1 := r.(buf := Store(r.buf, s));
            && Placed(rcv, r1, delivered, history)
            && Holds(rcv, r1, tag)
            && Onward(rcv, r, rcv, r1)
  {
    var r1 := r.(buf := Store(r.buf, s));
    OffsetOfIndex(rcv, tag);
    var k := Find(r.buf, s.sn).0;
    if Find(r.buf, s.sn).1 {
      FindPlaces(r.nxt, r.buf, s.sn);
      assert ReceiveIndex(rcv, r1, r1.buf[k - 1]) == tag;
    } else {
      InsertMembers(r.buf, k, s);
      InsertedPlaced(rcv, r, r1, s, tag, delivered, history);
    }
  }

  lemma InsertedPlaced(
      rcv: nat, r: Rcv, r1: Rcv, s: Seg, tag: nat, delivered: seq<Fragment>, history: seq<Fragment>)
    requires Placed(rcv, r, delivered, history) && r1.nxt == r.nxt && r1.queue == r.queue
    requires ReceiveIndex(rcv, r, s) == tag && Remembered(history, tag, View(s))
    requires s in r1.buf && forall i :: 0 <= i < |r.buf| ==> r.buf[i] in r1.buf
    requires forall i :: 0 <= i < |r1.buf| ==> r1.buf[i] == s || r1.buf[i] in r.buf
    ensures Placed(rcv, r1, delivered, history)
    ensures Holds(rcv, r1, tag)
    ensures Onward(rcv, r, rcv, r1)
  {
    HoldsMore(rcv, r, r1);
    var l :| 0 <= l < |r1.buf| && r1.buf[l] == s;
    assert ReceiveIndex(rcv, r1, r1.buf[l]) == tag;
    forall i | 0 <= i < |r1.buf|
      ensures Remembered(history, rcv + Sub(r1.buf[i].sn, r1.nxt), View(r1.buf[i]))
    {
      if r1.buf[i] != s {
        var l :| 0 <= l < |r.buf| && r.buf[l] == r1.buf[i];
        assert Remembered(history, rcv + Sub(r.buf[l].sn, r.nxt), View(r.buf[l]));
      }
    }
  }

  /**
   A segment arrives whose true index is `tag`: ahead of the receiver by less than half the number
   space, or behind by at most half. Placement is kept, nothing held is lost, and if the segment is
   acknowledged then it is held.
   */
  lemma ArrivePlaced(rcv: nat, r: Rcv, s: Seg, tag: nat, delivered: seq<Fragment>, history: seq<Fragment>)
      returns (rcv': nat)
    requires Sorted(r) && Placed(rcv, r, delivered, history)
    requires s.sn == Number(tag) && Remembered(history, tag, View(s))
    requires tag < rcv + HALF && rcv <= tag + HALF
    ensures rcv' == rcv + Sub(Arrive(r, s).nxt, r.nxt)
    ensures Placed(rcv', Arrive(r, s), delivered, history)
    ensures Onward(rcv, r, rcv', Arrive(r, s))
    ensures Diff(s.sn, Add(r.nxt, r.wnd)) < 0 ==> Holds(rcv', Arrive(r, s), tag)
  {
    AcknowledgedIsHeld(rcv, r, tag);
    if Acceptable(r, s.sn) {
      rcv' := AcceptedPlaced(rcv, r, s, tag, delivered, history);
    } else {
      rcv' := rcv;
    }
  }

  lemma AcceptedPlaced(rcv: nat, r: Rcv, s: Seg, tag: nat, delivered: seq<Fragment>, history: seq<Fragment>)
      returns (rcv': nat)
    requires Sorted(r) && Placed(rcv, r, delivered, history)
    requires rcv <= tag < rcv + r.wnd && s.sn == Number(tag) && Remembered(history, tag, View(s))
    ensures var r' := Drain(r.(buf := Store(r.buf, s)));
            && rcv' == rcv + Sub(r'.nxt, r.nxt)
            && Placed(rcv', r', delivered, history)
            && Onward(rcv, r, rcv', r')
            && Holds(rcv', r', tag)
  {
    var r1 := r.(buf := Store(r.buf, s));
    OffsetOfIndex(rcv, tag);
    StoreSorted(r, s);
    StoredPlaced(rcv, r, s, tag, delivered, history);
    rcv' := DrainedOnward(rcv, r1, delivered, history);
    OnwardTwice(rcv, r, rcv, r1, rcv', Drain(r1));
  }

  /** The acknowledgement test of input, on a segment not older than half the number space. */
  lemma AcknowledgedIsHeld(rcv: nat, r: Rcv, tag: nat)
    requires r.nxt == Number(rcv) && 0 < r.wnd < HALF
    requires tag < rcv + HALF && rcv <= tag + HALF
    ensures Diff(Number(tag), Add(r.nxt, r.wnd)) < 0 ==> tag < rcv || Acceptable(r, Number(tag))
    ensures Acceptable(r, Number(tag)) ==> rcv <= tag < rcv + r.wnd
  {
    OffsetOfIndex(rcv, tag);
    AcceptableIsOffset(r, Number(tag));
    if tag >= rcv { DiffFromWindow(Number(tag), r.nxt, r.wnd); }
  }

  lemma DiffFromWindow(sn: u32, nxt: u32, wnd: u32)
    requires Sub(sn, nxt) < HALF && wnd < HALF
    ensures Diff(sn, Add(nxt, wnd)) == Sub(sn, nxt) - wnd
  {
  }

  // ---------- delivery ----------

  /**
   A receive call hands over the front of the queue, and what it returns continues what was delivered;
   a peek hands over nothing. Both may move segments from the buffer to the queue.
   */
  lemma DeliveredPlaced(rcv: nat, r: Rcv, len: i32, delivered: seq<Fragment>, history: seq<Fragment>)
      returns (rcv': nat)
    requires Sorted(r) && Placed(rcv, r, delivered, history)
    ensures var d := Receive(r, len);
            && d.taken <= |r.queue|
            && rcv' == rcv + Sub(d.rcv.nxt, r.nxt)
            && Placed(rcv', d.rcv, delivered + Views(r.queue[..d.taken]), history)
            && Onward(rcv, r, rcv', d.rcv)
            && (len >= 0 ==> d.bytes == Payload(Views(r.queue[..d.taken])))
            && (len < 0 ==> d.taken == 0)
  {
    var n := Receive(r, len).taken;
    var r1 := r.(queue := r.queue[n..]);
    var k := ReceiveMoves(r, len);
    TakenPlaced(rcv, r, n, delivered, history);
    DrainedPlaced(rcv, r1, Receive(r, len).rcv, k, delivered + Views(r.queue[..n]), history);
    rcv' := rcv + k;
    OnwardTwice(rcv, r, rcv, r1, rcv', Receive(r, len).rcv);
  }

  lemma TakenPlaced(rcv: nat, r: Rcv, n: nat, delivered: seq<Fragment>, history: seq<Fragment>)
    requires Placed(rcv, r, delivered, history) && n <= |r.queue|
    ensures Placed(rcv, r.(queue := r.queue[n..]), delivered + Views(r.queue[..n]), history)
    ensures Onward(rcv, r, rcv, r.(queue := r.queue[n..]))
  {
    var r1 := r.(queue := r.queue[n..]);
    HoldsMore(rcv, r, r1);
    assert Views(r.queue) == Views(r.queue[..n]) + Views(r1.queue);
    Associative(delivered, Views(r.queue[..n]), Views(r1.queue));
  }

  // ---------- acknowledgement ----------

  /** An incoming segment removes nothing but what it confirms. */
  lemma AcksTracked(una: nat, nxt: nat, s: Snd, history: seq<Fragment>, w: Wire, v: nat, tag: nat)
      returns (una': nat)
    requires Tracked(una, nxt, s, history)
    requires w.una == Number(v) && v <= nxt <= v + HALF
    requires w.cmd == ACK ==> w.sn == Number(tag) && tag < nxt <= tag + HALF
    ensures una' == una + Sub(ApplyAcks(s, w).una, s.una)
    ensures Tracked(una', nxt, ApplyAcks(s, w), history)
    ensures StillFlying(una, s, una', ApplyAcks(s, w), v, w.cmd == ACK, tag)
  {
    ApplyAcksFewer(s, w);
    Survivors(una, nxt, s, w, v, tag);
    una' := FewerTracked(una, nxt, s, ApplyAcks(s, w), history, v, w.cmd == ACK, tag);
  }

  /** The window moved forward over some of the segments, and nothing else changed. */
  ghost predicate Fewer(s: Snd, s': Snd) {
    && Ordered(s'.una, s'.nxt, s'.buf) && Advanced(s, s')
    && (forall x :: x in s'.buf ==> x in s.buf)
    && (forall i :: 0 <= i < |s'.buf| ==>
          Sub(s'.buf[i].sn, s'.una) == Sub(s'.buf[i].sn, s.una) - Sub(s'.una, s.una))
  }

  /** Every segment that is not confirmed is still there. */
  ghost predicate Surviving(una: nat, s: Snd, s': Snd, v: nat, ack: bool, tag: nat) {
    forall i :: 0 <= i < |s.buf| ==> Confirmed(SendIndex(una, s, s.buf[i]), v, ack, tag) || s.buf[i] in s'.buf
  }

  lemma ApplyAcksFewer(s: Snd, w: Wire)
    requires Ordered(s.una, s.nxt, s.buf)
    ensures Fewer(s, ApplyAcks(s, w))
  {
    AcknowledgedKeeps(s.una, s.nxt, s.buf, w.una, w.cmd == ACK, w.sn);
  }

  lemma Survivors(una: nat, nxt: nat, s: Snd, w: Wire, v: nat, tag: nat)
    requires Ordered(s.una, s.nxt, s.buf) && s.una == Number(una) && nxt == una + Sub(s.nxt, s.una)
    requires w.una == Number(v) && v <= nxt <= v + HALF
    requires w.cmd == ACK ==> w.sn == Number(tag) && tag < nxt <= tag + HALF
    ensures Surviving(una, s, ApplyAcks(s, w), v, w.cmd == ACK, tag)
  {
    forall i | 0 <= i < |s.buf| && !Confirmed(SendIndex(una, s, s.buf[i]), v, w.cmd == ACK, tag)
      ensures s.buf[i] in ApplyAcks(s, w).buf
    {
      Survives(una, nxt, s, w, v, tag, i);
    }
  }

  lemma NumberMoved(i: nat, from: u32, to: u32)
    requires from == Number(i)
    ensures to == Number(i + Sub(to, from))
  {
    NumberAdvance(i, Sub(to, from));
  }

  /** What an incoming segment says the peer has: everything below `v`, and `tag` if it acknowledges. */
  ghost predicate Confirmed(j: int, v: nat, ack: bool, tag: nat) {
    j < v || (ack && j == tag)
  }

  ghost predicate StillFlying(una: nat, s: Snd, una': nat, s': Snd, v: nat, ack: bool, tag: nat) {
    forall j :: Flying(una, s, j) ==> Confirmed(j, v, ack, tag) || Flying(una', s', j)
  }

  /** A shrunk window over some of the segments. */
  lemma FewerTracked(
      una: nat, nxt: nat, s: Snd, s': Snd, history: seq<Fragment>, v: nat, ack: bool, tag: nat)
      returns (una': nat)
    requires Tracked(una, nxt, s, history) && Fewer(s, s') && Surviving(una, s, s', v, ack, tag)
    ensures una' == una + Sub(s'.una, s.una)
    ensures Tracked(una', nxt, s', history)
    ensures StillFlying(una, s, una', s', v, ack, tag)
  {
    una' := una + Sub(s'.una, s.una);
    NumberMoved(una, s.una, s'.una);
    FewerRemembered(una, una', s, s', history);
    FewerFlying(una, una', s, s', v, ack, tag);
  }

  lemma FewerFlying(una: nat, una': nat, s: Snd, s': Snd, v: nat, ack: bool, tag: nat)
    requires Fewer(s, s') && Surviving(una, s, s', v, ack, tag) && una' == una + Sub(s'.una, s.una)
    ensures StillFlying(una, s, una', s', v, ack, tag)
  {
    forall j | Flying(una, s, j) && !Confirmed(j, v, ack, tag) ensures Flying(una', s', j) {
      var i :| 0 <= i < |s.buf| && SendIndex(una, s, s.buf[i]) == j;
      var l :| 0 <= l < |s'.buf| && s'.buf[l] == s.buf[i];
      assert SendIndex(una', s', s'.buf[l]) == j;
    }
  }

  lemma FewerRemembered(una: nat, una': nat, s: Snd, s': Snd, history: seq<Fragment>)
    requires Fewer(s, s') && una' == una + Sub(s'.una, s.una)
    requires forall i :: 0 <= i < |s.buf| ==> Remembered(history, SendIndex(una, s, s.buf[i]), View(s.buf[i]))
    ensures forall i :: 0 <= i < |s'.buf| ==> Remembered(history, SendIndex(una', s', s'.buf[i]), View(s'.buf[i]))
  {
    forall i | 0 <= i < |s'.buf| ensures Remembered(history, SendIndex(una', s', s'.buf[i]), View(s'.buf[i])) {
      assert s'.buf[i] in s.buf;
      var l :| 0 <= l < |s.buf| && s.buf[l] == s'.buf[i];
      assert Remembered(history, SendIndex(una, s, s.buf[l]), View(s.buf[l]));
    }
  }

  lemma Survives(una: nat, nxt: nat, s: Snd, w: Wire, v: nat, tag: nat, i: nat)
    requires Ordered(s.una, s.nxt, s.buf) && s.una == Number(una) && nxt == una + Sub(s.nxt, s.una)
    requires w.una == Number(v) && v <= nxt <= v + HALF
    requires w.cmd == ACK ==> w.sn == Number(tag) && tag < nxt <= tag + HALF
    requires i < |s.buf| && SendIndex(una, s, s.buf[i]) >= v
    requires w.cmd == ACK ==> SendIndex(una, s, s.buf[i]) != tag
    ensures s.buf[i] in ApplyAcks(s, w).buf
  {
    var b := ParseUna(s.buf, w.una);
    OffsetOfIndex(una, v);
    assert s.buf[i] in b by {
      UnaRemoves(s.una, s.nxt, s.buf, w.una);
      assert s.buf[i] == b[i - (|s.buf| - |b|)];
    }
    ParseUnaSuffix(s.buf, w.una);
    if w.cmd == ACK {
      SuffixAscends(s.una, s.nxt, s.buf, |s.buf| - |b|);
      SurvivesAck(una, nxt, s, b, tag, s.buf[i]);
    }
  }

  lemma SurvivesAck(una: nat, nxt: nat, s: Snd, b: seq<Seg>, tag: nat, x: Seg)
    requires Ascending(s.una, s.nxt, b) && Sub(s.nxt, s.una) <= WINDOW_LIMIT
    requires s.una == Number(una) && nxt == una + Sub(s.nxt, s.una) && tag < nxt <= tag + HALF
    requires x in b && SendIndex(una, s, x) != tag
    ensures x in ParseAck(Shrink(s.nxt, b), s.nxt, b, Number(tag))
  {
    var una1 := Shrink(s.nxt, b);
    ShrinkKeeps(s.una, s.nxt, b);
    if InWindow(una1, s.nxt, Number(tag)) {
      WindowFromEarlier(s.una, una1, s.nxt, Number(tag));
      InWindowIsOffset(s.una, s.nxt, Number(tag));
      OtherNumber(una, nxt, s, tag, x.sn);
      ScanKeeps(s.una, s.nxt, b, Number(tag));
    }
  }

  lemma OtherNumber(una: nat, nxt: nat, s: Snd, tag: nat, sn: u32)
    requires s.una == Number(una) && nxt == una + Sub(s.nxt, s.una) && Sub(s.nxt, s.una) <= WINDOW_LIMIT
    requires tag < nxt <= tag + HALF && Sub(Number(tag), s.una) < Sub(s.nxt, s.una)
    requires una + Sub(sn, s.una) != tag
    ensures sn != Number(tag)
  {
    OffsetOfIndex(una, tag);
  }

  /** Fast acknowledgement and retransmission change neither number nor payload. */
  lemma SameTracked(una: nat, nxt: nat, s: Snd, buf: seq<Seg>, history: seq<Fragment>)
    requires Tracked(una, nxt, s, history) && SameSegments(s.buf, buf)
    ensures Tracked(una, nxt, s.(buf := buf), history)
    ensures forall j :: Flying(una, s, j) ==> Flying(una, s.(buf := buf), j)
  {
    var s' := s.(buf := buf);
    SameNumbersAscend(s.una, s.nxt, s.buf, buf);
    forall i | 0 <= i < |buf| ensures Remembered(history, SendIndex(una, s', buf[i]), View(buf[i])) {
      assert Remembered(history, SendIndex(una, s, s.buf[i]), View(s.buf[i]));
    }
    forall j | Flying(una, s, j) ensures Flying(una, s', j) {
      var i :| 0 <= i < |s.buf| && SendIndex(una, s, s.buf[i]) == j;
      assert SendIndex(una, s', s'.buf[i]) == j;
    }
  }

  // ---------- numbering ----------

  /** Numbering `k` segments: they join the history, and are all in flight. */
  lemma NumberedTracked(una: nat, nxt: nat, s: Snd, k: nat, s': Snd, history: seq<Fragment>)
    requires Tracked(una, nxt, s, history) && NumberedInto(s, k, s'.buf)
    requires s'.una == s.una && s'.nxt == Number(s.nxt + k) && s'.queue == s.queue[k..]
    requires Sub(s'.nxt, s.una) == Sub(s.nxt, s.una) + k && Ordered(s'.una, s'.nxt, s'.buf)
    ensures Tracked(una, nxt + k, s', history + Views(s.queue[..k]))
    ensures forall j :: Flying(una, s, j) ==> Flying(una, s', j)
    ensures forall j :: nxt <= j < nxt + k ==> Flying(una, s', j)
  {
    var n, history' := |s.buf|, history + Views(s.queue[..k]);
    NewIndices(una, nxt, s, k, s');
    forall i | 0 <= i < |s'.buf|
      ensures Remembered(history', SendIndex(una, s', s'.buf[i]), View(s'.buf[i]))
    {
      if i < n {
        assert Remembered(history, SendIndex(una, s, s.buf[i]), View(s.buf[i]));
      } else {
        assert history'[nxt + (i - n)] == Views(s.queue[..k])[i - n];
      }
    }
  }

  lemma NewIndices(una: nat, nxt: nat, s: Snd, k: nat, s': Snd)
    requires s.una == Number(una) && nxt == una + Sub(s.nxt, s.una) && NumberedInto(s, k, s'.buf)
    requires s'.una == s.una && Sub(s.nxt, s.una) + k < MODULUS
    ensures forall i :: |s.buf| <= i < |s'.buf| ==> SendIndex(una, s', s'.buf[i]) == nxt + (i - |s.buf|)
    ensures forall j :: Flying(una, s, j) ==> Flying(una, s', j)
    ensures forall j :: nxt <= j < nxt + k ==> Flying(una, s', j)
  {
    var n := |s.buf|;
    forall i | n <= i < |s'.buf| ensures SendIndex(una, s', s'.buf[i]) == nxt + (i - n) {
      NewOffset(una, nxt, s, i - n);
    }
    forall j | Flying(una, s, j) ensures Flying(una, s', j) {
      var i :| 0 <= i < n && SendIndex(una, s, s.buf[i]) == j;
      assert SendIndex(una, s', s'.buf[i]) == j;
    }
    forall j | nxt <= j < nxt + k ensures Flying(una, s', j) {
      assert SendIndex(una, s', s'.buf[n + (j - nxt)]) == j;
    }
  }

  lemma QueueSplits(history: seq<Fragment>, queue: seq<Seg>, k: nat)
    requires k <= |queue|
    ensures history + Views(queue[..k]) + Views(queue[k..]) == history + Views(queue)
  {
    var a, b, all := Views(queue[..k]), Views(queue[k..]), Views(queue);
    forall i | 0 <= i < |all| ensures all[i] == (a + b)[i] {
      if i < k { assert a[i] == View(queue[i]); } else { assert b[i - k] == View(queue[i]); }
    }
    assert all == a + b;
    Associative(history, a, b);
  }

  lemma NewOffset(una: nat, nxt: nat, s: Snd, d: nat)
    requires s.una == Number(una) && nxt == una + Sub(s.nxt, s.una) && Sub(s.nxt, s.una) + d < MODULUS
    ensures una + Sub(Number(s.nxt + d), s.una) == nxt + d
  {
    NumberAdvance(s.nxt, d);
    assert Number(s.nxt) == s.nxt;
  }
}
