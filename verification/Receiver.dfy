/**
 Receiving: reordering, duplicate removal, delivery, peeking.
 */
module Receiver {
  import opened Serial
  import opened Segment
  import opened SendQueue

  /** `nxt` is the next number to move to the queue, `wnd` the receive window in segments. */
  datatype Rcv = Rcv(nxt: u32, wnd: u32, queue: seq<Seg>, buf: seq<Seg>)

  /** The next segment is in the buffer, for the queue to have room. */
  predicate Waiting(r: Rcv) {
    r.buf != [] && r.buf[0].sn == r.nxt
  }

  /** One segment moved from the buffer to the queue. */
  function Step(r: Rcv): Rcv
    requires r.buf != []
  {
    Rcv(Next(r.nxt), r.wnd, r.queue + [r.buf[0]], r.buf[1..])
  }

  /** Moves segments from the buffer to the queue while they are next and the queue has room. */
  function Drain(r: Rcv): Rcv
    decreases |r.buf|
  {
    if Waiting(r) && |r.queue| < r.wnd then Drain(Step(r)) else r
  }

  /** The scan from the tail: the position behind which `sn` goes, and whether it is there already. */
  function FindFrom(buf: seq<Seg>, sn: u32, hi: nat): (r: (nat, bool))
    requires hi <= |buf|
    ensures r.0 <= hi
  {
    if hi == 0 then (0, false)
    else if buf[hi - 1].sn == sn then (hi, true)
    else if Diff(sn, buf[hi - 1].sn) > 0 then (hi, false)
    else FindFrom(buf, sn, hi - 1)
  }

  function Find(buf: seq<Seg>, sn: u32): (r: (nat, bool))
    ensures r.0 <= |buf|
  {
    FindFrom(buf, sn, |buf|)
  }

  function Store(buf: seq<Seg>, s: Seg): seq<Seg> {
    var (k, repeated) := Find(buf, s.sn);
    if repeated then buf else buf[..k] + [s] + buf[k..]
  }

  predicate Acceptable(r: Rcv, sn: u32) {
    Diff(sn, Add(r.nxt, r.wnd)) < 0 && Diff(sn, r.nxt) >= 0
  }

  /** `ikcp_parse_data`. */
  function Arrive(r: Rcv, s: Seg): Rcv {
    if Acceptable(r, s.sn) then Drain(r.(buf := Store(r.buf, s))) else r
  }

  // ---------- the invariant ----------

  ghost predicate SortedFrom(nxt: u32, buf: seq<Seg>) {
    forall i, j :: 0 <= i < j < |buf| ==> Sub(buf[i].sn, nxt) < Sub(buf[j].sn, nxt)
  }

  /** No buffered number is `limit` or more ahead. */
  ghost predicate Reaches(r: Rcv, limit: int) {
    forall i :: 0 <= i < |r.buf| ==> Sub(r.buf[i].sn, r.nxt) < limit
  }

  /** Strictly ascending, duplicate-free, ahead of the next number. Every operation keeps it. */
  ghost predicate Sorted(r: Rcv) {
    0 < r.wnd < HALF && Reaches(r, HALF) && SortedFrom(r.nxt, r.buf)
  }

  /** Queue and buffer are inside the window. Kept as long as the window does not shrink. */
  ghost predicate Within(r: Rcv) {
    |r.queue| <= r.wnd && Reaches(r, r.wnd)
  }

  /** The next segment waits only if the queue is full. Kept as long as the window does not grow while it waits. */
  ghost predicate Drained(r: Rcv) {
    Waiting(r) ==> |r.queue| >= r.wnd
  }

  ghost predicate Tidy(r: Rcv) {
    Sorted(r) && Within(r) && Drained(r)
  }

  /** The buffered segments are at most as many as the window, for they have different numbers in it. */
  lemma {:induction false} BufferFits(nxt: u32, buf: seq<Seg>, limit: nat)
    requires SortedFrom(nxt, buf) && forall i :: 0 <= i < |buf| ==> Sub(buf[i].sn, nxt) < limit
    ensures |buf| <= limit
  {
    if buf != [] {
      var n := |buf| - 1;
      BufferFits(nxt, buf[..n], Sub(buf[n].sn, nxt));
    }
  }

  lemma AcceptableIsOffset(r: Rcv, sn: u32)
    requires r.wnd < HALF
    ensures Acceptable(r, sn) <==> Sub(sn, r.nxt) < r.wnd
  {
  }

  /** What draining moved: the first `k` buffered segments, which carry the next `k` numbers. */
  ghost predicate Moved(r: Rcv, r': Rcv, k: nat) {
    && k <= |r.buf|
    && r' == Rcv(Number(r.nxt + k), r.wnd, r.queue + r.buf[..k], r.buf[k..])
    && (forall i :: 0 <= i < k ==> Sub(r.buf[i].sn, r.nxt) == i)
  }

  lemma {:induction false} DrainMoves(r: Rcv) returns (k: nat)
    requires Sorted(r)
    ensures Sorted(Drain(r)) && Drained(Drain(r))
    ensures Moved(r, Drain(r), k)
    ensures k > 0 ==> |r.queue| + k <= r.wnd
    decreases |r.buf|
  {
    if Waiting(r) && |r.queue| < r.wnd {
      StepSorted(r);
      var k1 := DrainMoves(Step(r));
      k := k1 + 1;
      MovedOneMore(r, Drain(r), k1);
    } else {
      k := 0;
      assert r.queue + r.buf[..0] == r.queue;
    }
  }

  lemma MovedOneMore(r: Rcv, r': Rcv, k: nat)
    requires Sorted(r) && Waiting(r) && Moved(Step(r), r', k)
    ensures Moved(r, r', k + 1)
  {
    var rest := r.buf[1..];
    StepSorted(r);
    assert Number(Next(r.nxt) + k) == Number(r.nxt + (k + 1));
    FrontAndRest(r.queue, r.buf, k);
    forall i | 0 <= i < k + 1 ensures Sub(r.buf[i].sn, r.nxt) == i {
      if i > 0 { assert r.buf[i] == rest[i - 1]; }
    }
  }

  lemma FrontAndRest<T>(q: seq<T>, buf: seq<T>, k: nat)
    requires k < |buf|
    ensures q + [buf[0]] + buf[1..][..k] == q + buf[..k + 1]
    ensures buf[1..][k..] == buf[k + 1..]
  {
  }

  lemma StepSorted(r: Rcv)
    requires Sorted(r) && Waiting(r)
    ensures Sorted(Step(r))
    ensures forall i :: 1 <= i < |r.buf| ==> Sub(r.buf[i].sn, Next(r.nxt)) == Sub(r.buf[i].sn, r.nxt) - 1
  {
    assert Sub(r.buf[0].sn, r.nxt) == 0;
    assert forall i :: 1 <= i < |r.buf| ==> Sub(r.buf[0].sn, r.nxt) < Sub(r.buf[i].sn, r.nxt);
  }

  lemma {:induction false} DrainReaches(r: Rcv, limit: int)
    requires Sorted(r) && Reaches(r, limit)
    ensures Reaches(Drain(r), limit)
    decreases |r.buf|
  {
    if Waiting(r) && |r.queue| < r.wnd {
      StepSorted(r);
      DrainReaches(Step(r), limit);
    }
  }

  lemma DrainWithin(r: Rcv)
    requires Sorted(r) && Within(r)
    ensures Within(Drain(r))
  {
    var k := DrainMoves(r);
    DrainReaches(r, r.wnd);
  }

  /** Where an acceptable segment goes: behind everything before it, in front of everything after. */
  lemma {:induction false} FindPlacesFrom(nxt: u32, buf: seq<Seg>, sn: u32, hi: nat)
    requires SortedFrom(nxt, buf) && Sub(sn, nxt) < HALF && hi <= |buf|
    requires forall i :: 0 <= i < |buf| ==> Sub(buf[i].sn, nxt) < HALF
    requires forall i :: hi <= i < |buf| ==> Sub(sn, nxt) < Sub(buf[i].sn, nxt)
    ensures var (k, repeated) := FindFrom(buf, sn, hi);
            && (repeated ==> k > 0 && buf[k - 1].sn == sn)
            && (!repeated && k > 0 ==> Sub(buf[k - 1].sn, nxt) < Sub(sn, nxt))
            && (forall i :: k <= i < |buf| ==> Sub(sn, nxt) < Sub(buf[i].sn, nxt))
  {
    if hi > 0 {
      DiffByOffset(sn, buf[hi - 1].sn, nxt);
      OffsetInjective(sn, buf[hi - 1].sn, nxt);
      if buf[hi - 1].sn != sn && Diff(sn, buf[hi - 1].sn) <= 0 {
        FindPlacesFrom(nxt, buf, sn, hi - 1);
      }
    }
  }

  lemma FindPlaces(nxt: u32, buf: seq<Seg>, sn: u32)
    requires SortedFrom(nxt, buf) && Sub(sn, nxt) < HALF
    requires forall i :: 0 <= i < |buf| ==> Sub(buf[i].sn, nxt) < HALF
    ensures var (k, repeated) := Find(buf, sn);
            && (repeated ==> k > 0 && buf[k - 1].sn == sn)
            && (!repeated ==> forall i :: 0 <= i < k ==> Sub(buf[i].sn, nxt) < Sub(sn, nxt))
            && (forall i :: k <= i < |buf| ==> Sub(sn, nxt) < Sub(buf[i].sn, nxt))
  {
    FindPlacesFrom(nxt, buf, sn, |buf|);
    var (k, repeated) := Find(buf, sn);
    if !repeated && k > 0 {
      assert forall i :: 0 <= i < k - 1 ==> Sub(buf[i].sn, nxt) < Sub(buf[k - 1].sn, nxt);
    }
  }

  lemma StoreSorted(r: Rcv, s: Seg)
    requires Sorted(r) && Sub(s.sn, r.nxt) < HALF
    ensures Sorted(r.(buf := Store(r.buf, s)))
  {
    FindPlaces(r.nxt, r.buf, s.sn);
  }

  lemma StoreReaches(r: Rcv, s: Seg, limit: int)
    requires Reaches(r, limit) && Sub(s.sn, r.nxt) < limit
    ensures Reaches(r.(buf := Store(r.buf, s)), limit)
  {
  }

  /** Every arrival, acceptable or not, keeps the buffer sorted, within its reach, and drained. */
  lemma ArriveKeepsSorted(r: Rcv, s: Seg, limit: int)
    requires Sorted(r) && Reaches(r, limit) && r.wnd <= limit
    ensures Sorted(Arrive(r, s)) && Reaches(Arrive(r, s), limit) && Arrive(r, s).wnd == r.wnd
    ensures Drained(r) ==> Drained(Arrive(r, s))
  {
    AcceptableIsOffset(r, s.sn);
    if Acceptable(r, s.sn) {
      var r1 := r.(buf := Store(r.buf, s));
      StoreSorted(r, s);
      StoreReaches(r, s, limit);
      var k := DrainMoves(r1);
      DrainReaches(r1, limit);
    }
  }

  /** Every arrival keeps the receiver's whole invariant, and the buffer no larger than the window. */
  lemma ArriveKeepsTidy(r: Rcv, s: Seg)
    requires Tidy(r)
    ensures Tidy(Arrive(r, s)) && Arrive(r, s).wnd == r.wnd
    ensures |Arrive(r, s).buf| <= r.wnd
  {
    ArriveKeepsSorted(r, s, r.wnd);
    AcceptableIsOffset(r, s.sn);
    if Acceptable(r, s.sn) {
      StoreSorted(r, s);
      var k := DrainMoves(r.(buf := Store(r.buf, s)));
    }
    var r' := Arrive(r, s);
    BufferFits(r'.nxt, r'.buf, r'.wnd);
  }

  // ---------- delivery ----------

  function Bytes(queue: seq<Seg>): seq<byte> {
    Payload(Views(queue))
  }

  /**
   How many whole segments a receive takes that has `total` bytes already: the sum of the lengths is
   kept in 32 bits and compared with `room`.
   */
  function Fit(queue: seq<Seg>, total: u32, room: u32): (n: nat)
    ensures n <= |queue|
  {
    if queue == [] || ToU32(total + |queue[0].data|) > room then 0
    else 1 + Fit(queue[1..], ToU32(total + |queue[0].data|), room)
  }

  /** What a receive call gives back, and the receiver after it. */
  datatype Delivery = Delivery(code: int, bytes: seq<byte>, taken: nat, rcv: Rcv, tellWindow: bool)

  const NOTHING: int := -1

  function Magnitude(len: i32): u32 {
    var n: int := len;
    if n < 0 then -n else n
  }

  /** `ikcp_recv`; a negative length peeks. */
  function Receive(r: Rcv, len: i32): Delivery {
    if r.queue == [] then Delivery(NOTHING, [], 0, r, false)
    else
      var n := Fit(r.queue, 0, Magnitude(len));
      var bytes := Bytes(r.queue[..n]);
      var r' := Drain(if len < 0 then r else r.(queue := r.queue[n..]));
      Delivery(ToI32(|bytes|), bytes, if len < 0 then 0 else n, r', |r.queue| >= r.wnd && |r'.queue| < r.wnd)
  }

  lemma BytesFront(queue: seq<Seg>, n: nat)
    requires 0 < n <= |queue|
    ensures Bytes(queue[..n]) == queue[0].data + Bytes(queue[1..][..n - 1])
  {
    assert Views(queue[..n])[1..] == Views(queue[1..][..n - 1]);
  }

  lemma BytesSnoc(queue: seq<Seg>, i: nat)
    requires i < |queue|
    ensures Bytes(queue[..i + 1]) == Bytes(queue[..i]) + queue[i].data
  {
    var a, b := Views(queue[..i]), Views(queue[i..i + 1]);
    assert Views(queue[..i + 1]) == a + b;
    PayloadConcat(a, b);
    assert b[1..] == [] && Payload(b) == b[0].data + Payload(b[1..]);
  }

  /** The longest prefix of whole segments within the room, over the integers. */
  function Longest(queue: seq<Seg>, total: nat, room: nat): (n: nat)
    ensures n <= |queue|
  {
    if queue == [] || total + |queue[0].data| > room then 0
    else 1 + Longest(queue[1..], total + |queue[0].data|, room)
  }

  lemma {:induction false} LongestIs(queue: seq<Seg>, total: nat, room: nat, m: nat)
    requires total <= room && m <= |queue|
    ensures total + |Bytes(queue[..m])| <= room <==> m <= Longest(queue, total, room)
  {
    if m > 0 {
      BytesFront(queue, m);
      if total + |queue[0].data| <= room {
        LongestIs(queue[1..], total + |queue[0].data|, room, m - 1);
      }
    }
  }

  /** The first segment that does not fit does not seem to fit by a sum that wraps to within the room. */
  predicate Stops(queue: seq<Seg>, total: u32, room: u32) {
    var n := Longest(queue, total, room);
    n == |queue| || ToU32(total + |Bytes(queue[..n + 1])|) > room
  }

  /** Any payloads: a receive takes the longest prefix of whole segments exactly if that sum does not wrap so. */
  lemma {:induction false} FitIsLongestIff(queue: seq<Seg>, total: u32, room: u32)
    requires total <= room
    ensures Fit(queue, total, room) == Longest(queue, total, room) <==> Stops(queue, total, room)
  {
    if queue != [] {
      var n, sum := Longest(queue, total, room), total + |queue[0].data|;
      if sum <= room {
        FitsWord(sum);
        FitIsLongestIff(queue[1..], sum, room);
        if n < |queue| { BytesFront(queue, n + 1); }
      } else {
        BytesFront(queue, 1);
        assert Bytes(queue[1..][..0]) == [];
      }
    }
  }

  /** Payloads of less than 2^31 bytes never wrap so. */
  lemma {:induction false} ShortStops(queue: seq<Seg>, total: u32, room: u32)
    requires total <= room <= HALF && forall i :: 0 <= i < |queue| ==> |queue[i].data| < HALF
    ensures Stops(queue, total, room)
  {
    var n := Longest(queue, total, room);
    LongestIs(queue, total, room, n);
    if n < |queue| {
      BytesSnoc(queue, n);
      LongestIs(queue, total, room, n + 1);
      FitsWord(total + |Bytes(queue[..n + 1])|);
    }
  }

  /** The sum that the code keeps, of what it takes. */
  lemma {:induction false} FitSum(queue: seq<Seg>, total: u32, room: u32)
    requires total <= room
    ensures ToU32(total + |Bytes(queue[..Fit(queue, total, room)])|) <= room
  {
    if queue != [] && ToU32(total + |queue[0].data|) <= room {
      var sum := ToU32(total + |queue[0].data|);
      FitSum(queue[1..], sum, room);
      BytesFront(queue, Fit(queue, total, room));
      WordOfSum(total + |queue[0].data|, |Bytes(queue[1..][..Fit(queue[1..], sum, room)])|);
    } else {
      FitsWord(total);
    }
  }

  lemma WordOfSum(a: nat, b: nat)
    ensures ToU32(ToU32(a) + b) == ToU32(a + b)
  {
  }

  /**
   Any receive or peek: it returns the bytes of a prefix of the queue, removes that prefix unless it
   peeks, and refills the queue from the buffer in number order.
   */
  lemma ReceiveMoves(r: Rcv, len: i32) returns (k: nat)
    requires Sorted(r)
    ensures var d := Receive(r, len);
            && Sorted(d.rcv) && d.rcv.wnd == r.wnd && (Drained(r) ==> Drained(d.rcv))
            && d.taken <= |r.queue| && (len < 0 ==> d.taken == 0)
            && d.bytes == Bytes(r.queue[..Fit(r.queue, 0, Magnitude(len))])
            && (len >= 0 ==> d.bytes == Bytes(r.queue[..d.taken]))
            && Moved(r.(queue := r.queue[d.taken..]), d.rcv, k)
  {
    var d := Receive(r, len);
    var r1 := r.(queue := r.queue[d.taken..]);
    assert r.queue[0..] == r.queue && r.queue[..0] == [];
    if r.queue == [] {
      k := 0;
      assert r.queue + r.buf[..0] == r.queue;
    } else {
      k := DrainMoves(r1);
    }
  }

  /** And it stays within its reach. */
  lemma ReceiveReaches(r: Rcv, len: i32, limit: int)
    requires Sorted(r) && Reaches(r, limit)
    ensures Reaches(Receive(r, len).rcv, limit)
  {
    if r.queue != [] {
      DrainReaches(r, limit);
      DrainReaches(r.(queue := r.queue[Fit(r.queue, 0, Magnitude(len))..]), limit);
    }
  }

  /**
   With a tidy receiver, a receive returns the bytes of a prefix of whole segments, and their count in 32
   bits, which is within the room; it removes exactly that prefix, refills the queue, and stays tidy. The
   prefix is the longest that fits exactly if the sum of the lengths does not wrap to within the room.
   */
  lemma ReceiveDelivers(r: Rcv, len: i32)
    requires Tidy(r) && len >= 0
    ensures var d := Receive(r, len);
            && Tidy(d.rcv) && d.rcv.wnd == r.wnd
            && d.taken <= |r.queue|
            && d.bytes == Bytes(r.queue[..d.taken])
            && (exists k :: Moved(r.(queue := r.queue[d.taken..]), d.rcv, k))
            && (if r.queue == [] then d.code == -1 else d.code == ToU32(|d.bytes|) <= len)
            && (d.tellWindow <==> |r.queue| == r.wnd && |d.rcv.queue| < r.wnd)
    ensures Stops(r.queue, 0, len) <==> TakesLongest(r.queue, len, Receive(r, len).taken)
    ensures Stops(r.queue, 0, len) && r.queue != [] ==> Receive(r, len).code == |Receive(r, len).bytes|
  {
    var k := ReceiveMoves(r, len);
    ReceiveWithin(r, len);
    ReceiveCode(r, len);
    FitTakesLongest(r.queue, len);
    ReceiveTells(r, len);
  }

  /** What a receive returns, in any state. */
  lemma ReceiveCode(r: Rcv, len: i32)
    requires len >= 0
    ensures var d := Receive(r, len);
            && d.taken == Fit(r.queue, 0, len)
            && (d.code < 0 <==> r.queue == [])
            && (d.code >= 0 ==> d.code == ToU32(|d.bytes|) <= len)
            && (r.queue != [] ==> d.code == ToI32(|Bytes(r.queue[..Fit(r.queue, 0, len)])|))
  {
    FitSum(r.queue, 0, len);
  }

  lemma ReceiveTells(r: Rcv, len: i32)
    requires |r.queue| <= r.wnd
    ensures var d := Receive(r, len); d.tellWindow <==> |r.queue| == r.wnd && |d.rcv.queue| < r.wnd
  {
  }

  lemma FitTakesLongest(queue: seq<Seg>, len: i32)
    requires len >= 0
    ensures Stops(queue, 0, len) <==> TakesLongest(queue, len, Fit(queue, 0, len))
    ensures Stops(queue, 0, len) ==> ToI32(|Bytes(queue[..Fit(queue, 0, len)])|) == |Bytes(queue[..Fit(queue, 0, len)])|
  {
    var n := Fit(queue, 0, len);
    TakesLongestIff(queue, len, n);
    FitIsLongestIff(queue, 0, len);
    if n == Longest(queue, 0, len) {
      LongestIs(queue, 0, len, n);
      FitsWord(|Bytes(queue[..n])|);
    }
  }

  /** `n` whole segments fit, and no more. */
  ghost predicate TakesLongest(queue: seq<Seg>, len: nat, n: nat) {
    forall m :: 0 <= m <= |queue| ==> (|Bytes(queue[..m])| <= len <==> m <= n)
  }

  lemma TakesLongestIff(queue: seq<Seg>, len: nat, n: nat)
    requires n <= |queue|
    ensures TakesLongest(queue, len, n) <==> n == Longest(queue, 0, len)
  {
    forall m | 0 <= m <= |queue| ensures |Bytes(queue[..m])| <= len <==> m <= Longest(queue, 0, len) {
      LongestIs(queue, 0, len, m);
    }
    LongestIs(queue, 0, len, n);
    LongestIs(queue, 0, len, Longest(queue, 0, len));
  }

  lemma ReceiveWithin(r: Rcv, len: i32)
    requires Sorted(r) && Within(r)
    ensures Within(Receive(r, len).rcv)
  {
    if r.queue != [] {
      DrainWithin(r);
      DrainWithin(r.(queue := r.queue[Fit(r.queue, 0, Magnitude(len))..]));
    }
  }

  lemma {:induction false} DrainShortens(r: Rcv)
    ensures |Drain(r).buf| <= |r.buf|
    ensures |Drain(r).buf| == |r.buf| <==> Drain(r) == r
    ensures Drain(r) == r <==> Drained(r)
    decreases |r.buf|
  {
    if Waiting(r) && |r.queue| < r.wnd {
      DrainShortens(Step(r));
    }
  }

  /**
   A peek returns what the receive of the same size would. It changes nothing at all if and only if the
   queue is empty or the receiver is drained.
   */
  lemma PeekChangesNothing(r: Rcv, len: i32)
    requires len < 0
    ensures var d := Receive(r, len);
            && d.taken == 0
            && (len > -HALF ==> d.code == Receive(r, -len).code && d.bytes == Receive(r, -len).bytes)
            && (d.rcv == r <==> r.queue == [] || Drained(r))
            && (d.rcv == r ==> !d.tellWindow)
  {
    DrainShortens(r);
  }

  /**
   Growing the window keeps a tidy receiver tidy exactly when no segment waits for room in the queue; a
   queue that is not full is enough. Otherwise even a peek would then move segments.
   */
  lemma GrowthKeepsTidyIff(r: Rcv, wnd: u32)
    requires Tidy(r) && r.wnd < wnd < HALF
    ensures Tidy(r.(wnd := wnd)) <==> !Waiting(r)
    ensures |r.queue| < r.wnd ==> Tidy(r.(wnd := wnd))
    ensures Waiting(r) ==> Receive(r.(wnd := wnd), -1).rcv != r.(wnd := wnd)
  {
    PeekChangesNothing(r.(wnd := wnd), -1);
  }

  /** The failing state is reached: the next segment arrives when the queue is full. */
  lemma ArrivalWaits(r: Rcv, s: Seg, wnd: u32)
    requires Tidy(r) && |r.queue| == r.wnd && r.buf == [] && s.sn == r.nxt && r.wnd < wnd < HALF
    ensures var r' := Arrive(r, s);
            && r' == r.(buf := [s]) && Tidy(r') && !Tidy(r'.(wnd := wnd))
            && Receive(r'.(wnd := wnd), -1).rcv != r'.(wnd := wnd)
  {
    ArriveKeepsTidy(r, s);
    AcceptableIsOffset(r, s.sn);
    assert [][..0] + [s] + [][0..] == [s];
    GrowthKeepsTidyIff(Arrive(r, s), wnd);
  }

  /** The receive loop, from the `n`-th segment on: sum, bytes and number of segments at its end. */
  function TakeFrom(queue: seq<Seg>, n: nat, total: u32, bytes: seq<byte>, room: u32): (u32, seq<byte>, nat)
    requires n <= |queue|
    decreases |queue| - n
  {
    if n == |queue| || ToU32(total + |queue[n].data|) > room then (total, bytes, n)
    else TakeFrom(queue, n + 1, ToU32(total + |queue[n].data|), bytes + queue[n].data, room)
  }

  /** The receive loop has taken `n` segments. */
  ghost predicate Taking(queue: seq<Seg>, n: nat, total: u32, bytes: seq<byte>, room: u32) {
    && n <= |queue|
    && total == ToU32(|bytes|) && bytes == Bytes(queue[..n])
    && Fit(queue, 0, room) == n + Fit(queue[n..], total, room)
  }

  /** The loop takes what `Fit` says, returns its bytes, and sums up in 32 bits. */
  lemma LoopTakes(queue: seq<Seg>, room: u32)
    ensures var n := Fit(queue, 0, room);
            TakeFrom(queue, 0, 0, [], room) == (ToU32(|Bytes(queue[..n])|), Bytes(queue[..n]), n)
  {
    assert queue[..0] == [] && queue[0..] == queue;
    LoopTakesFrom(queue, 0, 0, [], room);
  }

  lemma {:induction false} LoopTakesFrom(queue: seq<Seg>, n: nat, total: u32, bytes: seq<byte>, room: u32)
    requires Taking(queue, n, total, bytes, room)
    ensures var (sum, all, k) := TakeFrom(queue, n, total, bytes, room);
            Taking(queue, k, sum, all, room) && k == Fit(queue, 0, room)
    decreases |queue| - n
  {
    if n == |queue| || ToU32(total + |queue[n].data|) > room {
      TakingEnds(queue, n, total, bytes, room);
    } else {
      TakingMore(queue, n, total, bytes, room);
      LoopTakesFrom(queue, n + 1, ToU32(total + |queue[n].data|), bytes + queue[n].data, room);
    }
  }

  lemma TakingMore(queue: seq<Seg>, n: nat, total: u32, bytes: seq<byte>, room: u32)
    requires Taking(queue, n, total, bytes, room) && n < |queue| && ToU32(total + |queue[n].data|) <= room
    ensures Taking(queue, n + 1, ToU32(total + |queue[n].data|), bytes + queue[n].data, room)
  {
    BytesSnoc(queue, n);
    assert queue[n..][1..] == queue[n + 1..];
    WordOfSum(|bytes|, |queue[n].data|);
  }

  lemma TakingEnds(queue: seq<Seg>, n: nat, total: u32, bytes: seq<byte>, room: u32)
    requires Taking(queue, n, total, bytes, room)
    requires n == |queue| || ToU32(total + |queue[n].data|) > room
    ensures n == Fit(queue, 0, room)
  {
  }

  // ---------- the size of the next message ----------

  function SumToZero(queue: seq<Seg>): nat {
    if queue == [] then 0
    else
      var later: nat := if queue[0].frg == 0 then 0 else SumToZero(queue[1..]);
      |queue[0].data| + later
  }

  /** `ikcp_peeksize`. */
  function PeekSize(queue: seq<Seg>): int {
    if queue == [] then NOTHING
    else if queue[0].frg == 0 then |queue[0].data|
    else if |queue| < queue[0].frg + 1 then NOTHING
    else SumToZero(queue)
  }

  /** `m` is where the head message ends. */
  ghost predicate EndsAt(queue: seq<Seg>, m: nat) {
    m < |queue| && queue[m].frg == 0 && forall i :: 0 <= i < m ==> queue[i].frg != 0
  }

  lemma {:induction false} ChainCountsDown(queue: seq<Seg>, i: nat)
    requires Chained(Views(queue)) && queue != [] && i < |queue| && i <= queue[0].frg
    ensures queue[i].frg == queue[0].frg - i
  {
    if i > 0 {
      ChainCountsDown(queue, i - 1);
      assert Views(queue)[i - 1].frg > 0;
      assert Views(queue)[i - 1 + 1].frg == Views(queue)[i - 1].frg - 1;
    }
  }

  lemma {:induction false} SumToEnd(queue: seq<Seg>, m: nat)
    requires EndsAt(queue, m)
    ensures SumToZero(queue) == |Bytes(queue[..m + 1])|
  {
    BytesFront(queue, m + 1);
    if m == 0 {
      assert queue[1..][..0] == [];
    } else {
      assert queue[0].frg != 0;
      SumToEnd(queue[1..], m - 1);
    }
  }

  /**
   On any contiguous part of a sequence of fragmented messages: the size is known exactly when the
   end of the head message is queued, and is then the byte count of all that is left of it.
   */
  lemma PeekSizeIsRemainder(queue: seq<Seg>)
    requires Chained(Views(queue))
    ensures PeekSize(queue) >= 0 <==> exists m :: EndsAt(queue, m)
    ensures forall m :: EndsAt(queue, m) ==> PeekSize(queue) == |Bytes(queue[..m + 1])|
  {
    if queue != [] {
      var f := queue[0].frg;
      if f < |queue| {
        forall i | 0 <= i <= f ensures queue[i].frg == f - i {
          ChainCountsDown(queue, i);
        }
        assert EndsAt(queue, f);
        SumToEnd(queue, f);
      } else {
        forall i | 0 <= i < |queue| ensures queue[i].frg != 0 {
          ChainCountsDown(queue, i);
        }
      }
    }
  }
}
