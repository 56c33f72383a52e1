/**
 Receiver confluence: arrival order and duplication do not matter.
 */
module Confluence {
  import opened Serial
  import opened Segment
  import opened Receiver

  /** What identifies a segment: retransmissions agree on it, not on timestamps and windows. */
  datatype Key = Key(sn: u32, fragment: Fragment)

  function KeyOf(s: Seg): Key {
    Key(s.sn, View(s))
  }

  function Keys(q: seq<Seg>): (r: set<Key>)
    ensures forall s :: s in q ==> KeyOf(s) in r
  {
    set s | s in q :: KeyOf(s)
  }

  function Feed(r: Rcv, xs: seq<Seg>): Rcv {
    if xs == [] then r else Arrive(Feed(r, xs[..|xs| - 1]), xs[|xs| - 1])
  }

  /** Everything received since the queue had `n0` segments, in number order. */
  function Received(r: Rcv, n0: nat): seq<Seg>
    requires n0 <= |r.queue|
  {
    r.queue[n0..] + r.buf
  }

  /** Ascending inside the window of `base`, the first `k` without a gap. */
  ghost predicate Numbered(base: u32, wnd: u32, all: seq<Seg>, k: nat) {
    && k <= |all|
    && SortedFrom(base, all)
    && (forall i :: 0 <= i < |all| ==> Sub(all[i].sn, base) < wnd)
    && (forall i :: 0 <= i < k ==> Sub(all[i].sn, base) == i)
  }

  /** `r` continues `r0`, up to how far it is drained. */
  ghost predicate Continues(r0: Rcv, r: Rcv) {
    && Sorted(r) && |r.queue| <= r.wnd == r0.wnd
    && r0.queue <= r.queue
    && r.nxt == Number(r0.nxt + (|r.queue| - |r0.queue|))
    && Numbered(r0.nxt, r0.wnd, Received(r, |r0.queue|), |r.queue| - |r0.queue|)
  }

  /** `r` can result from `r0` by arrivals with numbers in the window of `r0`. */
  ghost predicate Reached(r0: Rcv, r: Rcv) {
    Continues(r0, r) && Drained(r)
  }

  ghost predicate Agrees(s: Seg, q: seq<Seg>) {
    forall t :: t in q && t.sn == s.sn ==> KeyOf(t) == KeyOf(s)
  }

  /** Draining only moves the boundary between queue and buffer. */
  lemma DrainReached(r0: Rcv, r: Rcv)
    requires Continues(r0, r)
    ensures Reached(r0, Drain(r))
    ensures Received(Drain(r), |r0.queue|) == Received(r, |r0.queue|)
  {
    var m := DrainMoves(r);
    MovedContinues(r0, r, Drain(r), m);
  }

  lemma MovedContinues(r0: Rcv, r: Rcv, r': Rcv, m: nat)
    requires Continues(r0, r) && Sorted(r') && Moved(r, r', m) && (m > 0 ==> |r.queue| + m <= r.wnd)
    ensures Continues(r0, r')
    ensures Received(r', |r0.queue|) == Received(r, |r0.queue|)
  {
    var n0 := |r0.queue|;
    RegroupSame(r, n0, m);
    NumberPlus(r0.nxt, |r.queue| - n0, m);
    LongerRun(r0, r, m);
  }

  lemma LongerRun(r0: Rcv, r: Rcv, m: nat)
    requires Continues(r0, r) && m <= |r.buf|
    requires forall i :: 0 <= i < m ==> Sub(r.buf[i].sn, r.nxt) == i
    ensures Numbered(r0.nxt, r0.wnd, Received(r, |r0.queue|), |r.queue| - |r0.queue| + m)
  {
    var all, k := Received(r, |r0.queue|), |r.queue| - |r0.queue|;
    forall i | k <= i < k + m ensures Sub(all[i].sn, r0.nxt) == i {
      assert all[i] == r.buf[i - k];
      BufferOffset(r0, r, i - k);
    }
  }

  lemma NumberPlus(base: u32, k: nat, m: nat)
    ensures Number(Number(base + k) + m) == Number(base + (k + m))
  {
  }

  lemma RegroupSame(r: Rcv, n0: nat, m: nat)
    requires n0 <= |r.queue| && m <= |r.buf|
    ensures (r.queue + r.buf[..m])[n0..] + r.buf[m..] == Received(r, n0)
  {
    assert r.buf == r.buf[..m] + r.buf[m..];
  }

  lemma OffsetFromNext(base: u32, nxt: u32, k: nat, sn: u32)
    requires nxt == Number(base + k) && k < HALF && Sub(sn, base) < HALF
    ensures Sub(sn, base) >= k ==> Sub(sn, nxt) == Sub(sn, base) - k
    ensures Sub(sn, base) < k ==> Sub(sn, nxt) >= HALF
  {
  }

  /** One arrival adds the segment's key to what was received, or finds it there. */
  lemma ArriveAdds(r0: Rcv, r: Rcv, s: Seg)
    requires Reached(r0, r) && Sub(s.sn, r0.nxt) < r0.wnd
    requires Agrees(s, Received(r, |r0.queue|))
    ensures Reached(r0, Arrive(r, s))
    ensures Keys(Received(Arrive(r, s), |r0.queue|)) == Keys(Received(r, |r0.queue|)) + {KeyOf(s)}
  {
    var k := |r.queue| - |r0.queue|;
    OffsetFromNext(r0.nxt, r.nxt, k, s.sn);
    AcceptableIsOffset(r, s.sn);
    if Sub(s.sn, r0.nxt) < k {
      DeliveredBefore(r0, r, s);
    } else {
      StoreContinues(r0, r, s);
      DrainReached(r0, r.(buf := Store(r.buf, s)));
      StoreKeys(r0, r, s);
    }
  }

  lemma DeliveredBefore(r0: Rcv, r: Rcv, s: Seg)
    requires Continues(r0, r) && Sub(s.sn, r0.nxt) < |r.queue| - |r0.queue|
    requires Agrees(s, Received(r, |r0.queue|))
    ensures KeyOf(s) in Keys(Received(r, |r0.queue|))
  {
    var t := Received(r, |r0.queue|)[Sub(s.sn, r0.nxt)];
    OffsetInjective(t.sn, s.sn, r0.nxt);
    assert t in Received(r, |r0.queue|);
  }

  lemma StoreContinues(r0: Rcv, r: Rcv, s: Seg)
    requires Continues(r0, r)
    requires |r.queue| - |r0.queue| <= Sub(s.sn, r0.nxt) < r0.wnd
    ensures Continues(r0, r.(buf := Store(r.buf, s)))
  {
    OffsetFromNext(r0.nxt, r.nxt, |r.queue| - |r0.queue|, s.sn);
    StoreSorted(r, s);
    if !Find(r.buf, s.sn).1 {
      FindPlaces(r.nxt, r.buf, s.sn);
      InsertedNumbered(r0, r, s, Find(r.buf, s.sn).0);
    }
  }

  lemma StoreKeys(r0: Rcv, r: Rcv, s: Seg)
    requires Continues(r0, r)
    requires |r.queue| - |r0.queue| <= Sub(s.sn, r0.nxt) < r0.wnd
    requires Agrees(s, Received(r, |r0.queue|))
    ensures Keys(r.queue[|r0.queue|..] + Store(r.buf, s)) == Keys(Received(r, |r0.queue|)) + {KeyOf(s)}
  {
    var at := Find(r.buf, s.sn).0;
    if Find(r.buf, s.sn).1 {
      OffsetFromNext(r0.nxt, r.nxt, |r.queue| - |r0.queue|, s.sn);
      SeenBefore(r0, r, s);
    } else {
      var front := r.queue[|r0.queue|..];
      InsertBehind(front, r.buf, at, s);
      KeysInsert(front + r.buf, |front| + at, s);
    }
  }

  lemma SeenBefore(r0: Rcv, r: Rcv, s: Seg)
    requires Continues(r0, r) && Find(r.buf, s.sn).1 && Sub(s.sn, r.nxt) < HALF
    requires Agrees(s, Received(r, |r0.queue|))
    ensures Store(r.buf, s) == r.buf
    ensures KeyOf(s) in Keys(Received(r, |r0.queue|))
  {
    FindPlaces(r.nxt, r.buf, s.sn);
    var t := r.buf[Find(r.buf, s.sn).0 - 1];
    assert t in Received(r, |r0.queue|);
  }

  lemma InsertedNumbered(r0: Rcv, r: Rcv, s: Seg, at: nat)
    requires Continues(r0, r) && at <= |r.buf|
    requires |r.queue| - |r0.queue| <= Sub(s.sn, r0.nxt) < r0.wnd
    requires forall i :: 0 <= i < at ==> Sub(r.buf[i].sn, r.nxt) < Sub(s.sn, r.nxt)
    requires forall i :: at <= i < |r.buf| ==> Sub(s.sn, r.nxt) < Sub(r.buf[i].sn, r.nxt)
    ensures Numbered(r0.nxt, r0.wnd, r.queue[|r0.queue|..] + (r.buf[..at] + [s] + r.buf[at..]),
                     |r.queue| - |r0.queue|)
  {
    var k, all := |r.queue| - |r0.queue|, Received(r, |r0.queue|);
    var front := r.queue[|r0.queue|..];
    InsertPlace(r0, r, s, at);
    InsertBehind(front, r.buf, at, s);
    InsertNumbered(r0.nxt, r0.wnd, all, k, k + at, s, front + (r.buf[..at] + [s] + r.buf[at..]));
  }

  lemma InsertPlace(r0: Rcv, r: Rcv, s: Seg, at: nat)
    requires Continues(r0, r) && at <= |r.buf|
    requires |r.queue| - |r0.queue| <= Sub(s.sn, r0.nxt) < r0.wnd
    requires forall i :: 0 <= i < at ==> Sub(r.buf[i].sn, r.nxt) < Sub(s.sn, r.nxt)
    requires forall i :: at <= i < |r.buf| ==> Sub(s.sn, r.nxt) < Sub(r.buf[i].sn, r.nxt)
    ensures var all, k := Received(r, |r0.queue|), |r.queue| - |r0.queue|;
            && (forall i :: 0 <= i < k + at ==> Sub(all[i].sn, r0.nxt) < Sub(s.sn, r0.nxt))
            && (forall i :: k + at <= i < |all| ==> Sub(s.sn, r0.nxt) < Sub(all[i].sn, r0.nxt))
  {
    var all, k := Received(r, |r0.queue|), |r.queue| - |r0.queue|;
    OffsetFromNext(r0.nxt, r.nxt, k, s.sn);
    forall i | k <= i < |all| ensures Sub(all[i].sn, r0.nxt) == k + Sub(r.buf[i - k].sn, r.nxt) {
      assert all[i] == r.buf[i - k];
      BufferOffset(r0, r, i - k);
    }
  }

  lemma InsertNumbered(base: u32, wnd: u32, all: seq<Seg>, k: nat, at: nat, s: Seg, all': seq<Seg>)
    requires Numbered(base, wnd, all, k) && k <= at <= |all| && Sub(s.sn, base) < wnd
    requires all' == all[..at] + [s] + all[at..]
    requires forall i :: 0 <= i < at ==> Sub(all[i].sn, base) < Sub(s.sn, base)
    requires forall i :: at <= i < |all| ==> Sub(s.sn, base) < Sub(all[i].sn, base)
    ensures Numbered(base, wnd, all', k)
  {
  }

  lemma InsertBehind<T>(front: seq<T>, q: seq<T>, at: nat, x: T)
    requires at <= |q|
    ensures var all := front + q;
            front + (q[..at] + [x] + q[at..]) == all[..|front| + at] + [x] + all[|front| + at..]
  {
  }

  lemma BufferOffset(r0: Rcv, r: Rcv, i: nat)
    requires Continues(r0, r) && i < |r.buf|
    ensures Sub(r.buf[i].sn, r0.nxt) == |r.queue| - |r0.queue| + Sub(r.buf[i].sn, r.nxt)
  {
    var all, k := Received(r, |r0.queue|), |r.queue| - |r0.queue|;
    assert all[k + i] == r.buf[i];
    if k > 0 { assert Sub(all[k - 1].sn, r0.nxt) < Sub(all[k + i].sn, r0.nxt); }
    OffsetFromNext(r0.nxt, r.nxt, k, r.buf[i].sn);
  }

  lemma KeysInsert(q: seq<Seg>, k: nat, s: Seg)
    requires k <= |q|
    ensures Keys(q[..k] + [s] + q[k..]) == Keys(q) + {KeyOf(s)}
  {
    assert q == q[..k] + q[k..];
  }

  /** The keys of the arrivals, together with what was buffered at the start. */
  lemma {:induction false} FeedAdds(r0: Rcv, xs: seq<Seg>)
    requires Tidy(r0)
    requires forall s :: s in xs ==> Sub(s.sn, r0.nxt) < r0.wnd
    requires forall s :: s in xs + r0.buf ==> Agrees(s, xs + r0.buf)
    ensures Reached(r0, Feed(r0, xs))
    ensures Keys(Received(Feed(r0, xs), |r0.queue|)) == Keys(xs + r0.buf)
  {
    if xs == [] {
      assert Received(r0, |r0.queue|) == r0.buf && xs + r0.buf == r0.buf;
    } else {
      var front, s := xs[..|xs| - 1], xs[|xs| - 1];
      assert xs == front + [s];
      FrontAgrees(front, s, r0.buf);
      FeedAdds(r0, front);
      var r := Feed(r0, front);
      AgreesByKeys(s, Received(r, |r0.queue|), front + r0.buf, xs + r0.buf);
      ArriveAdds(r0, r, s);
    }
  }

  lemma FrontAgrees(front: seq<Seg>, s: Seg, buf: seq<Seg>)
    requires forall t :: t in front + [s] + buf ==> Agrees(t, front + [s] + buf)
    ensures forall t :: t in front + buf ==> Agrees(t, front + buf)
    ensures forall t :: t in front + buf ==> t in front + [s] + buf
    ensures s in front + [s] + buf
    ensures Keys(front + [s] + buf) == Keys(front + buf) + {KeyOf(s)}
  {
    KeysInsert(front + buf, |front|, s);
    assert (front + buf)[..|front|] == front && (front + buf)[|front|..] == buf;
    forall t | t in front + buf ensures Agrees(t, front + buf) && t in front + [s] + buf {
      assert t in front + [s] + buf;
      assert forall u :: u in front + buf ==> u in front + [s] + buf;
    }
  }

  lemma AgreesByKeys(s: Seg, q: seq<Seg>, p: seq<Seg>, all: seq<Seg>)
    requires Keys(q) == Keys(p) && Agrees(s, all) && forall t :: t in p ==> t in all
    ensures Agrees(s, q)
  {
    forall t | t in q && t.sn == s.sn ensures KeyOf(t) == KeyOf(s) {
      assert KeyOf(t) in Keys(p);
    }
  }

  /** Equal up to what retransmissions may differ in. */
  ghost predicate SameKeys(a: seq<Seg>, b: seq<Seg>) {
    |a| == |b| && forall i :: 0 <= i < |a| ==> KeyOf(a[i]) == KeyOf(b[i])
  }

  lemma {:induction false} SortedIsUnique(base: u32, a: seq<Seg>, b: seq<Seg>)
    requires SortedFrom(base, a) && SortedFrom(base, b) && Keys(a) == Keys(b)
    ensures SameKeys(a, b)
  {
    if a == [] {
      NoKeys(b);
    } else {
      assert KeyOf(a[0]) in Keys(b);
      LastsAgree(base, a, b);
      KeysFront(base, a);
      KeysFront(base, b);
      SortedIsUnique(base, a[..|a| - 1], b[..|b| - 1]);
      SameKeysSnoc(a, b);
    }
  }

  lemma SameKeysSnoc(a: seq<Seg>, b: seq<Seg>)
    requires a != [] && b != [] && SameKeys(a[..|a| - 1], b[..|b| - 1])
    requires KeyOf(a[|a| - 1]) == KeyOf(b[|b| - 1])
    ensures SameKeys(a, b)
  {
    forall i | 0 <= i < |a| ensures KeyOf(a[i]) == KeyOf(b[i]) {
      if i < |a| - 1 { assert KeyOf(a[..|a| - 1][i]) == KeyOf(b[..|b| - 1][i]); }
    }
  }

  lemma NoKeys(q: seq<Seg>)
    ensures Keys(q) == {} <==> q == []
  {
    if q != [] { assert KeyOf(q[0]) in Keys(q); }
  }

  lemma LastsAgree(base: u32, a: seq<Seg>, b: seq<Seg>)
    requires SortedFrom(base, a) && SortedFrom(base, b) && Keys(a) == Keys(b)
    requires a != [] && b != []
    ensures KeyOf(a[|a| - 1]) == KeyOf(b[|b| - 1])
  {
    var m, n := |a| - 1, |b| - 1;
    assert KeyOf(a[m]) in Keys(b) && KeyOf(b[n]) in Keys(a);
    var j :| 0 <= j < |b| && KeyOf(b[j]) == KeyOf(a[m]);
    var i :| 0 <= i < |a| && KeyOf(a[i]) == KeyOf(b[n]);
    assert Sub(b[j].sn, base) <= Sub(b[n].sn, base) && Sub(a[i].sn, base) <= Sub(a[m].sn, base);
    assert forall l :: 0 <= l < n ==> Sub(b[l].sn, base) < Sub(b[n].sn, base);
  }

  lemma KeysFront(base: u32, a: seq<Seg>)
    requires SortedFrom(base, a) && a != []
    ensures Keys(a[..|a| - 1]) == Keys(a) - {KeyOf(a[|a| - 1])}
  {
    var m := |a| - 1;
    assert a == a[..m] + [a[m]];
    forall s | s in a[..m] ensures KeyOf(s) != KeyOf(a[m]) {
    }
  }

  ghost predicate SameReceiver(a: Rcv, b: Rcv) {
    a.nxt == b.nxt && a.wnd == b.wnd && SameKeys(a.queue, b.queue) && SameKeys(a.buf, b.buf)
  }

  lemma NotShorter(r0: Rcv, a: Rcv, b: Rcv)
    requires Reached(r0, a) && Reached(r0, b)
    requires SameKeys(Received(a, |r0.queue|), Received(b, |r0.queue|))
    ensures |a.queue| >= |b.queue|
  {
    var n0 := |r0.queue|;
    var k := |a.queue| - n0;
    if |a.queue| < |b.queue| {
      var x, y := Received(a, n0)[k], Received(b, n0)[k];
      assert KeyOf(x) == KeyOf(y) && x == a.buf[0];
      BufferOffset(r0, a, 0);
      OffsetInjective(x.sn, a.nxt, a.nxt);
    }
  }

  /**
   Receiver confluence. Two batches of segments with numbers in the current window, equal numbers
   carrying equal payloads, and the same segments up to order and repetition, leave the same queue,
   buffer and next number.
   */
  lemma ArrivalOrderIrrelevant(r: Rcv, xs: seq<Seg>, ys: seq<Seg>)
    requires Tidy(r) && Keys(xs) == Keys(ys)
    requires forall s :: s in xs + ys ==> Sub(s.sn, r.nxt) < r.wnd
    requires forall s :: s in xs + ys + r.buf ==> Agrees(s, xs + ys + r.buf)
    ensures SameReceiver(Feed(r, xs), Feed(r, ys))
  {
    var n0 := |r.queue|;
    BatchAgrees(xs, ys, r.buf);
    FeedAdds(r, xs);
    FeedAdds(r, ys);
    var a, b := Feed(r, xs), Feed(r, ys);
    assert Keys(xs + r.buf) == Keys(xs) + Keys(r.buf);
    assert Keys(ys + r.buf) == Keys(ys) + Keys(r.buf);
    SortedIsUnique(r.nxt, Received(a, n0), Received(b, n0));
    NotShorter(r, a, b);
    NotShorter(r, b, a);
    SplitSame(r, a, b);
  }

  lemma BatchAgrees(xs: seq<Seg>, ys: seq<Seg>, buf: seq<Seg>)
    requires forall s :: s in xs + ys + buf ==> Agrees(s, xs + ys + buf)
    ensures forall s :: s in xs + buf ==> Agrees(s, xs + buf)
    ensures forall s :: s in ys + buf ==> Agrees(s, ys + buf)
  {
    forall s | s in xs + buf ensures Agrees(s, xs + buf) {
      assert s in xs + ys + buf;
      assert forall t :: t in xs + buf ==> t in xs + ys + buf;
    }
    forall s | s in ys + buf ensures Agrees(s, ys + buf) {
      assert s in xs + ys + buf;
      assert forall t :: t in ys + buf ==> t in xs + ys + buf;
    }
  }

  lemma SplitSame(r0: Rcv, a: Rcv, b: Rcv)
    requires Reached(r0, a) && Reached(r0, b) && |a.queue| == |b.queue|
    requires SameKeys(Received(a, |r0.queue|), Received(b, |r0.queue|))
    ensures SameReceiver(a, b)
  {
    QueuesSame(r0, a, b);
    var n0 := |r0.queue|;
    var k := |a.queue| - n0;
    forall i | 0 <= i < |a.buf| ensures KeyOf(a.buf[i]) == KeyOf(b.buf[i]) {
      assert Received(a, n0)[k + i] == a.buf[i] && Received(b, n0)[k + i] == b.buf[i];
    }
  }

  lemma QueuesSame(r0: Rcv, a: Rcv, b: Rcv)
    requires r0.queue <= a.queue && r0.queue <= b.queue && |a.queue| == |b.queue|
    requires SameKeys(Received(a, |r0.queue|), Received(b, |r0.queue|))
    ensures SameKeys(a.queue, b.queue)
  {
    var n0 := |r0.queue|;
    forall i | 0 <= i < |a.queue| ensures KeyOf(a.queue[i]) == KeyOf(b.queue[i]) {
      if i >= n0 {
        assert Received(a, n0)[i - n0] == a.queue[i] && Received(b, n0)[i - n0] == b.queue[i];
      } else {
        assert a.queue[i] == r0.queue[i] && b.queue[i] == r0.queue[i];
      }
    }
  }
}
