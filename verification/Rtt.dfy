/**
 The round-trip-time filter and the retransmission timeout, in the 32-bit arithmetic of the code.
 The filter has the shape of section 2 of RFC 6298; the clamps are the code's own.
 */
module Rtt {
  import opened Serial

  const RTO_NODELAY: i32 := 30
  const RTO_MIN: i32 := 100
  const RTO_DEFAULT: i32 := 200
  const RTO_MAX: i32 := 4000
  /** Samples below this never overflow the filter; two samples equal to it do. */
  const SAMPLE_LIMIT: int := 0x1000_0000

  datatype Rtt = Rtt(srtt: i32, rttval: i32, rto: i32, minRto: i32, last: i32)

  /** Divisions of C, toward zero. */
  function HalfToZero(x: int): int {
    if x >= 0 then x / 2 else -(-x / 2)
  }

  function QuarterToZero(x: int): int {
    if x >= 0 then x / 4 else -(-x / 4)
  }

  function EighthToZero(x: int): int {
    if x >= 0 then x / 8 else -(-x / 8)
  }

  /** `_ibound_`, on unsigned words. */
  function Bound(lower: u32, middle: u32, upper: u32): u32 {
    var m := if lower >= middle then lower else middle;
    if m <= upper then m else upper
  }

  /** The smoothed values before the timeout is derived; every 32-bit operation wraps. */
  function Smooth(srtt: i32, rttval: i32, rtt: i32): (i32, i32) {
    if srtt == 0 then (rtt, HalfToZero(rtt))
    else
      var delta: int := ToI32(rtt - srtt);
      var delta := if delta < 0 then -delta else delta;
      var rttval' := ToI32(QuarterToZero(ToI32(3 * rttval) + delta));
      var srtt': i32 := EighthToZero(ToI32(7 * srtt + rtt));
      (if srtt' < 1 then 1 else srtt', rttval')
  }

  function Filter(r: Rtt, rtt: i32): Rtt {
    var (srtt, rttval) := Smooth(r.srtt, r.rttval, rtt);
    var four := ToU32(4 * rttval);
    var rto := ToU32(srtt + if 1 >= four then 1 else four);
    Rtt(srtt, rttval, Bound(ToU32(r.minRto), rto, RTO_MAX), r.minRto, rtt)
  }

  /** The same filter over unbounded integers. */
  function IdealSmooth(srtt: int, rttval: int, rtt: int): (int, int) {
    if srtt == 0 then (rtt, rtt / 2)
    else
      var delta := if rtt < srtt then srtt - rtt else rtt - srtt;
      var srtt' := (7 * srtt + rtt) / 8;
      (if srtt' < 1 then 1 else srtt', (3 * rttval + delta) / 4)
  }

  /** The timeout before its clamps. */
  function IdealSum(srtt: int, rttval: int): int {
    srtt + if 1 >= 4 * rttval then 1 else 4 * rttval
  }

  function IdealTimeout(srtt: int, rttval: int, minRto: int): int {
    var rto := IdealSum(srtt, rttval);
    if rto < minRto then minRto else if rto > RTO_MAX then RTO_MAX else rto
  }

  ghost predicate MinRtoSet(r: Rtt) {
    r.minRto == RTO_NODELAY || r.minRto == RTO_MIN
  }

  /** Whatever the sample and however the arithmetic wraps, the timeout ends up within its clamps. */
  lemma TimeoutWithinClamps(r: Rtt, rtt: i32)
    requires MinRtoSet(r)
    ensures r.minRto <= Filter(r, rtt).rto <= RTO_MAX
    ensures Filter(r, rtt).minRto == r.minRto && Filter(r, rtt).last == rtt
  {
  }

  ghost predicate Filtered(r: Rtt, top: int) {
    0 <= r.srtt <= top && 0 <= r.rttval <= top
  }

  lemma SmoothIsIdeal(srtt: i32, rttval: i32, rtt: i32, top: int)
    requires 1 <= top < SAMPLE_LIMIT && 0 <= srtt <= top && 0 <= rttval <= top && 0 <= rtt <= top
    ensures Smooth(srtt, rttval, rtt) == IdealSmooth(srtt, rttval, rtt)
    ensures var (s, v) := IdealSmooth(srtt, rttval, rtt); 0 <= s <= top && 0 <= v <= top
  {
    if srtt != 0 {
      var delta := if rtt < srtt then srtt - rtt else rtt - srtt;
      InRange(rtt - srtt);
      InRange(3 * rttval);
      InRange(7 * srtt + rtt);
      assert 0 <= (7 * srtt + rtt) / 8 <= top;
      assert 0 <= (3 * rttval + delta) / 4 <= top;
      InRange((3 * rttval + delta) / 4);
    }
  }

  predicate SmoothFits(srtt: int, rttval: int, rtt: int) {
    srtt == 0 || (7 * srtt + rtt < HALF && 3 * rttval < HALF)
  }

  /** The timeout before its clamps fits 32 bits, or what is left of it is clamped all the same. */
  predicate SumFits(srtt: int, rttval: int) {
    IdealSum(srtt, rttval) < MODULUS || IdealSum(srtt, rttval) >= MODULUS + RTO_MAX
  }

  predicate UpdateFits(srtt: int, rttval: int, rtt: int) {
    SmoothFits(srtt, rttval, rtt) && SumFits(IdealSmooth(srtt, rttval, rtt).0, IdealSmooth(srtt, rttval, rtt).1)
  }

  /** The smoothed values and the timeout, in 32 bits and over the integers. */
  function Values(r: Rtt): (int, int, int) {
    (r.srtt, r.rttval, r.rto)
  }

  function IdealValues(srtt: int, rttval: int, rtt: int, minRto: int): (int, int, int) {
    var (s, v) := IdealSmooth(srtt, rttval, rtt);
    (s, v, IdealTimeout(s, v, minRto))
  }

  /**
   When an update goes wrong, for every state and sample that are not negative: the whole 32-bit filter,
   timeout included, is the filter over the integers if and only if smoothing and sum fit.
   */
  lemma FilterIsIdealIff(r: Rtt, rtt: i32)
    requires r.srtt >= 0 && r.rttval >= 0 && rtt >= 0 && MinRtoSet(r)
    ensures Values(Filter(r, rtt)) == IdealValues(r.srtt, r.rttval, rtt, r.minRto) <==>
            UpdateFits(r.srtt, r.rttval, rtt)
  {
    SmoothIsIdealIff(r.srtt, r.rttval, rtt);
    if SmoothFits(r.srtt, r.rttval, rtt) {
      var (s, v) := IdealSmooth(r.srtt, r.rttval, rtt);
      IdealInRange(r.srtt, r.rttval, rtt);
      TimeoutIsIdealIff(s, v, r.minRto);
    }
  }

  lemma IdealInRange(srtt: i32, rttval: i32, rtt: i32)
    requires srtt >= 0 && rttval >= 0 && rtt >= 0 && SmoothFits(srtt, rttval, rtt)
    ensures var (s, v) := IdealSmooth(srtt, rttval, rtt); 0 <= s < HALF && 0 <= v && 4 * v < MODULUS
  {
  }

  lemma TimeoutIsIdealIff(s: i32, v: i32, minRto: i32)
    requires 0 <= s && 0 <= v && 4 * v < MODULUS && (minRto == RTO_NODELAY || minRto == RTO_MIN)
    ensures var four := ToU32(4 * v);
            var rto := ToU32(s + if 1 >= four then 1 else four);
            Bound(ToU32(minRto), rto, RTO_MAX) == IdealTimeout(s, v, minRto) <==> SumFits(s, v)
  {
    InRange(4 * v);
    InRange(minRto);
    InRange(IdealSum(s, v));
    if IdealSum(s, v) >= MODULUS { InRange(IdealSum(s, v) - MODULUS); }
  }

  /** A witness for the sum: the first sample fits the smoothing, and yet the timeout wraps to its minimum. */
  lemma TimeoutWraps(r: Rtt)
    requires r.srtt == 0 && MinRtoSet(r)
    ensures Values(Filter(r, 1431655766)) == (1431655766, 715827883, r.minRto as int)
    ensures IdealValues(0, r.rttval, 1431655766, r.minRto) == (1431655766, 715827883, RTO_MAX as int)
  {
    InRange(4 * 715827883);
    assert ToU32(1431655766 + 4 * 715827883) == 2;
  }

  /**
   When the smoothing wraps, for every state and sample that are not negative: in 32 bits it is the
   smoothing over the integers if and only if it is the first, or both products fit.
   */
  lemma SmoothIsIdealIff(srtt: i32, rttval: i32, rtt: i32)
    requires srtt >= 0 && rttval >= 0 && rtt >= 0
    ensures Smooth(srtt, rttval, rtt) == IdealSmooth(srtt, rttval, rtt) <==> SmoothFits(srtt, rttval, rtt)
  {
    InRange(rtt - srtt);
    InRange(7 * srtt + rtt);
    InRange(3 * rttval);
    if srtt != 0 {
      if 3 * rttval < HALF {
        VariationFits(srtt, rttval, rtt);
      } else {
        VariationWraps(srtt, rttval, rtt);
      }
    }
  }

  lemma VariationFits(srtt: i32, rttval: i32, rtt: i32)
    requires srtt > 0 && rttval >= 0 && rtt >= 0 && 3 * rttval < HALF
    ensures Smooth(srtt, rttval, rtt).1 == IdealSmooth(srtt, rttval, rtt).1
  {
    var delta := if rtt < srtt then srtt - rtt else rtt - srtt;
    InRange(rtt - srtt);
    InRange(3 * rttval);
    InRange((3 * rttval + delta) / 4);
  }

  lemma VariationWraps(srtt: i32, rttval: i32, rtt: i32)
    requires srtt > 0 && rttval >= 0 && rtt >= 0 && 3 * rttval >= HALF
    ensures Smooth(srtt, rttval, rtt).1 != IdealSmooth(srtt, rttval, rtt).1
  {
    var delta: nat := if rtt < srtt then srtt - rtt else rtt - srtt;
    InRange(rtt - srtt);
    WrapsOnce(3 * rttval);
    QuarterWraps(3 * rttval, delta);
  }

  lemma WrapsOnce(x: int)
    requires HALF <= x < HALF + MODULUS
    ensures ToI32(x) == x - MODULUS
  {
    assert ToU32(x) == if x < MODULUS then x else x - MODULUS;
  }

  lemma QuarterWraps(x: int, delta: nat)
    requires HALF <= x < HALF + MODULUS && delta < HALF
    ensures ToI32(QuarterToZero(x - MODULUS + delta)) != (x + delta) / 4
  {
    InRange(QuarterToZero(x - MODULUS + delta));
  }

  lemma InRange(x: int)
    ensures -HALF <= x < HALF ==> ToI32(x) == x
    ensures 0 <= x < MODULUS ==> ToU32(x) == x
  {
  }

  /** One sample within the limit: the filter stays in range and no operation wraps. */
  lemma FilterIsIdeal(r: Rtt, rtt: i32, top: int)
    requires 1 <= top < SAMPLE_LIMIT && Filtered(r, top) && 0 <= rtt <= top && MinRtoSet(r)
    ensures Filtered(Filter(r, rtt), top)
    ensures (Filter(r, rtt).srtt, Filter(r, rtt).rttval) == IdealSmooth(r.srtt, r.rttval, rtt)
    ensures Filter(r, rtt).rto == IdealTimeout(Filter(r, rtt).srtt, Filter(r, rtt).rttval, r.minRto)
  {
    SmoothIsIdeal(r.srtt, r.rttval, rtt, top);
    var (s, v) := IdealSmooth(r.srtt, r.rttval, rtt);
    InRange(4 * v);
    InRange(s + 4 * v);
    InRange(s + 1);
    InRange(r.minRto);
  }

  function Run(r: Rtt, samples: seq<i32>): Rtt {
    if samples == [] then r else Filter(Run(r, samples[..|samples| - 1]), samples[|samples| - 1])
  }

  function IdealRun(srtt: int, rttval: int, samples: seq<i32>): (int, int) {
    if samples == [] then (srtt, rttval)
    else
      var (s, v) := IdealRun(srtt, rttval, samples[..|samples| - 1]);
      IdealSmooth(s, v, samples[|samples| - 1])
  }

  ghost function Largest(samples: seq<i32>): int {
    if samples == [] then 1
    else
      var m, s := Largest(samples[..|samples| - 1]), samples[|samples| - 1];
      if m < s then s else m
  }

  /** After every sample the 32-bit filter has the values of the filter over the integers. */
  ghost predicate FollowsIdeal(r: Rtt, samples: seq<i32>) {
    samples == [] ||
    (var front, last := samples[..|samples| - 1], samples[|samples| - 1];
     && FollowsIdeal(r, front)
     && Values(Run(r, samples)) == IdealValues(IdealRun(0, 0, front).0, IdealRun(0, 0, front).1, last, r.minRto))
  }

  /** Every update of the filter over the integers fits. */
  ghost predicate EveryFits(samples: seq<i32>) {
    samples == [] ||
    (var front, last := samples[..|samples| - 1], samples[|samples| - 1];
     EveryFits(front) && UpdateFits(IdealRun(0, 0, front).0, IdealRun(0, 0, front).1, last))
  }

  /** From a fresh control block, any samples: the 32-bit filter goes wrong exactly when some update does not fit. */
  lemma {:induction false} FollowsIdealIff(r: Rtt, samples: seq<i32>)
    requires r.srtt == 0 && r.rttval == 0 && MinRtoSet(r)
    requires forall i :: 0 <= i < |samples| ==> 0 <= samples[i]
    ensures FollowsIdeal(r, samples) <==> EveryFits(samples)
    ensures IdealRun(0, 0, samples).0 >= 0 && IdealRun(0, 0, samples).1 >= 0 && Run(r, samples).minRto == r.minRto
    ensures FollowsIdeal(r, samples) ==> (Run(r, samples).srtt, Run(r, samples).rttval) == IdealRun(0, 0, samples)
  {
    if samples != [] {
      var front, last := samples[..|samples| - 1], samples[|samples| - 1];
      FollowsIdealIff(r, front);
      if FollowsIdeal(r, front) { FilterIsIdealIff(Run(r, front), last); }
    }
  }

  /**
   From a fresh control block, any number of samples below 2^28: the 32-bit filter is the filter over
   the integers, its state lies between 0 and the largest sample (or 1), and the timeout is clamped.
   */
  lemma {:induction false} RunIsIdeal(r: Rtt, samples: seq<i32>)
    requires r.srtt == 0 && r.rttval == 0 && MinRtoSet(r)
    requires forall i :: 0 <= i < |samples| ==> 0 <= samples[i] < SAMPLE_LIMIT
    ensures 1 <= Largest(samples) < SAMPLE_LIMIT
    ensures Filtered(Run(r, samples), Largest(samples))
    ensures FollowsIdeal(r, samples)
    ensures (Run(r, samples).srtt, Run(r, samples).rttval) == IdealRun(0, 0, samples)
    ensures Run(r, samples).minRto == r.minRto
    ensures samples != [] ==> r.minRto <= Run(r, samples).rto <= RTO_MAX
  {
    if samples != [] {
      var front, s := samples[..|samples| - 1], samples[|samples| - 1];
      RunIsIdeal(r, front);
      FilterIsIdeal(Run(r, front), s, Largest(samples));
      TimeoutWithinClamps(Run(r, front), s);
    }
  }

  /**
   A witness for the limit on samples: two samples of 2^28 make the smoothing wrap, and it leaves the
   integers' path.
   */
  lemma LimitIsReached(r: Rtt)
    requires r.srtt == 0 && r.rttval == 0
    ensures Run(r, [SAMPLE_LIMIT, SAMPLE_LIMIT]).srtt == 1
    ensures IdealRun(0, 0, [SAMPLE_LIMIT, SAMPLE_LIMIT]).0 == SAMPLE_LIMIT
  {
    var samples: seq<i32> := [SAMPLE_LIMIT, SAMPLE_LIMIT];
    assert samples[..1] == [SAMPLE_LIMIT] && samples[..1][..0] == [];
    assert Run(r, samples[..1]) == Filter(Run(r, []), SAMPLE_LIMIT) by {
      assert samples[..1][..|samples[..1]| - 1] == [];
    }
    assert IdealRun(0, 0, samples[..1]) == IdealSmooth(0, 0, SAMPLE_LIMIT);
  }
}
