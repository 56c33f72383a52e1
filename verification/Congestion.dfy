/**
 The congestion window: a segment count `cwnd` shadowed by a byte count `incr`.
 */
module Congestion {
  import opened Serial
  import opened Segment

  const THRESHOLD_MIN: u32 := 2

  datatype Cong = Cong(cwnd: u32, incr: u32, ssthresh: u32)

  function Mul(a: u32, b: u32): u32 {
    ToU32(a * b)
  }

  function Quotient(a: u32, b: u32): u32
    requires b > 0
  {
    DivBounds(a, b);
    a / b
  }

  function Threshold(n: u32): u32 {
    if n < THRESHOLD_MIN then THRESHOLD_MIN else n
  }

  /** Growth on an acknowledged advance, in 32-bit arithmetic, before the last clamp. */
  function Grown(c: Cong, mss: u32): Cong
    requires mss > 0
  {
    if c.cwnd < c.ssthresh then
      c.(cwnd := Next(c.cwnd), incr := Add(c.incr, mss))
    else
      var incr: u32 := if c.incr < mss then mss else c.incr;
      var incr := Add(incr, Add(Quotient(Mul(mss, mss), incr), mss / 16));
      c.(incr := incr, cwnd := if Mul(Next(c.cwnd), mss) <= incr then Next(c.cwnd) else c.cwnd)
  }

  function Clamp(c: Cong, rmtWnd: u16, mss: u32): Cong {
    if c.cwnd > rmtWnd then c.(cwnd := rmtWnd, incr := Mul(rmtWnd, mss)) else c
  }

  /** What input does when the send window has advanced. */
  function OnAdvance(c: Cong, rmtWnd: u16, mss: u32): Cong
    requires mss > 0
  {
    if c.cwnd >= rmtWnd then c else Clamp(Grown(c, mss), rmtWnd, mss)
  }

  /** After fast retransmissions. `resent` is the fast-resend setting, or 2^32 - 1 when it is off. */
  function OnFastResend(c: Cong, inflight: u32, resent: u32, mss: u32): Cong {
    var ssthresh := Threshold(inflight / 2);
    var cwnd := Add(ssthresh, resent);
    Cong(cwnd, Mul(cwnd, mss), ssthresh)
  }

  /** After a timeout. `window` is the effective window of the flush. */
  function OnLoss(c: Cong, window: u32, mss: u32): Cong {
    Cong(1, mss, Threshold(window / 2))
  }

  /** What flush does at its end. */
  function OnFlush(c: Cong, change: bool, lost: bool, inflight: u32, resent: u32, window: u32, mss: u32): Cong {
    var c := if change then OnFastResend(c, inflight, resent, mss) else c;
    var c := if lost then OnLoss(c, window, mss) else c;
    if c.cwnd < 1 then c.(cwnd := 1, incr := mss) else c
  }

  /** `incr` is worth exactly `cwnd` whole segments. */
  ghost predicate Tracks(c: Cong, mss: int) {
    c.cwnd * mss <= c.incr < (c.cwnd + 1) * mss
  }

  ghost predicate Sound(c: Cong, mss: int) {
    Tracks(c, mss) && c.ssthresh >= THRESHOLD_MIN
  }

  lemma TracksIsQuotient(c: Cong, mss: int)
    requires mss > 0
    ensures Tracks(c, mss) <==> c.cwnd == c.incr / mss
  {
    DivBounds(c.incr, mss);
    var q := c.incr / mss;
    if Tracks(c, mss) {
      if c.cwnd < q { MulMono(c.cwnd + 1, q, mss); }
      if q < c.cwnd { MulMono(q + 1, c.cwnd, mss); }
    }
  }

  lemma DivBounds(a: nat, b: nat)
    requires b > 0
    ensures a / b * b <= a < (a / b + 1) * b
    ensures 0 <= a / b <= a
  {
    var q := a / b;
    assert a == q * b + a % b;
    if q < 0 { MulMono(q, -1, b); }
    if q >= 0 { MulMono(1, b, q); }
  }

  lemma MulMono(a: int, b: int, c: int)
    requires a <= b && 0 <= c
    ensures a * c <= b * c
  {
  }

  /** With at least two segments' worth, one advance adds less than one segment. */
  lemma AdditiveStep(incr: int, mss: int)
    requires mss > 0 && incr >= 2 * mss
    ensures 0 <= mss * mss / incr + mss / 16 < mss
  {
    var x := mss * mss / incr;
    MulMono(0, mss, mss);
    DivBounds(mss * mss, incr);
    MulMono(2 * mss, incr, x);
    assert 2 * mss * x == 2 * x * mss && (mss + 1) * mss == mss * mss + mss;
    if 2 * x > mss { MulMono(mss + 1, 2 * x, mss); }
  }

  lemma SegmentsFit(n: int, mss: int)
    requires 0 <= n <= WINDOW_LIMIT + 1 && 0 < mss <= 65535
    ensures 0 <= n * mss < MODULUS && mss * mss < MODULUS
  {
    MulMono(n, WINDOW_LIMIT + 1, mss);
    MulMono(mss, 65535, mss);
    MulMono(0, n, mss);
  }

  /** Growth over unbounded integers. */
  function IdealGrown(cwnd: int, incr: int, ssthresh: int, mss: int): (int, int)
    requires mss > 0 && incr >= 0
  {
    if cwnd < ssthresh then (cwnd + 1, incr + mss)
    else
      var incr := if incr < mss then mss else incr;
      var incr := incr + mss * mss / incr + mss / 16;
      (if (cwnd + 1) * mss <= incr then cwnd + 1 else cwnd, incr)
  }

  /** Growth over the integers adds at most one segment, and to both counts alike. */
  lemma IdealGrowthTracks(cwnd: int, incr: int, ssthresh: int, mss: int)
    requires 0 < mss && 0 <= cwnd && cwnd * mss <= incr < (cwnd + 1) * mss && ssthresh >= THRESHOLD_MIN
    ensures var (n, bytes) := IdealGrown(cwnd, incr, ssthresh, mss);
            cwnd <= n <= cwnd + 1 && n * mss <= bytes < (n + 1) * mss
    ensures cwnd >= ssthresh ==> incr >= 2 * mss
  {
    assert (cwnd + 2) * mss == (cwnd + 1) * mss + mss;
    if cwnd >= ssthresh {
      MulMono(2, cwnd, mss);
      AdditiveStep(incr, mss);
    }
  }

  lemma GrowthIsIdeal(c: Cong, mss: u32)
    requires Sound(c, mss) && c.cwnd < WINDOW_LIMIT && 0 < mss <= 65535
    ensures (Grown(c, mss).cwnd, Grown(c, mss).incr) == IdealGrown(c.cwnd, c.incr, c.ssthresh, mss)
    ensures Grown(c, mss).ssthresh == c.ssthresh
  {
    IdealGrowthTracks(c.cwnd, c.incr, c.ssthresh, mss);
    var (n, bytes) := IdealGrown(c.cwnd, c.incr, c.ssthresh, mss);
    var top := (n + 1) * mss;
    MulMono(n + 1, 65536, mss);
    assert bytes < MODULUS;
    SegmentsFit(c.cwnd + 1, mss);
    FitsWord(mss * mss);
    FitsWord((c.cwnd + 1) * mss);
    if c.cwnd >= c.ssthresh {
      var share := mss * mss / c.incr;
      AdditiveStep(c.incr, mss);
      DivBounds(mss * mss, c.incr);
      assert bytes == c.incr + share + mss / 16;
    }
  }

  /**
   An advance keeps the invariant; no operation overflows 32 bits, and the final clamp to the
   remote window changes nothing.
   */
  lemma AdvanceKeepsSound(c: Cong, rmtWnd: u16, mss: u32)
    requires Sound(c, mss) && 0 < mss <= 65535
    ensures Sound(OnAdvance(c, rmtWnd, mss), mss)
    ensures c.cwnd < rmtWnd ==> OnAdvance(c, rmtWnd, mss) == Grown(c, mss)
    ensures c.cwnd < rmtWnd ==>
              (Grown(c, mss).cwnd, Grown(c, mss).incr) == IdealGrown(c.cwnd, c.incr, c.ssthresh, mss)
  {
    if c.cwnd < rmtWnd {
      IdealGrowthTracks(c.cwnd, c.incr, c.ssthresh, mss);
      GrowthIsIdeal(c, mss);
    }
  }

  /** The final clamp to the remote window is idle in every state, sound or not. */
  lemma ClampIsIdle(c: Cong, rmtWnd: u16, mss: u32)
    requires mss > 0 && c.cwnd < rmtWnd
    ensures OnAdvance(c, rmtWnd, mss) == Grown(c, mss)
  {
  }

  /** The resend count that a setting stands for: 0 switches fast resend off. */
  function ResentOf(setting: u32): u32 {
    if setting > 0 then setting else MODULUS - 1
  }

  /**
   The fast-resend reset, for every setting: it keeps the invariant's quotient exactly when the byte
   count of the new window fits 32 bits. With the setting off the window becomes `ssthresh - 1`.
   */
  lemma FastResendTracksIff(c: Cong, inflight: u32, resent: u32, mss: u32)
    requires mss > 0
    ensures Tracks(OnFastResend(c, inflight, resent, mss), mss) <==>
            Add(Threshold(inflight / 2), resent) * mss < MODULUS
    ensures resent == MODULUS - 1 ==>
              OnFastResend(c, inflight, resent, mss).cwnd == Threshold(inflight / 2) - 1
  {
    var cwnd := Add(Threshold(inflight / 2), resent);
    var product := cwnd * mss;
    assert (cwnd + 1) * mss == product + mss;
    MulMono(0, cwnd, mss);
  }

  /** What a caller can check of a setting. */
  predicate ResendFits(setting: u32, mss: u32) {
    (32767 + setting) * mss < MODULUS
  }

  lemma SettingFits(c: Cong, inflight: u32, setting: u32, mss: u32)
    requires 0 < mss <= 65535 && setting < HALF && ResendFits(setting, mss) && inflight <= 65535
    ensures Tracks(OnFastResend(c, inflight, ResentOf(setting), mss), mss)
    ensures Add(Threshold(inflight / 2), ResentOf(setting)) * mss < MODULUS
  {
    MulMono(Add(Threshold(inflight / 2), ResentOf(setting)), 32767 + setting, mss);
    FastResendTracksIff(c, inflight, ResentOf(setting), mss);
  }

  /** The test is exact: it holds iff every reset keeps the quotient, whatever is in flight. */
  lemma ResendFitsIff(setting: u32, mss: u32)
    requires 0 < mss <= 65535 && setting < HALF
    ensures ResendFits(setting, mss) <==>
            forall c, inflight: u32 :: inflight <= 65535 ==>
              Tracks(OnFastResend(c, inflight, ResentOf(setting), mss), mss)
  {
    if ResendFits(setting, mss) {
      forall c, inflight: u32 | inflight <= 65535
        ensures Tracks(OnFastResend(c, inflight, ResentOf(setting), mss), mss)
      {
        SettingFits(c, inflight, setting, mss);
      }
    } else {
      var c := Cong(0, 0, THRESHOLD_MIN);
      MulMono(mss, 65535, 32767);
      FastResendTracksIff(c, 65535, ResentOf(setting), mss);
      assert !Tracks(OnFastResend(c, 65535, ResentOf(setting), mss), mss);
    }
  }

  /** An input that fails: the largest setting, four segments in flight, and a usual segment size. */
  lemma LargestSettingFails(c: Cong)
    ensures !Tracks(OnFastResend(c, 4, 0x7fff_ffff, 1376), 1376)
  {
    FastResendTracksIff(c, 4, 0x7fff_ffff, 1376);
  }

  /**
   The end of a flush keeps the invariant exactly when a fast-resend reset, unless a loss overrides it,
   has a window whose byte count fits. At least one segment of window is left in any case.
   */
  lemma FlushSoundIff(
      c: Cong, change: bool, lost: bool, inflight: u32, resent: u32, window: u32, mss: u32)
    requires Sound(c, mss) && mss > 0
    ensures Sound(OnFlush(c, change, lost, inflight, resent, window, mss), mss) <==>
            (change && !lost ==> Add(Threshold(inflight / 2), resent) * mss < MODULUS)
    ensures OnFlush(c, change, lost, inflight, resent, window, mss).cwnd >= 1
    ensures OnFlush(c, change, lost, inflight, resent, window, mss).ssthresh >= THRESHOLD_MIN
  {
    if change {
      FastResendTracksIff(c, inflight, resent, mss);
    }
  }
}
