/**
 When to flush, and when to call again.
 */
module Timer {
  import opened Serial
  import opened Segment
  import opened State

  const FAR: i32 := 10000
  const MAX_WAIT: i32 := 0x7fff_ffff

  /** The clock after an update call, and whether the call flushes. */
  function Tick(c: Clock, interval: u32, t: u32): (Clock, bool) {
    var tsFlush := if c.updated then c.tsFlush else t;
    var slap := Diff(t, tsFlush);
    var far := slap >= FAR || slap < -FAR;
    var tsFlush := if far then t else tsFlush;
    var slap: i32 := if far then 0 else slap;
    if slap >= 0 then
      var next := Add(tsFlush, interval);
      (Clock(t, if Diff(t, next) >= 0 then Add(t, interval) else next, true), true)
    else (Clock(t, tsFlush, true), false)
  }

  predicate Due(s: Seg, t: u32) {
    Diff(t, s.resendTs) >= 0
  }

  /** The shortest wait among the buffered segments; none if one is due. */
  datatype Wait = Now | Later(ms: i32)

  function PacketWait(buf: seq<Seg>, t: u32, best: i32): Wait {
    if buf == [] then Later(best)
    else
      var diff := Diff(buf[0].resendTs, t);
      if diff <= 0 then Now
      else PacketWait(buf[1..], t, if diff < best then diff else best)
  }

  /** `ikcp_check`: the time at which to call update next. */
  function Check(c: Clock, interval: u32, buf: seq<Seg>, t: u32): u32 {
    if !c.updated then t
    else
      var slap := Diff(t, c.tsFlush);
      if slap >= FAR || slap < -FAR || slap >= 0 then t
      else
        match PacketWait(buf, t, MAX_WAIT)
        case Now => t
        case Later(packet) =>
          var flush := Diff(c.tsFlush, t);
          var minimal := ToU32(if packet < flush then packet else flush);
          Add(t, if minimal >= interval then interval else minimal)
  }

  lemma {:induction false} PacketWaitBounds(buf: seq<Seg>, t: u32, best: i32)
    requires best > 0
    ensures var w := PacketWait(buf, t, best);
            w.Later? ==> 0 < w.ms <= best && forall s :: s in buf ==> w.ms <= Diff(s.resendTs, t)
  {
    if buf != [] {
      var diff := Diff(buf[0].resendTs, t);
      if diff > 0 {
        PacketWaitBounds(buf[1..], t, if diff < best then diff else best);
      }
    }
  }

  /**
   Wake-up soundness: until the time `Check` returns, an update would not flush and no buffered
   segment is due. `k` counts milliseconds from `t`, across wrap-around.
   */
  lemma NothingBeforeWakeUp(c: Clock, interval: u32, buf: seq<Seg>, t: u32, k: u32)
    requires c.updated && k < Sub(Check(c, interval, buf, t), t)
    ensures !Tick(c, interval, Add(t, k)).1
    ensures Tick(c, interval, Add(t, k)).0 == c.(current := Add(t, k))
    ensures forall s :: s in buf ==> !Due(s, Add(t, k))
  {
    PacketWaitBounds(buf, t, MAX_WAIT);
    var flush := Diff(c.tsFlush, t);
    assert k < flush && Diff(Add(t, k), c.tsFlush) == k - flush;
    forall s | s in buf ensures !Due(s, Add(t, k)) {
      var diff := Diff(s.resendTs, t);
      assert k < diff && Diff(Add(t, k), s.resendTs) == k - diff;
    }
  }

  /**
   After any update the next flush is 1 to 10000 ms ahead; after one that flushed it is within the
   interval. A call flushes if it is the first, if the schedule has come, or if the schedule is more than
   10 s ahead.
   */
  lemma NextFlushIsNear(c: Clock, interval: u32, t: u32)
    requires 1 <= interval <= 5000
    ensures var (c', flushed) := Tick(c, interval, t);
            && 1 <= Diff(c'.tsFlush, t) <= 10000
            && (flushed ==> Diff(c'.tsFlush, t) <= interval)
            && c'.updated && c'.current == t
            && (flushed <==> !c.updated || Diff(t, c.tsFlush) >= 0 || Diff(t, c.tsFlush) < -10000)
  {
  }

  /**
   The schedule keeps its phase: a flush that is less than an interval late puts the next one an interval
   after its own time; any other flush, an interval from now. Without a flush the schedule stays.
   */
  lemma ScheduleKeepsPhase(c: Clock, interval: u32, t: u32)
    requires 1 <= interval <= 5000
    ensures var (c', flushed) := Tick(c, interval, t);
            var late := Diff(t, c.tsFlush);
            if !flushed then c'.tsFlush == c.tsFlush
            else if c.updated && 0 <= late < interval then Sub(c'.tsFlush, c.tsFlush) == interval
            else Sub(c'.tsFlush, t) == interval
  {
  }

  /** The wait is that of some buffered segment. */
  lemma {:induction false} PacketWaitReached(buf: seq<Seg>, t: u32, best: i32) returns (i: nat)
    requires best > 0
    ensures match PacketWait(buf, t, best)
            case Now => i < |buf| && Diff(buf[i].resendTs, t) <= 0
            case Later(ms) => ms < best ==> i < |buf| && Diff(buf[i].resendTs, t) == ms
  {
    i := 0;
    if buf != [] && Diff(buf[0].resendTs, t) > 0 {
      var diff := Diff(buf[0].resendTs, t);
      var best' := if diff < best then diff else best;
      PacketWaitBounds(buf[1..], t, best');
      var wait := PacketWait(buf[1..], t, best');
      if wait.Now? || wait.ms < best' {
        i := PacketWaitReached(buf[1..], t, best');
        i := i + 1;
      }
    }
  }

  /** The time of a buffered segment has come, or is exactly half the number space away. */
  ghost predicate SomeTimeUp(buf: seq<Seg>, t: u32) {
    exists s :: s in buf && (Due(s, t) || Sub(s.resendTs, t) == HALF)
  }

  /**
   No later answer would be sound: at the time that `Check` returns an update would flush, or a buffered
   segment's time is up, or it is an interval ahead; and it is never further ahead. Before the first
   update it is the time of the call.
   */
  lemma WakeUpIsLatest(c: Clock, interval: u32, buf: seq<Seg>, t: u32)
    requires interval <= 5000
    ensures !c.updated ==> Check(c, interval, buf, t) == t
    ensures var w := Check(c, interval, buf, t);
            && Sub(w, t) <= interval
            && (Sub(w, t) == interval || Tick(c, interval, w).1 || SomeTimeUp(buf, w))
  {
    if c.updated && -FAR <= Diff(t, c.tsFlush) < 0 {
      PacketWaitBounds(buf, t, MAX_WAIT);
      var i := PacketWaitReached(buf, t, MAX_WAIT);
      match PacketWait(buf, t, MAX_WAIT)
      case Now => TimeComes(buf, t, i);
      case Later(ms) =>
        AheadBy(c, interval, t, ms);
        if ms < Diff(c.tsFlush, t) {
          AddsUp(t, buf[i].resendTs);
          TimeComes(buf, Add(t, ms), i);
        }
    } else {
      FlushesNow(c, interval, t);
    }
  }

  lemma FlushesNow(c: Clock, interval: u32, t: u32)
    requires !(c.updated && -FAR <= Diff(t, c.tsFlush) < 0)
    ensures Tick(c, interval, t).1 && Sub(t, t) == 0
  {
  }

  lemma AddsUp(t: u32, later: u32)
    requires Diff(later, t) > 0
    ensures Add(t, Diff(later, t)) == later && Sub(later, t) == Diff(later, t)
  {
  }

  /** The shortest of the waits for a segment, for the flush and for the interval. */
  lemma AheadBy(c: Clock, interval: u32, t: u32, ms: i32)
    requires c.updated && -FAR <= Diff(t, c.tsFlush) < 0 && ms > 0
    ensures var flush := Diff(c.tsFlush, t);
            var m := ToU32(if ms < flush then ms else flush);
            var w := Add(t, if m >= interval then interval else m);
            && Sub(w, t) <= interval
            && (Sub(w, t) == interval || w == if ms < flush then Add(t, ms) else c.tsFlush)
    ensures Tick(c, interval, c.tsFlush).1
  {
    AddsUp(t, c.tsFlush);
    FitsWord(if ms < Diff(c.tsFlush, t) then ms else Diff(c.tsFlush, t));
  }

  lemma TimeComes(buf: seq<Seg>, t: u32, i: nat)
    requires i < |buf| && Diff(buf[i].resendTs, t) <= 0
    ensures SomeTimeUp(buf, t)
  {
    assert buf[i] in buf;
  }
}
