/**
 What a whole flush does to the endpoint and what it sends, in the fields of the endpoint before and
 after it, and in the answers of the output callback.
 */
module FlushOutcome {
  import opened Serial
  import opened Segment
  import opened Codec
  import opened AckList
  import opened Congestion
  import opened SendQueue
  import opened SendBuffer
  import opened Receiver
  import opened State
  import opened Packing
  import opened Flush
  import opened FlushFacts
  import opened Operations
  import opened Trace
  import Ledger

  // ---------- what applies to a segment ----------

  /** It has been sent, and its time has come. */
  predicate Expired(ep: Endpoint, s: Seg) {
    s.xmit > 0 && Diff(ep.clock.current, s.resendTs) >= 0
  }

  /**
   It has been sent, its time has not come, and later segments have been acknowledged: as often as the
   setting asks, or at all if there is nothing `left` to number. Without a setting it takes 2^32 - 1.
   */
  predicate Overtaken(ep: Endpoint, left: bool, s: Seg) {
    && s.xmit > 0 && Diff(ep.clock.current, s.resendTs) < 0
    && ((ep.cfg.fastResend > 0 && s.fastAck >= ep.cfg.fastResend) || s.fastAck == 0xffff_ffff ||
        (s.fastAck > 0 && !left))
  }

  predicate Wanted(ep: Endpoint, left: bool, s: Seg) {
    s.xmit == 0 || Expired(ep, s) || Overtaken(ep, left, s)
  }

  /** The room in the receive queue. */
  predicate Free(ep: Endpoint, w: u32) {
    w + |ep.rcv.queue| == ep.rcv.wnd || (w == 0 && |ep.rcv.queue| >= ep.rcv.wnd)
  }

  /** Number, payload and counter stay; header fields are new; timeout and time go by the reason to send. */
  ghost predicate Rewritten(ep: Endpoint, s: Seg, s': Seg) {
    var now, rto := ep.clock.current, ep.rtt.rto;
    && s'.sn == s.sn && s'.data == s.data && s'.frg == s.frg && s'.cmd == s.cmd && s'.conv == s.conv
    && s'.ts == now && s'.una == ep.rcv.nxt && Free(ep, s'.wnd)
    && (if s.xmit == 0 then
          && s'.rto == rto && s'.fastAck == s.fastAck
          && s'.resendTs == Number(now + rto + if ep.cfg.nodelay then 0 else rto / 8)
        else if Expired(ep, s) then
          && s'.rto == Number(s.rto + if ep.cfg.nodelay then rto / 2 else rto) && s'.fastAck == s.fastAck
          && s'.resendTs == Number(now + s'.rto)
        else s'.rto == s.rto && s'.fastAck == 0 && s'.resendTs == Number(now + s.rto))
  }

  /** What a flush leaves of a segment that it gets to, and of the one at which it is refused. */
  ghost predicate Treated(ep: Endpoint, left: bool, s: Seg, s': Seg) {
    if Wanted(ep, left, s) then Rewritten(ep, s, s') && s'.xmit == Number(s.xmit + 1) else s' == s
  }

  ghost predicate Withdrawn(ep: Endpoint, left: bool, s: Seg, s': Seg) {
    Wanted(ep, left, s) && Rewritten(ep, s, s') && s'.xmit == s.xmit
  }

  lemma FreeIsUnused(ep: Endpoint)
    ensures Free(ep, UnusedWindow(ep.rcv))
  {
  }

  lemma CauseIs(ep: Endpoint, snd: Snd, s: Seg)
    requires Inv(ep)
    ensures var cause, left := CauseOf(s, SettingOf(ep, snd)), snd.queue != [];
            && (cause.Timeout? <==> Expired(ep, s))
            && (cause.Fast? || cause.Early? <==> Overtaken(ep, left, s))
            && (!cause.Idle? <==> Wanted(ep, left, s))
  {
  }

  lemma FirstIs(ep: Endpoint, snd: Snd, s: Seg)
    requires Inv(ep) && s.xmit == 0
    ensures Rewritten(ep, s, Prepared(s, SettingOf(ep, snd)))
  {
    var t, rto := SettingOf(ep, snd), ep.rtt.rto;
    FreeIsUnused(ep);
    FitsWord(rto);
    FitsWord(rto / 8);
    AddTwice(t.current, rto, t.rtoMin);
  }

  lemma TimeoutIs(ep: Endpoint, snd: Snd, s: Seg)
    requires Inv(ep) && Expired(ep, s)
    ensures Rewritten(ep, s, Prepared(s, SettingOf(ep, snd)))
  {
    FreeIsUnused(ep);
    FitsWord(ep.rtt.rto);
    FitsWord(ep.rtt.rto / 2);
  }

  lemma FastIs(ep: Endpoint, snd: Snd, s: Seg)
    requires Inv(ep) && Overtaken(ep, snd.queue != [], s)
    ensures Rewritten(ep, s, Prepared(s, SettingOf(ep, snd)))
  {
    CauseIs(ep, snd, s);
    FreeIsUnused(ep);
  }

  lemma PreparedIs(ep: Endpoint, snd: Snd, s: Seg)
    requires Inv(ep)
    ensures var t, left := SettingOf(ep, snd), snd.queue != [];
            && Treated(ep, left, s, Prepared(s, t))
            && (Wanted(ep, left, s) ==> Withdrawn(ep, left, s, Unsent(Prepared(s, t))))
  {
    CauseIs(ep, snd, s);
    var s', left := Prepared(s, SettingOf(ep, snd)), snd.queue != [];
    if Wanted(ep, left, s) {
      if s.xmit == 0 { FirstIs(ep, snd, s); }
      else if Expired(ep, s) { TimeoutIs(ep, snd, s); }
      else { FastIs(ep, snd, s); }
      PreparedSame(s, SettingOf(ep, snd));
      NextBack(s.xmit);
    }
  }

  lemma NextBack(n: u32)
    ensures Sub(Next(n), 1) == n && Next(n) == Number(n + 1)
  {
  }

  // ---------- the data loop ----------

  /** Where the loop over the send buffer ends: at the first segment whose question is refused, or behind the last. */
  function Stop(buf: seq<Seg>, i: nat, asked: nat, t: Setting, refuse: Oracle): (m: nat)
    requires i <= |buf|
    ensures i <= m <= |buf|
    decreases |buf| - i
  {
    if i == |buf| then i
    else if CauseOf(buf[i], t).Idle? then Stop(buf, i + 1, asked, t, refuse)
    else if refuse(asked) then i
    else Stop(buf, i + 1, asked + 1, t, refuse)
  }

  lemma {:induction false} StopLocal(a: seq<Seg>, b: seq<Seg>, i: nat, asked: nat, t: Setting, refuse: Oracle)
    requires |a| == |b| && i <= |a| && forall j :: i <= j < |a| ==> a[j] == b[j]
    ensures Stop(a, i, asked, t, refuse) == Stop(b, i, asked, t, refuse)
    decreases |a| - i
  {
    if i < |a| {
      StopLocal(a, b, i + 1, asked, t, refuse);
      StopLocal(a, b, i + 1, asked + 1, t, refuse);
    }
  }

  function LeftAt(buf: seq<Seg>, j: nat, i: nat, m: nat, t: Setting): Seg
    requires j < |buf|
  {
    if j < i || j > m then buf[j]
    else if j == m then Unsent(Prepared(buf[j], t))
    else Prepared(buf[j], t)
  }

  lemma {:induction false} DataLeaves(d: DataPhase, i: nat, t: Setting, refuse: Oracle, r: DataPhase, m: nat)
    requires i <= |d.buf| && !d.refused && r == FlushData(d, i, t, refuse)
    requires m == Stop(d.buf, i, d.sc.asked, t, refuse)
    ensures |r.buf| == |d.buf| && (r.refused <==> m < |d.buf|)
    ensures forall j :: 0 <= j < |d.buf| ==> r.buf[j] == LeftAt(d.buf, j, i, m, t)
    decreases |d.buf| - i
  {
    if i < |d.buf| {
      var d1 := DataTurn(d, i, t, refuse, r);
      if d1.refused {
        RefusedStays(d1, i + 1, t, refuse);
      } else {
        StopNext(d, i, t, refuse, d1);
        DataLeaves(d1, i + 1, t, refuse, r, m);
      }
    }
  }

  /** One turn: only the segment in hand changes. */
  lemma DataTurn(d: DataPhase, i: nat, t: Setting, refuse: Oracle, r: DataPhase) returns (d1: DataPhase)
    requires i < |d.buf| && !d.refused && r == FlushData(d, i, t, refuse)
    ensures d1 == DataStep(d, i, t, refuse) && r == FlushData(d1, i + 1, t, refuse)
    ensures |d1.buf| == |d.buf| && forall j :: 0 <= j < |d.buf| && j != i ==> d1.buf[j] == d.buf[j]
    ensures d1.refused <==> !CauseOf(d.buf[i], t).Idle? && refuse(d.sc.asked)
    ensures d1.buf[i] == if d1.refused then Unsent(Prepared(d.buf[i], t)) else Prepared(d.buf[i], t)
    ensures !d1.refused ==> d1.sc.asked == d.sc.asked + if CauseOf(d.buf[i], t).Idle? then 0 else 1
  {
    d1 := DataStep(d, i, t, refuse);
    FlushNext(d, i, t, refuse);
  }

  lemma StopNext(d: DataPhase, i: nat, t: Setting, refuse: Oracle, d1: DataPhase)
    requires i < |d.buf| == |d1.buf| && forall j :: 0 <= j < |d.buf| && j != i ==> d1.buf[j] == d.buf[j]
    requires CauseOf(d.buf[i], t).Idle? || !refuse(d.sc.asked)
    requires d1.sc.asked == d.sc.asked + if CauseOf(d.buf[i], t).Idle? then 0 else 1
    ensures Stop(d.buf, i, d.sc.asked, t, refuse) == Stop(d1.buf, i + 1, d1.sc.asked, t, refuse)
  {
    StopLocal(d.buf, d1.buf, i + 1, d1.sc.asked, t, refuse);
  }

  lemma RefusedStays(d: DataPhase, i: nat, t: Setting, refuse: Oracle)
    requires i <= |d.buf| && d.refused
    ensures FlushData(d, i, t, refuse) == d
  {
  }

  ghost predicate SomeLost(buf: seq<Seg>, i: nat, m: nat, t: Setting) {
    exists j :: i <= j <= m && j < |buf| && CauseOf(buf[j], t).Timeout?
  }

  ghost predicate SomeFast(buf: seq<Seg>, i: nat, m: nat, t: Setting) {
    exists j :: i <= j <= m && j < |buf| && (CauseOf(buf[j], t).Fast? || CauseOf(buf[j], t).Early?)
  }

  lemma {:induction false} DataFlags(d: DataPhase, i: nat, t: Setting, refuse: Oracle, r: DataPhase, m: nat)
    requires i <= |d.buf| && !d.refused && r == FlushData(d, i, t, refuse)
    requires m == Stop(d.buf, i, d.sc.asked, t, refuse)
    ensures r.lost <==> d.lost || SomeLost(d.buf, i, m, t)
    ensures r.change <==> d.change || SomeFast(d.buf, i, m, t)
    decreases |d.buf| - i
  {
    if i < |d.buf| {
      var d1 := DataTurn(d, i, t, refuse, r);
      TurnFlags(d, i, t, refuse, d1);
      if d1.refused {
        RefusedStays(d1, i + 1, t, refuse);
      } else {
        StopNext(d, i, t, refuse, d1);
        DataFlags(d1, i + 1, t, refuse, r, m);
        SomeOrLater(d.buf, d1.buf, i, m, t);
      }
    }
  }

  lemma TurnFlags(d: DataPhase, i: nat, t: Setting, refuse: Oracle, d1: DataPhase)
    requires i < |d.buf| && d1 == DataStep(d, i, t, refuse)
    ensures d1.lost <==> d.lost || CauseOf(d.buf[i], t).Timeout?
    ensures d1.change <==> d.change || CauseOf(d.buf[i], t).Fast? || CauseOf(d.buf[i], t).Early?
    ensures d1.xmit == if CauseOf(d.buf[i], t).Timeout? then Next(d.xmit) else d.xmit
  {
  }

  lemma SomeOrLater(buf: seq<Seg>, after: seq<Seg>, i: nat, m: nat, t: Setting)
    requires i < |buf| == |after| && i < m && forall j :: i + 1 <= j < |buf| ==> after[j] == buf[j]
    ensures SomeLost(buf, i, m, t) <==> CauseOf(buf[i], t).Timeout? || SomeLost(after, i + 1, m, t)
    ensures SomeFast(buf, i, m, t) <==>
            CauseOf(buf[i], t).Fast? || CauseOf(buf[i], t).Early? || SomeFast(after, i + 1, m, t)
  {
    if j :| i <= j <= m && j < |buf| && CauseOf(buf[j], t).Timeout? {
      if j > i { assert CauseOf(after[j], t).Timeout?; }
    }
    if j :| i + 1 <= j <= m && j < |after| && CauseOf(after[j], t).Timeout? {
      assert CauseOf(buf[j], t).Timeout?;
    }
    if j :| i <= j <= m && j < |buf| && (CauseOf(buf[j], t).Fast? || CauseOf(buf[j], t).Early?) {
      if j > i { assert CauseOf(after[j], t) == CauseOf(buf[j], t); }
    }
    if j :| i + 1 <= j <= m && j < |after| && (CauseOf(after[j], t).Fast? || CauseOf(after[j], t).Early?) {
      assert CauseOf(buf[j], t) == CauseOf(after[j], t);
    }
  }

  // ---------- the sender after a flush ----------

  /** The segment `q` of the queue, the `d`-th to be numbered. */
  ghost predicate JustNumbered(ep: Endpoint, q: Seg, d: nat, s: Seg) {
    && s.data == q.data && s.frg == q.frg && s.cmd == q.cmd && s.conv == ep.cfg.conv
    && s.sn == Number(ep.snd.nxt + d) && s.ts == ep.clock.current && s.una == ep.rcv.nxt && Free(ep, s.wnd)
    && s.resendTs == ep.clock.current && s.rto == ep.rtt.rto && s.fastAck == 0 && s.xmit == 0
  }

  /** The send buffer with what was numbered, the queue being left as `queue`. */
  ghost predicate Joined(ep: Endpoint, queue: seq<Seg>, mid: seq<Seg>) {
    var n, k := |ep.snd.buf|, |ep.snd.queue| - |queue|;
    && k >= 0 && queue == ep.snd.queue[k..] && |mid| == n + k
    && (forall i :: 0 <= i < n ==> mid[i] == ep.snd.buf[i])
    && (forall i :: n <= i < n + k ==> JustNumbered(ep, ep.snd.queue[i - n], i - n, mid[i]))
  }

  /** Not more in flight than any window that applies. */
  predicate WithinWindows(ep: Endpoint, inflight: int) {
    && inflight <= ep.cfg.sndWnd && inflight <= ep.rmtWnd
    && (!ep.cfg.noCwnd ==> inflight <= ep.cong.cwnd)
  }

  /** One of them is used up. */
  predicate SomeWindowFull(ep: Endpoint, inflight: int) {
    || inflight >= ep.cfg.sndWnd || inflight >= ep.rmtWnd
    || (!ep.cfg.noCwnd && inflight >= ep.cong.cwnd)
  }

  lemma WindowIsSmallest(ep: Endpoint)
    ensures WithinWindows(ep, EffectiveWindow(ep)) && SomeWindowFull(ep, EffectiveWindow(ep))
    ensures EffectiveWindow(ep) <= WINDOW_LIMIT
    ensures forall w :: WithinWindows(ep, w) && SomeWindowFull(ep, w) ==> w == EffectiveWindow(ep)
  {
  }

  /** Numbered as far as the windows allow. */
  ghost predicate Numbering(ep: Endpoint, s': Snd, mid: seq<Seg>) {
    var inflight := Sub(s'.nxt, s'.una);
    && Joined(ep, s'.queue, mid)
    && s'.una == ep.snd.una && s'.nxt == Number(ep.snd.nxt + (|mid| - |ep.snd.buf|))
    && (|mid| > |ep.snd.buf| ==> WithinWindows(ep, inflight))
    && (s'.queue != [] ==> SomeWindowFull(ep, inflight))
  }

  /** Treated up to position `m`, where it was refused or the end came. */
  ghost predicate Treatment(ep: Endpoint, left: bool, mid: seq<Seg>, after: seq<Seg>, refused: bool, m: nat) {
    && m <= |mid| == |after| && (refused <==> m < |mid|)
    && (forall i :: 0 <= i < m ==> Treated(ep, left, mid[i], after[i]))
    && (m < |mid| ==> Withdrawn(ep, left, mid[m], after[m]))
    && (forall i :: m < i < |mid| ==> after[i] == mid[i])
  }

  ghost predicate SenderOutcome(ep: Endpoint, s': Snd, refused: bool, mid: seq<Seg>, m: nat) {
    Numbering(ep, s', mid) && Treatment(ep, s'.queue != [], mid, s'.buf, refused, m)
  }

  lemma NumberedJoined(ep: Endpoint, hdr: Seg) returns (snd: Snd)
    requires Inv(ep) && SameHeader(hdr, Template(ep))
    ensures snd == NumberedOf(ep, hdr) && Numbering(ep, snd, snd.buf)
  {
    snd := NumberedOf(ep, hdr);
    var window, rto := EffectiveWindow(ep), ToU32(ep.rtt.rto);
    WindowIsSmallest(ep);
    var k := NumberingMoves(ep.snd, window, hdr, ep.clock.current, rto, snd);
    StampedJoined(ep, hdr, k, snd.buf);
    WindowsAllow(ep, window, Sub(snd.nxt, snd.una));
  }

  lemma WindowsAllow(ep: Endpoint, window: int, inflight: int)
    requires WithinWindows(ep, window) && SomeWindowFull(ep, window)
    ensures inflight <= window ==> WithinWindows(ep, inflight)
    ensures inflight >= window ==> SomeWindowFull(ep, inflight)
  {
  }

  lemma StampedJoined(ep: Endpoint, hdr: Seg, k: nat, mid: seq<Seg>)
    requires k <= |ep.snd.queue| && SameHeader(hdr, Template(ep)) && ep.rtt.rto >= 0
    requires mid == ep.snd.buf + StampedFront(ep.snd, k, hdr, ep.clock.current, ToU32(ep.rtt.rto))
    ensures Joined(ep, ep.snd.queue[k..], mid)
  {
    var n := |ep.snd.buf|;
    FreeIsUnused(ep);
    FitsWord(ep.rtt.rto);
    forall i | n <= i < n + k ensures JustNumbered(ep, ep.snd.queue[i - n], i - n, mid[i]) {
      assert mid[i] == StampedAt(ep.snd, i - n, hdr, ep.clock.current, ToU32(ep.rtt.rto));
    }
  }

  /** The parts of a flush that comes to its data. */
  lemma DataParts(ep: Endpoint, refuse: Oracle) returns (f: Flushed, hdr: Seg, snd: Snd, sc: Scratch, d: DataPhase)
    requires Inv(ep) && ReachesData(ep, refuse)
    ensures f == Flush.Flush(ep, refuse) && SameHeader(hdr, Template(ep)) && snd == NumberedOf(ep, hdr)
    ensures hdr == ProbesOf(ep, AcksOf(ep, refuse), refuse).hdr
    ensures sc == ProbesOf(ep, AcksOf(ep, refuse), refuse).sc && d == DataOf(ep, snd, sc, refuse)
    ensures f.ep.snd == snd.(buf := d.buf) && f.refused == d.refused && f.ep.xmit == d.xmit
    ensures f.ep.cong == OnFlush(ep.cong, d.change, d.lost, Sub(snd.nxt, snd.una), ResentOf(ep.cfg.fastResend),
                                 EffectiveWindow(ep), ep.cfg.mss)
  {
    var a := AcksOf(ep, refuse);
    var p := ProbesOf(ep, a, refuse);
    AcksShape(ep.acks, AckPhase(EMPTY, Template(ep), 0, false), ep.cfg.mtu, refuse);
    FlushProbeTimer(ep, a, refuse);
    f, hdr, snd, sc := Flush.Flush(ep, refuse), p.hdr, NumberedOf(ep, p.hdr), p.sc;
    d := DataOf(ep, snd, sc, refuse);
  }

  lemma DataSender(ep: Endpoint, hdr: Seg, snd: Snd, sc: Scratch, refuse: Oracle, d: DataPhase) returns (m: nat)
    requires Inv(ep) && SameHeader(hdr, Template(ep)) && snd == NumberedOf(ep, hdr)
    requires d == DataOf(ep, snd, sc, refuse)
    ensures m == Stop(snd.buf, 0, sc.asked, SettingOf(ep, snd), refuse)
    ensures SenderOutcome(ep, snd.(buf := d.buf), d.refused, snd.buf, m)
  {
    var numbered := NumberedJoined(ep, hdr);
    SameNumbering(ep, snd, d.buf, snd.buf);
    m := DataTreatment(ep, snd, sc, refuse, d);
  }

  lemma SameNumbering(ep: Endpoint, s: Snd, buf: seq<Seg>, mid: seq<Seg>)
    requires Numbering(ep, s, mid)
    ensures Numbering(ep, s.(buf := buf), mid)
  {
  }

  lemma DataTreatment(ep: Endpoint, snd: Snd, sc: Scratch, refuse: Oracle, d: DataPhase) returns (m: nat)
    requires Inv(ep) && d == DataOf(ep, snd, sc, refuse)
    ensures m == Stop(snd.buf, 0, sc.asked, SettingOf(ep, snd), refuse)
    ensures Treatment(ep, snd.queue != [], snd.buf, d.buf, d.refused, m)
  {
    var start := DataPhase(snd.buf, sc, false, false, ep.xmit, ep.dead, false);
    m := Stop(snd.buf, 0, sc.asked, SettingOf(ep, snd), refuse);
    DataLeaves(start, 0, SettingOf(ep, snd), refuse, d, m);
    DataTreats(ep, snd, d.buf, m, sc.asked, refuse);
  }

  lemma DataTreats(ep: Endpoint, snd: Snd, after: seq<Seg>, m: nat, asked: nat, refuse: Oracle)
    requires Inv(ep) && |after| == |snd.buf| && m == Stop(snd.buf, 0, asked, SettingOf(ep, snd), refuse)
    requires forall j :: 0 <= j < |after| ==> after[j] == LeftAt(snd.buf, j, 0, m, SettingOf(ep, snd))
    ensures Treatment(ep, snd.queue != [], snd.buf, after, m < |after|, m)
  {
    forall i | 0 <= i < m ensures Treated(ep, snd.queue != [], snd.buf[i], after[i]) {
      PreparedIs(ep, snd, snd.buf[i]);
    }
    if m < |after| {
      StopWants(snd.buf, 0, asked, SettingOf(ep, snd), refuse);
      CauseIs(ep, snd, snd.buf[m]);
      PreparedIs(ep, snd, snd.buf[m]);
    }
  }

  lemma {:induction false} StopWants(buf: seq<Seg>, i: nat, asked: nat, t: Setting, refuse: Oracle)
    requires i <= |buf|
    ensures var m := Stop(buf, i, asked, t, refuse); m < |buf| ==> !CauseOf(buf[m], t).Idle?
    decreases |buf| - i
  {
    if i < |buf| {
      StopWants(buf, i + 1, asked, t, refuse);
      StopWants(buf, i + 1, asked + 1, t, refuse);
    }
  }

  // ---------- questions ----------

  /** The wanted segments from position `i` up to `e`. */
  function WantedIn(ep: Endpoint, left: bool, mid: seq<Seg>, i: nat, e: nat): nat
    requires e <= |mid|
    decreases e - i
  {
    if i >= e then 0 else (if Wanted(ep, left, mid[i]) then 1 else 0) + WantedIn(ep, left, mid, i + 1, e)
  }

  function ExpiredIn(ep: Endpoint, mid: seq<Seg>, i: nat, e: nat): nat
    requires e <= |mid|
    decreases e - i
  {
    if i >= e then 0 else (if Expired(ep, mid[i]) then 1 else 0) + ExpiredIn(ep, mid, i + 1, e)
  }

  /** The question for the segment at `j`, when the loop from `i` on has asked `asked` before. */
  ghost predicate AnsweredAt(
      ep: Endpoint, left: bool, mid: seq<Seg>, i: nat, asked: nat, refuse: Oracle, m: nat, j: nat)
    requires j <= |mid|
  {
    var question := asked + WantedIn(ep, left, mid, i, j);
    && (j < m && j < |mid| && Wanted(ep, left, mid[j]) ==> !refuse(question))
    && (j == m < |mid| ==> refuse(question))
  }

  /** The loop asks once for each wanted segment, and `m` is the first one whose question is refused. */
  ghost predicate Answered(ep: Endpoint, left: bool, mid: seq<Seg>, m: nat, first: nat, refuse: Oracle) {
    m <= |mid| && forall j: nat :: j <= m ==> AnsweredAt(ep, left, mid, 0, first, refuse, m, j)
  }

  lemma {:induction false} StopAnswers(ep: Endpoint, snd: Snd, i: nat, asked: nat, refuse: Oracle, m: nat, j: nat)
    requires Inv(ep) && i <= |snd.buf| && i <= j <= m && m == Stop(snd.buf, i, asked, SettingOf(ep, snd), refuse)
    ensures AnsweredAt(ep, snd.queue != [], snd.buf, i, asked, refuse, m, j)
    decreases |snd.buf| - i
  {
    if i < |snd.buf| {
      CauseIs(ep, snd, snd.buf[i]);
      if i < j {
        var more := if CauseOf(snd.buf[i], SettingOf(ep, snd)).Idle? then asked else asked + 1;
        StopAnswers(ep, snd, i + 1, more, refuse, m, j);
      }
    }
  }

  lemma DataAnswered(ep: Endpoint, snd: Snd, asked: nat, refuse: Oracle, m: nat)
    requires Inv(ep) && m == Stop(snd.buf, 0, asked, SettingOf(ep, snd), refuse)
    ensures Answered(ep, snd.queue != [], snd.buf, m, asked, refuse)
  {
    var left := snd.queue != [];
    forall j: nat | j <= m ensures AnsweredAt(ep, left, snd.buf, 0, asked, refuse, m, j) {
      StopAnswers(ep, snd, 0, asked, refuse, m, j);
    }
  }

  /** The segments from position `i` up to `e` that are sent for their time. */
  function TimeoutsIn(buf: seq<Seg>, i: nat, e: nat, t: Setting): nat
    requires e <= |buf|
    decreases e - i
  {
    if i >= e then 0 else (if CauseOf(buf[i], t).Timeout? then 1 else 0) + TimeoutsIn(buf, i + 1, e, t)
  }

  lemma {:induction false} DataTimeouts(
      buf: seq<Seg>, d: DataPhase, i: nat, t: Setting, refuse: Oracle, r: DataPhase, m: nat, e: nat)
    requires i <= |d.buf| == |buf| && !d.refused && r == FlushData(d, i, t, refuse)
    requires forall j :: i <= j < |buf| ==> d.buf[j] == buf[j]
    requires m == Stop(d.buf, i, d.sc.asked, t, refuse) && e == if m < |buf| then m + 1 else m
    ensures r.xmit == CountOn(d.xmit, TimeoutsIn(buf, i, e, t))
    decreases |d.buf| - i
  {
    if i < |d.buf| {
      var d1 := DataTurn(d, i, t, refuse, r);
      TurnFlags(d, i, t, refuse, d1);
      if d1.refused {
        RefusedStays(d1, i + 1, t, refuse);
        assert TimeoutsIn(buf, i + 1, e, t) == 0;
      } else {
        StopNext(d, i, t, refuse, d1);
        DataTimeouts(buf, d1, i + 1, t, refuse, r, m, e);
      }
    }
  }

  /** A 32-bit counter, `k` steps on. */
  function CountOn(n: u32, k: nat): u32
    decreases k
  {
    if k == 0 then n else CountOn(Next(n), k - 1)
  }

  lemma {:induction false} CountsOn(n: u32, k: nat)
    ensures CountOn(n, k) == Number(n + k)
    decreases k
  {
    if k > 0 {
      CountsOn(Next(n), k - 1);
      AddIsModular(n, 1);
    }
  }

  lemma {:induction false} TimeoutsAre(ep: Endpoint, snd: Snd, i: nat, e: nat)
    requires Inv(ep) && e <= |snd.buf|
    ensures TimeoutsIn(snd.buf, i, e, SettingOf(ep, snd)) == ExpiredIn(ep, snd.buf, i, e)
    decreases e - i
  {
    if i < e {
      CauseIs(ep, snd, snd.buf[i]);
      TimeoutsAre(ep, snd, i + 1, e);
    }
  }

  // ---------- the congestion window after a flush ----------

  ghost predicate SomeExpired(ep: Endpoint, mid: seq<Seg>, m: nat) {
    exists i :: 0 <= i <= m && i < |mid| && Expired(ep, mid[i])
  }

  ghost predicate SomeOvertaken(ep: Endpoint, left: bool, mid: seq<Seg>, m: nat) {
    exists i :: 0 <= i <= m && i < |mid| && Overtaken(ep, left, mid[i])
  }

  function AtLeastTwo(n: int): int {
    if n < 2 then 2 else n
  }

  /** The smallest window that applies. */
  ghost predicate IsWindow(ep: Endpoint, w: int) {
    WithinWindows(ep, w) && SomeWindowFull(ep, w)
  }

  /** An expired segment shuts the window to one segment; else an overtaken one halves what is in flight. */
  ghost predicate WindowOutcome(ep: Endpoint, c: Cong, expired: bool, overtaken: bool, inflight: int) {
    if expired then
      && c.cwnd == 1 && c.incr == ep.cfg.mss
      && forall w :: IsWindow(ep, w) ==> c.ssthresh == AtLeastTwo(w / 2)
    else if overtaken then
      var cwnd := Number(c.ssthresh + if ep.cfg.fastResend > 0 then ep.cfg.fastResend else 0xffff_ffff);
      && c.ssthresh == AtLeastTwo(inflight / 2)
      && (if cwnd == 0 then c.cwnd == 1 && c.incr == ep.cfg.mss
          else c.cwnd == cwnd && c.incr == Number(cwnd * ep.cfg.mss))
    else
      && c.ssthresh == ep.cong.ssthresh
      && (if ep.cong.cwnd == 0 then c.cwnd == 1 && c.incr == ep.cfg.mss
          else c.cwnd == ep.cong.cwnd && c.incr == ep.cong.incr)
  }

  lemma OnFlushOutcome(ep: Endpoint, change: bool, lost: bool, inflight: u32)
    requires Inv(ep) && inflight <= WINDOW_LIMIT
    ensures WindowOutcome(
              ep,
              OnFlush(ep.cong, change, lost, inflight, ResentOf(ep.cfg.fastResend), EffectiveWindow(ep), ep.cfg.mss),
              lost, change, inflight)
  {
    WindowIsSmallest(ep);
    AddIsModular(Threshold(inflight / 2), ResentOf(ep.cfg.fastResend));
  }

  lemma DataFlagsAre(ep: Endpoint, snd: Snd, sc: Scratch, refuse: Oracle, d: DataPhase, m: nat)
    requires Inv(ep) && d == DataOf(ep, snd, sc, refuse)
    requires m == Stop(snd.buf, 0, sc.asked, SettingOf(ep, snd), refuse)
    ensures d.lost <==> SomeExpired(ep, snd.buf, m)
    ensures d.change <==> SomeOvertaken(ep, snd.queue != [], snd.buf, m)
    ensures d.xmit == Number(ep.xmit + ExpiredIn(ep, snd.buf, 0, if m < |snd.buf| then m + 1 else m))
  {
    var start, t := DataPhase(snd.buf, sc, false, false, ep.xmit, ep.dead, false), SettingOf(ep, snd);
    DataFlags(start, 0, t, refuse, d, m);
    FlagsAlike(ep, snd, m);
    var e := if m < |snd.buf| then m + 1 else m;
    DataTimeouts(snd.buf, start, 0, t, refuse, d, m, e);
    TimeoutsAre(ep, snd, 0, e);
    CountsOn(ep.xmit, ExpiredIn(ep, snd.buf, 0, e));
  }

  lemma FlagsAlike(ep: Endpoint, snd: Snd, m: nat)
    requires Inv(ep)
    ensures SomeLost(snd.buf, 0, m, SettingOf(ep, snd)) <==> SomeExpired(ep, snd.buf, m)
    ensures SomeFast(snd.buf, 0, m, SettingOf(ep, snd)) <==> SomeOvertaken(ep, snd.queue != [], snd.buf, m)
  {
    forall i | 0 <= i < |snd.buf|
      ensures CauseOf(snd.buf[i], SettingOf(ep, snd)).Timeout? <==> Expired(ep, snd.buf[i])
      ensures CauseOf(snd.buf[i], SettingOf(ep, snd)).Fast? || CauseOf(snd.buf[i], SettingOf(ep, snd)).Early? <==>
              Overtaken(ep, snd.queue != [], snd.buf[i])
    {
      CauseIs(ep, snd, snd.buf[i]);
    }
  }

  // ---------- acknowledgements and probes ----------

  /** The acknowledgements go out up to the first question that is refused. */
  lemma {:induction false} AcksAnswered(acks: seq<Ack>, p: AckPhase, mtu: nat, refuse: Oracle)
    requires p.sent <= |acks| && !p.refused
    ensures var r := FlushAcks(acks, p, mtu, refuse);
            && (forall q: nat :: p.sc.asked <= q < p.sc.asked + (r.sent - p.sent) ==> !refuse(q))
            && (r.refused <==> r.sent < |acks|)
            && (r.refused ==> refuse(p.sc.asked + (r.sent - p.sent)))
            && (!r.refused ==> r.sc.asked == p.sc.asked + (|acks| - p.sent))
    decreases |acks| - p.sent
  {
    if p.sent < |acks| && !refuse(p.sc.asked) {
      var hdr := AckSeg(p.hdr, acks[p.sent]);
      var p1 := AckPhase(Pack(Ask(p.sc), ToWire(hdr), mtu), hdr, p.sent + 1, false);
      assert FlushAcks(acks, p, mtu, refuse) == FlushAcks(acks, p1, mtu, refuse);
      AcksAnswered(acks, p1, mtu, refuse);
    }
  }

  lemma ProbesAnswered(p: ProbePhase, mtu: nat, refuse: Oracle)
    requires !p.refused
    ensures var r, n := FlushTell(FlushAsk(p, mtu, refuse), mtu, refuse), p.sc.asked;
            var later := if p.probe.ask then n + 1 else n;
            && r.probe.ask == (p.probe.ask && refuse(n))
            && r.probe.tell == (p.probe.tell && (r.probe.ask || refuse(later)))
            && r.refused == (r.probe.ask || r.probe.tell)
            && r.probe.wait == p.probe.wait && r.probe.ts == p.probe.ts
            && (!r.refused ==> r.sc.asked == if p.probe.tell then later + 1 else later)
  {
  }

  /**
   The probe timer: it runs only while the remote window is zero, first for 7 s, and each time it runs out
   the question is wanted and the time grows by half, to 120 s at most.
   */
  ghost predicate Timed(ep: Endpoint, p: Probe) {
    var was, now := ep.probe, ep.clock.current;
    && p.tell == was.tell
    && (if ep.rmtWnd != 0 then p.wait == 0 && p.ts == 0 && p.ask == was.ask
        else if was.wait == 0 then p.wait == 7000 && p.ts == Number(now + 7000) && p.ask == was.ask
        else if Diff(now, was.ts) < 0 then p == was
        else
          && p.ask && p.ts == Number(now + p.wait)
          && p.wait == if was.wait * 3 / 2 < 120000 then was.wait * 3 / 2 else 120000)
  }

  lemma TimerIs(ep: Endpoint)
    requires Inv(ep)
    ensures Timed(ep, ProbeTimer(ep.probe, ep.rmtWnd, ep.clock.current))
  {
  }

  /** The questions before the data: one for each acknowledgement and each probe that is wanted. */
  function Before(ep: Endpoint, p: Probe): nat {
    |ep.acks| + (if p.ask then 1 else 0) + (if p.tell then 1 else 0)
  }

  ghost predicate Granted(n: nat, refuse: Oracle) {
    forall q: nat :: q < n ==> !refuse(q)
  }

  /** Which of the acknowledgements and probes are left: those from the first refused question on. */
  ghost predicate HeadersLeft(ep: Endpoint, p: Probe, acks: seq<Ack>, probe: Probe, refuse: Oracle) {
    var n := |ep.acks|;
    var k := n - |acks|;
    && k >= 0 && acks == ep.acks[k..] && Granted(k, refuse) && (k < n ==> refuse(k))
    && (if k < n then probe == ep.probe
        else
          && probe.wait == p.wait && probe.ts == p.ts
          && probe.ask == (p.ask && refuse(n))
          && probe.tell == (p.tell && (probe.ask || refuse(if p.ask then n + 1 else n))))
  }

  lemma AcksEnd(ep: Endpoint, refuse: Oracle) returns (a: AckPhase)
    requires Inv(ep)
    ensures a == AcksOf(ep, refuse) && a.sent <= |ep.acks| && (a.refused <==> a.sent < |ep.acks|)
    ensures Granted(a.sent, refuse) && (a.refused ==> refuse(a.sent)) && (!a.refused ==> a.sc.asked == |ep.acks|)
  {
    AcksAnswered(ep.acks, AckPhase(EMPTY, Template(ep), 0, false), ep.cfg.mtu, refuse);
    a := AcksOf(ep, refuse);
  }

  lemma ProbesEnd(ep: Endpoint, a: AckPhase, refuse: Oracle) returns (r: ProbePhase, p: Probe)
    requires Inv(ep) && !a.refused && a.sc.asked == |ep.acks| && Granted(|ep.acks|, refuse)
    ensures r == ProbesOf(ep, a, refuse) && p == ProbeTimer(ep.probe, ep.rmtWnd, ep.clock.current) && Timed(ep, p)
    ensures HeadersLeft(ep, p, [], r.probe, refuse) && r.refused == (r.probe.ask || r.probe.tell)
    ensures (!r.refused <==> Granted(Before(ep, p), refuse)) && (!r.refused ==> r.sc.asked == Before(ep, p))
  {
    p := ProbeTimer(ep.probe, ep.rmtWnd, ep.clock.current);
    TimerIs(ep);
    ProbesAnswered(ProbePhase(a.sc, a.hdr, p, false), ep.cfg.mtu, refuse);
    r := ProbesOf(ep, a, refuse);
    GrantedMore(|ep.acks|, p, refuse);
  }

  lemma GrantedMore(n: nat, p: Probe, refuse: Oracle)
    requires Granted(n, refuse)
    ensures Granted(n + (if p.ask then 1 else 0) + (if p.tell then 1 else 0), refuse) <==>
            (p.ask ==> !refuse(n)) && (p.tell ==> !refuse(if p.ask then n + 1 else n))
  {
  }

  lemma AcksRefused(ep: Endpoint, p: Probe, a: AckPhase, refuse: Oracle)
    requires a.refused && a.sent < |ep.acks| && Granted(a.sent, refuse) && refuse(a.sent)
    ensures HeadersLeft(ep, p, ep.acks[a.sent..], ep.probe, refuse) && !Granted(Before(ep, p), refuse)
  {
  }

  /** A flush comes to its data exactly if it is not the first call and no question before them is refused. */
  lemma ReachesDataIff(ep: Endpoint, refuse: Oracle) returns (p: Probe)
    requires Inv(ep)
    ensures p == ProbeTimer(ep.probe, ep.rmtWnd, ep.clock.current) && Timed(ep, p)
    ensures ReachesData(ep, refuse) <==> ep.clock.updated && Granted(Before(ep, p), refuse)
    ensures ReachesData(ep, refuse) ==> ProbesOf(ep, AcksOf(ep, refuse), refuse).sc.asked == Before(ep, p)
  {
    p := ProbeTimer(ep.probe, ep.rmtWnd, ep.clock.current);
    TimerIs(ep);
    var a := AcksEnd(ep, refuse);
    if a.refused {
      AcksRefused(ep, p, a, refuse);
    } else {
      var r, q := ProbesEnd(ep, a, refuse);
    }
  }

  /** A flush before the first update does nothing; one that does not come to its data leaves the sender alone. */
  lemma FlushHeaders(ep: Endpoint, refuse: Oracle) returns (p: Probe)
    requires Inv(ep)
    ensures Timed(ep, p)
    ensures var f := Flush.Flush(ep, refuse);
            && f.ep == ep.(snd := f.ep.snd, cong := f.ep.cong, acks := f.ep.acks, probe := f.ep.probe,
                           xmit := f.ep.xmit, dead := f.ep.dead)
            && (if ep.clock.updated then HeadersLeft(ep, p, f.ep.acks, f.ep.probe, refuse)
                else f.ep == ep && f.out == [] && !f.refused)
            && (!ReachesData(ep, refuse) ==>
                  && f.ep.snd == ep.snd && f.ep.cong == ep.cong && f.ep.xmit == ep.xmit && f.ep.dead == ep.dead
                  && (f.refused <==> ep.clock.updated))
  {
    p := ProbeTimer(ep.probe, ep.rmtWnd, ep.clock.current);
    TimerIs(ep);
    var a := AcksEnd(ep, refuse);
    if a.refused {
      AcksRefused(ep, p, a, refuse);
    } else {
      var r, q := ProbesEnd(ep, a, refuse);
      if !r.refused { ProbesCleared(r.probe); }
    }
  }

  lemma ProbesCleared(p: Probe)
    ensures !p.ask && !p.tell ==> p == p.(ask := false, tell := false)
  {
  }

  // ---------- the whole ----------

  /** Sender, congestion window and count of timeouts after the data of a flush, whose questions begin at `first`. */
  ghost predicate DataOutcome(
      ep: Endpoint, s': Snd, c': Cong, xmit': u32, refused: bool, mid: seq<Seg>, m: nat, first: nat, refuse: Oracle) {
    var left, e := s'.queue != [], if m < |mid| then m + 1 else m;
    && SenderOutcome(ep, s', refused, mid, m)
    && Answered(ep, left, mid, m, first, refuse)
    && WindowOutcome(ep, c', SomeExpired(ep, mid, m), SomeOvertaken(ep, left, mid, m), Sub(s'.nxt, s'.una))
    && xmit' == Number(ep.xmit + ExpiredIn(ep, mid, 0, e))
  }

  lemma DataOutcomeOf(ep: Endpoint, hdr: Seg, snd: Snd, sc: Scratch, refuse: Oracle, d: DataPhase, s': Snd, c': Cong)
      returns (m: nat)
    requires Inv(ep) && SameHeader(hdr, Template(ep)) && snd == NumberedOf(ep, hdr)
    requires d == DataOf(ep, snd, sc, refuse) && s' == snd.(buf := d.buf)
    requires c' == OnFlush(ep.cong, d.change, d.lost, Sub(snd.nxt, snd.una), ResentOf(ep.cfg.fastResend),
                           EffectiveWindow(ep), ep.cfg.mss)
    ensures DataOutcome(ep, s', c', d.xmit, d.refused, snd.buf, m, sc.asked, refuse)
  {
    m := DataSender(ep, hdr, snd, sc, refuse, d);
    DataAnswered(ep, snd, sc.asked, refuse, m);
    DataFlagsAre(ep, snd, sc, refuse, d, m);
    var k := NumberedOk(ep, hdr);
    OnFlushOutcome(ep, d.change, d.lost, Sub(snd.nxt, snd.una));
  }

  /**
   A flush that comes to its data, in fields and for every callback: what was numbered and what was made of
   every segment; where it was refused, if it was; the congestion window; the count of timeouts.
   */
  lemma FlushSender(ep: Endpoint, refuse: Oracle) returns (p: Probe, mid: seq<Seg>, m: nat, f: Flushed)
    requires Inv(ep) && ReachesData(ep, refuse)
    ensures Timed(ep, p) && f == Flush.Flush(ep, refuse)
    ensures mid == NumberedOf(ep, ProbesOf(ep, AcksOf(ep, refuse), refuse).hdr).buf
    ensures DataOutcome(ep, f.ep.snd, f.ep.cong, f.ep.xmit, f.refused, mid, m, Before(ep, p), refuse)
  {
    p := ReachesDataIff(ep, refuse);
    var hdr, snd, sc, d;
    f, hdr, snd, sc, d := DataParts(ep, refuse);
    mid := snd.buf;
    m := DataOutcomeOf(ep, hdr, snd, sc, refuse, d, f.ep.snd, f.ep.cong);
  }

  // ---------- what the datagrams contain ----------

  /** The window that a header shows: the room in the receive queue, in its 16 bits. */
  ghost predicate Shows(ep: Endpoint, w: Wire) {
    && w.conv == ep.cfg.conv && w.una == ep.rcv.nxt
    && exists free: u32 :: Free(ep, free) && w.wnd == free % 65536
  }

  ghost predicate AckWireIs(ep: Endpoint, a: Ack, w: Wire) {
    Shows(ep, w) && w.cmd == 82 && w.frg == 0 && w.sn == a.sn && w.ts == a.ts && w.data == []
  }

  /** Number and time are those of the last acknowledgement, whose header the probes share. */
  ghost predicate ProbeWireIs(ep: Endpoint, cmd: int, w: Wire) {
    && Shows(ep, w) && w.cmd == cmd && w.frg == 0 && w.data == []
    && (if ep.acks == [] then w.sn == 0 && w.ts == 0
        else w.sn == ep.acks[|ep.acks| - 1].sn && w.ts == ep.acks[|ep.acks| - 1].ts)
  }

  ghost predicate DataWireIs(ep: Endpoint, s: Seg, w: Wire) {
    && Shows(ep, w) && w.cmd == 81 && w.ts == ep.clock.current
    && w.sn == s.sn && w.frg == s.frg % 256 && w.data == s.data
  }

  /** What stands at position `k`: acknowledgements, then the question, then the answer, then data. */
  ghost predicate WireAt(ep: Endpoint, p: Probe, buf: seq<Seg>, k: nat, w: Wire) {
    if k < |ep.acks| then AckWireIs(ep, ep.acks[k], w)
    else if k < Before(ep, p) then ProbeWireIs(ep, if k == |ep.acks| && p.ask then 83 else 84, w)
    else exists i :: 0 <= i < |buf| && DataWireIs(ep, buf[i], w)
  }

  lemma HeaderWires(ep: Endpoint, p: Probe, k: nat)
    requires k < Before(ep, p)
    ensures var ws := AckWires(Template(ep), ep.acks) + ProbeWires(p, LastHeader(Template(ep), ep.acks));
            && |ws| == Before(ep, p)
            && forall buf :: WireAt(ep, p, buf, k, ws[k])
  {
    FreeIsUnused(ep);
    var ws := AckWires(Template(ep), ep.acks) + ProbeWires(p, LastHeader(Template(ep), ep.acks));
    assert Shows(ep, ws[k]) by { assert ws[k].wnd == UnusedWindow(ep.rcv) % 65536; }
  }

  lemma TreatedWire(ep: Endpoint, left: bool, s: Seg, s': Seg)
    requires Treated(ep, left, s, s') && s'.xmit != s.xmit && s'.cmd == PUSH && s'.conv == ep.cfg.conv
    ensures DataWireIs(ep, s', ToWire(s'))
  {
  }

  lemma DataWires(ep: Endpoint, left: bool, mid: seq<Seg>, after: seq<Seg>, refused: bool, m: nat, k: nat)
    requires Treatment(ep, left, mid, after, refused, m) && k < |Transmitted(mid, after, 0)|
    requires forall i :: 0 <= i < |after| ==> after[i].cmd == PUSH && after[i].conv == ep.cfg.conv
    ensures exists i :: 0 <= i < |after| && DataWireIs(ep, after[i], Transmitted(mid, after, 0)[k])
  {
    Ledger.TransmittedAre(mid, after, 0, k);
    var l :| 0 <= l < |after| && after[l].xmit != mid[l].xmit && Transmitted(mid, after, 0)[k] == ToWire(after[l]);
    SentIsTreated(ep, left, mid, after, refused, m, l);
    TreatedWire(ep, left, mid[l], after[l]);
  }

  lemma SentIsTreated(ep: Endpoint, left: bool, mid: seq<Seg>, after: seq<Seg>, refused: bool, m: nat, l: nat)
    requires Treatment(ep, left, mid, after, refused, m) && l < |mid| && after[l].xmit != mid[l].xmit
    ensures Treated(ep, left, mid[l], after[l])
  {
  }

  /** The headers that are wanted: acknowledgements and probes. */
  function Headers(ep: Endpoint, p: Probe): seq<Wire> {
    AckWires(Template(ep), ep.acks) + ProbeWires(p, LastHeader(Template(ep), ep.acks))
  }

  lemma AccountHeaders(ep: Endpoint, f: Flushed, a: Account) returns (p: Probe)
    requires AccountOf(ep, f, a)
    ensures p == ProbeTimer(ep.probe, ep.rmtWnd, ep.clock.current)
    ensures if a.data then Flat(f.out) == Headers(ep, p) + Transmitted(a.buf, f.ep.snd.buf, 0)
            else Flat(f.out) <= Headers(ep, p)
  {
    p := ProbeTimer(ep.probe, ep.rmtWnd, ep.clock.current);
    var hdr, all := LastHeader(Template(ep), ep.acks), AckWires(Template(ep), ep.acks);
    if a.data {
      WholeFlat(Flat(f.out), all, a.probes, ProbeWires(f.ep.probe, hdr), Transmitted(a.buf, f.ep.snd.buf, 0));
    } else if a.probing {
      assert ep.acks[..a.acked] == ep.acks;
      FrontOfMore(all, a.probes, ProbeWires(f.ep.probe, hdr), Flat(f.out));
    } else {
      FewerAckWires(Template(ep), ep.acks, a.acked);
      FrontOfAcks(Flat(f.out), AckWires(Template(ep), ep.acks[..a.acked]), AckWires(Template(ep), ep.acks[a.acked..]),
                  ProbeWires(p, hdr));
    }
  }

  lemma WholeFlat(flat: seq<Wire>, acks: seq<Wire>, probes: seq<Wire>, left: seq<Wire>, data: seq<Wire>)
    requires flat == acks + probes + data && left == []
    ensures flat == acks + (probes + left) + data
  {
    assert probes + left == probes;
  }

  lemma FrontOfAcks(flat: seq<Wire>, some: seq<Wire>, others: seq<Wire>, probes: seq<Wire>)
    requires flat <= some + []
    ensures flat <= some + others + probes
  {
  }

  lemma FewerAckWires(hdr: Seg, acks: seq<Ack>, k: nat)
    requires k <= |acks|
    ensures AckWires(hdr, acks) == AckWires(hdr, acks[..k]) + AckWires(hdr, acks[k..])
  {
  }

  lemma FrontOfMore<T>(a: seq<T>, b: seq<T>, more: seq<T>, flat: seq<T>)
    requires flat <= a + b
    ensures flat <= a + (b + more)
  {
    Associative(a, b, more);
  }

  /**
   Everything that a flush hands out, for every callback: at each position what belongs there, with the
   fields of this endpoint; and if it comes to its data, all headers that are wanted, and behind them
   each segment whose count rose, in the order of the buffer.
   */
  lemma FlushWires(ep: Endpoint, refuse: Oracle) returns (p: Probe, f: Flushed, mid: seq<Seg>)
    requires Inv(ep)
    ensures Timed(ep, p) && f == Flush.Flush(ep, refuse)
    ensures forall k :: 0 <= k < |Flat(f.out)| ==> WireAt(ep, p, f.ep.snd.buf, k, Flat(f.out)[k])
    ensures ReachesData(ep, refuse) ==>
              && mid == NumberedOf(ep, ProbesOf(ep, AcksOf(ep, refuse), refuse).hdr).buf && |mid| == |f.ep.snd.buf|
              && |Flat(f.out)| == Before(ep, p) + |Transmitted(mid, f.ep.snd.buf, 0)|
              && Flat(f.out)[Before(ep, p)..] == Transmitted(mid, f.ep.snd.buf, 0)
  {
    f := Flush.Flush(ep, refuse);
    var a := FlushAccount(ep, refuse);
    mid := a.buf;
    p := AccountHeaders(ep, f, a);
    TimerIs(ep);
    HeadersAre(ep, p);
    if ReachesData(ep, refuse) {
      var data := SentWires(ep, p, refuse);
      WiresBehind(ep, p, f.ep.snd.buf, Flat(f.out), Headers(ep, p), data);
    } else {
      WiresBehind(ep, p, f.ep.snd.buf, Headers(ep, p), Headers(ep, p), []);
    }
  }

  lemma SentWires(ep: Endpoint, p: Probe, refuse: Oracle) returns (data: seq<Wire>)
    requires Inv(ep) && ReachesData(ep, refuse)
    ensures var mid := NumberedOf(ep, ProbesOf(ep, AcksOf(ep, refuse), refuse).hdr).buf;
            var after := Flush.Flush(ep, refuse).ep.snd.buf;
            && |mid| == |after| && data == Transmitted(mid, after, 0)
            && forall k :: 0 <= k < |data| ==> exists i :: 0 <= i < |after| && DataWireIs(ep, after[i], data[k])
  {
    var p1, mid, m, f := FlushSender(ep, refuse);
    FlushKeeps(ep, refuse);
    data := Transmitted(mid, f.ep.snd.buf, 0);
    forall k | 0 <= k < |data|
      ensures exists i :: 0 <= i < |f.ep.snd.buf| && DataWireIs(ep, f.ep.snd.buf[i], data[k])
    {
      DataWires(ep, f.ep.snd.queue != [], mid, f.ep.snd.buf, f.refused, m, k);
    }
  }

  lemma WiresBehind(ep: Endpoint, p: Probe, buf: seq<Seg>, flat: seq<Wire>, headers: seq<Wire>, data: seq<Wire>)
    requires flat <= headers + data && |headers| == Before(ep, p)
    requires forall k :: 0 <= k < |headers| ==> WireAt(ep, p, buf, k, headers[k])
    requires forall k :: 0 <= k < |data| ==> exists i :: 0 <= i < |buf| && DataWireIs(ep, buf[i], data[k])
    ensures forall k :: 0 <= k < |flat| ==> WireAt(ep, p, buf, k, flat[k])
  {
    forall k | 0 <= k < |flat| ensures WireAt(ep, p, buf, k, flat[k]) {
      assert flat[k] == if k < |headers| then headers[k] else data[k - |headers|];
    }
  }

  lemma HeadersAre(ep: Endpoint, p: Probe)
    ensures |Headers(ep, p)| == Before(ep, p)
    ensures forall k, buf :: 0 <= k < |Headers(ep, p)| ==> WireAt(ep, p, buf, k, Headers(ep, p)[k])
  {
    forall k, buf | 0 <= k < Before(ep, p) ensures WireAt(ep, p, buf, k, Headers(ep, p)[k]) {
      HeaderWires(ep, p, k);
    }
  }

  /** The headers encoded before the refusal; those of the last, unfinished datagram are lost. */
  ghost predicate Abandoned(ep: Endpoint, p: Probe, n: nat, out: seq<seq<Wire>>, lost: seq<Wire>, refuse: Oracle) {
    && n < Before(ep, p) <= |Headers(ep, p)| && Granted(n, refuse) && refuse(n)
    && Flat(out) + lost == Headers(ep, p)[..n]
    && (n > 0 ==> lost != []) && Fits(Scratch(lost, out, n), ep.cfg.mtu)
  }

  lemma AcksAbandoned(ep: Endpoint, p: Probe, refuse: Oracle)
    requires Inv(ep) && AcksOf(ep, refuse).refused
    ensures var a := AcksOf(ep, refuse); Abandoned(ep, p, a.sent, a.sc.out, a.sc.pending, refuse)
  {
    var a := AcksEnd(ep, refuse);
    AcksFacts(ep, refuse);
    AckHeaders(ep, p, a.sent);
    NothingPending(a.sc, ep.cfg.mtu);
  }

  lemma AckHeaders(ep: Endpoint, p: Probe, k: nat)
    requires k <= |ep.acks|
    ensures |Headers(ep, p)| == Before(ep, p)
    ensures Headers(ep, p)[..k] == AckWires(Template(ep), ep.acks[..k])
  {
    FewerAckWires(Template(ep), ep.acks, k);
  }

  lemma NothingPending(sc: Scratch, mtu: nat)
    requires Fits(sc, mtu)
    ensures Encoded(sc) != [] ==> sc.pending != []
    ensures forall n :: Fits(Scratch(sc.pending, sc.out, n), mtu)
  {
    forall n ensures Fits(Scratch(sc.pending, sc.out, n), mtu) {
      assert Finish(Scratch(sc.pending, sc.out, n)) == Finish(sc);
    }
  }

  /** The probe phase of a flush whose acknowledgements went out. */
  lemma ProbesKnown(ep: Endpoint, p: Probe, hdr: Seg, refuse: Oracle) returns (r: ProbePhase, probes: seq<Wire>)
    requires Inv(ep) && p == ProbeTimer(ep.probe, ep.rmtWnd, ep.clock.current) && !AcksOf(ep, refuse).refused
    requires hdr == LastHeader(Template(ep), ep.acks)
    ensures r == ProbesOf(ep, AcksOf(ep, refuse), refuse) && Fits(r.sc, ep.cfg.mtu)
    ensures Encoded(r.sc) == AckWires(Template(ep), ep.acks) + probes
    ensures probes + ProbeWires(r.probe, hdr) == ProbeWires(p, hdr)
    ensures r.refused == (r.probe.ask || r.probe.tell) && HeadersLeft(ep, p, [], r.probe, refuse)
  {
    var a := AcksEnd(ep, refuse);
    var q;
    r, q := ProbesEnd(ep, a, refuse);
    probes := ProbesFacts(ep, refuse);
  }

  lemma ProbesAbandoned(ep: Endpoint, p: Probe, refuse: Oracle) returns (n: nat, r: ProbePhase)
    requires Inv(ep) && p == ProbeTimer(ep.probe, ep.rmtWnd, ep.clock.current) && !AcksOf(ep, refuse).refused
    requires ProbesOf(ep, AcksOf(ep, refuse), refuse).refused
    ensures r == ProbesOf(ep, AcksOf(ep, refuse), refuse)
    ensures Abandoned(ep, p, n, r.sc.out, r.sc.pending, refuse)
  {
    var hdr := LastHeader(Template(ep), ep.acks);
    var probes;
    r, probes := ProbesKnown(ep, p, hdr, refuse);
    ProbesFront(p, r.probe, hdr, probes, |ep.acks|, refuse);
    n := |ep.acks| + |probes|;
    EndAbandoned(ep, p, r.sc, probes, refuse);
  }

  lemma EndAbandoned(ep: Endpoint, p: Probe, sc: Scratch, probes: seq<Wire>, refuse: Oracle)
    requires Fits(sc, ep.cfg.mtu) && Encoded(sc) == AckWires(Template(ep), ep.acks) + probes
    requires var wanted := ProbeWires(p, LastHeader(Template(ep), ep.acks)); probes <= wanted && |probes| < |wanted|
    requires Granted(|ep.acks| + |probes|, refuse) && refuse(|ep.acks| + |probes|)
    ensures Abandoned(ep, p, |ep.acks| + |probes|, sc.out, sc.pending, refuse)
  {
    FrontOfHeaders(AckWires(Template(ep), ep.acks), probes, ProbeWires(p, LastHeader(Template(ep), ep.acks)));
    NothingPending(sc, ep.cfg.mtu);
  }

  lemma FrontOfHeaders(acks: seq<Wire>, probes: seq<Wire>, wanted: seq<Wire>)
    requires probes <= wanted
    ensures (acks + wanted)[..|acks| + |probes|] == acks + probes
  {
  }

  lemma ProbesFront(p: Probe, left: Probe, hdr: Seg, probes: seq<Wire>, n: nat, refuse: Oracle)
    requires probes + ProbeWires(left, hdr) == ProbeWires(p, hdr) && Granted(n, refuse) && (left.ask || left.tell)
    requires left.ask == (p.ask && refuse(n))
    requires left.tell == (p.tell && (left.ask || refuse(if p.ask then n + 1 else n)))
    ensures probes <= ProbeWires(p, hdr) && |probes| < |ProbeWires(p, hdr)|
    ensures Granted(n + |probes|, refuse) && refuse(n + |probes|)
  {
  }

  /**
   A flush that is refused before its data: everything granted so far was encoded, and handed out but for
   the datagram that was not finished.
   */
  lemma FlushAbandons(ep: Endpoint, refuse: Oracle) returns (p: Probe, n: nat, lost: seq<Wire>)
    requires Inv(ep) && ep.clock.updated && !ReachesData(ep, refuse)
    ensures Timed(ep, p) && Abandoned(ep, p, n, Flush.Flush(ep, refuse).out, lost, refuse)
  {
    p := ProbeTimer(ep.probe, ep.rmtWnd, ep.clock.current);
    TimerIs(ep);
    var a := AcksOf(ep, refuse);
    if a.refused {
      AcksAbandoned(ep, p, refuse);
      n, lost := a.sent, a.sc.pending;
    } else {
      var r;
      n, r := ProbesAbandoned(ep, p, refuse);
      lost := r.sc.pending;
    }
  }

  // ---------- update ----------

  /**
   An update takes the time, and flushes if it is the first, if the schedule has come, or if the schedule is
   more than 10 s ahead; otherwise it does nothing else.
   */
  lemma UpdateFlushes(ep: Endpoint, t: u32, refuse: Oracle) returns (clock: Clock)
    requires Inv(ep)
    ensures clock.current == t && clock.updated
    ensures var late := Diff(t, ep.clock.tsFlush);
            if !ep.clock.updated || late >= 0 || late < -10000 then
              && Advance(ep, t, refuse) == Flush.Flush(ep.(clock := clock), refuse)
              && (if ep.clock.updated && 0 <= late < ep.cfg.interval then
                    clock.tsFlush == Number(ep.clock.tsFlush + ep.cfg.interval)
                  else clock.tsFlush == Number(t + ep.cfg.interval))
            else Advance(ep, t, refuse) == Flushed(ep.(clock := clock), [], false) && clock.tsFlush == ep.clock.tsFlush
  {
    clock := Timer.Tick(ep.clock, ep.cfg.interval, t).0;
    Timer.NextFlushIsNear(ep.clock, ep.cfg.interval, t);
    Timer.ScheduleKeepsPhase(ep.clock, ep.cfg.interval, t);
    LaterBy(clock.tsFlush, ep.clock.tsFlush);
    LaterBy(clock.tsFlush, t);
  }

  lemma LaterBy(later: u32, earlier: u32)
    ensures later == Number(earlier + Sub(later, earlier))
  {
  }
}
