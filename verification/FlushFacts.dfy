/**
 What a flush encodes, and what it leaves behind, phase by phase.
 */
module FlushFacts {
  import opened Serial
  import opened Segment
  import opened Codec
  import opened AckList
  import opened Rtt
  import opened Congestion
  import opened SendQueue
  import opened SendBuffer
  import opened State
  import opened Packing
  import opened Flush

  // ---------- acknowledgements ----------

  function AckWires(hdr: Seg, acks: seq<Ack>): (r: seq<Wire>)
    ensures |r| == |acks|
    ensures forall i :: 0 <= i < |acks| ==> r[i] == ToWire(AckSeg(hdr, acks[i]))
  {
    seq(|acks|, i requires 0 <= i < |acks| => ToWire(AckSeg(hdr, acks[i])))
  }

  /** Headers that agree on everything but the number and timestamp. */
  ghost predicate SameHeader(a: Seg, b: Seg) {
    a.(sn := 0, ts := 0, cmd := 0) == b.(sn := 0, ts := 0, cmd := 0)
  }

  /** The shared header once `acks` have been encoded: it keeps the last number and timestamp. */
  function LastHeader(hdr: Seg, acks: seq<Ack>): Seg {
    if acks == [] then hdr else AckSeg(hdr, acks[|acks| - 1])
  }

  lemma AckWiresFront(hdr: Seg, later: Seg, acks: seq<Ack>, a: nat, b: nat)
    requires a < b <= |acks| && later == AckSeg(hdr, acks[a])
    ensures AckWires(hdr, acks[a..b]) == [ToWire(later)] + AckWires(later, acks[a + 1..b])
  {
  }

  lemma {:induction false} AcksShape(acks: seq<Ack>, p: AckPhase, mtu: nat, refuse: Oracle)
    requires p.sent <= |acks| && !p.refused
    ensures var r := FlushAcks(acks, p, mtu, refuse);
            && (r.refused <==> r.sent < |acks|)
            && r.hdr == LastHeader(p.hdr, acks[p.sent..r.sent])
    decreases |acks| - p.sent
  {
    if p.sent < |acks| && !refuse(p.sc.asked) {
      var hdr := AckSeg(p.hdr, acks[p.sent]);
      var p1 := AckPhase(Pack(Ask(p.sc), ToWire(hdr), mtu), hdr, p.sent + 1, false);
      assert FlushAcks(acks, p, mtu, refuse) == FlushAcks(acks, p1, mtu, refuse);
      AcksShape(acks, p1, mtu, refuse);
      LastOfMore(p.hdr, acks, p.sent, FlushAcks(acks, p1, mtu, refuse).sent);
    }
  }

  lemma LastOfMore(hdr: Seg, acks: seq<Ack>, a: nat, b: nat)
    requires a < b <= |acks|
    ensures LastHeader(AckSeg(hdr, acks[a]), acks[a + 1..b]) == LastHeader(hdr, acks[a..b])
  {
  }

  /**
   The acknowledgements encoded are a prefix of the list, once each and in order; without a refusal
   it is the whole list.
   */
  lemma {:induction false} AcksEncoded(acks: seq<Ack>, p: AckPhase, mtu: nat, refuse: Oracle)
    requires p.sent <= |acks| && !p.refused && p.hdr.data == [] && OVERHEAD <= mtu && Fits(p.sc, mtu)
    ensures var r := FlushAcks(acks, p, mtu, refuse);
            && Fits(r.sc, mtu)
            && (r.refused <==> r.sent < |acks|)
            && Encoded(r.sc) == Encoded(p.sc) + AckWires(p.hdr, acks[p.sent..r.sent])
    decreases |acks| - p.sent
  {
    AcksShape(acks, p, mtu, refuse);
    var r := FlushAcks(acks, p, mtu, refuse);
    if p.sent == |acks| || refuse(p.sc.asked) {
      NoAckWires(p.hdr, acks, p.sent, Encoded(p.sc));
    } else {
      var hdr := AckSeg(p.hdr, acks[p.sent]);
      var sc1 := HeaderPacked(p.sc, hdr, mtu);
      AcksEncoded(acks, AckPhase(sc1, hdr, p.sent + 1, false), mtu, refuse);
      AckWiresFront(p.hdr, hdr, acks, p.sent, r.sent);
      Associative(Encoded(p.sc), [ToWire(hdr)], AckWires(hdr, acks[p.sent + 1..r.sent]));
    }
  }

  lemma NoAckWires(hdr: Seg, acks: seq<Ack>, a: nat, ws: seq<Wire>)
    requires a <= |acks|
    ensures ws + AckWires(hdr, acks[a..a]) == ws
  {
  }

  // ---------- probes ----------

  ghost predicate IsProbe(w: Wire, hdr: Seg) {
    && (w.cmd == ASK_WINDOW || w.cmd == TELL_WINDOW)
    && w.una == hdr.una && w.conv == hdr.conv && w.data == []
  }

  /** The probes that are wanted, the question before the answer. */
  function ProbeWires(probe: Probe, hdr: Seg): seq<Wire> {
    (if probe.ask then [ToWire(hdr.(cmd := ASK_WINDOW))] else []) +
    (if probe.tell then [ToWire(hdr.(cmd := TELL_WINDOW))] else [])
  }

  lemma ProbeWiresAre(probe: Probe, hdr: Seg)
    requires hdr.data == []
    ensures forall i :: 0 <= i < |ProbeWires(probe, hdr)| ==> IsProbe(ProbeWires(probe, hdr)[i], hdr)
  {
  }

  lemma HeaderPacked(sc: Scratch, seg: Seg, mtu: nat) returns (r: Scratch)
    requires seg.data == [] && OVERHEAD <= mtu && Fits(sc, mtu)
    ensures r == Pack(Ask(sc), ToWire(seg), mtu) && Fits(r, mtu) && Encoded(r) == Encoded(sc) + [ToWire(seg)]
  {
    AskedFits(sc, mtu);
    PackAppends(Ask(sc), ToWire(seg), mtu);
    r := Pack(Ask(sc), ToWire(seg), mtu);
  }

  lemma AskedFits(sc: Scratch, mtu: nat)
    requires Fits(sc, mtu)
    ensures Fits(Ask(sc), mtu) && Encoded(Ask(sc)) == Encoded(sc) && Encoded(sc) == Encoded(sc) + []
  {
    assert Finish(Ask(sc)) == Finish(sc);
  }

  lemma ProbeWiresSplit(p: Probe, hdr: Seg)
    ensures p.ask ==> ProbeWires(p, hdr) == [ToWire(hdr.(cmd := ASK_WINDOW))] + ProbeWires(p.(ask := false), hdr)
    ensures !p.ask && p.tell ==>
              ProbeWires(p, hdr) == [ToWire(hdr.(cmd := TELL_WINDOW))] + ProbeWires(p.(tell := false), hdr)
    ensures [] + ProbeWires(p, hdr) == ProbeWires(p, hdr)
  {
  }

  lemma AskEncoded(p: ProbePhase, mtu: nat, refuse: Oracle) returns (r: ProbePhase, ws: seq<Wire>)
    requires !p.refused && p.hdr.data == [] && OVERHEAD <= mtu && Fits(p.sc, mtu)
    ensures r == FlushAsk(p, mtu, refuse) && Fits(r.sc, mtu) && r.hdr == p.hdr.(cmd := r.hdr.cmd)
    ensures Encoded(r.sc) == Encoded(p.sc) + ws
    ensures ws + ProbeWires(r.probe, p.hdr) == ProbeWires(p.probe, p.hdr)
    ensures r.refused || !r.probe.ask
  {
    r, ws := FlushAsk(p, mtu, refuse), [];
    AskedFits(p.sc, mtu);
    ProbeWiresSplit(p.probe, p.hdr);
    if p.probe.ask && !refuse(p.sc.asked) {
      var hdr := p.hdr.(cmd := ASK_WINDOW);
      var sc := HeaderPacked(p.sc, hdr, mtu);
      ws := [ToWire(hdr)];
    }
  }

  lemma TellEncoded(p: ProbePhase, mtu: nat, refuse: Oracle) returns (r: ProbePhase, ws: seq<Wire>)
    requires p.hdr.data == [] && OVERHEAD <= mtu && Fits(p.sc, mtu) && (p.refused || !p.probe.ask)
    ensures r == FlushTell(p, mtu, refuse) && Fits(r.sc, mtu) && r.hdr == p.hdr.(cmd := r.hdr.cmd)
    ensures Encoded(r.sc) == Encoded(p.sc) + ws
    ensures ws + ProbeWires(r.probe, p.hdr) == ProbeWires(p.probe, p.hdr)
    ensures r.refused || (!r.probe.ask && !r.probe.tell)
  {
    r, ws := FlushTell(p, mtu, refuse), [];
    AskedFits(p.sc, mtu);
    ProbeWiresSplit(p.probe, p.hdr);
    if !p.refused && p.probe.tell && !refuse(p.sc.asked) {
      var hdr := p.hdr.(cmd := TELL_WINDOW);
      var sc := HeaderPacked(p.sc, hdr, mtu);
      ws := [ToWire(hdr)];
    }
  }

  /**
   The probes encoded, followed by those still wanted afterwards, are those that were wanted, the question
   before the answer; without a refusal none is left.
   */
  lemma ProbesEncoded(p: ProbePhase, mtu: nat, refuse: Oracle) returns (ws: seq<Wire>)
    requires !p.refused && p.hdr.data == [] && OVERHEAD <= mtu && Fits(p.sc, mtu)
    ensures var r := FlushTell(FlushAsk(p, mtu, refuse), mtu, refuse);
            && Fits(r.sc, mtu) && SameHeader(r.hdr, p.hdr)
            && Encoded(r.sc) == Encoded(p.sc) + ws
            && ws + ProbeWires(r.probe, p.hdr) == ProbeWires(p.probe, p.hdr)
            && (!r.refused ==> !r.probe.ask && !r.probe.tell)
  {
    var p1, ws1 := AskEncoded(p, mtu, refuse);
    var r, ws2 := TellEncoded(p1, mtu, refuse);
    ws := ws1 + ws2;
    Associative(Encoded(p.sc), ws1, ws2);
    Associative(ws1, ws2, ProbeWires(r.probe, p.hdr));
    assert ProbeWires(r.probe, p1.hdr) == ProbeWires(r.probe, p.hdr);
    assert ProbeWires(p1.probe, p1.hdr) == ProbeWires(p1.probe, p.hdr);
  }

  // ---------- numbering ----------

  /** What numbering makes of the `i`-th segment of the queue. */
  function StampedAt(s: Snd, i: nat, hdr: Seg, current: u32, rto: u32): Seg
    requires i < |s.queue|
  {
    Stamp(s.queue[i], hdr, current, Number(s.nxt + i), rto)
  }

  function StampedFront(s: Snd, k: nat, hdr: Seg, current: u32, rto: u32): (r: seq<Seg>)
    requires k <= |s.queue|
    ensures |r| == k && forall i :: 0 <= i < k ==> r[i] == StampedAt(s, i, hdr, current, rto)
  {
    seq(k, i requires 0 <= i < k => StampedAt(s, i, hdr, current, rto))
  }

  /** `k` segments of the queue were numbered, and no more because of the window or the end of the queue. */
  ghost predicate Moves(s: Snd, window: u32, hdr: Seg, current: u32, rto: u32, r: Snd, k: nat) {
    && k <= |s.queue|
    && r == NumberedFront(s, k, hdr, current, rto)
    && Ordered(r.una, r.nxt, r.buf) && Sub(r.nxt, r.una) == Sub(s.nxt, s.una) + k
    && (k > 0 ==> Sub(r.nxt, r.una) <= window)
    && (r.queue != [] ==> Sub(r.nxt, r.una) >= window)
  }

  lemma MovesNone(s: Snd, window: u32, hdr: Seg, current: u32, rto: u32)
    requires Ordered(s.una, s.nxt, s.buf) && window <= WINDOW_LIMIT
    requires Sub(s.nxt, s.una) >= window || s.queue == []
    ensures Moves(s, window, hdr, current, rto, NumberQueued(s, window, hdr, current, rto), 0)
  {
    WindowTest(s.nxt, s.una, window);
    NoneStamped(s, hdr, current, rto);
  }

  lemma MovesMore(s: Snd, window: u32, hdr: Seg, current: u32, rto: u32, s1: Snd, seg: Seg, r: Snd, k: nat)
    requires s.queue != [] && seg == Stamp(s.queue[0], hdr, current, s.nxt, rto)
    requires s1 == Snd(s.una, Next(s.nxt), s.queue[1..], s.buf + [seg])
    requires Sub(s1.nxt, s1.una) == Sub(s.nxt, s.una) + 1 <= window
    requires Moves(s1, window, hdr, current, rto, r, k)
    ensures Moves(s, window, hdr, current, rto, r, k + 1)
  {
    StampedOneMore(s, s1, seg, k, hdr, current, rto);
  }

  lemma {:induction false} NumberingRun(s: Snd, window: u32, hdr: Seg, current: u32, rto: u32, r: Snd)
      returns (k: nat)
    requires Ordered(s.una, s.nxt, s.buf) && window <= WINDOW_LIMIT
    requires r == NumberQueued(s, window, hdr, current, rto)
    ensures Moves(s, window, hdr, current, rto, r, k)
    decreases |s.queue|
  {
    if Sub(s.nxt, s.una) < window && s.queue != [] {
      var s1, seg := NumberOne(s, window, hdr, current, rto);
      var k1 := NumberingRun(s1, window, hdr, current, rto, r);
      k := k1 + 1;
      MovesMore(s, window, hdr, current, rto, s1, seg, r, k1);
    } else {
      k := 0;
      MovesNone(s, window, hdr, current, rto);
    }
  }

  /** Numbering moves a prefix of the queue to the end of the buffer, and stops at the window. */
  lemma NumberingMoves(s: Snd, window: u32, hdr: Seg, current: u32, rto: u32, r: Snd) returns (k: nat)
    requires Ordered(s.una, s.nxt, s.buf) && window <= WINDOW_LIMIT
    requires r == NumberQueued(s, window, hdr, current, rto)
    ensures k <= |s.queue|
    ensures r == NumberedFront(s, k, hdr, current, rto)
    ensures Ordered(r.una, r.nxt, r.buf) && Sub(r.nxt, r.una) == Sub(s.nxt, s.una) + k
    ensures k > 0 ==> Sub(r.nxt, r.una) <= window
    ensures r.queue != [] ==> Sub(r.nxt, r.una) >= window
  {
    k := NumberingRun(s, window, hdr, current, rto, r);
  }

  /** The sender with the first `k` queued segments numbered. */
  function NumberedFront(s: Snd, k: nat, hdr: Seg, current: u32, rto: u32): Snd
    requires k <= |s.queue|
  {
    Snd(s.una, Number(s.nxt + k), s.queue[k..], s.buf + StampedFront(s, k, hdr, current, rto))
  }

  lemma NumberOne(s: Snd, window: u32, hdr: Seg, current: u32, rto: u32) returns (s1: Snd, seg: Seg)
    requires Ordered(s.una, s.nxt, s.buf) && Sub(s.nxt, s.una) < window <= WINDOW_LIMIT && s.queue != []
    ensures seg == Stamp(s.queue[0], hdr, current, s.nxt, rto)
    ensures s1 == Snd(s.una, Next(s.nxt), s.queue[1..], s.buf + [seg])
    ensures Ordered(s1.una, s1.nxt, s1.buf) && Sub(s1.nxt, s1.una) == Sub(s.nxt, s.una) + 1
    ensures NumberQueued(s, window, hdr, current, rto) == NumberQueued(s1, window, hdr, current, rto)
  {
    WindowTest(s.nxt, s.una, window);
    seg := Stamp(s.queue[0], hdr, current, s.nxt, rto);
    s1 := Snd(s.una, Next(s.nxt), s.queue[1..], s.buf + [seg]);
    SequenceKeeps(s.una, s.nxt, s.buf, seg);
  }

  lemma NoneStamped(s: Snd, hdr: Seg, current: u32, rto: u32)
    ensures s == NumberedFront(s, 0, hdr, current, rto)
  {
    assert s.buf + [] == s.buf && s.queue[0..] == s.queue;
  }

  lemma WindowTest(nxt: u32, una: u32, window: u32)
    requires Sub(nxt, una) <= WINDOW_LIMIT && window <= WINDOW_LIMIT
    ensures Diff(nxt, Add(una, window)) < 0 <==> Sub(nxt, una) < window
  {
  }

  lemma StampedOneMore(s: Snd, s1: Snd, seg: Seg, k: nat, hdr: Seg, current: u32, rto: u32)
    requires s.queue != [] && seg == Stamp(s.queue[0], hdr, current, s.nxt, rto)
    requires s1 == Snd(s.una, Next(s.nxt), s.queue[1..], s.buf + [seg]) && k <= |s1.queue|
    ensures NumberedFront(s1, k, hdr, current, rto) == NumberedFront(s, k + 1, hdr, current, rto)
  {
    StampedRest(s, s1, seg, k, hdr, current, rto);
    Associative(s.buf, [seg], StampedFront(s1, k, hdr, current, rto));
    NextThenMore(s.nxt, k);
    assert s1.queue[k..] == s.queue[k + 1..];
  }

  lemma StampedRest(s: Snd, s1: Snd, seg: Seg, k: nat, hdr: Seg, current: u32, rto: u32)
    requires s.queue != [] && seg == Stamp(s.queue[0], hdr, current, s.nxt, rto)
    requires s1.nxt == Next(s.nxt) && s1.queue == s.queue[1..] && k <= |s1.queue|
    ensures StampedFront(s, k + 1, hdr, current, rto) == [seg] + StampedFront(s1, k, hdr, current, rto)
  {
    forall i: nat | i < k
      ensures StampedAt(s1, i, hdr, current, rto) == StampedAt(s, i + 1, hdr, current, rto)
    {
      NextThenMore(s.nxt, i);
    }
    assert StampedAt(s, 0, hdr, current, rto) == seg;
  }

  lemma NextThenMore(n: u32, i: nat)
    ensures Number(Next(n) + i) == Number(n + (i + 1))
  {
  }

  // ---------- data ----------

  /** What no transmission alters: number, payload, fragment counter, command, conversation. */
  ghost predicate SameSegment(a: Seg, b: Seg) {
    a.sn == b.sn && a.data == b.data && a.frg == b.frg && a.cmd == b.cmd && a.conv == b.conv
  }

  ghost predicate SameSegments(a: seq<Seg>, b: seq<Seg>) {
    |a| == |b| && forall i :: 0 <= i < |a| ==> SameSegment(a[i], b[i])
  }

  /** The segments, from `i` on, whose transmission count changed: as they went out. */
  function Transmitted(before: seq<Seg>, after: seq<Seg>, i: nat): seq<Wire>
    requires |before| == |after| && i <= |before|
    decreases |before| - i
  {
    if i == |before| then []
    else
      Difference(before[i], after[i]) + Transmitted(before, after, i + 1)
  }

  function Difference(before: Seg, after: Seg): seq<Wire> {
    if after.xmit != before.xmit then [ToWire(after)] else []
  }

  lemma {:induction false} TransmittedLocal(a: seq<Seg>, b: seq<Seg>, after: seq<Seg>, i: nat)
    requires |a| == |b| == |after| && i <= |a|
    requires forall j :: i <= j < |a| ==> a[j] == b[j]
    ensures Transmitted(a, after, i) == Transmitted(b, after, i)
    decreases |a| - i
  {
    if i < |a| { TransmittedLocal(a, b, after, i + 1); }
  }

  lemma {:induction false} NothingTransmitted(a: seq<Seg>, i: nat)
    requires i <= |a|
    ensures Transmitted(a, a, i) == []
    decreases |a| - i
  {
    if i < |a| { NothingTransmitted(a, i + 1); }
  }

  /** What one step may do to the segment in hand. */
  ghost predicate StepsTo(s: Seg, s': Seg, t: Setting, refused: bool) {
    s' == if CauseOf(s, t).Idle? then s else if refused then Unsent(Prepared(s, t)) else Prepared(s, t)
  }

  lemma PreparedSame(s: Seg, t: Setting)
    ensures SameSegment(Prepared(s, t), s) && SameSegment(Unsent(Prepared(s, t)), s)
    ensures Unsent(Prepared(s, t)).xmit == s.xmit || CauseOf(s, t).Idle?
    ensures !CauseOf(s, t).Idle? ==>
              Prepared(s, t).xmit == Next(s.xmit) != s.xmit && Prepared(s, t).una == t.una
  {
  }

  lemma {:induction false} DataShape(d: DataPhase, i: nat, t: Setting, refuse: Oracle)
    requires i <= |d.buf|
    ensures SameSegments(d.buf, FlushData(d, i, t, refuse).buf)
    decreases |d.buf| - i
  {
    if !d.refused && i < |d.buf| {
      PreparedSame(d.buf[i], t);
      DataShape(DataStep(d, i, t, refuse), i + 1, t, refuse);
    }
  }

  /** What the data phase encodes, step by step. */
  function SentBy(d: DataPhase, i: nat, t: Setting, refuse: Oracle): seq<Wire>
    requires i <= |d.buf|
    decreases |d.buf| - i
  {
    if d.refused || i == |d.buf| then []
    else
      var d1 := DataStep(d, i, t, refuse);
      Difference(d.buf[i], d1.buf[i]) + SentBy(d1, i + 1, t, refuse)
  }

  lemma {:induction false} SentIsTransmitted(
      d: DataPhase, i: nat, t: Setting, refuse: Oracle, r: DataPhase, sent: seq<Wire>)
    requires i <= |d.buf| && r == FlushData(d, i, t, refuse) && sent == SentBy(d, i, t, refuse)
    ensures sent == Transmitted(d.buf, r.buf, i)
    decreases |d.buf| - i
  {
    if d.refused || i == |d.buf| {
      NothingTransmitted(d.buf, i);
    } else {
      var d1 := DataStep(d, i, t, refuse);
      StepAt(d, i, t, refuse);
      Settled(d1, i + 1, t, refuse);
      SentIsTransmitted(d1, i + 1, t, refuse, r, SentBy(d1, i + 1, t, refuse));
      TransmittedFrom(d.buf, d1.buf, r.buf, i);
    }
  }

  lemma TransmittedFrom(before: seq<Seg>, mid: seq<Seg>, after: seq<Seg>, i: nat)
    requires i < |before| == |mid| == |after| && after[i] == mid[i]
    requires forall j :: 0 <= j < |before| && j != i ==> mid[j] == before[j]
    ensures Difference(before[i], mid[i]) + Transmitted(mid, after, i + 1) == Transmitted(before, after, i)
  {
    TransmittedLocal(before, mid, after, i + 1);
  }

  lemma {:induction false} SentIsEncoded(d: DataPhase, i: nat, t: Setting, refuse: Oracle)
    requires i <= |d.buf| && Fits(d.sc, t.mtu) && Small(d.buf, t.mtu)
    ensures Encoded(FlushData(d, i, t, refuse).sc) == Encoded(d.sc) + SentBy(d, i, t, refuse)
    decreases |d.buf| - i
  {
    if !d.refused && i < |d.buf| {
      var d1 := DataStep(d, i, t, refuse);
      StepReady(d, i, t, refuse);
      SentIsEncoded(d1, i + 1, t, refuse);
      Associative(Encoded(d.sc), Difference(d.buf[i], d1.buf[i]), SentBy(d1, i + 1, t, refuse));
    }
  }

  /**
   The data phase, from segment `i` on: it encodes exactly the segments whose count it raises, once
   each, in order, in the state in which it leaves them; all others keep their counts.
   */
  lemma DataEncoded(d: DataPhase, i: nat, t: Setting, refuse: Oracle)
    requires i <= |d.buf| && Fits(d.sc, t.mtu) && Small(d.buf, t.mtu)
    ensures var r := FlushData(d, i, t, refuse);
            Encoded(r.sc) == Encoded(d.sc) + Transmitted(d.buf, r.buf, i)
  {
    SentIsEncoded(d, i, t, refuse);
    SentIsTransmitted(d, i, t, refuse, FlushData(d, i, t, refuse), SentBy(d, i, t, refuse));
  }

  /** Every segment fits a datagram of `mtu` bytes. */
  ghost predicate Small(buf: seq<Seg>, mtu: nat) {
    forall j :: 0 <= j < |buf| ==> OVERHEAD + |buf[j].data| <= mtu
  }

  lemma StepReady(d: DataPhase, i: nat, t: Setting, refuse: Oracle)
    requires i < |d.buf| && Fits(d.sc, t.mtu) && Small(d.buf, t.mtu)
    ensures var d1 := DataStep(d, i, t, refuse);
            && |d1.buf| == |d.buf| && Fits(d1.sc, t.mtu) && Small(d1.buf, t.mtu)
            && Encoded(d1.sc) == Encoded(d.sc) + Difference(d.buf[i], d1.buf[i])
  {
    StepEncoded(d, i, t, refuse);
  }

  lemma {:induction false} DataFits(d: DataPhase, i: nat, t: Setting, refuse: Oracle)
    requires i <= |d.buf| && Fits(d.sc, t.mtu) && Small(d.buf, t.mtu)
    ensures Fits(FlushData(d, i, t, refuse).sc, t.mtu)
    decreases |d.buf| - i
  {
    if !d.refused && i < |d.buf| {
      StepEncoded(d, i, t, refuse);
      DataFits(DataStep(d, i, t, refuse), i + 1, t, refuse);
    }
  }

  lemma StepEncoded(d: DataPhase, i: nat, t: Setting, refuse: Oracle)
    requires i < |d.buf| && Fits(d.sc, t.mtu) && OVERHEAD + |d.buf[i].data| <= t.mtu
    ensures var d1 := DataStep(d, i, t, refuse);
            && Fits(d1.sc, t.mtu)
            && |d1.buf| == |d.buf|
            && (forall j :: 0 <= j < |d.buf| && j != i ==> d1.buf[j] == d.buf[j])
            && |d1.buf[i].data| == |d.buf[i].data|
            && Encoded(d1.sc) == Encoded(d.sc) + Difference(d.buf[i], d1.buf[i])
  {
    PreparedSame(d.buf[i], t);
    if CauseOf(d.buf[i], t).Idle? || refuse(d.sc.asked) {
      assert Encoded(d.sc) + [] == Encoded(d.sc);
    } else {
      PackAppends(Ask(d.sc), ToWire(Prepared(d.buf[i], t)), t.mtu);
    }
  }

  /** The segments in the state in which the data phase transmits, refuses or skips them. */
  lemma {:induction false} DataSteps(d: DataPhase, i: nat, t: Setting, refuse: Oracle, j: nat)
    requires i <= j < |d.buf|
    ensures var r := FlushData(d, i, t, refuse);
            && (r.buf[j] == d.buf[j] || StepsTo(d.buf[j], r.buf[j], t, true) ||
                StepsTo(d.buf[j], r.buf[j], t, false))
            && (!r.refused ==> StepsTo(d.buf[j], r.buf[j], t, false))
    decreases |d.buf| - i
  {
    if !d.refused {
      StepAt(d, i, t, refuse);
      if j > i {
        DataSteps(DataStep(d, i, t, refuse), i + 1, t, refuse, j);
      } else {
        Settled(DataStep(d, i, t, refuse), i + 1, t, refuse);
      }
    }
  }

  lemma FlushNext(d: DataPhase, i: nat, t: Setting, refuse: Oracle)
    requires i < |d.buf| && !d.refused
    ensures FlushData(d, i, t, refuse) == FlushData(DataStep(d, i, t, refuse), i + 1, t, refuse)
  {
  }

  lemma StepAt(d: DataPhase, i: nat, t: Setting, refuse: Oracle)
    requires i < |d.buf| && !d.refused
    ensures var d1 := DataStep(d, i, t, refuse);
            && |d1.buf| == |d.buf|
            && (forall j :: 0 <= j < |d.buf| && j != i ==> d1.buf[j] == d.buf[j])
            && StepsTo(d.buf[i], d1.buf[i], t, d1.refused)
  {
  }

  lemma {:induction false} Settled(d: DataPhase, i: nat, t: Setting, refuse: Oracle)
    requires i <= |d.buf|
    ensures var r := FlushData(d, i, t, refuse);
            && (forall j :: 0 <= j < i ==> r.buf[j] == d.buf[j])
            && (d.refused ==> r.refused)
    decreases |d.buf| - i
  {
    if !d.refused && i < |d.buf| {
      Settled(DataStep(d, i, t, refuse), i + 1, t, refuse);
    }
  }

  ghost predicate Exhausted(before: Seg, after: Seg, t: Setting) {
    after.xmit != before.xmit && after.xmit >= t.deadLink
  }

  ghost predicate SomeExhausted(before: seq<Seg>, after: seq<Seg>, i: nat, t: Setting) {
    |before| == |after| && exists j :: i <= j < |before| && Exhausted(before[j], after[j], t)
  }

  /** The link is given up exactly when a transmission reaches the limit. */
  lemma {:induction false} DeadExactly(d: DataPhase, i: nat, t: Setting, refuse: Oracle)
    requires i <= |d.buf|
    ensures var r := FlushData(d, i, t, refuse);
            r.dead <==> d.dead || SomeExhausted(d.buf, r.buf, i, t)
    decreases |d.buf| - i
  {
    if !d.refused && i < |d.buf| {
      var d1 := DataStep(d, i, t, refuse);
      var after := FlushData(d1, i + 1, t, refuse).buf;
      DeadStep(d, i, t, refuse);
      Settled(d1, i + 1, t, refuse);
      DeadExactly(d1, i + 1, t, refuse);
      SplitExhausted(d.buf, d1.buf, after, i, t);
    } else {
      assert forall j :: i <= j < |d.buf| ==> !Exhausted(d.buf[j], d.buf[j], t);
    }
  }

  lemma DeadStep(d: DataPhase, i: nat, t: Setting, refuse: Oracle)
    requires i < |d.buf|
    ensures var d1 := DataStep(d, i, t, refuse);
            && |d1.buf| == |d.buf|
            && (forall j :: 0 <= j < |d.buf| && j != i ==> d1.buf[j] == d.buf[j])
            && (d1.dead <==> d.dead || Exhausted(d.buf[i], d1.buf[i], t))
  {
    PreparedSame(d.buf[i], t);
  }

  lemma SplitExhausted(before: seq<Seg>, mid: seq<Seg>, after: seq<Seg>, i: nat, t: Setting)
    requires i < |before| == |mid| == |after|
    requires forall j :: 0 <= j < |before| && j != i ==> mid[j] == before[j]
    requires after[i] == mid[i]
    ensures SomeExhausted(before, after, i, t) <==>
            Exhausted(before[i], mid[i], t) || SomeExhausted(mid, after, i + 1, t)
  {
    if j :| i <= j < |before| && Exhausted(before[j], after[j], t) {
      if j > i { assert Exhausted(mid[j], after[j], t); }
    }
    if j :| i + 1 <= j < |mid| && Exhausted(mid[j], after[j], t) {
      assert Exhausted(before[j], after[j], t);
    }
  }

  /** Timestamps of transmitted segments: not due at `current` exactly when the timeout is in range. */
  lemma NotDueIff(current: u32, rto: u32)
    ensures Diff(current, Add(current, rto)) < 0 <==> 1 <= rto <= HALF
  {
  }

  /** The segment has room for what this flush would do to it: its count and its timeout do not run over. */
  predicate Settles(s: Seg, t: Setting) {
    match CauseOf(s, t)
    case Idle => true
    case First => true
    case Timeout => s.xmit != MODULUS - 1 && 1 <= Add(s.rto, Backoff(t)) <= HALF
    case _ => s.xmit != MODULUS - 1 && 1 <= s.rto <= HALF
  }

  /** What a timeout adds to the segment's own. */
  function Backoff(t: Setting): u32 {
    ToU32(if t.nodelay then HalfToZero(t.rto) else t.rto)
  }

  ghost predicate SentNotDue(s: Seg, current: u32) {
    s.xmit >= 1 && Diff(current, s.resendTs) < 0
  }

  /** One transmission, or the decision not to transmit, leaves the segment not due exactly if it has the room. */
  lemma PreparedSettlesIff(s: Seg, t: Setting)
    requires RTO_NODELAY <= t.rto <= RTO_MAX && t.rtoMin <= RTO_MAX
    ensures SentNotDue(Prepared(s, t), t.current) <==> Settles(s, t)
  {
    match CauseOf(s, t)
    case Idle =>
    case First =>
      FitsWord(t.rto);
      NotDueIff(t.current, t.rto + t.rtoMin);
      AddTwice(t.current, t.rto, t.rtoMin);
    case Timeout => NotDueIff(t.current, Add(s.rto, Backoff(t)));
    case _ => NotDueIff(t.current, s.rto);
  }

  lemma AddTwice(a: u32, b: u32, c: u32)
    requires b + c < MODULUS
    ensures Add(Add(a, b), c) == Add(a, b + c)
  {
  }

  /** After an unrefused flush a segment has been transmitted and is not due, exactly if it had the room. */
  lemma UnrefusedSettlesIff(d: DataPhase, t: Setting, refuse: Oracle, j: nat)
    requires j < |d.buf| && RTO_NODELAY <= t.rto <= RTO_MAX && t.rtoMin <= RTO_MAX
    requires !FlushData(d, 0, t, refuse).refused
    ensures SentNotDue(FlushData(d, 0, t, refuse).buf[j], t.current) <==> Settles(d.buf[j], t)
  {
    DataSteps(d, 0, t, refuse, j);
    PreparedSettlesIff(d.buf[j], t);
  }
}
