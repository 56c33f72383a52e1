/**
 The operations of an endpoint, and the invariant that every one of them keeps, whatever bytes
 arrive and whatever the output callback answers.
 */
module Operations {
  import opened Serial
  import opened Segment
  import opened Codec
  import opened AckList
  import opened Rtt
  import opened Congestion
  import opened SendQueue
  import opened SendBuffer
  import opened Receiver
  import opened State
  import opened Timer
  import opened Packing
  import opened Flush
  import opened FlushFacts

  // ---------- input ----------

  /** The endpoint inside the input loop, with the largest selective acknowledgement so far. */
  datatype Inbox = Inbox(ep: Endpoint, acked: bool, maxAck: u32)

  function ApplyAcks(s: Snd, w: Wire): Snd {
    var buf := Acknowledged(s.una, s.nxt, s.buf, w.una, w.cmd == ACK, w.sn);
    Snd(Shrink(s.nxt, buf), s.nxt, s.queue, buf)
  }

  /** One decoded segment. */
  function Process(p: Inbox, w: Wire): Inbox {
    var ep := p.ep.(rmtWnd := w.wnd, snd := ApplyAcks(p.ep.snd, w));
    if w.cmd == ACK then
      var age := Diff(ep.clock.current, w.ts);
      Inbox(if age >= 0 then ep.(rtt := Filter(ep.rtt, age)) else ep, true,
            if !p.acked || Diff(w.sn, p.maxAck) > 0 then w.sn else p.maxAck)
    else if w.cmd == PUSH then
      if Diff(w.sn, Add(ep.rcv.nxt, ep.rcv.wnd)) < 0 then
        p.(ep := ep.(acks := ep.acks + [Ack(w.sn, w.ts)],
                     rcv := if Diff(w.sn, ep.rcv.nxt) >= 0 then Arrive(ep.rcv, FromWire(w)) else ep.rcv))
      else p.(ep := ep)
    else if w.cmd == ASK_WINDOW then p.(ep := ep.(probe := ep.probe.(tell := true)))
    else p.(ep := ep)
  }

  function ProcessAll(p: Inbox, ws: seq<Wire>): Inbox
    decreases |ws|
  {
    if ws == [] then p else ProcessAll(Process(p, ws[0]), ws[1..])
  }

  /** After a loop that ended well: fast acknowledgement, and growth if the window advanced. */
  function Conclude(p: Inbox, una: u32): Endpoint
    requires p.ep.cfg.mss > 0
  {
    var s := p.ep.snd;
    var ep := if p.acked then p.ep.(snd := s.(buf := ParseFastAck(s.una, s.nxt, s.buf, p.maxAck))) else p.ep;
    if Diff(ep.snd.una, una) > 0 then ep.(cong := OnAdvance(ep.cong, ep.rmtWnd, ep.cfg.mss)) else ep
  }

  lemma ProcessConfig(p: Inbox, w: Wire)
    ensures Process(p, w).ep.cfg == p.ep.cfg
  {
  }

  lemma {:induction false} ProcessAllConfig(p: Inbox, ws: seq<Wire>)
    ensures ProcessAll(p, ws).ep.cfg == p.ep.cfg
    decreases |ws|
  {
    if ws != [] {
      ProcessConfig(p, ws[0]);
      ProcessAllConfig(Process(p, ws[0]), ws[1..]);
    }
  }

  /** The endpoint after a received datagram, and the code returned. */
  function Input(ep: Endpoint, bytes: seq<byte>): (Endpoint, int)
    requires ep.cfg.mss > 0
  {
    if |bytes| < OVERHEAD then (ep, WRONG_CONVERSATION)
    else
      var parsed := Parse(bytes, ep.cfg.conv);
      var p := ProcessAll(Inbox(ep, false, 0), parsed.segs);
      ProcessAllConfig(Inbox(ep, false, 0), parsed.segs);
      if parsed.code != Codec.OK then (p.ep, parsed.code) else (Conclude(p, ep.snd.una), Codec.OK)
  }

  // ---------- the other operations ----------

  function Accept(ep: Endpoint, bytes: seq<byte>): (Endpoint, int)
    requires ep.cfg.mss > 0
  {
    var (queue, code) := Send(ep.snd.queue, ep.cfg.stream, ep.cfg.mss, bytes);
    (ep.(snd := ep.snd.(queue := queue)), code)
  }

  function Deliver(ep: Endpoint, len: i32): (Endpoint, Delivery) {
    var d := Receive(ep.rcv, len);
    (ep.(rcv := d.rcv, probe := ep.probe.(tell := ep.probe.tell || d.tellWindow)), d)
  }

  function Advance(ep: Endpoint, t: u32, refuse: Oracle): Flushed {
    var (clock, flushes) := Tick(ep.clock, ep.cfg.interval, t);
    var ep := ep.(clock := clock);
    if flushes then Flush.Flush(ep, refuse) else Flushed(ep, [], false)
  }

  function ClampInterval(interval: i32): u32 {
    if interval > 5000 then 5000 else if interval < 10 then 10 else interval
  }

  function SetNoDelay(ep: Endpoint, nodelay: i32, interval: i32, resend: i32, nc: i32): Endpoint {
    var ep := if nodelay >= 0 then
                ep.(cfg := ep.cfg.(nodelay := nodelay != 0),
                    rtt := ep.rtt.(minRto := if nodelay != 0 then RTO_NODELAY else RTO_MIN))
              else ep;
    ep.(cfg := ep.cfg.(
          interval := if interval >= 0 then ClampInterval(interval) else ep.cfg.interval,
          fastResend := if resend >= 0 then resend else ep.cfg.fastResend,
          noCwnd := if nc >= 0 then nc != 0 else ep.cfg.noCwnd))
  }

  function SetWindows(ep: Endpoint, sndWnd: i32, rcvWnd: i32): Endpoint {
    ep.(cfg := ep.cfg.(sndWnd := if sndWnd > 0 then sndWnd else ep.cfg.sndWnd),
        rcv := ep.rcv.(wnd := if rcvWnd > 0 then rcvWnd else ep.rcv.wnd))
  }

  // ---------- the invariant ----------

  ghost predicate Configured(cfg: Config) {
    && cfg.mss > 0 && cfg.mss <= 65535 && cfg.mtu == cfg.mss + OVERHEAD
    && 10 <= cfg.interval <= 5000
    && cfg.fastResend < HALF
  }

  ghost predicate SenderOk(s: Snd, cfg: Config) {
    && Ordered(s.una, s.nxt, s.buf)
    && Sized(s.queue, cfg.mss) && Sized(s.buf, cfg.mss)
    && (forall i :: 0 <= i < |s.buf| ==> s.buf[i].conv == cfg.conv)
  }

  ghost predicate TimersOk(ep: Endpoint) {
    && MinRtoSet(ep.rtt) && (ep.rtt.minRto == RTO_NODELAY <==> ep.cfg.nodelay)
    && RTO_NODELAY <= ep.rtt.rto <= RTO_MAX
    && (ep.probe.wait == 0 || PROBE_INIT <= ep.probe.wait <= PROBE_LIMIT)
  }

  /** What every call keeps, with whatever arguments. */
  ghost predicate Inv(ep: Endpoint) {
    && Configured(ep.cfg)
    && SenderOk(ep.snd, ep.cfg)
    && Sorted(ep.rcv)
    && ep.cong.ssthresh >= THRESHOLD_MIN
    && TimersOk(ep)
  }

  /** The congestion window is worth its byte count, and the resend setting cannot break that. */
  ghost predicate Paced(ep: Endpoint) {
    ep.cfg.mss > 0 && Sound(ep.cong, ep.cfg.mss) && ResendFits(ep.cfg.fastResend, ep.cfg.mss)
  }

  lemma CreateInv(conv: u32, mtu: u32)
    requires OVERHEAD < mtu <= 65535 + OVERHEAD
    ensures Inv(Create(conv, mtu)) && Tidy(Create(conv, mtu).rcv) && Paced(Create(conv, mtu))
  {
  }

  /** The defaults. */
  lemma CreateDefaults(conv: u32, mtu: u32)
    requires OVERHEAD < mtu
    ensures var ep := Create(conv, mtu);
            && ep.cfg == Config(conv, mtu, mtu - 24, 32, false, false, 0, false, 20, 100)
            && ep.snd == Snd(0, 0, [], []) && ep.rcv == Rcv(0, 32, [], []) && ep.acks == [] && ep.rmtWnd == 32
            && ep.rtt == Rtt(0, 0, 200, 100, 0) && ep.cong == Cong(0, 0, 2)
            && ep.probe == Probe(false, false, 0, 0) && ep.clock == Clock(0, 100, false)
            && ep.xmit == 0 && !ep.dead
  {
  }

  // ---------- input keeps it ----------

  lemma ApplyAcksKeeps(s: Snd, w: Wire, cfg: Config)
    requires SenderOk(s, cfg)
    ensures SenderOk(ApplyAcks(s, w), cfg) && Advanced(s, ApplyAcks(s, w))
  {
    AcknowledgedKeeps(s.una, s.nxt, s.buf, w.una, w.cmd == ACK, w.sn);
    var buf := ApplyAcks(s, w).buf;
    forall i | 0 <= i < |buf|
      ensures buf[i].cmd == PUSH && |buf[i].data| <= cfg.mss && buf[i].conv == cfg.conv
    {
      assert buf[i] in s.buf;
    }
  }

  /** What one segment can change, part by part. */
  lemma ProcessedParts(p: Inbox, w: Wire) returns (ep: Endpoint)
    requires TimersOk(p.ep)
    ensures ep == Process(p, w).ep && TimersOk(ep)
    ensures ep.cfg == p.ep.cfg && ep.cong == p.ep.cong && ep.snd == ApplyAcks(p.ep.snd, w)
    ensures ep.rcv == p.ep.rcv || ep.rcv == Arrive(p.ep.rcv, FromWire(w))
  {
    ep := Process(p, w).ep;
    if w.cmd == ACK { TimeoutWithinClamps(p.ep.rtt, Diff(p.ep.clock.current, w.ts)); }
  }

  lemma ProcessKeeps(p: Inbox, w: Wire)
    requires Inv(p.ep)
    ensures Inv(Process(p, w).ep)
    ensures Process(p, w).ep.cfg == p.ep.cfg && Process(p, w).ep.cong == p.ep.cong
    ensures Advanced(p.ep.snd, Process(p, w).ep.snd)
    ensures Tidy(p.ep.rcv) ==> Tidy(Process(p, w).ep.rcv)
  {
    var ep := ProcessedParts(p, w);
    ApplyAcksKeeps(p.ep.snd, w, p.ep.cfg);
    ArriveKeepsSorted(p.ep.rcv, FromWire(w), HALF);
    if Tidy(p.ep.rcv) { ArriveKeepsTidy(p.ep.rcv, FromWire(w)); }
  }

  lemma {:induction false} ProcessAllKeeps(p: Inbox, ws: seq<Wire>)
    requires Inv(p.ep)
    ensures Inv(ProcessAll(p, ws).ep)
    ensures ProcessAll(p, ws).ep.cfg == p.ep.cfg && ProcessAll(p, ws).ep.cong == p.ep.cong
    ensures Advanced(p.ep.snd, ProcessAll(p, ws).ep.snd)
    ensures Tidy(p.ep.rcv) ==> Tidy(ProcessAll(p, ws).ep.rcv)
    decreases |ws|
  {
    if ws != [] {
      ProcessKeeps(p, ws[0]);
      ProcessAllKeeps(Process(p, ws[0]), ws[1..]);
      AdvancedTwice(p.ep.snd, Process(p, ws[0]).ep.snd, ProcessAll(p, ws).ep.snd);
    }
  }

  /** The window moved forward, not past the next number; nothing was numbered. */
  ghost predicate Advanced(s: Snd, s': Snd) {
    && s'.nxt == s.nxt && s'.queue == s.queue
    && Sub(s'.una, s.una) <= Sub(s.nxt, s.una)
    && Sub(s.nxt, s'.una) == Sub(s.nxt, s.una) - Sub(s'.una, s.una)
  }

  lemma AdvancedTwice(a: Snd, b: Snd, c: Snd)
    requires Advanced(a, b) && Advanced(b, c)
    ensures Advanced(a, c)
  {
  }

  lemma FastAckKeeps(s: Snd, cfg: Config, sn: u32)
    requires SenderOk(s, cfg)
    ensures SenderOk(s.(buf := ParseFastAck(s.una, s.nxt, s.buf, sn)), cfg)
  {
    if InWindow(s.una, s.nxt, sn) {
      var buf := Overtake(s.buf, sn);
      forall i | 0 <= i < |buf|
        ensures buf[i].sn == s.buf[i].sn && buf[i].cmd == PUSH && |buf[i].data| <= cfg.mss
        ensures buf[i].conv == cfg.conv
      {
        OvertakeBumps(s.una, s.nxt, s.buf, sn, i);
      }
      SameNumbersAscend(s.una, s.nxt, s.buf, buf);
    }
  }

  /** The congestion window at the end of input. */
  lemma AdvancedWindow(c: Cong, rmtWnd: u16, mss: u32) returns (c': Cong)
    requires 0 < mss <= 65535
    ensures c' == OnAdvance(c, rmtWnd, mss) && c'.ssthresh == c.ssthresh
    ensures Sound(c, mss) ==> Sound(c', mss)
  {
    c' := OnAdvance(c, rmtWnd, mss);
    if Sound(c, mss) { AdvanceKeepsSound(c, rmtWnd, mss); }
  }

  /** The end of input, part by part. */
  lemma ConcludedParts(p: Inbox, una: u32) returns (ep: Endpoint)
    requires 0 < p.ep.cfg.mss <= 65535
    ensures ep == Conclude(p, una)
    ensures var s := p.ep.snd;
            ep.snd == if p.acked then s.(buf := ParseFastAck(s.una, s.nxt, s.buf, p.maxAck)) else s
    ensures ep == p.ep.(snd := ep.snd, cong := ep.cong) && ep.cong.ssthresh == p.ep.cong.ssthresh
    ensures Sound(p.ep.cong, p.ep.cfg.mss) ==> Sound(ep.cong, ep.cfg.mss)
  {
    ep := Conclude(p, una);
    var c := AdvancedWindow(p.ep.cong, p.ep.rmtWnd, p.ep.cfg.mss);
  }

  lemma ConcludeKeeps(p: Inbox, una: u32) returns (ep: Endpoint)
    requires Inv(p.ep)
    ensures ep == Conclude(p, una) && Inv(ep)
    ensures ep.cfg == p.ep.cfg && ep.rcv == p.ep.rcv && ep.acks == p.ep.acks && Advanced(p.ep.snd, ep.snd)
    ensures var s := p.ep.snd;
            ep.snd == if p.acked then s.(buf := ParseFastAck(s.una, s.nxt, s.buf, p.maxAck)) else s
    ensures Sound(p.ep.cong, p.ep.cfg.mss) ==> Sound(ep.cong, ep.cfg.mss)
  {
    ep := ConcludedParts(p, una);
    FastAckKeeps(p.ep.snd, p.ep.cfg, p.maxAck);
  }

  /** Input ends where it began, after the segments that were decoded, or after its conclusion as well. */
  lemma InputEnds(ep: Endpoint, bytes: seq<byte>) returns (ep': Endpoint, p: Inbox, ws: seq<Wire>)
    requires Inv(ep)
    ensures ep' == Input(ep, bytes).0 && p == ProcessAll(Inbox(ep, false, 0), ws) && Inv(p.ep)
    ensures ep' == p.ep || ep' == Conclude(p, ep.snd.una)
  {
    ep' := Input(ep, bytes).0;
    ws := if |bytes| < OVERHEAD then [] else Parse(bytes, ep.cfg.conv).segs;
    p := ProcessAll(Inbox(ep, false, 0), ws);
    ProcessAllKeeps(Inbox(ep, false, 0), ws);
  }

  /**
   Input keeps the invariant for arbitrary bytes, on every return path, and a tidy receiver tidy;
   `snd_una` moves forward, not past `snd_nxt`.
   */
  lemma InputKeeps(ep: Endpoint, bytes: seq<byte>)
    requires Inv(ep)
    ensures Inv(Input(ep, bytes).0)
    ensures Input(ep, bytes).0.cfg == ep.cfg
    ensures Advanced(ep.snd, Input(ep, bytes).0.snd)
    ensures Tidy(ep.rcv) ==> Tidy(Input(ep, bytes).0.rcv)
    ensures Paced(ep) ==> Paced(Input(ep, bytes).0)
  {
    var ep', p, ws := InputEnds(ep, bytes);
    ProcessAllKeeps(Inbox(ep, false, 0), ws);
    var end := ConcludeKeeps(p, ep.snd.una);
    AdvancedTwice(ep.snd, p.ep.snd, end.snd);
  }

  // ---------- flush keeps it ----------

  lemma ProbeTimerOk(p: Probe, rmtWnd: u16, current: u32)
    requires p.wait == 0 || PROBE_INIT <= p.wait <= PROBE_LIMIT
    ensures var w := ProbeTimer(p, rmtWnd, current).wait; w == 0 || PROBE_INIT <= w <= PROBE_LIMIT
    ensures rmtWnd == 0 <==> ProbeTimer(p, rmtWnd, current).wait > 0
  {
  }

  lemma NumberedOk(ep: Endpoint, hdr: Seg) returns (k: nat)
    requires Inv(ep) && hdr.conv == ep.cfg.conv
    ensures SenderOk(NumberedOf(ep, hdr), ep.cfg)
    ensures k <= |ep.snd.queue|
    ensures var r := NumberedOf(ep, hdr);
            && r == Snd(ep.snd.una, Number(ep.snd.nxt + k), ep.snd.queue[k..], ep.snd.buf +
                        StampedFront(ep.snd, k, hdr, ep.clock.current, ToU32(ep.rtt.rto)))
            && Sub(r.nxt, r.una) == Sub(ep.snd.nxt, ep.snd.una) + k
  {
    k := NumberingMoves(ep.snd, EffectiveWindow(ep), hdr, ep.clock.current, ToU32(ep.rtt.rto), NumberedOf(ep, hdr));
  }

  lemma SameSegmentsOk(s: Snd, buf: seq<Seg>, cfg: Config)
    requires SenderOk(s, cfg) && SameSegments(s.buf, buf)
    ensures SenderOk(s.(buf := buf), cfg)
  {
    SameNumbersAscend(s.una, s.nxt, s.buf, buf);
  }

  lemma DataOk(ep: Endpoint, snd: Snd, sc: Scratch, refuse: Oracle)
    requires SenderOk(snd, ep.cfg)
    ensures SenderOk(snd.(buf := DataOf(ep, snd, sc, refuse).buf), ep.cfg)
    ensures SameSegments(snd.buf, DataOf(ep, snd, sc, refuse).buf)
  {
    var d := DataPhase(snd.buf, sc, false, false, ep.xmit, ep.dead, false);
    DataShape(d, 0, SettingOf(ep, snd), refuse);
    SameSegmentsOk(snd, DataOf(ep, snd, sc, refuse).buf, ep.cfg);
  }

  lemma {:induction false} FlushProbeTimer(ep: Endpoint, a: AckPhase, refuse: Oracle)
    ensures var t := ProbeTimer(ep.probe, ep.rmtWnd, ep.clock.current);
            ProbesOf(ep, a, refuse).probe.wait == t.wait && ProbesOf(ep, a, refuse).probe.ts == t.ts
    ensures SameHeader(ProbesOf(ep, a, refuse).hdr, a.hdr)
  {
  }

  /** The data phase and the congestion window at its end. */
  lemma WithDataKeeps(ep: Endpoint, p: ProbePhase, refuse: Oracle)
    requires Inv(ep) && p.hdr.conv == ep.cfg.conv
    requires p.probe.wait == 0 || PROBE_INIT <= p.probe.wait <= PROBE_LIMIT
    ensures var snd := NumberedOf(ep, p.hdr);
            var f := WithData(ep, p, snd, DataOf(ep, snd, p.sc, refuse));
            Inv(f.ep) && (Paced(ep) ==> Paced(f.ep))
  {
    var k := NumberedOk(ep, p.hdr);
    var snd := NumberedOf(ep, p.hdr);
    DataOk(ep, snd, p.sc, refuse);
    CongestionKept(ep, snd, DataOf(ep, snd, p.sc, refuse), EffectiveWindow(ep));
  }

  lemma CongestionKept(ep: Endpoint, snd: Snd, d: DataPhase, window: u32)
    requires Inv(ep) && Sub(snd.nxt, snd.una) <= WINDOW_LIMIT
    ensures var c := OnFlush(ep.cong, d.change, d.lost, Sub(snd.nxt, snd.una), Resent(ep.cfg), window, ep.cfg.mss);
            && c.ssthresh >= THRESHOLD_MIN
            && (Paced(ep) ==> Sound(c, ep.cfg.mss))
  {
    if Paced(ep) {
      var inflight := Sub(snd.nxt, snd.una);
      SettingFits(ep.cong, inflight, ep.cfg.fastResend, ep.cfg.mss);
      FlushSoundIff(ep.cong, d.change, d.lost, inflight, Resent(ep.cfg), window, ep.cfg.mss);
    }
  }

  /** A flush keeps the invariant, whatever the output callback answers; it never touches the receiver. */
  lemma FlushKeeps(ep: Endpoint, refuse: Oracle)
    requires Inv(ep)
    ensures Inv(Flush.Flush(ep, refuse).ep)
    ensures Flush.Flush(ep, refuse).ep.cfg == ep.cfg && Flush.Flush(ep, refuse).ep.clock == ep.clock
    ensures Flush.Flush(ep, refuse).ep.rcv == ep.rcv && Flush.Flush(ep, refuse).ep.snd.una == ep.snd.una
    ensures Paced(ep) ==> Paced(Flush.Flush(ep, refuse).ep)
  {
    if ep.clock.updated {
      var a := AcksOf(ep, refuse);
      AcksShape(ep.acks, AckPhase(EMPTY, Template(ep), 0, false), ep.cfg.mtu, refuse);
      if !a.refused {
        var p := ProbesOf(ep, a, refuse);
        FlushProbeTimer(ep, a, refuse);
        ProbeTimerOk(ep.probe, ep.rmtWnd, ep.clock.current);
        if !p.refused {
          WithDataKeeps(ep, p, refuse);
          var k := NumberedOk(ep, p.hdr);
        }
      }
    }
  }

  // ---------- the others keep it ----------

  lemma AcceptKeeps(ep: Endpoint, bytes: seq<byte>)
    requires Inv(ep)
    ensures Inv(Accept(ep, bytes).0)
  {
    SendTakes(ep.snd.queue, ep.cfg.stream, ep.cfg.mss, bytes);
  }

  /** A receive keeps the invariant; a peek on a drained receiver leaves the whole endpoint as it was. */
  lemma DeliverKeeps(ep: Endpoint, len: i32)
    requires Inv(ep)
    ensures Inv(Deliver(ep, len).0)
    ensures Tidy(ep.rcv) ==> Tidy(Deliver(ep, len).0.rcv)
    ensures len < 0 ==> (Deliver(ep, len).0 == ep <==> ep.rcv.queue == [] || Drained(ep.rcv))
  {
    var k := ReceiveMoves(ep.rcv, len);
    if Tidy(ep.rcv) { ReceiveWithin(ep.rcv, len); }
    if len < 0 { PeekChangesNothing(ep.rcv, len); }
  }

  /** A receive owes the peer a window notice exactly if the queue was full and is not any more. */
  lemma DeliverTells(ep: Endpoint, len: i32)
    requires Inv(ep)
    ensures var (ep', d) := Deliver(ep, len);
            && ep' == ep.(rcv := d.rcv, probe := ep'.probe)
            && ep'.probe == ep.probe.(tell := ep.probe.tell ||
                                              |d.rcv.queue| < ep.rcv.wnd <= |ep.rcv.queue|)
  {
  }

  /** A setting is changed by an argument that is not negative; the interval to the nearest in its range. */
  lemma NoDelaySets(ep: Endpoint, nodelay: i32, interval: i32, resend: i32, nc: i32)
    ensures var ep' := SetNoDelay(ep, nodelay, interval, resend, nc);
            var cfg, cfg' := ep.cfg, ep'.cfg;
            && ep' == ep.(cfg := cfg', rtt := ep.rtt.(minRto := ep'.rtt.minRto))
            && cfg' == cfg.(nodelay := cfg'.nodelay, interval := cfg'.interval, fastResend := cfg'.fastResend,
                            noCwnd := cfg'.noCwnd)
            && (if nodelay < 0 then cfg'.nodelay == cfg.nodelay && ep'.rtt == ep.rtt
                else cfg'.nodelay == (nodelay != 0) && ep'.rtt.minRto == if nodelay == 0 then 100 else 30)
            && (if interval < 0 then cfg'.interval == cfg.interval
                else
                  && 10 <= cfg'.interval <= 5000
                  && (interval < cfg'.interval ==> cfg'.interval == 10)
                  && (interval > cfg'.interval ==> cfg'.interval == 5000))
            && cfg'.fastResend == (if resend < 0 then cfg.fastResend else resend)
            && cfg'.noCwnd == (if nc < 0 then cfg.noCwnd else nc != 0)
  {
  }

  lemma WindowsSet(ep: Endpoint, sndWnd: i32, rcvWnd: i32)
    ensures var ep' := SetWindows(ep, sndWnd, rcvWnd);
            && ep' == ep.(cfg := ep.cfg.(sndWnd := ep'.cfg.sndWnd), rcv := ep.rcv.(wnd := ep'.rcv.wnd))
            && ep'.cfg.sndWnd == (if sndWnd <= 0 then ep.cfg.sndWnd else sndWnd)
            && ep'.rcv.wnd == (if rcvWnd <= 0 then ep.rcv.wnd else rcvWnd)
  {
  }

  lemma AdvanceKeeps(ep: Endpoint, t: u32, refuse: Oracle)
    requires Inv(ep)
    ensures Inv(Advance(ep, t, refuse).ep)
    ensures Advance(ep, t, refuse).ep.rcv == ep.rcv
    ensures Paced(ep) ==> Paced(Advance(ep, t, refuse).ep)
  {
    FlushKeeps(ep.(clock := Tick(ep.clock, ep.cfg.interval, t).0), refuse);
  }

  // ---------- runs ----------

  datatype Op =
    | SendOp(bytes: seq<byte>)
    | ReceiveOp(len: i32)
    | InputOp(datagram: seq<byte>)
    | UpdateOp(t: u32, refuse: Oracle)
    | FlushOp(refuse: Oracle)
    | NoDelayOp(nodelay: i32, interval: i32, resend: i32, nc: i32)
    | WindowsOp(sndWnd: i32, rcvWnd: i32)
    | StreamOp

  /** The receive window does not shrink, and does not grow while the next segment waits for room. */
  ghost predicate Steady(ep: Endpoint, op: Op) {
    match op
    case WindowsOp(_, rcvWnd) => rcvWnd > 0 ==> rcvWnd >= ep.rcv.wnd && (rcvWnd > ep.rcv.wnd ==> !Waiting(ep.rcv))
    case _ => true
  }

  /** No resend setting with which a reset of the congestion window could overflow its byte count. */
  ghost predicate Moderate(ep: Endpoint, op: Op) {
    match op
    case NoDelayOp(_, _, resend, _) => resend >= 0 ==> ResendFits(resend, ep.cfg.mss)
    case _ => true
  }

  ghost function Apply(ep: Endpoint, op: Op): Endpoint
    requires ep.cfg.mss > 0
  {
    match op
    case SendOp(bytes) => Accept(ep, bytes).0
    case ReceiveOp(len) => Deliver(ep, len).0
    case InputOp(datagram) => Input(ep, datagram).0
    case UpdateOp(t, refuse) => Advance(ep, t, refuse).ep
    case FlushOp(refuse) => Flush.Flush(ep, refuse).ep
    case NoDelayOp(nodelay, interval, resend, nc) => SetNoDelay(ep, nodelay, interval, resend, nc)
    case WindowsOp(sndWnd, rcvWnd) => SetWindows(ep, sndWnd, rcvWnd)
    case StreamOp => ep.(cfg := ep.cfg.(stream := true))
  }

  /** Every call keeps the invariant, with any arguments. */
  lemma ApplyKeeps(ep: Endpoint, op: Op)
    requires Inv(ep)
    ensures Inv(Apply(ep, op))
    ensures Steady(ep, op) && Tidy(ep.rcv) ==> Tidy(Apply(ep, op).rcv)
    ensures Moderate(ep, op) && Paced(ep) ==> Paced(Apply(ep, op))
  {
    match op
    case SendOp(bytes) => AcceptKeeps(ep, bytes);
    case ReceiveOp(len) => DeliverKeeps(ep, len);
    case InputOp(datagram) => InputKeeps(ep, datagram);
    case UpdateOp(t, refuse) => AdvanceKeeps(ep, t, refuse);
    case FlushOp(refuse) => FlushKeeps(ep, refuse);
    case NoDelayOp(nodelay, interval, resend, nc) => NoDelayKeeps(ep, nodelay, interval, resend, nc);
    case WindowsOp(sndWnd, rcvWnd) => WindowsKeep(ep, sndWnd, rcvWnd);
    case StreamOp =>
  }

  lemma NoDelayKeeps(ep: Endpoint, nodelay: i32, interval: i32, resend: i32, nc: i32)
    requires Inv(ep)
    ensures var ep' := SetNoDelay(ep, nodelay, interval, resend, nc);
            && Inv(ep') && ep'.rcv == ep.rcv
            && ((resend >= 0 ==> ResendFits(resend, ep.cfg.mss)) && Paced(ep) ==> Paced(ep'))
  {
  }

  lemma WindowsKeep(ep: Endpoint, sndWnd: i32, rcvWnd: i32)
    requires Inv(ep)
    ensures var ep' := SetWindows(ep, sndWnd, rcvWnd);
            && Inv(ep') && (Paced(ep) ==> Paced(ep'))
            && (Steady(ep, WindowsOp(sndWnd, rcvWnd)) && Tidy(ep.rcv) ==> Tidy(ep'.rcv))
  {
  }

  /** `ops` leads from `ep` to `ep'`. */
  ghost predicate Leads(ep: Endpoint, ops: seq<Op>, ep': Endpoint)
    decreases |ops|
  {
    if ops == [] then ep == ep'
    else ep.cfg.mss > 0 && Leads(Apply(ep, ops[0]), ops[1..], ep')
  }

  ghost predicate AllSteady(ep: Endpoint, ops: seq<Op>)
    decreases |ops|
  {
    ops == [] || (ep.cfg.mss > 0 && Steady(ep, ops[0]) && AllSteady(Apply(ep, ops[0]), ops[1..]))
  }

  ghost predicate AllModerate(ep: Endpoint, ops: seq<Op>)
    decreases |ops|
  {
    ops == [] || (ep.cfg.mss > 0 && Moderate(ep, ops[0]) && AllModerate(Apply(ep, ops[0]), ops[1..]))
  }

  lemma {:induction false} RunKeeps(ep: Endpoint, ops: seq<Op>, ep': Endpoint)
    requires Inv(ep) && Leads(ep, ops, ep')
    ensures Inv(ep')
    ensures AllSteady(ep, ops) && Tidy(ep.rcv) ==> Tidy(ep'.rcv)
    ensures AllModerate(ep, ops) && Paced(ep) ==> Paced(ep')
    decreases |ops|
  {
    if ops != [] {
      ApplyKeeps(ep, ops[0]);
      RunKeeps(Apply(ep, ops[0]), ops[1..], ep');
    }
  }

  /**
   In every state that any sequence of calls reaches: the sender ordered, the receive buffer sorted and
   free of duplicates, the timeout within its clamps. If the receive window was never shrunk, nor grown
   while the next segment waited, then queue and buffer are within the window and drained; if no resend
   setting was too large, then the congestion window is worth exactly its byte count.
   */
  lemma Reachable(conv: u32, mtu: u32, ops: seq<Op>, ep: Endpoint)
    requires OVERHEAD < mtu <= 65535 + OVERHEAD && Leads(Create(conv, mtu), ops, ep)
    ensures Ordered(ep.snd.una, ep.snd.nxt, ep.snd.buf)
    ensures Sorted(ep.rcv)
    ensures 30 <= ep.rtt.rto <= 4000 && ep.cong.ssthresh >= 2
    ensures ep.rtt.minRto == if ep.cfg.nodelay then 30 else 100
    ensures AllSteady(Create(conv, mtu), ops) ==> Tidy(ep.rcv) && |ep.rcv.buf| <= ep.rcv.wnd
    ensures AllModerate(Create(conv, mtu), ops) ==> ep.cfg.mss > 0 && ep.cong.cwnd == ep.cong.incr / ep.cfg.mss
  {
    CreateInv(conv, mtu);
    RunKeeps(Create(conv, mtu), ops, ep);
    if Tidy(ep.rcv) { BufferFits(ep.rcv.nxt, ep.rcv.buf, ep.rcv.wnd); }
    if Paced(ep) { TracksIsQuotient(ep.cong, ep.cfg.mss); }
  }
}
