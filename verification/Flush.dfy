/**
 Flush: acknowledgements, window probes, new numbers, data and retransmissions, window update.
 The output callback may refuse at every step; a refusal before the data phase abandons the
 scratch buffer, one in the data phase still sends what is packed.
 */
module Flush {
  import opened Serial
  import opened Segment
  import opened Codec
  import opened AckList
  import opened Rtt
  import opened Congestion
  import opened Receiver
  import opened State
  import opened Packing

  // ---------- acknowledgements ----------

  function UnusedWindow(r: Rcv): u32 {
    if |r.queue| < r.wnd then r.wnd - |r.queue| else 0
  }

  /** The header that acknowledgements and probes share. */
  function Template(ep: Endpoint): Seg {
    Seg(ep.cfg.conv, ACK, 0, UnusedWindow(ep.rcv), 0, 0, ep.rcv.nxt, 0, 0, 0, 0, [])
  }

  function AckSeg(hdr: Seg, a: Ack): Seg {
    hdr.(sn := a.sn, ts := a.ts)
  }

  /** The phase between two queries: scratch, shared header, how many acknowledgements went in. */
  datatype AckPhase = AckPhase(sc: Scratch, hdr: Seg, sent: nat, refused: bool)

  function FlushAcks(acks: seq<Ack>, p: AckPhase, mtu: nat, refuse: Oracle): (r: AckPhase)
    requires p.sent <= |acks|
    ensures p.sent <= r.sent <= |acks|
    decreases |acks| - p.sent
  {
    if p.sent == |acks| then p
    else if refuse(p.sc.asked) then p.(sc := Ask(p.sc), refused := true)
    else
      var hdr := AckSeg(p.hdr, acks[p.sent]);
      FlushAcks(acks, AckPhase(Pack(Ask(p.sc), ToWire(hdr), mtu), hdr, p.sent + 1, false), mtu, refuse)
  }

  // ---------- window probes ----------

  function ProbeTimer(p: Probe, rmtWnd: u16, current: u32): Probe {
    if rmtWnd != 0 then p.(ts := 0, wait := 0)
    else if p.wait == 0 then p.(wait := PROBE_INIT, ts := Add(current, PROBE_INIT))
    else if Diff(current, p.ts) >= 0 then
      var wait := if p.wait < PROBE_INIT then PROBE_INIT else p.wait;
      var wait := Add(wait, wait / 2);
      var wait := if wait > PROBE_LIMIT then PROBE_LIMIT else wait;
      p.(wait := wait, ts := Add(current, wait), ask := true)
    else p
  }

  datatype ProbePhase = ProbePhase(sc: Scratch, hdr: Seg, probe: Probe, refused: bool)

  function FlushAsk(p: ProbePhase, mtu: nat, refuse: Oracle): ProbePhase {
    if !p.probe.ask then p
    else if refuse(p.sc.asked) then p.(sc := Ask(p.sc), refused := true)
    else
      var hdr := p.hdr.(cmd := ASK_WINDOW);
      ProbePhase(Pack(Ask(p.sc), ToWire(hdr), mtu), hdr, p.probe.(ask := false), false)
  }

  function FlushTell(p: ProbePhase, mtu: nat, refuse: Oracle): ProbePhase {
    if p.refused || !p.probe.tell then p
    else if refuse(p.sc.asked) then p.(sc := Ask(p.sc), refused := true)
    else
      var hdr := p.hdr.(cmd := TELL_WINDOW);
      ProbePhase(Pack(Ask(p.sc), ToWire(hdr), mtu), hdr, p.probe.(tell := false), false)
  }

  // ---------- numbering ----------

  function Min(a: u32, b: u32): u32 {
    if a <= b then a else b
  }

  function EffectiveWindow(ep: Endpoint): u32 {
    var w := Min(ep.cfg.sndWnd, ep.rmtWnd);
    if ep.cfg.noCwnd then w else Min(ep.cong.cwnd, w)
  }

  /** What numbering writes into a segment. */
  function Stamp(s: Seg, hdr: Seg, current: u32, sn: u32, rto: u32): Seg {
    s.(conv := hdr.conv, wnd := hdr.wnd, ts := current, sn := sn, una := hdr.una,
       resendTs := current, rto := rto, fastAck := 0, xmit := 0)
  }

  function NumberQueued(s: Snd, window: u32, hdr: Seg, current: u32, rto: u32): Snd
    decreases |s.queue|
  {
    if Diff(s.nxt, Add(s.una, window)) < 0 && s.queue != [] then
      var seg := Stamp(s.queue[0], hdr, current, s.nxt, rto);
      NumberQueued(Snd(s.una, Next(s.nxt), s.queue[1..], s.buf + [seg]), window, hdr, current, rto)
    else s
  }

  // ---------- data ----------

  /** What the data phase reads and does not change. */
  datatype Setting = Setting(
    current: u32, rto: i32, rtoMin: u32, resent: u32, nodelay: bool, queueEmpty: bool,
    wnd: u32, una: u32, mtu: nat, deadLink: u32)

  datatype Cause = Idle | First | Timeout | Fast | Early

  function CauseOf(s: Seg, t: Setting): Cause {
    if s.xmit == 0 then First
    else if Diff(t.current, s.resendTs) >= 0 then Timeout
    else if s.fastAck >= t.resent then Fast
    else if s.fastAck > 0 && t.queueEmpty then Early
    else Idle
  }

  /** The segment as it would be transmitted. */
  function Prepared(s: Seg, t: Setting): Seg {
    var s' :=
      match CauseOf(s, t)
      case Idle => s
      case First =>
        var rto := ToU32(t.rto);
        s.(xmit := Next(s.xmit), rto := rto, resendTs := Add(Add(t.current, rto), t.rtoMin))
      case Timeout =>
        var rto := Add(s.rto, ToU32(if t.nodelay then HalfToZero(t.rto) else t.rto));
        s.(xmit := Next(s.xmit), rto := rto, resendTs := Add(t.current, rto))
      case _ =>
        s.(xmit := Next(s.xmit), fastAck := 0, resendTs := Add(t.current, s.rto));
    if CauseOf(s, t).Idle? then s else s'.(ts := t.current, wnd := t.wnd, una := t.una)
  }

  /** Refusal takes back the transmission count, and nothing else. */
  function Unsent(s: Seg): Seg {
    s.(xmit := Sub(s.xmit, 1))
  }

  datatype DataPhase = DataPhase(
    buf: seq<Seg>, sc: Scratch, change: bool, lost: bool, xmit: u32, dead: bool, refused: bool)

  function DataStep(d: DataPhase, i: nat, t: Setting, refuse: Oracle): DataPhase
    requires i < |d.buf|
  {
    var cause, s := CauseOf(d.buf[i], t), Prepared(d.buf[i], t);
    if cause.Idle? then d
    else
      var d := d.(change := d.change || cause.Fast? || cause.Early?,
                  lost := d.lost || cause.Timeout?,
                  xmit := if cause.Timeout? then Next(d.xmit) else d.xmit);
      if refuse(d.sc.asked) then d.(buf := d.buf[i := Unsent(s)], sc := Ask(d.sc), refused := true)
      else d.(buf := d.buf[i := s], sc := Pack(Ask(d.sc), ToWire(s), t.mtu),
              dead := d.dead || s.xmit >= t.deadLink)
  }

  function FlushData(d: DataPhase, i: nat, t: Setting, refuse: Oracle): (r: DataPhase)
    requires i <= |d.buf|
    ensures |r.buf| == |d.buf|
    decreases |d.buf| - i, 1
  {
    if d.refused || i == |d.buf| then d else FlushRest(d, i, t, refuse)
  }

  function FlushRest(d: DataPhase, i: nat, t: Setting, refuse: Oracle): (r: DataPhase)
    requires i < |d.buf|
    ensures |r.buf| == |d.buf|
    decreases |d.buf| - i, 0
  {
    FlushData(DataStep(d, i, t, refuse), i + 1, t, refuse)
  }

  // ---------- the whole ----------

  /** The endpoint after a flush, what it handed to the output callback, and whether it was refused. */
  datatype Flushed = Flushed(ep: Endpoint, out: seq<seq<Wire>>, refused: bool)

  function Resent(cfg: Config): u32 {
    ResentOf(cfg.fastResend)
  }

  function AcksOf(ep: Endpoint, refuse: Oracle): (r: AckPhase)
    ensures r.sent <= |ep.acks|
  {
    FlushAcks(ep.acks, AckPhase(EMPTY, Template(ep), 0, false), ep.cfg.mtu, refuse)
  }

  function ProbesOf(ep: Endpoint, a: AckPhase, refuse: Oracle): ProbePhase {
    var probe := ProbeTimer(ep.probe, ep.rmtWnd, ep.clock.current);
    FlushTell(FlushAsk(ProbePhase(a.sc, a.hdr, probe, false), ep.cfg.mtu, refuse), ep.cfg.mtu, refuse)
  }

  function NumberedOf(ep: Endpoint, hdr: Seg): Snd {
    NumberQueued(ep.snd, EffectiveWindow(ep), hdr, ep.clock.current, ToU32(ep.rtt.rto))
  }

  function SettingOf(ep: Endpoint, snd: Snd): Setting {
    Setting(ep.clock.current, ep.rtt.rto, if ep.cfg.nodelay then 0 else ToU32(ep.rtt.rto / 8),
            Resent(ep.cfg), ep.cfg.nodelay, snd.queue == [], UnusedWindow(ep.rcv), ep.rcv.nxt,
            ep.cfg.mtu, ep.cfg.deadLink)
  }

  function DataOf(ep: Endpoint, snd: Snd, sc: Scratch, refuse: Oracle): DataPhase {
    FlushData(DataPhase(snd.buf, sc, false, false, ep.xmit, ep.dead, false), 0, SettingOf(ep, snd), refuse)
  }

  function RefusedAtAcks(ep: Endpoint, a: AckPhase): Flushed
    requires a.sent <= |ep.acks|
  {
    Flushed(ep.(acks := ep.acks[a.sent..]), a.sc.out, true)
  }

  function RefusedAtProbes(ep: Endpoint, p: ProbePhase): Flushed {
    Flushed(ep.(acks := [], probe := p.probe), p.sc.out, true)
  }

  function WithData(ep: Endpoint, p: ProbePhase, snd: Snd, d: DataPhase): Flushed {
    var cong := OnFlush(ep.cong, d.change, d.lost, Sub(snd.nxt, snd.una), Resent(ep.cfg),
                        EffectiveWindow(ep), ep.cfg.mss);
    Flushed(
      ep.(acks := [], probe := p.probe.(ask := false, tell := false), snd := snd.(buf := d.buf),
          cong := cong, xmit := d.xmit, dead := d.dead),
      Finish(d.sc), d.refused)
  }

  function Flush(ep: Endpoint, refuse: Oracle): Flushed {
    if !ep.clock.updated then Flushed(ep, [], false)
    else
      var a := AcksOf(ep, refuse);
      if a.refused then RefusedAtAcks(ep, a)
      else
        var p := ProbesOf(ep, a, refuse);
        if p.refused then RefusedAtProbes(ep, p)
        else
          var snd := NumberedOf(ep, p.hdr);
          WithData(ep, p, snd, DataOf(ep, snd, p.sc, refuse))
  }
}
