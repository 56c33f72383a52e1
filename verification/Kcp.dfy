/**
 The control block as an object: the fields, the loops and the buffers of the code. Every method is
 proved to take the state exactly where the specification function of the same operation takes it.

 A method at the level of fields does the work; one on the whole state says what that does to `State()`;
 the public one, with `Valid()`, adds the invariant. Queues are sequences of segment values here, with
 the counters that the code keeps beside them; modules Rings and RingLoops have the linking and unlinking.
 */
module Kcp {
  import opened Serial
  import opened Segment
  import opened Codec
  import opened AckList
  import opened Rtt
  import opened Congestion
  import opened SendQueue
  import opened SendBuffer
  import opened Receiver
  import opened State
  import opened Timer
  import opened Packing
  import opened Phases = Flush
  import opened FlushFacts
  import opened Operations
  import Trace

  /** The bytes of the datagrams handed to the output callback. */
  ghost function Datagrams(out: seq<seq<Wire>>): (r: seq<seq<byte>>)
    ensures |r| == |out|
    ensures forall i :: 0 <= i < |out| ==> r[i] == EncodeAll(out[i])
  {
    seq(|out|, i requires 0 <= i < |out| => EncodeAll(out[i]))
  }

  lemma DatagramsSnoc(out: seq<seq<Wire>>, d: seq<Wire>)
    ensures Datagrams(out + [d]) == Datagrams(out) + [EncodeAll(d)]
  {
  }

  /** The fast-acknowledgement loop, from position `i` on. */
  function OvertakeFrom(buf: seq<Seg>, i: nat, sn: u32): seq<Seg>
    requires i <= |buf|
    decreases |buf| - i
  {
    if i == |buf| || Diff(sn, buf[i].sn) < 0 then buf
    else OvertakeFrom(if sn != buf[i].sn then buf[i := Bump(buf[i])] else buf, i + 1, sn)
  }

  lemma {:induction false} LoopOvertakes(buf: seq<Seg>, i: nat, sn: u32)
    requires i <= |buf|
    ensures OvertakeFrom(buf, i, sn) == buf[..i] + Overtake(buf[i..], sn)
    decreases |buf| - i
  {
    if i == |buf| || Diff(sn, buf[i].sn) < 0 {
      assert buf[..i] + buf[i..] == buf;
    } else {
      var after := if sn != buf[i].sn then buf[i := Bump(buf[i])] else buf;
      LoopOvertakes(after, i + 1, sn);
      assert buf[i..][1..] == buf[i + 1..] == after[i + 1..];
      assert after[..i + 1] == buf[..i] + [after[i]];
      Associative(buf[..i], [after[i]], Overtake(buf[i + 1..], sn));
    }
  }

  /** The fragmentation loop: `count` more fragments of the bytes from `pos` on, appended one by one. */
  function AppendCut(queue: seq<Seg>, bytes: seq<byte>, pos: nat, mss: nat, count: nat, stream: bool): seq<Seg>
    requires pos <= |bytes| && count <= FRAGMENT_LIMIT
    decreases count
  {
    if count == 0 then queue
    else
      var size := if |bytes| - pos > mss then mss else |bytes| - pos;
      var seg := NewFragment(if stream then 0 else count - 1, bytes[pos..pos + size]);
      AppendCut(queue + [seg], bytes, pos + size, mss, count - 1, stream)
  }

  lemma {:induction false} LoopCuts(
      queue: seq<Seg>, bytes: seq<byte>, pos: nat, mss: nat, count: nat, stream: bool, all: seq<Seg>)
    requires pos <= |bytes| && count <= FRAGMENT_LIMIT
    requires all == AppendCut(queue, bytes, pos, mss, count, stream)
    ensures all == queue + Cut(bytes[pos..], mss, count, stream)
    decreases count
  {
    if count == 0 {
      assert queue + [] == queue;
    } else {
      var size := if |bytes| - pos > mss then mss else |bytes| - pos;
      var seg := NewFragment(if stream then 0 else count - 1, bytes[pos..pos + size]);
      LoopCuts(queue + [seg], bytes, pos + size, mss, count - 1, stream, all);
      var rest := bytes[pos..];
      assert rest[..size] == bytes[pos..pos + size] && rest[size..] == bytes[pos + size..];
      Associative(queue, [seg], Cut(bytes[pos + size..], mss, count - 1, stream));
    }
  }

  // ---------- what one received segment does, step by step ----------

  function ApplyUna(s: Snd, una: u32): Snd {
    var buf := SendBuffer.ParseUna(s.buf, una);
    Snd(Shrink(s.nxt, buf), s.nxt, s.queue, buf)
  }

  function ApplyAck(s: Snd, sn: u32): Snd {
    var buf := SendBuffer.ParseAck(s.una, s.nxt, s.buf, sn);
    Snd(Shrink(s.nxt, buf), s.nxt, s.queue, buf)
  }

  function AfterUna(ep: Endpoint, w: Wire): Endpoint {
    ep.(rmtWnd := w.wnd, snd := ApplyUna(ep.snd, w.una))
  }

  function AfterSample(ep: Endpoint, w: Wire): Endpoint {
    var age := Diff(ep.clock.current, w.ts);
    if age >= 0 then ep.(rtt := Filter(ep.rtt, age)) else ep
  }

  function AfterAck(ep: Endpoint, w: Wire): Endpoint {
    ep.(snd := ApplyAck(ep.snd, w.sn))
  }

  function AcksAfter(acks: seq<Ack>, rcv: Rcv, w: Wire): seq<Ack> {
    if w.cmd == PUSH && Diff(w.sn, Add(rcv.nxt, rcv.wnd)) < 0 then acks + [Ack(w.sn, w.ts)] else acks
  }

  function RcvAfter(rcv: Rcv, w: Wire): Rcv {
    if w.cmd == PUSH && Acceptable(rcv, w.sn) then Arrive(rcv, FromWire(w)) else rcv
  }

  function AfterData(ep: Endpoint, w: Wire): Endpoint {
    ep.(acks := AcksAfter(ep.acks, ep.rcv, w), rcv := RcvAfter(ep.rcv, w),
        probe := ep.probe.(tell := ep.probe.tell || w.cmd == ASK_WINDOW))
  }

  lemma ProcessedSteps(p: Inbox, w: Wire)
    ensures Process(p, w) ==
            if w.cmd == ACK then
              Inbox(AfterAck(AfterSample(AfterUna(p.ep, w), w), w), true,
                    if !p.acked || Diff(w.sn, p.maxAck) > 0 then w.sn else p.maxAck)
            else p.(ep := AfterData(AfterUna(p.ep, w), w))
  {
  }

  /** Inside the decoding loop: `now` and the bytes left lead where `start` and all the bytes do. */
  ghost predicate Remaining(start: Inbox, data: seq<byte>, now: Inbox, rest: seq<byte>, conv: u32) {
    && Parse(rest, conv).code == Parse(data, conv).code
    && ProcessAll(now, Parse(rest, conv).segs) == ProcessAll(start, Parse(data, conv).segs)
  }

  lemma RemainingNext(start: Inbox, data: seq<byte>, now: Inbox, rest: seq<byte>, conv: u32)
    requires Remaining(start, data, now, rest, conv)
    ensures var front := Front(rest, conv);
            if front.Stop? then
              front.code == Parse(data, conv).code && now == ProcessAll(start, Parse(data, conv).segs)
            else Remaining(start, data, Process(now, front.w), front.rest, conv)
  {
    match Front(rest, conv)
    case Stop(_) =>
    case Segment(w, later) =>
      assert Parse(rest, conv).segs == [w] + Parse(later, conv).segs;
      assert ([w] + Parse(later, conv).segs)[1..] == Parse(later, conv).segs;
  }

  /** What one turn of the data loop leaves of the segment. */
  function Left(s: Seg, t: Setting, refused: bool): Seg {
    if CauseOf(s, t).Idle? then s else if refused then Unsent(Prepared(s, t)) else Prepared(s, t)
  }

  predicate GivesUp(s: Seg, t: Setting, refused: bool) {
    !CauseOf(s, t).Idle? && !refused && Prepared(s, t).xmit >= t.deadLink
  }

  ghost predicate StepMade(
      s: Seg, t: Setting, refuse: Oracle, sc: Scratch, timeout: bool, fast: bool, refused: bool, sc': Scratch) {
    var cause := CauseOf(s, t);
    && timeout == cause.Timeout? && fast == (cause.Fast? || cause.Early?)
    && refused == (!cause.Idle? && refuse(sc.asked))
    && sc' == if cause.Idle? then sc
              else if refused then Ask(sc) else Pack(Ask(sc), ToWire(Prepared(s, t)), t.mtu)
  }

  lemma StepAsMade(
      d: DataPhase, i: nat, t: Setting, refuse: Oracle, timeout: bool, fast: bool, refused: bool, sc': Scratch)
    requires i < |d.buf| && !d.refused && StepMade(d.buf[i], t, refuse, d.sc, timeout, fast, refused, sc')
    ensures DataStep(d, i, t, refuse) ==
            DataPhase(d.buf[i := Left(d.buf[i], t, refused)], sc', d.change || fast, d.lost || timeout,
                      if timeout then Next(d.xmit) else d.xmit, d.dead || GivesUp(d.buf[i], t, refused), refused)
  {
    if CauseOf(d.buf[i], t).Idle? {
      assert d.buf[i := d.buf[i]] == d.buf;
    }
  }

  /** One turn of the data loop: it leads to the same end, and leaves payloads as they are. */
  lemma Turn(
      d: DataPhase, i: nat, t: Setting, refuse: Oracle, timeout: bool, fast: bool, refused: bool, sc': Scratch,
      end: DataPhase) returns (d1: DataPhase)
    requires i < |d.buf| && !d.refused && StepMade(d.buf[i], t, refuse, d.sc, timeout, fast, refused, sc')
    requires FlushData(d, i, t, refuse) == end
    ensures d1 == DataPhase(d.buf[i := Left(d.buf[i], t, refused)], sc', d.change || fast, d.lost || timeout,
                            if timeout then Next(d.xmit) else d.xmit, d.dead || GivesUp(d.buf[i], t, refused), refused)
    ensures FlushData(d1, i + 1, t, refuse) == end
    ensures |d1.buf| == |d.buf| && forall j :: 0 <= j < |d.buf| ==> |d1.buf[j].data| == |d.buf[j].data|
  {
    StepAsMade(d, i, t, refuse, timeout, fast, refused, sc');
    FlushNext(d, i, t, refuse);
    PreparedSame(d.buf[i], t);
    d1 := DataStep(d, i, t, refuse);
  }

  // ---------- flush, phase by phase ----------

  /** The probe phase does not look at the acknowledgements, and keeps the shared header. */
  lemma ProbesAlike(ep: Endpoint, a: AckPhase, refuse: Oracle)
    requires Inv(ep) && a == AcksOf(ep, refuse)
    ensures ProbesOf(ep.(acks := []), a, refuse) == ProbesOf(ep, a, refuse)
    ensures var p := ProbesOf(ep, a, refuse);
            && Inv(ep.(acks := [], probe := p.probe))
            && p.hdr.conv == ep.cfg.conv && p.hdr.una == ep.rcv.nxt && p.hdr.wnd == UnusedWindow(ep.rcv)
  {
    AcksShape(ep.acks, AckPhase(EMPTY, Template(ep), 0, false), ep.cfg.mtu, refuse);
    FlushProbeTimer(ep, a, refuse);
    ProbeTimerOk(ep.probe, ep.rmtWnd, ep.clock.current);
  }

  /** The later phases look neither at the acknowledgements nor at the probes. */
  lemma SegmentsAlike(ep: Endpoint, p: ProbePhase, refuse: Oracle)
    ensures var later := ep.(acks := [], probe := p.probe);
            var snd := NumberedOf(ep, p.hdr);
            && NumberedOf(later, p.hdr) == snd
            && DataOf(later, snd, p.sc, refuse) == DataOf(ep, snd, p.sc, refuse)
            && WithData(later, p, snd, DataOf(ep, snd, p.sc, refuse)) ==
               WithData(ep, p, snd, DataOf(ep, snd, p.sc, refuse))
  {
  }

  /**
   Every datagram that a flush hands to the output callback has at least one byte and at most as many
   as the datagram size allows.
   */
  lemma DatagramsFit(ep: Endpoint, refuse: Oracle)
    requires Inv(ep)
    ensures var sent := Datagrams(Phases.Flush(ep, refuse).out);
            forall i :: 0 <= i < |sent| ==> 0 < |sent[i]| <= ep.cfg.mtu
  {
    var account := Trace.FlushAccount(ep, refuse);
    var out := Phases.Flush(ep, refuse).out;
    forall i | 0 <= i < |out| ensures 0 < |Datagrams(out)[i]| <= ep.cfg.mtu {
      EncodeAllSize(out[i]);
      SizeZero(out[i]);
    }
  }

  /** The state after a receive call, the code, and the bytes. */
  function Given(r: (Endpoint, Delivery)): (Endpoint, int, seq<byte>) {
    (r.0, r.1.code, r.1.bytes)
  }

  class Kcp {
    /** What only the setters touch. */
    var cfg: Config
    const acks: AckList
    const buffer: array<byte>

    var dead: bool
    var sndUna: u32
    var sndNxt: u32
    var rcvNxt: u32
    var ssthresh: u32
    var rtt: Rtt
    var rcvWnd: u32
    var rmtWnd: u16
    var cwnd: u32
    var incr: u32
    var askWindow: bool
    var tellWindow: bool
    var probeWait: u32
    var tsProbe: u32
    var clock: Clock
    var xmit: u32
    var nRcvBuf: nat
    var nSndBuf: nat
    var nRcvQueue: nat
    var nSndQueue: nat
    var sndQueue: seq<Seg>
    var rcvQueue: seq<Seg>
    var sndBuf: seq<Seg>
    var rcvBuf: seq<Seg>

    /** Everything handed to the output callback since the beginning. */
    ghost var sent: seq<seq<byte>>

    // ---------- abstraction ----------

    ghost function SndState(): Snd
      reads this
    {
      Snd(sndUna, sndNxt, sndQueue, sndBuf)
    }

    ghost function RcvState(): Rcv
      reads this
    {
      Rcv(rcvNxt, rcvWnd, rcvQueue, rcvBuf)
    }

    ghost function CongState(): Cong
      reads this
    {
      Cong(cwnd, incr, ssthresh)
    }

    ghost function ProbeState(): Probe
      reads this
    {
      Probe(askWindow, tellWindow, probeWait, tsProbe)
    }

    ghost function State(): Endpoint
      requires acks.Valid()
      reads this, acks, acks.items
    {
      Endpoint(cfg, SndState(), RcvState(), acks.Contents(), rmtWnd, rtt, CongState(),
               ProbeState(), clock, xmit, dead)
    }

    /** The counters are the lengths of the queues, and the scratch buffer has its size. */
    ghost predicate Wired()
      reads this, acks, acks.items
    {
      && acks.Valid()
      && acks.items as object != buffer
      && buffer.Length == (cfg.mtu + OVERHEAD) * 3
      && nRcvBuf == |rcvBuf| && nSndBuf == |sndBuf| && nRcvQueue == |rcvQueue| && nSndQueue == |sndQueue|
    }

    ghost predicate Valid()
      reads this, acks, acks.items
    {
      Wired() && Inv(State())
    }

    constructor (conv: u32, mtu: u32)
      requires OVERHEAD < mtu <= 65535 + OVERHEAD
      ensures Valid() && fresh(acks) && fresh(acks.items) && fresh(buffer)
      ensures State() == Create(conv, mtu) && sent == []
    {
      cfg := Config(conv, mtu, mtu - OVERHEAD, DEFAULT_WINDOW, false, false, 0, false, DEFAULT_DEAD_LINK,
                    DEFAULT_INTERVAL);
      acks := new AckList();
      buffer := new byte[(mtu + OVERHEAD) * 3];
      dead := false;
      sndUna, sndNxt, rcvNxt := 0, 0, 0;
      ssthresh, cwnd, incr := DEFAULT_THRESHOLD, 0, 0;
      rtt := Rtt(0, 0, RTO_DEFAULT, RTO_MIN, 0);
      rcvWnd, rmtWnd := DEFAULT_WINDOW, DEFAULT_WINDOW;
      askWindow, tellWindow, probeWait, tsProbe := false, false, 0, 0;
      clock := Clock(0, DEFAULT_INTERVAL, false);
      xmit := 0;
      nRcvBuf, nSndBuf, nRcvQueue, nSndQueue := 0, 0, 0, 0;
      sndQueue, rcvQueue, sndBuf, rcvBuf := [], [], [], [];
      sent := [];
      new;
      CreateInv(conv, mtu);
      assert acks.Contents() == [];
    }

    // ---------- acknowledgements from the peer ----------

    method UpdateAck(sample: i32)
      modifies `rtt
      ensures rtt == Filter(old(rtt), sample)
    {
      var srtt, rttval := rtt.srtt, rtt.rttval;
      if srtt == 0 {
        srtt := sample;
        rttval := HalfToZero(sample);
      } else {
        var delta: int := ToI32(sample - srtt);
        if delta < 0 {
          delta := -delta;
        }
        rttval := ToI32(QuarterToZero(ToI32(3 * rttval) + delta));
        srtt := EighthToZero(ToI32(7 * srtt + sample));
        if srtt < 1 {
          srtt := 1;
        }
      }
      var four := ToU32(4 * rttval);
      var rto := ToU32(srtt + if 1 >= four then 1 else four);
      rtt := Rtt(srtt, rttval, Bound(ToU32(rtt.minRto), rto, RTO_MAX), rtt.minRto, sample);
    }

    method ShrinkBuf()
      modifies `sndUna
      ensures sndUna == Shrink(sndNxt, sndBuf)
    {
      if sndBuf != [] {
        sndUna := sndBuf[0].sn;
      } else {
        sndUna := sndNxt;
      }
    }

    method ParseUna(una: u32)
      requires nSndBuf == |sndBuf|
      modifies `sndBuf, `nSndBuf
      ensures sndBuf == SendBuffer.ParseUna(old(sndBuf), una)
      ensures nSndBuf == |sndBuf|
    {
      while sndBuf != [] && Diff(una, sndBuf[0].sn) > 0
        invariant nSndBuf == |sndBuf|
        invariant SendBuffer.ParseUna(old(sndBuf), una) == SendBuffer.ParseUna(sndBuf, una)
        decreases |sndBuf|
      {
        sndBuf := sndBuf[1..];
        nSndBuf := nSndBuf - 1;
      }
    }

    method ParseAck(sn: u32)
      requires nSndBuf == |sndBuf|
      modifies `sndBuf, `nSndBuf
      ensures sndBuf == SendBuffer.ParseAck(sndUna, sndNxt, old(sndBuf), sn)
      ensures nSndBuf == |sndBuf|
    {
      if Diff(sn, sndUna) < 0 || Diff(sn, sndNxt) >= 0 {
        return;
      }
      var i := 0;
      while i < |sndBuf|
        invariant Passed(sndBuf, i, sn)
        invariant sndBuf == old(sndBuf) && nSndBuf == |sndBuf|
      {
        if sn == sndBuf[i].sn {
          ScanFinds(sndBuf, i, sn);
          sndBuf := sndBuf[..i] + sndBuf[i + 1..];
          nSndBuf := nSndBuf - 1;
          return;
        }
        if Diff(sn, sndBuf[i].sn) < 0 {
          break;
        }
        i := i + 1;
      }
      ScanMisses(sndBuf, i, sn);
    }

    method ParseFastAck(sn: u32)
      modifies `sndBuf
      ensures sndBuf == SendBuffer.ParseFastAck(sndUna, sndNxt, old(sndBuf), sn)
    {
      if Diff(sn, sndUna) < 0 || Diff(sn, sndNxt) >= 0 {
        return;
      }
      LoopOvertakes(sndBuf, 0, sn);
      assert sndBuf[0..] == sndBuf;
      var i := 0;
      while i < |sndBuf| && Diff(sn, sndBuf[i].sn) >= 0
        invariant i <= |sndBuf|
        invariant OvertakeFrom(sndBuf, i, sn) == OvertakeFrom(old(sndBuf), 0, sn)
      {
        if sn != sndBuf[i].sn {
          sndBuf := sndBuf[i := Bump(sndBuf[i])];
        }
        i := i + 1;
      }
    }

    // ---------- data from the peer ----------

    /** Moves what is next from the receive buffer to the receive queue. */
    method DrainBuffer()
      requires nRcvBuf == |rcvBuf| && nRcvQueue == |rcvQueue|
      modifies `rcvBuf, `rcvQueue, `rcvNxt, `nRcvBuf, `nRcvQueue
      ensures RcvState() == Drain(old(RcvState()))
      ensures nRcvBuf == |rcvBuf| && nRcvQueue == |rcvQueue|
    {
      while rcvBuf != []
        invariant nRcvBuf == |rcvBuf| && nRcvQueue == |rcvQueue|
        invariant Drain(RcvState()) == Drain(old(RcvState()))
        decreases |rcvBuf|
      {
        var seg := rcvBuf[0];
        if seg.sn == rcvNxt && nRcvQueue < rcvWnd {
          rcvBuf := rcvBuf[1..];
          nRcvBuf := nRcvBuf - 1;
          rcvQueue := rcvQueue + [seg];
          nRcvQueue := nRcvQueue + 1;
          rcvNxt := Next(rcvNxt);
        } else {
          break;
        }
      }
    }

    method ParseData(seg: Seg)
      requires nRcvBuf == |rcvBuf| && nRcvQueue == |rcvQueue|
      modifies `rcvBuf, `rcvQueue, `rcvNxt, `nRcvBuf, `nRcvQueue
      ensures RcvState() == Arrive(old(RcvState()), seg)
      ensures nRcvBuf == |rcvBuf| && nRcvQueue == |rcvQueue|
    {
      var sn := seg.sn;
      if Diff(sn, Add(rcvNxt, rcvWnd)) >= 0 || Diff(sn, rcvNxt) < 0 {
        return;
      }
      var p: nat := |rcvBuf|;
      var repeated := false;
      while p > 0
        invariant p <= |rcvBuf| && !repeated
        invariant Find(rcvBuf, sn) == FindFrom(rcvBuf, sn, p)
      {
        if rcvBuf[p - 1].sn == sn {
          repeated := true;
          break;
        }
        if Diff(sn, rcvBuf[p - 1].sn) > 0 {
          break;
        }
        p := p - 1;
      }
      assert Find(rcvBuf, sn) == (p, repeated);
      if !repeated {
        rcvBuf := rcvBuf[..p] + [seg] + rcvBuf[p..];
        nRcvBuf := nRcvBuf + 1;
      }
      DrainBuffer();
    }

    // ---------- delivery ----------

    /** Copies whole segments while they fit, removing them unless it peeks; returns the sum kept. */
    method TakeSegments(room: u32, peek: bool) returns (total: u32, bytes: seq<byte>)
      requires nRcvQueue == |rcvQueue|
      modifies `rcvQueue, `nRcvQueue
      ensures nRcvQueue == |rcvQueue|
      ensures var n := Fit(old(rcvQueue), 0, room);
              && bytes == Bytes(old(rcvQueue)[..n]) && total == ToU32(|bytes|)
              && rcvQueue == if peek then old(rcvQueue) else old(rcvQueue)[n..]
    {
      total, bytes := 0, [];
      ghost var queue, n := rcvQueue, 0;
      LoopTakes(queue, room);
      var i := 0;
      while i < |rcvQueue|
        invariant n <= |queue| && TakeFrom(queue, n, total, bytes, room) == TakeFrom(queue, 0, 0, [], room)
        invariant i == if peek then n else 0
        invariant rcvQueue == if peek then queue else queue[n..]
        invariant nRcvQueue == |rcvQueue|
        decreases |queue| - n
      {
        var seg := rcvQueue[i];
        if ToU32(total + |seg.data|) > room {
          break;
        }
        bytes := bytes + seg.data;
        total := ToU32(total + |seg.data|);
        n := n + 1;
        if peek {
          i := i + 1;
        } else {
          rcvQueue := rcvQueue[1..];
          nRcvQueue := nRcvQueue - 1;
        }
      }
    }

    method RecvSegments(len: i32) returns (code: int, bytes: seq<byte>)
      requires nRcvBuf == |rcvBuf| && nRcvQueue == |rcvQueue|
      modifies `rcvBuf, `rcvQueue, `rcvNxt, `nRcvBuf, `nRcvQueue, `tellWindow
      ensures nRcvBuf == |rcvBuf| && nRcvQueue == |rcvQueue|
      ensures var d := Receive(old(RcvState()), len);
              && code == d.code && bytes == d.bytes && RcvState() == d.rcv
              && tellWindow == (old(tellWindow) || d.tellWindow)
    {
      if rcvQueue == [] {
        return -1, [];
      }
      var room := Magnitude(len);
      var recover := nRcvQueue >= rcvWnd;
      var total;
      total, bytes := TakeSegments(room, len < 0);
      code := Signed(total);
      DrainBuffer();
      if nRcvQueue < rcvWnd && recover {
        tellWindow := true;
      }
    }

    method RecvState(len: i32) returns (code: int, bytes: seq<byte>)
      requires Wired()
      modifies `rcvBuf, `rcvQueue, `rcvNxt, `nRcvBuf, `nRcvQueue, `tellWindow
      ensures Wired()
      ensures (State(), code, bytes) == Given(Deliver(old(State()), len))
    {
      code, bytes := RecvSegments(len);
      ReceiverFramed();
    }

    twostate lemma ReceiverFramed()
      requires old(Wired()) && unchanged(acks) && acks.items == old(acks.items) && unchanged(acks.items)
      requires unchanged(`cfg, `sndUna, `sndNxt, `ssthresh, `rtt, `rcvWnd, `rmtWnd, `cwnd, `incr)
      requires unchanged(`askWindow, `probeWait, `tsProbe, `clock, `xmit, `dead)
      requires unchanged(`nSndBuf, `nSndQueue, `sndQueue, `sndBuf)
      requires nRcvBuf == |rcvBuf| && nRcvQueue == |rcvQueue|
      ensures Wired() && State() == old(State()).(rcv := RcvState(), probe := ProbeState())
    {
    }

    /**
     Receives up to `|len|` bytes of whole segments; a negative length peeks, which changes nothing if
     and only if the queue is empty or the receiver is drained.
     */
    method Recv(len: i32) returns (code: int, bytes: seq<byte>)
      requires Valid()
      modifies `rcvBuf, `rcvQueue, `rcvNxt, `nRcvBuf, `nRcvQueue, `tellWindow
      ensures Valid()
      ensures (State(), code, bytes) == Given(Deliver(old(State()), len))
      ensures len < 0 ==> (State() == old(State()) <==> old(rcvQueue) == [] || old(Drained(RcvState())))
    {
      DeliverKeeps(State(), len);
      code, bytes := RecvState(len);
    }

    method PeekSize() returns (length: int)
      requires nRcvQueue == |rcvQueue|
      ensures length == Receiver.PeekSize(rcvQueue)
    {
      if rcvQueue == [] {
        return -1;
      }
      if rcvQueue[0].frg == 0 {
        return |rcvQueue[0].data|;
      }
      if nRcvQueue < rcvQueue[0].frg + 1 {
        return -1;
      }
      length := 0;
      var i := 0;
      while i < |rcvQueue|
        invariant i <= |rcvQueue|
        invariant SumToZero(rcvQueue) == length + SumToZero(rcvQueue[i..])
      {
        length := length + |rcvQueue[i].data|;
        assert rcvQueue[i..][1..] == rcvQueue[i + 1..];
        if rcvQueue[i].frg == 0 {
          break;
        }
        i := i + 1;
      }
    }

    // ---------- queueing ----------

    /** Stream mode: replaces the tail by a longer copy. */
    method ExtendTail(bytes: seq<byte>) returns (rest: seq<byte>)
      modifies `sndQueue
      ensures |sndQueue| == |old(sndQueue)|
      ensures sndQueue == SendQueue.ExtendTail(old(sndQueue), cfg.stream, cfg.mss, bytes)
      ensures rest == bytes[TailRoom(old(sndQueue), cfg.stream, cfg.mss, |bytes|)..]
    {
      rest := bytes;
      if cfg.stream && sndQueue != [] {
        var tail := sndQueue[|sndQueue| - 1];
        if |tail.data| < cfg.mss {
          var capacity := cfg.mss - |tail.data|;
          var extend := if |bytes| < capacity then |bytes| else capacity;
          var seg := NewFragment(0, tail.data + bytes[..extend]).(cmd := tail.cmd);
          rest := bytes[extend..];
          sndQueue := sndQueue[..|sndQueue| - 1] + [seg];
        }
      }
    }

    method AppendFragments(bytes: seq<byte>, count: nat)
      requires count <= FRAGMENT_LIMIT && nSndQueue == |sndQueue|
      modifies `sndQueue, `nSndQueue
      ensures sndQueue == old(sndQueue) + Cut(bytes, cfg.mss, count, cfg.stream)
      ensures nSndQueue == |sndQueue|
    {
      ghost var all := AppendCut(sndQueue, bytes, 0, cfg.mss, count, cfg.stream);
      LoopCuts(sndQueue, bytes, 0, cfg.mss, count, cfg.stream, all);
      assert bytes[0..] == bytes;
      var pos: nat := 0;
      for i := 0 to count
        invariant pos <= |bytes| && nSndQueue == |sndQueue|
        invariant AppendCut(sndQueue, bytes, pos, cfg.mss, count - i, cfg.stream) == all
      {
        var size := if |bytes| - pos > cfg.mss then cfg.mss else |bytes| - pos;
        sndQueue := sndQueue + [NewFragment(if cfg.stream then 0 else count - i - 1, bytes[pos..pos + size])];
        nSndQueue := nSndQueue + 1;
        pos := pos + size;
      }
    }

    method SendBytes(bytes: seq<byte>) returns (code: int)
      requires cfg.mss > 0 && nSndQueue == |sndQueue|
      modifies `sndQueue, `nSndQueue
      ensures (sndQueue, code) == SendQueue.Send(old(sndQueue), cfg.stream, cfg.mss, bytes)
      ensures nSndQueue == |sndQueue|
    {
      var rest := ExtendTail(bytes);
      if cfg.stream && rest == [] {
        return 0;
      }
      var count := if |rest| <= cfg.mss then 1 else (|rest| + cfg.mss - 1) / cfg.mss;
      if count > 255 {
        return -2;
      }
      AppendFragments(rest, count);
      code := 0;
    }

    method SendState(bytes: seq<byte>) returns (code: int)
      requires Wired() && cfg.mss > 0
      modifies `sndQueue, `nSndQueue
      ensures Wired()
      ensures (State(), code) == Accept(old(State()), bytes)
    {
      code := SendBytes(bytes);
    }

    /** Queues `len` bytes; a negative length is refused, -2 means too many fragments. */
    method Send(bytes: seq<byte>, len: i32) returns (code: int)
      requires Valid() && (len >= 0 ==> |bytes| == len)
      modifies `sndQueue, `nSndQueue
      ensures Valid()
      ensures len < 0 ==> code == NEGATIVE_LENGTH && State() == old(State())
      ensures len >= 0 ==> (State(), code) == Accept(old(State()), bytes)
    {
      if len < 0 {
        return -1;
      }
      AcceptKeeps(State(), bytes);
      code := SendState(bytes);
    }

    // ---------- input ----------

    method ProcessUna(una: u32)
      requires nSndBuf == |sndBuf|
      modifies `sndUna, `sndBuf, `nSndBuf
      ensures SndState() == ApplyUna(old(SndState()), una) && nSndBuf == |sndBuf|
    {
      ParseUna(una);
      ShrinkBuf();
    }

    method SelectiveAck(sn: u32)
      requires nSndBuf == |sndBuf|
      modifies `sndUna, `sndBuf, `nSndBuf
      ensures SndState() == ApplyAck(old(SndState()), sn) && nSndBuf == |sndBuf|
    {
      ParseAck(sn);
      ShrinkBuf();
    }

    /** The remote window. */
    method ProcessWindow(wnd: u16)
      requires Wired()
      modifies `rmtWnd
      ensures Wired() && State() == old(State()).(rmtWnd := wnd)
    {
      rmtWnd := wnd;
    }

    /** The cumulative acknowledgement. */
    method CumulativeAck(una: u32)
      requires Wired()
      modifies `sndUna, `sndBuf, `nSndBuf
      ensures Wired()
      ensures State() == old(State()).(snd := ApplyUna(old(State()).snd, una))
    {
      ProcessUna(una);
    }

    /** The round-trip sample, unless the echoed timestamp is in the future. */
    method ProcessSample(w: Wire)
      requires Wired()
      modifies `rtt
      ensures Wired()
      ensures State() == AfterSample(old(State()), w)
    {
      if Diff(clock.current, w.ts) >= 0 {
        UpdateAck(Diff(clock.current, w.ts));
      }
    }

    /** The selective acknowledgement. */
    method ProcessAck(w: Wire)
      requires Wired()
      modifies `sndUna, `sndBuf, `nSndBuf
      ensures Wired()
      ensures State() == AfterAck(old(State()), w)
    {
      SelectiveAck(w.sn);
    }

    method ProcessPush(w: Wire)
      requires nRcvBuf == |rcvBuf| && nRcvQueue == |rcvQueue| && acks.Valid() && w.cmd == PUSH
      modifies `rcvBuf, `rcvQueue, `rcvNxt, `nRcvBuf, `nRcvQueue, acks, acks.items
      ensures nRcvBuf == |rcvBuf| && nRcvQueue == |rcvQueue|
      ensures acks.Valid() && (acks.items == old(acks.items) || fresh(acks.items))
      ensures acks.Contents() == AcksAfter(old(acks.Contents()), old(RcvState()), w)
      ensures RcvState() == RcvAfter(old(RcvState()), w)
    {
      if Diff(w.sn, Add(rcvNxt, rcvWnd)) < 0 {
        acks.Push(w.sn, w.ts);
        if Diff(w.sn, rcvNxt) >= 0 {
          ParseData(Seg(w.conv, w.cmd, w.frg, w.wnd, w.ts, w.sn, w.una, 0, 0, 0, 0, w.data));
        }
      }
    }

    /** The receiver's half. */
    method ProcessReceiver(w: Wire)
      requires Wired()
      modifies `tellWindow, `rcvBuf, `rcvQueue, `rcvNxt, `nRcvBuf, `nRcvQueue, acks, acks.items
      ensures Wired() && (acks.items == old(acks.items) || fresh(acks.items))
      ensures State() == AfterData(old(State()), w)
    {
      ghost var before := State();
      if w.cmd == PUSH {
        ProcessPush(w);
        assert State() == before.(acks := acks.Contents(), rcv := RcvState());
      } else if w.cmd == ASK_WINDOW {
        tellWindow := true;
      }
    }

    /** What one segment does once its header is read; the results are the flag and the largest number. */
    method ProcessSegment(w: Wire, flag: bool, maxAck: u32) returns (flag': bool, maxAck': u32)
      requires Wired()
      modifies `rmtWnd, `rtt, `sndUna, `sndBuf, `nSndBuf, `tellWindow
      modifies `rcvBuf, `rcvQueue, `rcvNxt, `nRcvBuf, `nRcvQueue, acks, acks.items
      ensures Wired() && (acks.items == old(acks.items) || fresh(acks.items))
      ensures Inbox(State(), flag', maxAck') == Process(Inbox(old(State()), flag, maxAck), w)
    {
      ProcessedSteps(Inbox(State(), flag, maxAck), w);
      flag', maxAck' := flag, maxAck;
      ProcessWindow(w.wnd);
      CumulativeAck(w.una);
      if w.cmd == ACK {
        ProcessSample(w);
        ProcessAck(w);
        if !flag || Diff(w.sn, maxAck) > 0 {
          maxAck' := w.sn;
        }
        flag' := true;
      } else {
        ProcessReceiver(w);
      }
    }

    /** Reads one header and checks it, in the order of the code. */
    method NextSegment(rest: seq<byte>) returns (front: FrontResult)
      ensures front == Front(rest, cfg.conv)
    {
      if |rest| < OVERHEAD {
        return Stop(0);
      }
      var h := DecodeHeader(rest);
      if h.conv != cfg.conv {
        return Stop(-1);
      }
      var cmd := if h.cmd == NOTIFY_BUFFER_FULL then PUSH else h.cmd;
      if |rest| - OVERHEAD < h.len {
        return Stop(-2);
      }
      if cmd != PUSH && cmd != ACK && cmd != ASK_WINDOW && cmd != TELL_WINDOW {
        return Stop(-3);
      }
      var payload := rest[OVERHEAD..OVERHEAD + h.len];
      return FrontResult.Segment(
        Wire(h.conv, cmd, h.frg, h.wnd, h.ts, h.sn, h.una, payload), rest[OVERHEAD + h.len..]);
    }

    /** The decoding loop; it stops at the first error or when no header is left. */
    method InputSegments(data: seq<byte>) returns (code: int, flag: bool, maxAck: u32)
      requires Wired()
      modifies `rmtWnd, `rtt, `sndUna, `sndBuf, `nSndBuf, `tellWindow
      modifies `rcvBuf, `rcvQueue, `rcvNxt, `nRcvBuf, `nRcvQueue, acks, acks.items
      ensures Wired() && (acks.items == old(acks.items) || fresh(acks.items))
      ensures code == Parse(data, cfg.conv).code
      ensures Inbox(State(), flag, maxAck) ==
              ProcessAll(Inbox(old(State()), false, 0), Parse(data, cfg.conv).segs)
    {
      ghost var start := Inbox(State(), false, 0);
      var rest := data;
      flag, maxAck := false, 0;
      while true
        invariant Wired() && (acks.items == old(acks.items) || fresh(acks.items))
        invariant Remaining(start, data, Inbox(State(), flag, maxAck), rest, cfg.conv)
        decreases |rest|
      {
        var front := NextSegment(rest);
        RemainingNext(start, data, Inbox(State(), flag, maxAck), rest, cfg.conv);
        match front {
          case Stop(reason) =>
            return reason, flag, maxAck;
          case Segment(w, later) =>
            flag, maxAck := ProcessSegment(w, flag, maxAck);
            rest := later;
        }
      }
    }

    method GrowWindow()
      requires cfg.mss > 0
      modifies `cwnd, `incr
      ensures CongState() == OnAdvance(old(CongState()), rmtWnd, cfg.mss)
    {
      if cwnd < rmtWnd {
        var mss := cfg.mss;
        if cwnd < ssthresh {
          cwnd := Next(cwnd);
          incr := Add(incr, mss);
        } else {
          if incr < mss {
            incr := mss;
          }
          incr := Add(incr, Add(Quotient(Mul(mss, mss), incr), mss / 16));
          if Mul(Next(cwnd), mss) <= incr {
            cwnd := Next(cwnd);
          }
        }
        var clamped := Clamp(Cong(cwnd, incr, ssthresh), rmtWnd, mss);
        cwnd, incr := clamped.cwnd, clamped.incr;
      }
    }

    method FastAcks(maxAck: u32)
      requires Wired()
      modifies `sndBuf
      ensures Wired()
      ensures var s := old(State()).snd;
              State() == old(State()).(snd := s.(buf := SendBuffer.ParseFastAck(s.una, s.nxt, s.buf, maxAck)))
    {
      ParseFastAck(maxAck);
    }

    method Growth()
      requires Wired() && cfg.mss > 0
      modifies `cwnd, `incr
      ensures Wired()
      ensures State() == old(State()).(cong := OnAdvance(old(State()).cong, rmtWnd, cfg.mss))
    {
      GrowWindow();
    }

    method InputState(data: seq<byte>) returns (code: int)
      requires Wired() && cfg.mss > 0
      modifies `rmtWnd, `rtt, `sndUna, `sndBuf, `nSndBuf, `tellWindow, `cwnd, `incr
      modifies `rcvBuf, `rcvQueue, `rcvNxt, `nRcvBuf, `nRcvQueue, acks, acks.items
      ensures Wired() && (acks.items == old(acks.items) || fresh(acks.items))
      ensures (State(), code) == Operations.Input(old(State()), data)
    {
      if |data| < OVERHEAD {
        return -1;
      }
      var una := sndUna;
      var flag, maxAck;
      code, flag, maxAck := InputSegments(data);
      if code != 0 {
        return;
      }
      if flag {
        FastAcks(maxAck);
      }
      if Diff(sndUna, una) > 0 {
        Growth();
      }
    }

    /** A received datagram: any bytes. */
    method Input(data: seq<byte>) returns (code: int)
      requires Valid()
      modifies `rmtWnd, `rtt, `sndUna, `sndBuf, `nSndBuf, `tellWindow, `cwnd, `incr
      modifies `rcvBuf, `rcvQueue, `rcvNxt, `nRcvBuf, `nRcvQueue, acks, acks.items
      ensures Valid() && (acks.items == old(acks.items) || fresh(acks.items))
      ensures (State(), code) == Operations.Input(old(State()), data)
    {
      InputKeeps(State(), data);
      code := InputState(data);
    }

    // ---------- the scratch buffer ----------

    /**
     The first `ptr` bytes of the buffer are the encodings of what `sc` has pending, and what has gone
     out since `base` are the datagrams of `sc`.
     */
    ghost predicate Holds(sc: Scratch, ptr: nat, base: seq<seq<byte>>)
      reads this, buffer
    {
      && buffer.Length == (cfg.mtu + OVERHEAD) * 3
      && ptr == Size(sc.pending) <= cfg.mtu
      && buffer[..ptr] == EncodeAll(sc.pending)
      && sent == base + Datagrams(sc.out)
    }

    /** Hands the first `size` bytes to the output callback; nothing if there are none. */
    method OutputBuffer(size: nat)
      requires size <= buffer.Length
      modifies `sent
      ensures sent == if size == 0 then old(sent) else old(sent) + [buffer[..size]]
    {
      if size > 0 {
        sent := sent + [buffer[..size]];
      }
    }

    /** Makes room by output if need be, then encodes header and payload. */
    method PackSegment(seg: Seg, ptr: nat, ghost sc: Scratch, ghost base: seq<seq<byte>>) returns (ptr': nat)
      requires Holds(sc, ptr, base) && OVERHEAD + |seg.data| <= cfg.mtu
      modifies `sent, buffer
      ensures Holds(Pack(sc, ToWire(seg), cfg.mtu), ptr', base)
    {
      ptr' := ptr;
      ghost var w := ToWire(seg);
      ghost var front := sc.pending;
      if ptr + OVERHEAD + |seg.data| > cfg.mtu {
        OutputBuffer(ptr);
        DatagramsSnoc(sc.out, sc.pending);
        Associative(base, Datagrams(sc.out), [EncodeAll(sc.pending)]);
        ptr' := 0;
        front := [];
      }
      assert buffer[..ptr'] == EncodeAll(front);
      ptr' := PutHeader(buffer, ptr', seg);
      ptr' := PutData(buffer, ptr', seg.data);
      EncodeAllSnoc(front, w);
      SizeSnoc(front, w);
      Associative(EncodeAll(front), EncodeHeader(HeaderOf(w)), w.data);
      assert [] + [w] == [w];
    }

    // ---------- flush: acknowledgements ----------

    /** One acknowledgement, in the header that all of them share. */
    method SendAck(hdr: Seg, ptr: nat, sn: u32, ts: u32, ghost p: AckPhase, ghost base: seq<seq<byte>>)
      returns (hdr': Seg, ptr': nat, ghost p': AckPhase)
      requires Holds(p.sc, ptr, base) && hdr.data == [] && OVERHEAD <= cfg.mtu && hdr == p.hdr
      modifies `sent, buffer
      ensures hdr' == AckSeg(hdr, Ack(sn, ts)) && Holds(p'.sc, ptr', base)
      ensures p' == AckPhase(Pack(Ask(p.sc), ToWire(hdr'), cfg.mtu), hdr', p.sent + 1, false)
    {
      hdr' := hdr.(sn := sn, ts := ts);
      ptr' := PackSegment(hdr', ptr, Ask(p.sc), base);
      p' := AckPhase(Pack(Ask(p.sc), ToWire(hdr'), cfg.mtu), hdr', p.sent + 1, false);
    }

    /** The unsent acknowledgements, which are all of `list` from the `i`-th on, move to the front. */
    method AbandonAcks(i: nat, ghost list: seq<Ack>)
      requires acks.Valid() && i <= |list| == acks.count + i <= acks.block
      requires Pairs(acks.items[..], 0, |list|) == list
      modifies acks.items
      ensures acks.Valid() && acks.Contents() == list[i..]
    {
      ghost var raw := acks.items[..];
      acks.Abandon(i);
      assert Pairs(raw, i, |list| - i) == list[i..];
    }

    /**
     Encodes the waiting acknowledgements. A refusal moves the unsent ones to the front of the list
     and leaves; otherwise the list is emptied.
     */
    method SendAcks(template: Seg, refuse: Oracle, ghost base: seq<seq<byte>>)
      returns (hdr: Seg, ptr: nat, asked: nat, refused: bool, ghost p: AckPhase)
      requires acks.Valid() && acks.items as object != buffer
      requires Holds(EMPTY, 0, base) && template.data == [] && OVERHEAD <= cfg.mtu
      modifies `sent, buffer, acks`count, acks.items
      ensures p == FlushAcks(old(acks.Contents()), AckPhase(EMPTY, template, 0, false), cfg.mtu, refuse)
      ensures hdr == p.hdr && asked == p.sc.asked && refused == p.refused && hdr.data == []
      ensures Holds(p.sc, ptr, base)
      ensures acks.Valid()
      ensures acks.Contents() == if refused then old(acks.Contents())[p.sent..] else []
    {
      ghost var list, raw := acks.Contents(), acks.items[..];
      hdr, ptr, asked, refused := template, 0, 0, false;
      p := AckPhase(EMPTY, template, 0, false);
      var count := acks.count;
      for i := 0 to count
        invariant acks.Valid() && acks.count == count - i && acks.items[..] == raw
        invariant hdr == p.hdr && hdr.data == [] && asked == p.sc.asked && p.sent == i && !p.refused
        invariant Holds(p.sc, ptr, base)
        invariant FlushAcks(list, p, cfg.mtu, refuse) ==
                  FlushAcks(list, AckPhase(EMPTY, template, 0, false), cfg.mtu, refuse)
      {
        if refuse(asked) {
          AbandonAcks(i, list);
          asked, refused, p := asked + 1, true, p.(sc := Ask(p.sc), refused := true);
          return;
        }
        var sn, ts := acks.Get(i);
        assert Ack(sn, ts) == list[i];
        hdr, ptr, p := SendAck(hdr, ptr, sn, ts, p, base);
        asked := asked + 1;
        acks.count := acks.count - 1;
      }
      acks.count := 0;
    }

    // ---------- flush: window probes ----------

    method UpdateProbeTimer()
      modifies `askWindow, `probeWait, `tsProbe
      ensures ProbeState() == ProbeTimer(old(ProbeState()), rmtWnd, clock.current)
    {
      if rmtWnd == 0 {
        if probeWait == 0 {
          probeWait := PROBE_INIT;
          tsProbe := Add(clock.current, probeWait);
        } else if Diff(clock.current, tsProbe) >= 0 {
          if probeWait < PROBE_INIT {
            probeWait := PROBE_INIT;
          }
          probeWait := Add(probeWait, probeWait / 2);
          if probeWait > PROBE_LIMIT {
            probeWait := PROBE_LIMIT;
          }
          tsProbe := Add(clock.current, probeWait);
          askWindow := true;
        }
      } else {
        tsProbe := 0;
        probeWait := 0;
      }
    }

    method SendAsk(hdr: Seg, ptr: nat, asked: nat, refuse: Oracle, ghost sc: Scratch, ghost base: seq<seq<byte>>)
      returns (hdr': Seg, ptr': nat, asked': nat, refused: bool, ghost p: ProbePhase)
      requires Holds(sc, ptr, base) && hdr.data == [] && OVERHEAD <= cfg.mtu && asked == sc.asked
      modifies `sent, buffer, `askWindow
      ensures p == FlushAsk(ProbePhase(sc, hdr, old(ProbeState()), false), cfg.mtu, refuse)
      ensures hdr' == p.hdr && asked' == p.sc.asked && refused == p.refused && hdr'.data == []
      ensures Holds(p.sc, ptr', base) && ProbeState() == p.probe
    {
      hdr', ptr', asked', refused := hdr, ptr, asked, false;
      p := FlushAsk(ProbePhase(sc, hdr, ProbeState(), false), cfg.mtu, refuse);
      if askWindow {
        asked' := asked + 1;
        if refuse(asked) {
          return hdr, ptr, asked', true, p;
        }
        hdr' := hdr.(cmd := ASK_WINDOW);
        ptr' := PackSegment(hdr', ptr, Ask(sc), base);
        askWindow := false;
      }
    }

    method SendTell(hdr: Seg, ptr: nat, asked: nat, refuse: Oracle, ghost sc: Scratch, ghost base: seq<seq<byte>>)
      returns (hdr': Seg, ptr': nat, asked': nat, refused: bool, ghost p: ProbePhase)
      requires Holds(sc, ptr, base) && hdr.data == [] && OVERHEAD <= cfg.mtu && asked == sc.asked
      modifies `sent, buffer, `tellWindow
      ensures p == FlushTell(ProbePhase(sc, hdr, old(ProbeState()), false), cfg.mtu, refuse)
      ensures hdr' == p.hdr && asked' == p.sc.asked && refused == p.refused
      ensures Holds(p.sc, ptr', base) && ProbeState() == p.probe
    {
      hdr', ptr', asked', refused := hdr, ptr, asked, false;
      p := FlushTell(ProbePhase(sc, hdr, ProbeState(), false), cfg.mtu, refuse);
      if tellWindow {
        asked' := asked + 1;
        if refuse(asked) {
          return hdr, ptr, asked', true, p;
        }
        hdr' := hdr.(cmd := TELL_WINDOW);
        ptr' := PackSegment(hdr', ptr, Ask(sc), base);
        tellWindow := false;
      }
    }

    /** The probe timer, the question, and the answer. */
    method SendProbes(hdr: Seg, ptr: nat, asked: nat, refuse: Oracle, ghost sc: Scratch, ghost base: seq<seq<byte>>)
      returns (hdr': Seg, ptr': nat, asked': nat, refused: bool, ghost p: ProbePhase)
      requires Holds(sc, ptr, base) && hdr.data == [] && OVERHEAD <= cfg.mtu && asked == sc.asked
      modifies `sent, buffer, `askWindow, `tellWindow, `probeWait, `tsProbe
      ensures var timed := ProbeTimer(old(ProbeState()), rmtWnd, clock.current);
              p == FlushTell(FlushAsk(ProbePhase(sc, hdr, timed, false), cfg.mtu, refuse), cfg.mtu, refuse)
      ensures hdr' == p.hdr && asked' == p.sc.asked && refused == p.refused
      ensures Holds(p.sc, ptr', base) && ProbeState() == p.probe
    {
      UpdateProbeTimer();
      hdr', ptr', asked', refused, p := SendAsk(hdr, ptr, asked, refuse, sc, base);
      if refused {
        return;
      }
      hdr', ptr', asked', refused, p := SendTell(hdr', ptr', asked', refuse, p.sc, base);
    }

    // ---------- flush: numbering ----------

    method NumberSegments(window: u32, hdr: Seg)
      requires nSndQueue == |sndQueue| && nSndBuf == |sndBuf| && hdr.conv == cfg.conv && hdr.una == rcvNxt
      modifies `sndNxt, `sndQueue, `sndBuf, `nSndQueue, `nSndBuf
      ensures nSndQueue == |sndQueue| && nSndBuf == |sndBuf|
      ensures SndState() == NumberQueued(old(SndState()), window, hdr, clock.current, ToU32(rtt.rto))
    {
      while Diff(sndNxt, Add(sndUna, window)) < 0
        invariant nSndQueue == |sndQueue| && nSndBuf == |sndBuf|
        invariant NumberQueued(SndState(), window, hdr, clock.current, ToU32(rtt.rto)) ==
                  NumberQueued(old(SndState()), window, hdr, clock.current, ToU32(rtt.rto))
        decreases |sndQueue|
      {
        if sndQueue == [] {
          break;
        }
        var seg := sndQueue[0];
        sndQueue := sndQueue[1..];
        nSndQueue := nSndQueue - 1;
        seg := seg.(conv := cfg.conv, wnd := hdr.wnd, ts := clock.current, sn := sndNxt, una := rcvNxt,
                    resendTs := clock.current, rto := ToU32(rtt.rto), fastAck := 0, xmit := 0);
        sndNxt := Next(sndNxt);
        sndBuf := sndBuf + [seg];
        nSndBuf := nSndBuf + 1;
      }
    }

    // ---------- flush: data ----------

    /** Decides whether to transmit `seg`, and what it becomes if so. */
    static method Prepare(seg: Seg, t: Setting) returns (needSend: bool, timeout: bool, fast: bool, seg': Seg)
      ensures needSend == !CauseOf(seg, t).Idle?
      ensures timeout == CauseOf(seg, t).Timeout?
      ensures fast == (CauseOf(seg, t).Fast? || CauseOf(seg, t).Early?)
      ensures seg' == Prepared(seg, t)
    {
      needSend, timeout, fast, seg' := false, false, false, seg;
      if seg.xmit == 0 {
        needSend := true;
        seg' := seg'.(xmit := Next(seg.xmit), rto := ToU32(t.rto));
        seg' := seg'.(resendTs := Add(Add(t.current, seg'.rto), t.rtoMin));
      } else if Diff(t.current, seg.resendTs) >= 0 {
        needSend, timeout := true, true;
        var more := ToU32(if t.nodelay then HalfToZero(t.rto) else t.rto);
        seg' := seg'.(xmit := Next(seg.xmit), rto := Add(seg.rto, more));
        seg' := seg'.(resendTs := Add(t.current, seg'.rto));
      } else if seg.fastAck >= t.resent {
        needSend, fast := true, true;
        seg' := seg'.(xmit := Next(seg.xmit), fastAck := 0, resendTs := Add(t.current, seg.rto));
      } else if seg.fastAck > 0 && t.queueEmpty {
        needSend, fast := true, true;
        seg' := seg'.(xmit := Next(seg.xmit), fastAck := 0, resendTs := Add(t.current, seg.rto));
      }
      if needSend {
        seg' := seg'.(ts := t.current, wnd := t.wnd, una := t.una);
      }
    }

    /** Every buffered segment fits one datagram. */
    ghost predicate Fitting()
      reads this
    {
      forall j :: 0 <= j < |sndBuf| ==> OVERHEAD + |sndBuf[j].data| <= cfg.mtu
    }

    /** Encodes segment `i` as it now is; the link is given up when it has gone out too often. */
    method Transmit(i: nat, seg: Seg, limit: u32, ptr: nat, ghost sc: Scratch, ghost base: seq<seq<byte>>)
      returns (ptr': nat)
      requires i < |sndBuf| && Holds(sc, ptr, base) && OVERHEAD + |seg.data| <= cfg.mtu
      modifies `sent, buffer, `sndBuf, `dead
      ensures sndBuf == old(sndBuf)[i := seg] && dead == (old(dead) || seg.xmit >= limit)
      ensures Holds(Pack(sc, ToWire(seg), cfg.mtu), ptr', base)
    {
      ptr' := PackSegment(seg, ptr, sc, base);
      sndBuf := sndBuf[i := seg];
      if seg.xmit >= limit {
        dead := true;
      }
    }

    /** Asks whether it may transmit; a refusal takes back the transmission count, and nothing else. */
    method TrySending(
        i: nat, seg: Seg, timeout: bool, limit: u32, ptr: nat, asked: nat, refuse: Oracle,
        ghost sc: Scratch, ghost base: seq<seq<byte>>)
      returns (ptr': nat, refused: bool)
      requires i < |sndBuf| && Holds(sc, ptr, base) && OVERHEAD + |seg.data| <= cfg.mtu
      modifies `sent, buffer, `sndBuf, `xmit, `dead
      ensures refused == refuse(asked)
      ensures sndBuf == old(sndBuf)[i := if refused then Unsent(seg) else seg]
      ensures xmit == if timeout then Next(old(xmit)) else old(xmit)
      ensures dead == (old(dead) || (!refused && seg.xmit >= limit))
      ensures Holds(if refused then Ask(sc) else Pack(Ask(sc), ToWire(seg), cfg.mtu), ptr', base)
    {
      ptr' := ptr;
      if timeout {
        xmit := Next(xmit);
      }
      refused := refuse(asked);
      if refused {
        sndBuf := sndBuf[i := seg.(xmit := Sub(seg.xmit, 1))];
      } else {
        ptr' := Transmit(i, seg, limit, ptr, Ask(sc), base);
      }
    }

    /** One turn of the loop: transmits segment `i` if it is due. */
    method SendSegment(
        i: nat, t: Setting, ptr: nat, asked: nat, refuse: Oracle, ghost sc: Scratch, ghost base: seq<seq<byte>>)
      returns (ptr': nat, timeout: bool, fast: bool, asked': nat, refused: bool, ghost sc': Scratch)
      requires i < |sndBuf| && Holds(sc, ptr, base) && asked == sc.asked && t.mtu == cfg.mtu && Fitting()
      modifies `sent, buffer, `sndBuf, `xmit, `dead
      ensures StepMade(old(sndBuf[i]), t, refuse, sc, timeout, fast, refused, sc') && asked' == sc'.asked
      ensures sndBuf == old(sndBuf)[i := Left(old(sndBuf[i]), t, refused)]
      ensures xmit == if timeout then Next(old(xmit)) else old(xmit)
      ensures dead == (old(dead) || GivesUp(old(sndBuf[i]), t, refused))
      ensures Holds(sc', ptr', base)
    {
      ptr', asked', refused, sc' := ptr, asked, false, sc;
      var needSend, seg;
      needSend, timeout, fast, seg := Prepare(sndBuf[i], t);
      if needSend {
        asked' := asked + 1;
        ptr', refused := TrySending(i, seg, timeout, t.deadLink, ptr, asked, refuse, sc, base);
        sc' := if refused then Ask(sc) else Pack(Ask(sc), ToWire(seg), t.mtu);
      }
    }

    /** The loop over the send buffer; a refusal ends it. */
    method SendData(
        t: Setting, ptr: nat, asked: nat, refuse: Oracle,
        ghost sc: Scratch, ghost base: seq<seq<byte>>, ghost end: DataPhase)
      returns (ptr': nat, change: bool, lost: bool)
      requires Holds(sc, ptr, base) && asked == sc.asked && t.mtu == cfg.mtu && Fitting()
      requires end == FlushData(DataPhase(sndBuf, sc, false, false, xmit, dead, false), 0, t, refuse)
      modifies `sent, buffer, `sndBuf, `xmit, `dead
      ensures sndBuf == end.buf && xmit == end.xmit && dead == end.dead
      ensures change == end.change && lost == end.lost
      ensures |sndBuf| == |old(sndBuf)| && Holds(end.sc, ptr', base)
    {
      ghost var d := DataPhase(sndBuf, sc, false, false, xmit, dead, false);
      ptr', change, lost := ptr, false, false;
      var question, i, refused := asked, 0, false;
      while i < |sndBuf| && !refused
        invariant i <= |sndBuf| && Fitting() && Holds(d.sc, ptr', base)
        invariant d == DataPhase(sndBuf, d.sc, change, lost, xmit, dead, refused) && question == d.sc.asked
        invariant FlushData(d, i, t, refuse) == end && |sndBuf| == |old(sndBuf)|
      {
        var timeout, fast;
        ghost var sc1;
        ptr', timeout, fast, question, refused, sc1 := SendSegment(i, t, ptr', question, refuse, d.sc, base);
        d := Turn(d, i, t, refuse, timeout, fast, refused, sc1, end);
        lost, change := lost || timeout, change || fast;
        i := i + 1;
      }
    }

    // ---------- flush: the congestion window ----------

    method Congest(change: bool, lost: bool, resent: u32, window: u32)
      modifies `ssthresh, `cwnd, `incr
      ensures CongState() ==
              OnFlush(old(CongState()), change, lost, Sub(sndNxt, sndUna), resent, window, cfg.mss)
    {
      if change {
        var inflight := Sub(sndNxt, sndUna);
        ssthresh := inflight / 2;
        if ssthresh < THRESHOLD_MIN {
          ssthresh := THRESHOLD_MIN;
        }
        cwnd := Add(ssthresh, resent);
        incr := Mul(cwnd, cfg.mss);
      }
      if lost {
        ssthresh := window / 2;
        if ssthresh < THRESHOLD_MIN {
          ssthresh := THRESHOLD_MIN;
        }
        cwnd := 1;
        incr := cfg.mss;
      }
      if cwnd < 1 {
        cwnd := 1;
        incr := cfg.mss;
      }
    }

    // ---------- flush: the phases on the whole state ----------

    method NewHeader() returns (hdr: Seg)
      requires Wired()
      ensures hdr == Template(State()) && hdr.data == []
    {
      var unused := if nRcvQueue < rcvWnd then rcvWnd - nRcvQueue else 0;
      hdr := Seg(cfg.conv, ACK, 0, unused, 0, 0, rcvNxt, 0, 0, 0, 0, []);
    }

    method SendWindow() returns (window: u32)
      requires Wired()
      ensures window == EffectiveWindow(State())
    {
      window := if cfg.sndWnd <= rmtWnd then cfg.sndWnd else rmtWnd;
      if !cfg.noCwnd {
        window := if cwnd <= window then cwnd else window;
      }
    }

    method FlushAckPhase(refuse: Oracle, ghost base: seq<seq<byte>>)
      returns (hdr: Seg, ptr: nat, asked: nat, refused: bool, ghost a: AckPhase)
      requires Wired() && Holds(EMPTY, 0, base) && OVERHEAD <= cfg.mtu
      modifies `sent, buffer, acks`count, acks.items
      ensures Wired() && Holds(a.sc, ptr, base)
      ensures a == AcksOf(old(State()), refuse) && a.sent <= |old(State()).acks|
      ensures State() == old(State()).(acks := if refused then old(State()).acks[a.sent..] else [])
      ensures hdr == a.hdr && asked == a.sc.asked && refused == a.refused && hdr.data == []
    {
      hdr := NewHeader();
      hdr, ptr, asked, refused, a := SendAcks(hdr, refuse, base);
    }

    method FlushProbePhase(
        hdr: Seg, ptr: nat, asked: nat, refuse: Oracle, ghost a: AckPhase, ghost base: seq<seq<byte>>)
      returns (hdr': Seg, ptr': nat, asked': nat, refused: bool, ghost p: ProbePhase)
      requires Wired() && Holds(a.sc, ptr, base) && OVERHEAD <= cfg.mtu
      requires hdr == a.hdr && asked == a.sc.asked && hdr.data == []
      modifies `sent, buffer, `askWindow, `tellWindow, `probeWait, `tsProbe
      ensures Wired() && Holds(p.sc, ptr', base)
      ensures p == ProbesOf(old(State()), a, refuse) && State() == old(State()).(probe := p.probe)
      ensures hdr' == p.hdr && asked' == p.sc.asked && refused == p.refused
    {
      hdr', ptr', asked', refused, p := SendProbes(hdr, ptr, asked, refuse, a.sc, base);
      ProbesFramed(p.probe);
    }

    twostate lemma ProbesFramed(probe: Probe)
      requires old(Wired()) && unchanged(acks) && acks.items == old(acks.items) && unchanged(acks.items)
      requires unchanged(`cfg, `sndUna, `sndNxt, `rcvNxt, `ssthresh, `rtt, `rcvWnd, `rmtWnd, `cwnd, `incr)
      requires unchanged(`clock, `xmit, `dead, `sndBuf)
      requires unchanged(`nRcvBuf, `nSndBuf, `nRcvQueue, `nSndQueue, `sndQueue, `rcvQueue, `rcvBuf)
      requires ProbeState() == probe
      ensures Wired() && State() == old(State()).(probe := probe)
    {
    }

    method ClearProbes()
      requires Wired()
      modifies `askWindow, `tellWindow
      ensures Wired()
      ensures State() == old(State()).(probe := old(State()).probe.(ask := false, tell := false))
    {
      askWindow, tellWindow := false, false;
    }

    method FlushNumberPhase(hdr: Seg, window: u32)
      requires Wired() && hdr.conv == cfg.conv && hdr.una == rcvNxt && window == EffectiveWindow(State())
      modifies `sndNxt, `sndQueue, `sndBuf, `nSndQueue, `nSndBuf
      ensures Wired()
      ensures State() == old(State()).(snd := NumberedOf(old(State()), hdr))
    {
      NumberSegments(window, hdr);
    }

    method NewSetting(wnd: u32) returns (t: Setting)
      requires Wired() && wnd == UnusedWindow(RcvState())
      ensures t == SettingOf(State(), SndState())
    {
      var resent := if cfg.fastResend > 0 then cfg.fastResend else MODULUS - 1;
      var rtoMin := if cfg.nodelay then 0 else ToU32(rtt.rto / 8);
      t := Setting(clock.current, rtt.rto, rtoMin, resent, cfg.nodelay, nSndQueue == 0, wnd, rcvNxt,
                   cfg.mtu, cfg.deadLink);
    }

    method FlushDataPhase(
        t: Setting, ptr: nat, asked: nat, refuse: Oracle,
        ghost sc: Scratch, ghost base: seq<seq<byte>>, ghost d: DataPhase)
      returns (size: nat, change: bool, lost: bool)
      requires Wired() && Holds(sc, ptr, base) && asked == sc.asked && Fitting() && t.mtu == cfg.mtu
      requires d == FlushData(DataPhase(sndBuf, sc, false, false, xmit, dead, false), 0, t, refuse)
      modifies `sent, buffer, `sndBuf, `xmit, `dead
      ensures Wired() && Holds(d.sc, size, base)
      ensures State() == old(State()).(snd := old(SndState()).(buf := d.buf), xmit := d.xmit, dead := d.dead)
      ensures change == d.change && lost == d.lost
    {
      size, change, lost := SendData(t, ptr, asked, refuse, sc, base, d);
      DataFramed(d);
    }

    twostate lemma DataFramed(d: DataPhase)
      requires old(Wired()) && unchanged(acks) && acks.items == old(acks.items) && unchanged(acks.items)
      requires unchanged(`cfg, `sndUna, `sndNxt, `rcvNxt, `ssthresh, `rtt, `rcvWnd, `rmtWnd, `cwnd, `incr)
      requires unchanged(`askWindow, `tellWindow, `probeWait, `tsProbe, `clock)
      requires unchanged(`nRcvBuf, `nSndBuf, `nRcvQueue, `nSndQueue, `sndQueue, `rcvQueue, `rcvBuf)
      requires sndBuf == d.buf && |sndBuf| == |old(sndBuf)| && xmit == d.xmit && dead == d.dead
      ensures Wired()
      ensures State() == old(State()).(snd := old(SndState()).(buf := d.buf), xmit := d.xmit, dead := d.dead)
    {
    }

    /** What is left in the buffer goes out last. */
    method SendRest(size: nat, ghost sc: Scratch, ghost base: seq<seq<byte>>)
      requires Wired() && Holds(sc, size, base)
      modifies `sent
      ensures Wired() && State() == old(State())
      ensures sent == base + Datagrams(Finish(sc))
    {
      OutputBuffer(size);
      DatagramsSnoc(sc.out, sc.pending);
      Associative(base, Datagrams(sc.out), [EncodeAll(sc.pending)]);
    }

    method FlushCongestion(change: bool, lost: bool, window: u32)
      requires Wired()
      modifies `ssthresh, `cwnd, `incr
      ensures Wired()
      ensures var ep := old(State());
              State() == ep.(cong := OnFlush(ep.cong, change, lost, Sub(ep.snd.nxt, ep.snd.una),
                                             Resent(ep.cfg), window, ep.cfg.mss))
    {
      Congest(change, lost, if cfg.fastResend > 0 then cfg.fastResend else MODULUS - 1, window);
    }

    /** Clears the probe bits, numbers what the windows allow, and fixes what the data loop reads. */
    method FlushNumbers(hdr: Seg) returns (window: u32, t: Setting)
      requires Wired() && Inv(State())
      requires hdr.conv == cfg.conv && hdr.una == rcvNxt && hdr.wnd == UnusedWindow(RcvState())
      modifies `askWindow, `tellWindow, `sndNxt, `sndQueue, `sndBuf, `nSndQueue, `nSndBuf
      ensures Wired() && Fitting()
      ensures var ep := old(State());
              && window == EffectiveWindow(ep)
              && t == SettingOf(State(), SndState())
              && State() == ep.(probe := ep.probe.(ask := false, tell := false), snd := NumberedOf(ep, hdr))
    {
      ghost var k := NumberedOk(State(), hdr);
      ClearProbes();
      window := SendWindow();
      FlushNumberPhase(hdr, window);
      t := NewSetting(hdr.wnd);
    }

    /** Numbering, data, what is left in the buffer, and the congestion window. */
    method FlushSegments(
        hdr: Seg, ptr: nat, asked: nat, refuse: Oracle, ghost p: ProbePhase, ghost base: seq<seq<byte>>)
      requires Wired() && Inv(State()) && Holds(p.sc, ptr, base) && hdr == p.hdr && asked == p.sc.asked
      requires hdr.conv == cfg.conv && hdr.una == rcvNxt && hdr.wnd == UnusedWindow(RcvState())
      requires p.probe == State().probe
      modifies `sent, buffer, `askWindow, `tellWindow, `sndNxt, `sndQueue, `sndBuf, `nSndQueue, `nSndBuf
      modifies `xmit, `dead, `ssthresh, `cwnd, `incr
      ensures Wired()
      ensures var ep := old(State());
              var snd := NumberedOf(ep, hdr);
              var f := WithData(ep, p, snd, DataOf(ep, snd, p.sc, refuse));
              State() == f.ep.(acks := ep.acks) && sent == base + Datagrams(f.out)
    {
      var window, t := FlushNumbers(hdr);
      ghost var d := DataOf(State(), SndState(), p.sc, refuse);
      var size, change, lost := FlushDataPhase(t, ptr, asked, refuse, p.sc, base, d);
      SendRest(size, d.sc, base);
      FlushCongestion(change, lost, window);
    }

    method FlushState(refuse: Oracle)
      requires Wired() && Inv(State())
      modifies `sent, buffer, acks`count, acks.items, `askWindow, `tellWindow, `probeWait, `tsProbe
      modifies `sndNxt, `sndQueue, `sndBuf, `nSndQueue, `nSndBuf, `xmit, `dead, `ssthresh, `cwnd, `incr
      ensures Wired()
      ensures var f := Phases.Flush(old(State()), refuse);
              State() == f.ep && sent == old(sent) + Datagrams(f.out)
    {
      if !clock.updated {
        return;
      }
      ghost var ep, base := State(), sent;
      var hdr, ptr, asked, refused;
      ghost var a, p;
      hdr, ptr, asked, refused, a := FlushAckPhase(refuse, base);
      if refused {
        return;
      }
      hdr, ptr, asked, refused, p := FlushProbePhase(hdr, ptr, asked, refuse, a, base);
      ProbesAlike(ep, a, refuse);
      if refused {
        return;
      }
      SegmentsAlike(ep, p, refuse);
      FlushSegments(hdr, ptr, asked, refuse, p, base);
    }

    /** Sends what is due; what goes out is appended to `sent`. */
    method Flush(refuse: Oracle)
      requires Valid()
      modifies `sent, buffer, acks`count, acks.items, `askWindow, `tellWindow, `probeWait, `tsProbe
      modifies `sndNxt, `sndQueue, `sndBuf, `nSndQueue, `nSndBuf, `xmit, `dead, `ssthresh, `cwnd, `incr
      ensures Valid()
      ensures var f := Phases.Flush(old(State()), refuse);
              State() == f.ep && sent == old(sent) + Datagrams(f.out)
    {
      FlushKeeps(State(), refuse);
      FlushState(refuse);
    }

    // ---------- the clock ----------

    method TickClock(t: u32) returns (flushes: bool)
      modifies `clock
      ensures (clock, flushes) == Tick(old(clock), cfg.interval, t)
    {
      clock := clock.(current := t);
      if !clock.updated {
        clock := clock.(updated := true, tsFlush := t);
      }
      var slap := Diff(t, clock.tsFlush);
      if slap >= 10000 || slap < -10000 {
        clock := clock.(tsFlush := t);
        slap := 0;
      }
      if slap >= 0 {
        clock := clock.(tsFlush := Add(clock.tsFlush, cfg.interval));
        if Diff(t, clock.tsFlush) >= 0 {
          clock := clock.(tsFlush := Add(t, cfg.interval));
        }
      }
      flushes := slap >= 0;
    }

    method UpdateState(t: u32, refuse: Oracle)
      requires Wired() && Inv(State())
      modifies `clock, `sent, buffer, acks`count, acks.items, `askWindow, `tellWindow, `probeWait, `tsProbe
      modifies `sndNxt, `sndQueue, `sndBuf, `nSndQueue, `nSndBuf, `xmit, `dead, `ssthresh, `cwnd, `incr
      ensures Wired()
      ensures var f := Advance(old(State()), t, refuse);
              State() == f.ep && sent == old(sent) + Datagrams(f.out)
    {
      var flushes := TickClock(t);
      if flushes {
        FlushState(refuse);
      }
    }

    /** Moves the clock to `t`, and flushes if it is time to. */
    method Update(t: u32, refuse: Oracle)
      requires Valid()
      modifies `clock, `sent, buffer, acks`count, acks.items, `askWindow, `tellWindow, `probeWait, `tsProbe
      modifies `sndNxt, `sndQueue, `sndBuf, `nSndQueue, `nSndBuf, `xmit, `dead, `ssthresh, `cwnd, `incr
      ensures Valid()
      ensures var f := Advance(old(State()), t, refuse);
              State() == f.ep && sent == old(sent) + Datagrams(f.out)
    {
      AdvanceKeeps(State(), t, refuse);
      UpdateState(t, refuse);
    }

    /** When to call `Update` next. */
    method Check(t: u32) returns (wake: u32)
      ensures wake == Timer.Check(clock, cfg.interval, sndBuf, t)
    {
      if !clock.updated {
        return t;
      }
      var tsFlush := clock.tsFlush;
      if Diff(t, tsFlush) >= 10000 || Diff(t, tsFlush) < -10000 {
        tsFlush := t;
      }
      if Diff(t, tsFlush) >= 0 {
        return t;
      }
      var untilFlush, untilPacket: i32 := Diff(tsFlush, t), 0x7fff_ffff;
      var i := 0;
      while i < |sndBuf|
        invariant i <= |sndBuf|
        invariant PacketWait(sndBuf, t, MAX_WAIT) == PacketWait(sndBuf[i..], t, untilPacket)
      {
        assert sndBuf[i..][1..] == sndBuf[i + 1..];
        var diff := Diff(sndBuf[i].resendTs, t);
        if diff <= 0 {
          return t;
        }
        if diff < untilPacket {
          untilPacket := diff;
        }
        i := i + 1;
      }
      var minimal := ToU32(if untilPacket < untilFlush then untilPacket else untilFlush);
      if minimal >= cfg.interval {
        minimal := cfg.interval;
      }
      wake := Add(t, minimal);
    }

    // ---------- settings ----------

    method NoDelaySettings(nodelay: i32, interval: i32, resend: i32, nc: i32)
      modifies `cfg, `rtt
      ensures var was := old(cfg);
              cfg == was.(nodelay := if nodelay >= 0 then nodelay != 0 else was.nodelay,
                           interval := if interval >= 0 then ClampInterval(interval) else was.interval,
                           fastResend := if resend >= 0 then resend else was.fastResend,
                           noCwnd := if nc >= 0 then nc != 0 else was.noCwnd)
      ensures rtt == if nodelay >= 0 then old(rtt).(minRto := if nodelay != 0 then RTO_NODELAY else RTO_MIN)
                     else old(rtt)
    {
      if nodelay >= 0 {
        cfg := cfg.(nodelay := nodelay != 0);
        rtt := rtt.(minRto := if nodelay != 0 then RTO_NODELAY else RTO_MIN);
      }
      if interval >= 0 {
        cfg := cfg.(interval := if interval > 5000 then 5000 else if interval < 10 then 10 else interval);
      }
      if resend >= 0 {
        cfg := cfg.(fastResend := resend);
      }
      if nc >= 0 {
        cfg := cfg.(noCwnd := nc != 0);
      }
    }

    method NoDelayState(nodelay: i32, interval: i32, resend: i32, nc: i32)
      requires Wired()
      modifies `cfg, `rtt
      ensures Wired() && State() == Operations.SetNoDelay(old(State()), nodelay, interval, resend, nc)
    {
      NoDelaySettings(nodelay, interval, resend, nc);
    }

    method SetNoDelay(nodelay: i32, interval: i32, resend: i32, nc: i32)
      requires Valid()
      modifies `cfg, `rtt
      ensures Valid() && State() == Operations.SetNoDelay(old(State()), nodelay, interval, resend, nc)
    {
      ApplyKeeps(State(), NoDelayOp(nodelay, interval, resend, nc));
      NoDelayState(nodelay, interval, resend, nc);
    }

    method WindowsState(sndWnd: i32, rcvWnd: i32)
      requires Wired()
      modifies `cfg, `rcvWnd
      ensures Wired() && State() == Operations.SetWindows(old(State()), sndWnd, rcvWnd)
    {
      if sndWnd > 0 {
        cfg := cfg.(sndWnd := sndWnd);
      }
      if rcvWnd > 0 {
        this.rcvWnd := rcvWnd;
      }
    }

    method SetWindows(sndWnd: i32, rcvWnd: i32)
      requires Valid()
      modifies `cfg, `rcvWnd
      ensures Valid() && State() == Operations.SetWindows(old(State()), sndWnd, rcvWnd)
    {
      ApplyKeeps(State(), WindowsOp(sndWnd, rcvWnd));
      WindowsState(sndWnd, rcvWnd);
    }

    method StreamState()
      requires Wired()
      modifies `cfg
      ensures Wired() && State() == old(State()).(cfg := old(cfg).(stream := true))
    {
      cfg := cfg.(stream := true);
    }

    method UseStream()
      requires Valid()
      modifies `cfg
      ensures Valid() && State() == Apply(old(State()), StreamOp)
    {
      ApplyKeeps(State(), StreamOp);
      StreamState();
    }
  }
}
