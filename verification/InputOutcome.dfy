/**
 What the input of arbitrary bytes does to the endpoint, in the fields of the endpoint before and after it.
 */
module InputOutcome {
  import opened Serial
  import opened Segment
  import opened Codec
  import opened AckList
  import opened Rtt
  import opened Congestion
  import opened SendQueue
  import opened SendBuffer
  import opened Receiver
  import opened State
  import opened Operations

  // ---------- one segment ----------

  /** The segment's `una` field is ahead of the window's start, and of this buffered segment. */
  ghost predicate Covered(s: Snd, v: u32, x: Seg) {
    Sub(v, s.una) < HALF && Sub(x.sn, s.una) < Sub(v, s.una)
  }

  /** Exactly what the segment acknowledges is gone; the window starts at the oldest that is left. */
  ghost predicate SenderTurn(s: Snd, w: Wire, s': Snd) {
    && s'.nxt == s.nxt && s'.queue == s.queue
    && (forall x :: x in s'.buf <==> x in s.buf && !Covered(s, w.una, x) && !(w.cmd == 82 && x.sn == w.sn))
    && Ordered(s'.una, s'.nxt, s'.buf)
    && s'.una == if s'.buf == [] then s.nxt else s'.buf[0].sn
  }

  /** Before the end of the receive window: it is acknowledged, whether it is new or not. */
  ghost predicate InReach(r: Rcv, sn: u32) {
    Diff(sn, Number(r.nxt + r.wnd)) < 0
  }

  ghost predicate EndpointTurn(ep: Endpoint, w: Wire, ep': Endpoint) {
    var age := Diff(ep.clock.current, w.ts);
    && ep' == ep.(rmtWnd := w.wnd, snd := ep'.snd, rtt := ep'.rtt, rcv := ep'.rcv, acks := ep'.acks, probe := ep'.probe)
    && ep'.rtt == (if w.cmd == 82 && age >= 0 then Filter(ep.rtt, age) else ep.rtt)
    && ep'.rcv == (if w.cmd == 81 then Arrive(ep.rcv, FromWire(w)) else ep.rcv)
    && ep'.acks == (if w.cmd == 81 && InReach(ep.rcv, w.sn) then ep.acks + [Ack(w.sn, w.ts)] else ep.acks)
    && ep'.probe == ep.probe.(tell := ep.probe.tell || w.cmd == 83)
  }

  ghost predicate Turn(p: Inbox, w: Wire, p': Inbox) {
    && SenderTurn(p.ep.snd, w, p'.ep.snd)
    && EndpointTurn(p.ep, w, p'.ep)
    && p'.acked == (p.acked || w.cmd == 82)
    && p'.maxAck == (if w.cmd == 82 && (!p.acked || Diff(w.sn, p.maxAck) > 0) then w.sn else p.maxAck)
  }

  lemma UnaSplits(s: Snd, v: u32, k: nat, i: nat)
    requires Ordered(s.una, s.nxt, s.buf) && i < |s.buf| && k == |s.buf| - |ParseUna(s.buf, v)|
    ensures i < k <==> Covered(s, v, s.buf[i])
  {
    UnaRemoves(s.una, s.nxt, s.buf, v);
  }

  lemma UnaCovers(s: Snd, v: u32)
    requires Ordered(s.una, s.nxt, s.buf)
    ensures var b := ParseUna(s.buf, v);
            && Ascending(s.una, s.nxt, b)
            && forall x :: x in b <==> x in s.buf && !Covered(s, v, x)
  {
    var b := ParseUna(s.buf, v);
    var k := |s.buf| - |b|;
    ParseUnaSuffix(s.buf, v);
    SuffixAscends(s.una, s.nxt, s.buf, k);
    forall i | 0 <= i < |s.buf| ensures i < k <==> Covered(s, v, s.buf[i]) {
      UnaSplits(s, v, k, i);
    }
    SuffixMembers(s, v, k);
  }

  lemma SuffixMembers(s: Snd, v: u32, k: nat)
    requires k <= |s.buf| && forall i :: 0 <= i < |s.buf| ==> (i < k <==> Covered(s, v, s.buf[i]))
    ensures forall x :: x in s.buf[k..] <==> x in s.buf && !Covered(s, v, x)
  {
    forall x | x in s.buf && !Covered(s, v, x) ensures x in s.buf[k..] {
      var i :| 0 <= i < |s.buf| && s.buf[i] == x;
      assert s.buf[k..][i - k] == x;
    }
  }

  lemma AckNames(una: u32, nxt: u32, b: seq<Seg>, sn: u32)
    requires Ascending(una, nxt, b) && Sub(nxt, una) <= WINDOW_LIMIT
    ensures var r := ParseAck(Shrink(nxt, b), nxt, b, sn); forall x :: x in r <==> x in b && x.sn != sn
  {
    var una1 := Shrink(nxt, b);
    ShrinkKeeps(una, nxt, b);
    if InWindow(una1, nxt, sn) {
      ScanKeeps(una1, nxt, b, sn);
    } else {
      forall x | x in b ensures x.sn != sn {
        var i :| 0 <= i < |b| && b[i] == x;
        InWindowIsOffset(una1, nxt, x.sn);
      }
    }
  }

  lemma SenderTurns(s: Snd, w: Wire)
    requires Ordered(s.una, s.nxt, s.buf)
    ensures SenderTurn(s, w, ApplyAcks(s, w))
  {
    AcknowledgedKeeps(s.una, s.nxt, s.buf, w.una, w.cmd == ACK, w.sn);
    UnaCovers(s, w.una);
    AckNames(s.una, s.nxt, ParseUna(s.buf, w.una), w.sn);
  }

  lemma WindowEnd(r: Rcv)
    ensures Number(r.nxt + r.wnd) == Add(r.nxt, r.wnd)
  {
    AddIsModular(r.nxt, r.wnd);
  }

  lemma ProcessTurns(p: Inbox, w: Wire)
    requires Ordered(p.ep.snd.una, p.ep.snd.nxt, p.ep.snd.buf) && w.cmd != NOTIFY_BUFFER_FULL
    ensures Turn(p, w, Process(p, w))
  {
    SenderTurns(p.ep.snd, w);
    WindowEnd(p.ep.rcv);
  }

  // ---------- the loop ----------

  /** The states between the segments of a datagram. */
  ghost predicate Turns(st: seq<Inbox>, ws: seq<Wire>) {
    |st| == |ws| + 1 && forall i :: 0 <= i < |ws| ==> Turn(st[i], ws[i], st[i + 1])
  }

  lemma {:induction false} LoopTurns(p: Inbox, ws: seq<Wire>) returns (st: seq<Inbox>)
    requires Inv(p.ep) && forall i :: 0 <= i < |ws| ==> ws[i].cmd != NOTIFY_BUFFER_FULL
    ensures Turns(st, ws) && st[0] == p && st[|ws|] == ProcessAll(p, ws)
    decreases |ws|
  {
    if ws == [] {
      st := [p];
    } else {
      ProcessTurns(p, ws[0]);
      ProcessKeeps(p, ws[0]);
      var later := LoopTurns(Process(p, ws[0]), ws[1..]);
      TurnsBefore(p, ws, later);
      st := [p] + later;
    }
  }

  lemma TurnsBefore(p: Inbox, ws: seq<Wire>, later: seq<Inbox>)
    requires ws != [] && Turns(later, ws[1..]) && Turn(p, ws[0], later[0])
    ensures Turns([p] + later, ws)
  {
    var st := [p] + later;
    forall i | 0 <= i < |ws| ensures Turn(st[i], ws[i], st[i + 1]) {
      if i > 0 { assert Turn(later[i - 1], ws[1..][i - 1], later[i]); }
    }
  }

  /** Among acknowledgements that are less than half the number space apart, the last one in serial order. */
  ghost predicate Furthest(ws: seq<Wire>, base: u32, acked: bool, maxAck: u32) {
    && (acked <==> exists i :: 0 <= i < |ws| && ws[i].cmd == 82)
    && (acked ==>
          && (exists i :: 0 <= i < |ws| && ws[i].cmd == 82 && ws[i].sn == maxAck)
          && forall i :: 0 <= i < |ws| && ws[i].cmd == 82 ==> Sub(ws[i].sn, base) <= Sub(maxAck, base))
  }

  lemma {:induction false} MaxAckIsFurthest(st: seq<Inbox>, ws: seq<Wire>, base: u32, n: nat)
    requires Turns(st, ws) && n <= |ws| && !st[0].acked
    requires forall i :: 0 <= i < |ws| && ws[i].cmd == 82 ==> Sub(ws[i].sn, base) < HALF
    ensures Furthest(ws[..n], base, st[n].acked, st[n].maxAck)
  {
    if n > 0 {
      MaxAckIsFurthest(st, ws, base, n - 1);
      FurthestMore(st[n - 1], st[n], ws[..n - 1], ws[n - 1], base);
      assert ws[..n] == ws[..n - 1] + [ws[n - 1]];
    }
  }

  lemma FurthestMore(p: Inbox, p': Inbox, ws: seq<Wire>, w: Wire, base: u32)
    requires Turn(p, w, p') && Furthest(ws, base, p.acked, p.maxAck)
    requires forall i :: 0 <= i < |ws| && ws[i].cmd == 82 ==> Sub(ws[i].sn, base) < HALF
    requires w.cmd == 82 ==> Sub(w.sn, base) < HALF
    ensures Furthest(ws + [w], base, p'.acked, p'.maxAck)
  {
    var more := ws + [w];
    assert forall i :: 0 <= i < |ws| ==> more[i] == ws[i];
    assert more[|ws|] == w;
    if p.acked && w.cmd == 82 { DiffByOffset(w.sn, p.maxAck, base); }
    if p.acked {
      var i :| 0 <= i < |ws| && ws[i].cmd == 82 && ws[i].sn == p.maxAck;
      assert more[i].cmd == 82 && more[i].sn == p.maxAck;
    }
  }

  // ---------- the end ----------

  /** The furthest acknowledgement, in the window, has overtaken the segments before it, and only these. */
  ghost predicate FastAcked(s: Snd, acked: bool, maxAck: u32, s': Snd) {
    && s' == s.(buf := s'.buf) && |s'.buf| == |s.buf|
    && forall i :: 0 <= i < |s.buf| ==>
         var x := s.buf[i];
         s'.buf[i] ==
         if acked && Sub(maxAck, s.una) < Sub(s.nxt, s.una) && Sub(x.sn, s.una) < Sub(maxAck, s.una) then
           x.(fastAck := Number(x.fastAck + 1))
         else x
  }

  /** The window grows, as over the integers, exactly if the send window moved and the peer has room for more. */
  ghost predicate Grows(ep: Endpoint, una: u32, ep': Endpoint) {
    if ep'.snd.una != una && ep.cong.cwnd < ep.rmtWnd then
      && ep'.cong.ssthresh == ep.cong.ssthresh && ep.cong.cwnd <= ep'.cong.cwnd <= ep.cong.cwnd + 1
      && (Sound(ep.cong, ep.cfg.mss) ==>
            (ep'.cong.cwnd, ep'.cong.incr) ==
            IdealGrown(ep.cong.cwnd, ep.cong.incr, ep.cong.ssthresh, ep.cfg.mss))
    else ep'.cong == ep.cong
  }

  ghost predicate Concluded(p: Inbox, una: u32, ep': Endpoint) {
    && ep' == p.ep.(snd := ep'.snd, cong := ep'.cong)
    && FastAcked(p.ep.snd, p.acked, p.maxAck, ep'.snd)
    && Grows(p.ep, una, ep')
  }

  lemma FastAcks(s: Snd, acked: bool, maxAck: u32)
    requires Ordered(s.una, s.nxt, s.buf)
    ensures FastAcked(s, acked, maxAck, if acked then s.(buf := ParseFastAck(s.una, s.nxt, s.buf, maxAck)) else s)
  {
    InWindowIsOffset(s.una, s.nxt, maxAck);
    if acked && InWindow(s.una, s.nxt, maxAck) {
      var buf := ParseFastAck(s.una, s.nxt, s.buf, maxAck);
      forall i | 0 <= i < |s.buf|
        ensures buf[i] == if Sub(s.buf[i].sn, s.una) < Sub(maxAck, s.una) then
                            s.buf[i].(fastAck := Number(s.buf[i].fastAck + 1)) else s.buf[i]
      {
        OvertakeBumps(s.una, s.nxt, s.buf, maxAck, i);
        AddIsModular(s.buf[i].fastAck, 1);
      }
    }
  }

  lemma Concludes(p: Inbox, una: u32) returns (ep': Endpoint)
    requires Inv(p.ep) && Sub(p.ep.snd.una, una) <= WINDOW_LIMIT
    ensures ep' == Conclude(p, una) && Concluded(p, una, ep')
  {
    ep' := ConcludedParts(p, una);
    FastAcks(p.ep.snd, p.acked, p.maxAck);
    var c, mss := p.ep.cong, p.ep.cfg.mss;
    if Sound(c, mss) { AdvanceKeepsSound(c, p.ep.rmtWnd, mss); }
    if c.cwnd < p.ep.rmtWnd { ClampIsIdle(c, p.ep.rmtWnd, mss); }
  }

  // ---------- the whole ----------

  /**
   Arbitrary bytes: they are explained as segments and a reason to stop; the segments take their turns, each
   as its fields say; and a datagram that ends well has its conclusion.
   */
  lemma InputTurns(ep: Endpoint, bytes: seq<byte>)
      returns (p: Parsed, raw: seq<Wire>, st: seq<Inbox>)
    requires Inv(ep)
    ensures |bytes| < 24 ==> Input(ep, bytes) == (ep, -1)
    ensures |bytes| >= 24 ==>
              && Explained(bytes, ep.cfg.conv, p, raw) && Turns(st, p.segs) && st[0] == Inbox(ep, false, 0)
              && Input(ep, bytes).1 == p.code
              && (if p.code == 0 then Concluded(st[|p.segs|], ep.snd.una, Input(ep, bytes).0)
                  else Input(ep, bytes).0 == st[|p.segs|].ep)
  {
    p, raw := ParseExplained(bytes, ep.cfg.conv);
    NormalCommands(raw);
    st := LoopTurns(Inbox(ep, false, 0), p.segs);
    ProcessAllKeeps(Inbox(ep, false, 0), p.segs);
    var end := Concludes(st[|p.segs|], ep.snd.una);
  }

  lemma NormalCommands(raw: seq<Wire>)
    ensures forall i :: 0 <= i < |Normals(raw)| ==> Normals(raw)[i].cmd != NOTIFY_BUFFER_FULL
  {
  }

  /** So in all: the peer's window is the last one told, and an answer is owed if it was or is asked for. */
  lemma {:induction false} TurnsTogether(st: seq<Inbox>, ws: seq<Wire>, n: nat)
    requires Turns(st, ws) && n <= |ws|
    ensures st[n].ep.rmtWnd == if n == 0 then st[0].ep.rmtWnd else ws[n - 1].wnd
    ensures st[n].ep.probe == st[0].ep.probe.(tell := st[0].ep.probe.tell || exists i :: 0 <= i < n && ws[i].cmd == 83)
    ensures st[n].ep.cong == st[0].ep.cong && st[n].ep.cfg == st[0].ep.cfg && st[n].ep.clock == st[0].ep.clock
  {
    if n > 0 {
      TurnsTogether(st, ws, n - 1);
      assert Turn(st[n - 1], ws[n - 1], st[n]);
    }
  }
}
