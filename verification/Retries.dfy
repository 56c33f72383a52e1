/**
 How far retransmission counts and timeouts can have grown in a run.
 */
module Retries {
  import opened Serial
  import opened Segment
  import opened Codec
  import opened Rtt
  import opened SendBuffer
  import opened State
  import opened Packing
  import opened Flush
  import opened FlushFacts
  import opened Operations
  import opened Trace

  /** So many flushes leave room for one more timeout below half the number space. */
  const FLUSH_LIMIT: nat := 536869
  /** So many timeouts of 4000 ms do not add up to the whole number space. */
  const WRAP_LIMIT: nat := 1073741

  /** Bounds that hold when the buffered segments have seen at most `n` flushes. */
  ghost predicate Retried(buf: seq<Seg>, n: nat) {
    forall i :: 0 <= i < |buf| ==> RetriedAt(buf[i], n)
  }

  ghost predicate RetriedAt(s: Seg, n: nat) {
    s.xmit <= n && (s.xmit > 0 ==> s.rto <= RTO_MAX * n && (n <= WRAP_LIMIT ==> s.rto >= 1))
  }

  lemma RetriedMore(buf: seq<Seg>, n: nat, m: nat)
    requires Retried(buf, n) && n <= m
    ensures Retried(buf, m)
  {
    forall i | 0 <= i < |buf| ensures RetriedAt(buf[i], m) {
      assert RetriedAt(buf[i], n);
    }
  }

  lemma RetriedLeavesRoom(buf: seq<Seg>, n: nat, t: Setting)
    requires Retried(buf, n) && n <= FLUSH_LIMIT && RTO_NODELAY <= t.rto <= RTO_MAX
    ensures AllSettle(buf, t)
  {
    forall i | 0 <= i < |buf| ensures Settles(buf[i], t) {
      assert RetriedAt(buf[i], n);
      FitsWord(t.rto);
      FitsWord(HalfToZero(t.rto));
      if buf[i].xmit > 0 { FitsWord(buf[i].rto + Backoff(t)); }
    }
  }

  // ---------- one flush ----------

  /** A transmission, a refused one, or none: the count rises by one at most, the timeout by 4000. */
  lemma StepRetries(s: Seg, s': Seg, t: Setting, refused: bool, n: nat)
    requires RetriedAt(s, n) && RTO_NODELAY <= t.rto <= RTO_MAX
    requires s' == s || StepsTo(s, s', t, refused)
    ensures RetriedAt(s', n + 1)
  {
    PreparedSame(s, t);
    match CauseOf(s, t)
    case Timeout =>
      FitsWord(t.rto);
      FitsWord(HalfToZero(t.rto));
    case First => FitsWord(t.rto);
    case _ =>
  }

  lemma FlushRetries(ep: Endpoint, refuse: Oracle, n: nat)
    requires Inv(ep) && Retried(ep.snd.buf, n)
    ensures Retried(Flush.Flush(ep, refuse).ep.snd.buf, n + 1)
  {
    var account := FlushAccount(ep, refuse);
    if account.data {
      var p := ProbesOf(ep, AcksOf(ep, refuse), refuse);
      NumberedRetries(ep.snd, account.numbered, account.buf, n);
      DataRetries(ep, NumberedOf(ep, p.hdr), p.sc, refuse, n);
    } else {
      RetriedMore(ep.snd.buf, n, n + 1);
    }
  }

  lemma NumberedRetries(s: Snd, k: nat, buf: seq<Seg>, n: nat)
    requires NumberedInto(s, k, buf) && Retried(s.buf, n)
    ensures Retried(buf, n)
  {
    forall i | 0 <= i < |buf| ensures RetriedAt(buf[i], n) {
      if i < |s.buf| { assert RetriedAt(s.buf[i], n) && buf[i] == s.buf[i]; }
    }
  }

  lemma DataRetries(ep: Endpoint, snd: Snd, sc: Scratch, refuse: Oracle, n: nat)
    requires Inv(ep) && Retried(snd.buf, n)
    ensures Retried(DataOf(ep, snd, sc, refuse).buf, n + 1)
  {
    var d, t := DataPhase(snd.buf, sc, false, false, ep.xmit, ep.dead, false), SettingOf(ep, snd);
    var after := DataOf(ep, snd, sc, refuse).buf;
    forall i | 0 <= i < |after| ensures RetriedAt(after[i], n + 1) {
      DataSteps(d, 0, t, refuse, i);
      assert RetriedAt(snd.buf[i], n);
      if StepsTo(snd.buf[i], after[i], t, true) {
        StepRetries(snd.buf[i], after[i], t, true, n);
      } else {
        StepRetries(snd.buf[i], after[i], t, false, n);
      }
    }
  }

  // ---------- input ----------

  lemma FewerRetried(buf: seq<Seg>, fewer: seq<Seg>, n: nat)
    requires Retried(buf, n) && forall s :: s in fewer ==> s in buf
    ensures Retried(fewer, n)
  {
    forall i | 0 <= i < |fewer| ensures RetriedAt(fewer[i], n) {
      assert fewer[i] in buf;
    }
  }

  lemma {:induction false} ProcessAllRetries(p: Inbox, ws: seq<Wire>, n: nat)
    requires Inv(p.ep) && Retried(p.ep.snd.buf, n)
    ensures Retried(ProcessAll(p, ws).ep.snd.buf, n)
    decreases |ws|
  {
    if ws != [] {
      var s, w := p.ep.snd, ws[0];
      var ep := ProcessedParts(p, w);
      AcknowledgedKeeps(s.una, s.nxt, s.buf, w.una, w.cmd == ACK, w.sn);
      FewerRetried(s.buf, ep.snd.buf, n);
      ProcessKeeps(p, w);
      ProcessAllRetries(Process(p, w), ws[1..], n);
    }
  }

  lemma FastAckRetries(s: Snd, sn: u32, n: nat)
    requires Ordered(s.una, s.nxt, s.buf) && Retried(s.buf, n)
    ensures Retried(ParseFastAck(s.una, s.nxt, s.buf, sn), n)
  {
    if InWindow(s.una, s.nxt, sn) {
      forall i | 0 <= i < |s.buf| ensures RetriedAt(Overtake(s.buf, sn)[i], n) {
        OvertakeBumps(s.una, s.nxt, s.buf, sn, i);
        assert RetriedAt(s.buf[i], n);
      }
    }
  }

  lemma InputRetries(ep: Endpoint, bytes: seq<byte>, n: nat)
    requires Inv(ep) && Retried(ep.snd.buf, n)
    ensures Retried(Input(ep, bytes).0.snd.buf, n)
  {
    var ep', p, ws := InputEnds(ep, bytes);
    ProcessAllRetries(Inbox(ep, false, 0), ws, n);
    FastAckRetries(p.ep.snd, p.maxAck, n);
    var end := ConcludeKeeps(p, ep.snd.una);
  }

  // ---------- runs ----------

  /** The calls of a run that may flush. */
  function Flushes(ops: seq<Op>): nat {
    if ops == [] then 0
    else (if ops[0].UpdateOp? || ops[0].FlushOp? then 1 else 0) + Flushes(ops[1..])
  }

  lemma ApplyRetries(ep: Endpoint, op: Op, n: nat)
    requires Inv(ep) && Retried(ep.snd.buf, n)
    ensures Retried(Apply(ep, op).snd.buf, if op.UpdateOp? || op.FlushOp? then n + 1 else n)
  {
    match op
    case InputOp(datagram) => InputRetries(ep, datagram, n);
    case FlushOp(refuse) => FlushRetries(ep, refuse, n);
    case UpdateOp(t, refuse) =>
      FlushRetries(ep.(clock := Timer.Tick(ep.clock, ep.cfg.interval, t).0), refuse, n);
      RetriedMore(ep.snd.buf, n, n + 1);
    case _ =>
  }

  /** In every run, counts and timeouts are bounded by the number of flushes since the start. */
  lemma {:induction false} RunRetries(ep: Endpoint, ops: seq<Op>, ep': Endpoint, n: nat)
    requires Inv(ep) && Retried(ep.snd.buf, n) && Leads(ep, ops, ep')
    ensures Retried(ep'.snd.buf, n + Flushes(ops))
    decreases |ops|
  {
    if ops != [] {
      var op := ops[0];
      ApplyKeeps(ep, op);
      ApplyRetries(ep, op, n);
      RunRetries(Apply(ep, op), ops[1..], ep', if op.UpdateOp? || op.FlushOp? then n + 1 else n);
    }
  }

  /**
   In every run with at most 536869 flushes since the send buffer was last empty: a flush that is not
   refused leaves no acknowledgement waiting, and every buffered segment transmitted and not due.
   */
  lemma UnrefusedFlushInRun(ep: Endpoint, ops: seq<Op>, ep': Endpoint, refuse: Oracle)
    requires Inv(ep) && ep.snd.buf == [] && Leads(ep, ops, ep') && Flushes(ops) <= FLUSH_LIMIT
    requires ep'.clock.updated && !Flush.Flush(ep', refuse).refused
    ensures var after := Flush.Flush(ep', refuse).ep;
            && after.acks == []
            && NothingDue(after.snd.buf, ep'.clock.current)
  {
    RunKeeps(ep, ops, ep');
    RunRetries(ep, ops, ep', 0);
    RetriedLeavesRoom(ep'.snd.buf, Flushes(ops), FlushSetting(ep'));
    UnrefusedFlush(ep', refuse);
  }

  // ---------- the bound on flushes ----------

  /** A segment transmitted for the first time, and then `k` times again, each time when it falls due. */
  function Retransmitted(s: Seg, t: Setting, k: nat): Seg {
    if k == 0 then Prepared(s, t)
    else
      var s := Retransmitted(s, t, k - 1);
      Prepared(s, t.(current := s.resendTs))
  }

  /** Without an acknowledgement the timeout grows by the largest amount each time. */
  lemma {:induction false} BackoffGrows(s: Seg, t: Setting, k: nat)
    requires s.xmit == 0 && t.rto == RTO_MAX && !t.nodelay && k < WRAP_LIMIT
    ensures Retransmitted(s, t, k).xmit == k + 1 && Retransmitted(s, t, k).rto == RTO_MAX * (k + 1)
    ensures k > 0 ==> Retransmitted(s, t, k).resendTs == Add(Retransmitted(s, t, k - 1).resendTs, RTO_MAX * (k + 1))
  {
    if k > 0 {
      BackoffGrows(s, t, k - 1);
      FitsWord(RTO_MAX * (k + 1));
    }
  }

  /** A witness for the bound: transmission 536870 of a segment is not due at once, the next one is. */
  lemma FlushLimitIsReached(s: Seg, t: Setting)
    requires s.xmit == 0 && t.rto == RTO_MAX && !t.nodelay
    ensures SentNotDue(Retransmitted(s, t, FLUSH_LIMIT), Retransmitted(s, t, FLUSH_LIMIT - 1).resendTs)
    ensures !SentNotDue(Retransmitted(s, t, FLUSH_LIMIT + 1), Retransmitted(s, t, FLUSH_LIMIT).resendTs)
  {
    BackoffGrows(s, t, FLUSH_LIMIT);
    BackoffGrows(s, t, FLUSH_LIMIT + 1);
    NotDueIff(Retransmitted(s, t, FLUSH_LIMIT - 1).resendTs, RTO_MAX * (FLUSH_LIMIT + 1));
    NotDueIff(Retransmitted(s, t, FLUSH_LIMIT).resendTs, RTO_MAX * (FLUSH_LIMIT + 2));
  }
}
