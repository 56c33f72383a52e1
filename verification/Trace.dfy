/**
 The trace of one whole flush: what the datagrams contain, and how the endpoint changed with them.
 */
module Trace {
  import opened Serial
  import opened Segment
  import opened Codec
  import opened AckList
  import opened Rtt
  import opened SendQueue
  import opened SendBuffer
  import opened State
  import opened Packing
  import opened Flush
  import opened FlushFacts
  import opened Operations

  /**
   An account of a flush: how many acknowledgements were encoded; whether it came to the probes, and
   which were encoded; and, if it came to the data phase, how many segments were numbered and the send
   buffer as it was then.
   */
  datatype Account = Account(
    acked: nat, probing: bool, probes: seq<Wire>, data: bool, numbered: nat, buf: seq<Seg>)

  /** The probes encoded, followed by those still wanted, are those that the timer left wanted. */
  ghost predicate ProbesAccounted(ep: Endpoint, f: Flushed, a: Account) {
    if a.probing then
      var hdr := LastHeader(Template(ep), ep.acks);
      && a.acked == |ep.acks|
      && a.probes + ProbeWires(f.ep.probe, hdr) ==
         ProbeWires(ProbeTimer(ep.probe, ep.rmtWnd, ep.clock.current), hdr)
    else a.probes == [] && f.ep.probe == ep.probe
  }

  /** `k` segments moved from the queue to the buffer, with the next numbers. */
  ghost predicate NumberedInto(s: Snd, k: nat, buf: seq<Seg>) {
    && k <= |s.queue|
    && |buf| == |s.buf| + k
    && (forall i :: 0 <= i < |s.buf| ==> buf[i] == s.buf[i])
    && (forall i {:trigger buf[i]} :: |s.buf| <= i < |buf| ==>
          && buf[i].sn == Number(s.nxt + (i - |s.buf|))
          && buf[i].xmit == 0 && View(buf[i]) == View(s.queue[i - |s.buf|]))
  }

  /** Counts stay or rise by one, and with a rise goes the current `una` field. */
  ghost predicate Raised(before: seq<Seg>, after: seq<Seg>, una: u32) {
    && |before| == |after|
    && forall i :: 0 <= i < |before| ==>
         after[i].xmit == before[i].xmit || (after[i].xmit == Next(before[i].xmit) && after[i].una == una)
  }

  /** `k` segments were numbered, making the buffer `buf`, and then some of it was transmitted. */
  ghost predicate SenderAccounted(s: Snd, s': Snd, k: nat, buf: seq<Seg>, una: u32) {
    && NumberedInto(s, k, buf)
    && s'.una == s.una
    && s'.nxt == Number(s.nxt + k)
    && Sub(s'.nxt, s.una) == Sub(s.nxt, s.una) + k
    && s'.queue == s.queue[k..]
    && SameSegments(buf, s'.buf) && Raised(buf, s'.buf, una)
  }

  ghost predicate AccountOf(ep: Endpoint, f: Flushed, a: Account) {
    && a.acked <= |ep.acks| && f.ep.acks == ep.acks[a.acked..]
    && (forall i :: 0 <= i < |a.probes| ==> IsProbe(a.probes[i], Template(ep)))
    && ProbesAccounted(ep, f, a)
    && (if a.data then
          && a.acked == |ep.acks| && a.probing && !f.ep.probe.ask && !f.ep.probe.tell
          && SenderAccounted(ep.snd, f.ep.snd, a.numbered, a.buf, ep.rcv.nxt)
          && Flat(f.out) ==
             AckWires(Template(ep), ep.acks) + a.probes + Transmitted(a.buf, f.ep.snd.buf, 0)
        else
          && f.ep.snd == ep.snd
          && Flat(f.out) <= AckWires(Template(ep), ep.acks[..a.acked]) + a.probes)
  }

  /**
   Every datagram handed out is a run of whole segments, not empty, within the datagram size, and ends
   only where the next segment does not fit.
   */
  ghost predicate Packed(f: Flushed, mtu: nat) {
    Stacked(f.out, mtu)
  }

  lemma NothingEncoded(mtu: nat)
    ensures Fits(EMPTY, mtu) && Encoded(EMPTY) == []
  {
  }

  lemma AcksFacts(ep: Endpoint, refuse: Oracle)
    requires Inv(ep)
    ensures var a := AcksOf(ep, refuse);
            && Fits(a.sc, ep.cfg.mtu)
            && (a.refused <==> a.sent < |ep.acks|)
            && a.hdr == LastHeader(Template(ep), ep.acks[..a.sent])
            && Encoded(a.sc) == AckWires(Template(ep), ep.acks[..a.sent])
  {
    NothingEncoded(ep.cfg.mtu);
    var p := AckPhase(EMPTY, Template(ep), 0, false);
    AcksShape(ep.acks, p, ep.cfg.mtu, refuse);
    AcksEncoded(ep.acks, p, ep.cfg.mtu, refuse);
    var a := AcksOf(ep, refuse);
    assert ep.acks[0..a.sent] == ep.acks[..a.sent];
    assert [] + AckWires(Template(ep), ep.acks[..a.sent]) == AckWires(Template(ep), ep.acks[..a.sent]);
  }

  lemma DataFacts(ep: Endpoint, hdr: Seg, sc: Scratch, refuse: Oracle) returns (k: nat)
    requires Inv(ep) && hdr.conv == ep.cfg.conv && Fits(sc, ep.cfg.mtu)
    ensures var snd := NumberedOf(ep, hdr);
            var d := DataOf(ep, snd, sc, refuse);
            && SenderAccounted(ep.snd, snd.(buf := d.buf), k, snd.buf, ep.rcv.nxt)
            && Fits(d.sc, ep.cfg.mtu)
            && Encoded(d.sc) == Encoded(sc) + Transmitted(snd.buf, d.buf, 0)
  {
    k := NumberedOk(ep, hdr);
    var snd := NumberedOf(ep, hdr);
    DataOk(ep, snd, sc, refuse);
    var d := DataPhase(snd.buf, sc, false, false, ep.xmit, ep.dead, false);
    assert forall j :: 0 <= j < |snd.buf| ==> OVERHEAD + |snd.buf[j].data| <= ep.cfg.mtu;
    DataFits(d, 0, SettingOf(ep, snd), refuse);
    DataEncoded(d, 0, SettingOf(ep, snd), refuse);
    StampedInto(ep.snd, k, hdr, ep.clock.current, ToU32(ep.rtt.rto));
    DataRaises(ep, snd, sc, refuse);
  }

  lemma DataRaises(ep: Endpoint, snd: Snd, sc: Scratch, refuse: Oracle)
    ensures Raised(snd.buf, DataOf(ep, snd, sc, refuse).buf, ep.rcv.nxt)
  {
    var d, t := DataPhase(snd.buf, sc, false, false, ep.xmit, ep.dead, false), SettingOf(ep, snd);
    var after := DataOf(ep, snd, sc, refuse).buf;
    forall i | 0 <= i < |snd.buf|
      ensures after[i].xmit == snd.buf[i].xmit ||
              (after[i].xmit == Next(snd.buf[i].xmit) && after[i].una == ep.rcv.nxt)
    {
      DataSteps(d, 0, t, refuse, i);
      PreparedSame(snd.buf[i], t);
    }
  }

  lemma StampedInto(s: Snd, k: nat, hdr: Seg, current: u32, rto: u32)
    requires k <= |s.queue|
    ensures NumberedInto(s, k, s.buf + StampedFront(s, k, hdr, current, rto))
  {
  }

  lemma PrefixOfWhole<T>(flat: seq<T>, pending: seq<T>, whole: seq<T>)
    requires flat + pending == whole
    ensures flat <= whole
  {
  }

  lemma AccountRefusedAtAcks(ep: Endpoint, a: AckPhase)
    requires a.sent <= |ep.acks|
    requires Encoded(a.sc) == AckWires(Template(ep), ep.acks[..a.sent])
    ensures AccountOf(ep, RefusedAtAcks(ep, a), Account(a.sent, false, [], false, 0, []))
  {
    PrefixOfWhole(Flat(a.sc.out), a.sc.pending, AckWires(Template(ep), ep.acks[..a.sent]));
  }

  /** `probes` were encoded in a probe phase that ended as `p`. */
  ghost predicate ProbesWanted(ep: Endpoint, p: ProbePhase, probes: seq<Wire>) {
    var hdr := LastHeader(Template(ep), ep.acks);
    && probes + ProbeWires(p.probe, hdr) == ProbeWires(ProbeTimer(ep.probe, ep.rmtWnd, ep.clock.current), hdr)
    && (forall i :: 0 <= i < |probes| ==> IsProbe(probes[i], Template(ep)))
    && (!p.refused ==> !p.probe.ask && !p.probe.tell)
  }

  lemma AccountRefusedAtProbes(ep: Endpoint, p: ProbePhase, probes: seq<Wire>)
    requires ProbesWanted(ep, p, probes)
    requires Encoded(p.sc) == AckWires(Template(ep), ep.acks) + probes
    ensures AccountOf(ep, RefusedAtProbes(ep, p), Account(|ep.acks|, true, probes, false, 0, []))
  {
    assert ep.acks[..|ep.acks|] == ep.acks;
    PrefixOfWhole(Flat(p.sc.out), p.sc.pending, AckWires(Template(ep), ep.acks) + probes);
  }

  /** The parts of a flush with data that an account is about. */
  lemma WithDataParts(ep: Endpoint, p: ProbePhase, snd: Snd, d: DataPhase) returns (f: Flushed)
    ensures f == WithData(ep, p, snd, d)
    ensures f.ep.acks == [] && f.ep.probe == p.probe.(ask := false, tell := false)
    ensures f.ep.snd == snd.(buf := d.buf) && f.out == Finish(d.sc)
  {
    f := WithData(ep, p, snd, d);
  }

  /** The account, once it is known what each phase encoded. */
  lemma AccountFromParts(
      ep: Endpoint, p: ProbePhase, probes: seq<Wire>, snd: Snd, d: DataPhase, k: nat, f: Flushed)
    requires f.ep.acks == [] && f.ep.probe == p.probe.(ask := false, tell := false)
    requires f.ep.snd == snd.(buf := d.buf) && f.out == Finish(d.sc) && Fits(d.sc, ep.cfg.mtu)
    requires ProbesWanted(ep, p, probes) && !p.refused
    requires Encoded(p.sc) == AckWires(Template(ep), ep.acks) + probes
    requires SenderAccounted(ep.snd, snd.(buf := d.buf), k, snd.buf, ep.rcv.nxt)
    requires Encoded(d.sc) == Encoded(p.sc) + Transmitted(snd.buf, d.buf, 0)
    ensures AccountOf(ep, f, Account(|ep.acks|, true, probes, true, k, snd.buf))
    ensures Packed(f, ep.cfg.mtu)
  {
    FinishFits(d.sc, ep.cfg.mtu);
    ProbesDone(ep, p, probes, f);
    assert ep.acks[|ep.acks|..] == [];
  }

  lemma ProbesDone(ep: Endpoint, p: ProbePhase, probes: seq<Wire>, f: Flushed)
    requires ProbesWanted(ep, p, probes) && !p.refused && f.ep.probe == p.probe.(ask := false, tell := false)
    ensures forall numbered, buf :: ProbesAccounted(ep, f, Account(|ep.acks|, true, probes, true, numbered, buf))
  {
    assert f.ep.probe == p.probe;
  }

  lemma AccountWithData(ep: Endpoint, p: ProbePhase, probes: seq<Wire>, refuse: Oracle)
      returns (k: nat, f: Flushed)
    requires Inv(ep) && Fits(p.sc, ep.cfg.mtu) && p.hdr.conv == ep.cfg.conv && !p.refused
    requires ProbesWanted(ep, p, probes)
    requires Encoded(p.sc) == AckWires(Template(ep), ep.acks) + probes
    ensures var snd := NumberedOf(ep, p.hdr);
            && f == WithData(ep, p, snd, DataOf(ep, snd, p.sc, refuse))
            && AccountOf(ep, f, Account(|ep.acks|, true, probes, true, k, snd.buf))
    ensures Packed(f, ep.cfg.mtu)
  {
    var snd := NumberedOf(ep, p.hdr);
    var d := DataOf(ep, snd, p.sc, refuse);
    k := DataFacts(ep, p.hdr, p.sc, refuse);
    f := WithDataParts(ep, p, snd, d);
    AccountFromParts(ep, p, probes, snd, d, k, f);
  }

  lemma ProbesAreWires(a: seq<Wire>, b: seq<Wire>, all: seq<Wire>, hdr: Seg)
    requires a + b == all && forall i :: 0 <= i < |all| ==> IsProbe(all[i], hdr)
    ensures forall i :: 0 <= i < |a| ==> IsProbe(a[i], hdr)
  {
    forall i | 0 <= i < |a| ensures IsProbe(a[i], hdr) {
      assert a[i] == all[i];
    }
  }

  /** The probe phase behind an unrefused acknowledgement phase. */
  lemma ProbesFacts(ep: Endpoint, refuse: Oracle) returns (probes: seq<Wire>)
    requires Inv(ep) && !AcksOf(ep, refuse).refused
    ensures var p := ProbesOf(ep, AcksOf(ep, refuse), refuse);
            && Fits(p.sc, ep.cfg.mtu)
            && SameHeader(p.hdr, Template(ep))
            && ProbesWanted(ep, p, probes)
            && Encoded(p.sc) == AckWires(Template(ep), ep.acks) + probes
  {
    AcksFacts(ep, refuse);
    var a := AcksOf(ep, refuse);
    assert ep.acks[..|ep.acks|] == ep.acks;
    var timer := ProbeTimer(ep.probe, ep.rmtWnd, ep.clock.current);
    probes := ProbesEncoded(ProbePhase(a.sc, a.hdr, timer, false), ep.cfg.mtu, refuse);
    ProbeWiresAre(timer, a.hdr);
    ProbesAreWires(probes, ProbeWires(ProbesOf(ep, a, refuse).probe, a.hdr), ProbeWires(timer, a.hdr), Template(ep));
  }

  /**
   Packing and order, for every state that satisfies the invariant and every behaviour of the
   output callback.
   */
  lemma FlushAccount(ep: Endpoint, refuse: Oracle) returns (account: Account)
    requires Inv(ep)
    ensures AccountOf(ep, Flush.Flush(ep, refuse), account)
    ensures Packed(Flush.Flush(ep, refuse), ep.cfg.mtu)
    ensures account.data ==> var p := ProbesOf(ep, AcksOf(ep, refuse), refuse);
                             account.buf == NumberedOf(ep, p.hdr).buf && ReachesData(ep, refuse)
    ensures ReachesData(ep, refuse) ==> account.data
  {
    if !ep.clock.updated {
      account := Account(0, false, [], false, 0, []);
      assert ep.acks[0..] == ep.acks;
    } else if AcksOf(ep, refuse).refused {
      AcksFacts(ep, refuse);
      AccountRefusedAtAcks(ep, AcksOf(ep, refuse));
      FinishFits(AcksOf(ep, refuse).sc, ep.cfg.mtu);
      account := Account(AcksOf(ep, refuse).sent, false, [], false, 0, []);
    } else {
      var probes := ProbesFacts(ep, refuse);
      var p := ProbesOf(ep, AcksOf(ep, refuse), refuse);
      if p.refused {
        AccountRefusedAtProbes(ep, p, probes);
        FinishFits(p.sc, ep.cfg.mtu);
        account := Account(|ep.acks|, true, probes, false, 0, []);
      } else {
        var k, f := AccountWithData(ep, p, probes, refuse);
        account := Account(|ep.acks|, true, probes, true, k, NumberedOf(ep, p.hdr).buf);
      }
    }
  }

  /** The callback lets the flush come to its data phase. */
  ghost predicate ReachesData(ep: Endpoint, refuse: Oracle) {
    && ep.clock.updated
    && !AcksOf(ep, refuse).refused
    && !ProbesOf(ep, AcksOf(ep, refuse), refuse).refused
  }

  /** Every segment of `buf` has room for this flush. */
  ghost predicate AllSettle(buf: seq<Seg>, t: Setting) {
    forall i :: 0 <= i < |buf| ==> Settles(buf[i], t)
  }

  ghost predicate NothingDue(buf: seq<Seg>, current: u32) {
    forall i :: 0 <= i < |buf| ==> SentNotDue(buf[i], current)
  }

  lemma DataSettlesIff(ep: Endpoint, snd: Snd, sc: Scratch, refuse: Oracle)
    requires Inv(ep) && !DataOf(ep, snd, sc, refuse).refused
    ensures NothingDue(DataOf(ep, snd, sc, refuse).buf, ep.clock.current) <==> AllSettle(snd.buf, SettingOf(ep, snd))
  {
    var d, t := DataPhase(snd.buf, sc, false, false, ep.xmit, ep.dead, false), SettingOf(ep, snd);
    var after := DataOf(ep, snd, sc, refuse).buf;
    FitsWord(ep.rtt.rto / 8);
    forall i | 0 <= i < |snd.buf| ensures SentNotDue(after[i], ep.clock.current) <==> Settles(snd.buf[i], t) {
      UnrefusedSettlesIff(d, t, refuse, i);
    }
  }

  /** Which segments are numbered does not depend on the header. */
  lemma {:induction false} QueueLeft(a: Snd, b: Snd, window: u32, hdr: Seg, other: Seg, current: u32, rto: u32)
    requires a.una == b.una && a.nxt == b.nxt && a.queue == b.queue
    ensures NumberQueued(a, window, hdr, current, rto).queue == NumberQueued(b, window, other, current, rto).queue
    decreases |a.queue|
  {
    if Diff(a.nxt, Add(a.una, window)) < 0 && a.queue != [] {
      var rest := a.queue[1..];
      QueueLeft(Snd(a.una, Next(a.nxt), rest, a.buf + [Stamp(a.queue[0], hdr, current, a.nxt, rto)]),
                Snd(b.una, Next(b.nxt), rest, b.buf + [Stamp(b.queue[0], other, current, b.nxt, rto)]),
                window, hdr, other, current, rto);
    }
  }

  /** What the data phase of a flush goes by. */
  function FlushSetting(ep: Endpoint): Setting {
    SettingOf(ep, NumberedOf(ep, Template(ep)))
  }

  /**
   After a flush that was not refused every acknowledgement has gone out; and every segment in the send
   buffer has been transmitted at least once and is not due at the current time, exactly if each that
   was there before had room in its count and timeout.
   */
  lemma UnrefusedFlush(ep: Endpoint, refuse: Oracle)
    requires Inv(ep) && ep.clock.updated && !Flush.Flush(ep, refuse).refused
    ensures var ep' := Flush.Flush(ep, refuse).ep;
            && ep'.acks == []
            && (NothingDue(ep'.snd.buf, ep.clock.current) <==> AllSettle(ep.snd.buf, FlushSetting(ep)))
  {
    var account := FlushAccount(ep, refuse);
    var p := ProbesOf(ep, AcksOf(ep, refuse), refuse);
    var snd := NumberedOf(ep, p.hdr);
    QueueLeft(ep.snd, ep.snd, EffectiveWindow(ep), p.hdr, Template(ep), ep.clock.current, ToU32(ep.rtt.rto));
    NumberedSettle(ep.snd, account.numbered, snd.buf, FlushSetting(ep));
    DataSettlesIff(ep, snd, p.sc, refuse);
  }

  /** What has just been numbered has room. */
  lemma NumberedSettle(s: Snd, k: nat, buf: seq<Seg>, t: Setting)
    requires NumberedInto(s, k, buf)
    ensures AllSettle(buf, t) <==> AllSettle(s.buf, t)
  {
    forall i | 0 <= i < |s.buf| ensures Settles(buf[i], t) <==> Settles(s.buf[i], t) {
    }
    forall i | |s.buf| <= i < |buf| ensures Settles(buf[i], t) {
      assert buf[i].xmit == 0;
    }
  }

  ghost predicate Spent(before: seq<Seg>, after: seq<Seg>, limit: u32) {
    && |before| == |after|
    && exists i :: 0 <= i < |before| && after[i].xmit != before[i].xmit && after[i].xmit >= limit
  }

  /** The link is given up in a flush exactly when it transmits a segment that reaches the limit. */
  lemma FlushGivesUpExactly(ep: Endpoint, refuse: Oracle) returns (account: Account)
    requires Inv(ep)
    ensures var f := Flush.Flush(ep, refuse);
            && AccountOf(ep, f, account)
            && (f.ep.dead <==> ep.dead || (account.data && Spent(account.buf, f.ep.snd.buf, ep.cfg.deadLink)))
  {
    account := FlushAccount(ep, refuse);
    if account.data {
      var p := ProbesOf(ep, AcksOf(ep, refuse), refuse);
      DeadInData(ep, NumberedOf(ep, p.hdr), p.sc, refuse);
    }
  }

  lemma DeadInData(ep: Endpoint, snd: Snd, sc: Scratch, refuse: Oracle)
    ensures var d := DataOf(ep, snd, sc, refuse);
            d.dead <==> ep.dead || Spent(snd.buf, d.buf, ep.cfg.deadLink)
  {
    var d, t := DataPhase(snd.buf, sc, false, false, ep.xmit, ep.dead, false), SettingOf(ep, snd);
    DeadExactly(d, 0, t, refuse);
    var after := DataOf(ep, snd, sc, refuse).buf;
    assert SomeExhausted(snd.buf, after, 0, t) <==> Spent(snd.buf, after, ep.cfg.deadLink) by {
      assert forall j :: 0 <= j < |snd.buf| ==>
        (Exhausted(snd.buf[j], after[j], t) <==>
         after[j].xmit != snd.buf[j].xmit && after[j].xmit >= ep.cfg.deadLink);
    }
  }
}
