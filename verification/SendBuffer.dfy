/**
 The sequenced, unacknowledged segments: removal by cumulative and selective acknowledgement.
 */
module SendBuffer {
  import opened Serial
  import opened Segment

  /** Strictly ascending in serial order, counted from `una`, and before `nxt`. */
  ghost predicate Ascending(una: u32, nxt: u32, buf: seq<Seg>) {
    && (forall i :: 0 <= i < |buf| ==> Sub(buf[i].sn, una) < Sub(nxt, una))
    && (forall i, j :: 0 <= i < j < |buf| ==> Sub(buf[i].sn, una) < Sub(buf[j].sn, una))
  }

  /** `snd_una` after `ikcp_shrink_buf`. */
  function Shrink(nxt: u32, buf: seq<Seg>): u32 {
    if buf != [] then buf[0].sn else nxt
  }

  /** The sender's invariant. */
  ghost predicate Ordered(una: u32, nxt: u32, buf: seq<Seg>) {
    && Ascending(una, nxt, buf)
    && Sub(nxt, una) <= WINDOW_LIMIT
    && una == Shrink(nxt, buf)
  }

  /** Cumulative acknowledgement: drops segments from the front while they are serially before `v`. */
  function ParseUna(buf: seq<Seg>, v: u32): (r: seq<Seg>)
    ensures |r| <= |buf|
  {
    if buf != [] && Diff(v, buf[0].sn) > 0 then ParseUna(buf[1..], v) else buf
  }

  lemma {:induction false} ParseUnaSuffix(buf: seq<Seg>, v: u32)
    ensures ParseUna(buf, v) == buf[|buf| - |ParseUna(buf, v)|..]
  {
    if buf != [] && Diff(v, buf[0].sn) > 0 {
      ParseUnaSuffix(buf[1..], v);
    }
  }

  predicate InWindow(una: u32, nxt: u32, sn: u32) {
    Diff(sn, una) >= 0 && Diff(sn, nxt) < 0
  }

  /** The scan of a selective acknowledgement: stops at the first segment serially after `sn`. */
  function Scan(buf: seq<Seg>, sn: u32): (r: seq<Seg>) {
    if buf == [] then []
    else if buf[0].sn == sn then buf[1..]
    else if Diff(sn, buf[0].sn) < 0 then buf
    else [buf[0]] + Scan(buf[1..], sn)
  }

  function ParseAck(una: u32, nxt: u32, buf: seq<Seg>, sn: u32): seq<Seg> {
    if InWindow(una, nxt, sn) then Scan(buf, sn) else buf
  }

  function Bump(s: Seg): Seg {
    s.(fastAck := Next(s.fastAck))
  }

  /** Counts, from the front, the segments that `sn` has overtaken; stops as `Scan` does. */
  function Overtake(buf: seq<Seg>, sn: u32): (r: seq<Seg>)
    ensures |r| == |buf|
  {
    if buf == [] || Diff(sn, buf[0].sn) < 0 then buf
    else [if buf[0].sn != sn then Bump(buf[0]) else buf[0]] + Overtake(buf[1..], sn)
  }

  function ParseFastAck(una: u32, nxt: u32, buf: seq<Seg>, sn: u32): (r: seq<Seg>)
    ensures |r| == |buf|
  {
    if InWindow(una, nxt, sn) then Overtake(buf, sn) else buf
  }

  // ---------- what the acknowledgements mean ----------

  lemma OffsetsOrder(una: u32, nxt: u32, sn: u32, s: Seg)
    requires Sub(nxt, una) <= WINDOW_LIMIT && Sub(s.sn, una) < Sub(nxt, una)
    ensures InWindow(una, nxt, sn) <==> Sub(sn, una) < Sub(nxt, una)
    ensures InWindow(una, nxt, sn) ==> Diff(sn, s.sn) == Sub(sn, una) - Sub(s.sn, una)
  {
  }

  lemma InWindowIsOffset(una: u32, nxt: u32, sn: u32)
    requires Sub(nxt, una) <= WINDOW_LIMIT
    ensures InWindow(una, nxt, sn) <==> Sub(sn, una) < Sub(nxt, una)
  {
  }

  /**
   A cumulative field `v`, arbitrary, removes exactly the segments serially before it; a field
   serially before `una` removes nothing.
   */
  lemma {:induction false} UnaRemoves(una: u32, nxt: u32, buf: seq<Seg>, v: u32)
    requires Ascending(una, nxt, buf) && Sub(nxt, una) <= WINDOW_LIMIT
    requires Sub(v, una) < HALF || (buf != [] ==> buf[0].sn == una)
    ensures var r := ParseUna(buf, v);
            var k := |buf| - |r|;
            && r == buf[k..]
            && (if Sub(v, una) < HALF then
                  && (forall i :: 0 <= i < k ==> Sub(buf[i].sn, una) < Sub(v, una))
                  && (forall i :: k <= i < |buf| ==> Sub(buf[i].sn, una) >= Sub(v, una))
                else k == 0)
  {
    ParseUnaSuffix(buf, v);
    if buf != [] {
      UnaOffset(una, nxt, v, buf[0]);
      assert forall i :: 0 < i < |buf| ==> Sub(buf[0].sn, una) < Sub(buf[i].sn, una);
      if Diff(v, buf[0].sn) > 0 {
        UnaRemoves(una, nxt, buf[1..], v);
        assert forall i :: 0 < i < |buf| ==> buf[i] == buf[1..][i - 1];
      }
    }
  }

  lemma UnaOffset(una: u32, nxt: u32, v: u32, s: Seg)
    requires Sub(nxt, una) <= WINDOW_LIMIT && Sub(s.sn, una) < Sub(nxt, una)
    ensures Sub(v, una) < HALF ==> Diff(v, s.sn) == Sub(v, una) - Sub(s.sn, una)
    ensures Sub(v, una) >= HALF && s.sn == una ==> Diff(v, s.sn) < 0
  {
  }

  /** A selective acknowledgement removes the segment with its number and nothing else. */
  lemma {:induction false} AckRemoves(una: u32, nxt: u32, buf: seq<Seg>, sn: u32, k: nat)
    requires Ascending(una, nxt, buf) && Sub(nxt, una) <= WINDOW_LIMIT && InWindow(una, nxt, sn)
    requires k < |buf| && buf[k].sn == sn
    ensures Scan(buf, sn) == buf[..k] + buf[k + 1..]
  {
    if k > 0 {
      OffsetsOrder(una, nxt, sn, buf[0]);
      assert Sub(buf[0].sn, una) < Sub(buf[k].sn, una);
      SuffixAscends(una, nxt, buf, 1);
      AckRemoves(una, nxt, buf[1..], sn, k - 1);
      RemoveBehindFront(buf, k);
    }
  }

  lemma RemoveBehindFront<T>(s: seq<T>, k: nat)
    requires 0 < k < |s|
    ensures [s[0]] + (s[1..][..k - 1] + s[1..][k..]) == s[..k] + s[k + 1..]
  {
  }

  lemma {:induction false} AckMisses(buf: seq<Seg>, sn: u32)
    requires forall i :: 0 <= i < |buf| ==> buf[i].sn != sn
    ensures Scan(buf, sn) == buf
  {
    if buf != [] {
      AckMisses(buf[1..], sn);
    }
  }

  /** Overtaking bumps exactly the segments serially before `sn`, by one each. */
  lemma {:induction false} OvertakeBumps(una: u32, nxt: u32, buf: seq<Seg>, sn: u32, i: nat)
    requires Ascending(una, nxt, buf) && Sub(nxt, una) <= WINDOW_LIMIT && InWindow(una, nxt, sn)
    requires i < |buf|
    ensures Overtake(buf, sn)[i] ==
            if Sub(buf[i].sn, una) < Sub(sn, una) then Bump(buf[i]) else buf[i]
  {
    OffsetsOrder(una, nxt, sn, buf[0]);
    OffsetInjective(sn, buf[0].sn, una);
    if i > 0 {
      assert Sub(buf[0].sn, una) < Sub(buf[i].sn, una);
      if Diff(sn, buf[0].sn) >= 0 {
        SuffixAscends(una, nxt, buf, 1);
        OvertakeBumps(una, nxt, buf[1..], sn, i - 1);
      }
    }
  }

  // ---------- the invariant ----------

  /**
   Moving `una` up to the head (or to `nxt`) keeps the invariant. It never moves backwards nor past
   `nxt`, and all distances from the old `una` shrink by the same amount.
   */
  lemma ShrinkKeeps(una: u32, nxt: u32, buf: seq<Seg>)
    requires Ascending(una, nxt, buf) && Sub(nxt, una) <= WINDOW_LIMIT
    ensures var una' := Shrink(nxt, buf);
            && Ordered(una', nxt, buf)
            && Sub(una', una) <= Sub(nxt, una)
            && Sub(nxt, una') == Sub(nxt, una) - Sub(una', una)
            && (forall i :: 0 <= i < |buf| ==> Sub(buf[i].sn, una') == Sub(buf[i].sn, una) - Sub(una', una))
  {
    if buf != [] {
      assert forall i :: 0 <= i < |buf| ==> Sub(buf[0].sn, una) <= Sub(buf[i].sn, una);
    }
  }

  lemma SuffixAscends(una: u32, nxt: u32, buf: seq<Seg>, k: nat)
    requires Ascending(una, nxt, buf) && k <= |buf|
    ensures Ascending(una, nxt, buf[k..])
  {
  }

  lemma RemovalAscends(una: u32, nxt: u32, buf: seq<Seg>, k: nat)
    requires Ascending(una, nxt, buf) && k < |buf|
    ensures Ascending(una, nxt, buf[..k] + buf[k + 1..])
  {
  }

  lemma SameNumbersAscend(una: u32, nxt: u32, a: seq<Seg>, b: seq<Seg>)
    requires Ascending(una, nxt, a) && |a| == |b|
    requires forall i :: 0 <= i < |a| ==> a[i].sn == b[i].sn
    ensures Ascending(una, nxt, b)
  {
  }

  /** Giving the next number to a segment appends it. */
  lemma SequenceKeeps(una: u32, nxt: u32, buf: seq<Seg>, s: Seg)
    requires Ordered(una, nxt, buf) && Sub(nxt, una) < WINDOW_LIMIT && s.sn == nxt
    ensures Ordered(una, Next(nxt), buf + [s])
    ensures Sub(Next(nxt), una) == Sub(nxt, una) + 1
  {
  }

  /** The whole acknowledgement step of an arbitrary input segment. */
  function Acknowledged(una: u32, nxt: u32, buf: seq<Seg>, v: u32, ack: bool, sn: u32): seq<Seg> {
    var b := ParseUna(buf, v);
    if ack then ParseAck(Shrink(nxt, b), nxt, b, sn) else b
  }

  lemma ScanKeeps(una: u32, nxt: u32, buf: seq<Seg>, sn: u32)
    requires Ascending(una, nxt, buf) && Sub(nxt, una) <= WINDOW_LIMIT && InWindow(una, nxt, sn)
    ensures Ascending(una, nxt, Scan(buf, sn))
    ensures forall s :: s in Scan(buf, sn) ==> s in buf
    ensures forall s :: s in buf && s.sn != sn ==> s in Scan(buf, sn)
    ensures forall s :: s in Scan(buf, sn) ==> s.sn != sn
  {
    if k :| 0 <= k < |buf| && buf[k].sn == sn {
      AckRemoves(una, nxt, buf, sn, k);
      RemovalAscends(una, nxt, buf, k);
      RemovalMembers(una, nxt, buf, k);
    } else {
      AckMisses(buf, sn);
    }
  }

  lemma NumbersDiffer(una: u32, nxt: u32, buf: seq<Seg>, k: nat, j: nat)
    requires Ascending(una, nxt, buf) && k < |buf| && j < |buf| && j != k
    ensures buf[j].sn != buf[k].sn
  {
    assert Sub(buf[j].sn, una) != Sub(buf[k].sn, una);
  }

  lemma RemovalMembers(una: u32, nxt: u32, buf: seq<Seg>, k: nat)
    requires Ascending(una, nxt, buf) && k < |buf|
    ensures forall s :: s in buf[..k] + buf[k + 1..] ==> s in buf && s.sn != buf[k].sn
    ensures forall s :: s in buf && s.sn != buf[k].sn ==> s in buf[..k] + buf[k + 1..]
  {
    forall j | 0 <= j < |buf| && j != k ensures buf[j].sn != buf[k].sn {
      NumbersDiffer(una, nxt, buf, k, j);
    }
    MembersAround(buf, k);
  }

  lemma MembersAround(buf: seq<Seg>, k: nat)
    requires k < |buf| && forall j :: 0 <= j < |buf| && j != k ==> buf[j].sn != buf[k].sn
    ensures forall s :: s in buf[..k] + buf[k + 1..] ==> s in buf && s.sn != buf[k].sn
    ensures forall s :: s in buf && s.sn != buf[k].sn ==> s in buf[..k] + buf[k + 1..]
  {
    var r := buf[..k] + buf[k + 1..];
    forall i | 0 <= i < |r| ensures r[i] in buf && r[i].sn != buf[k].sn {
      assert r[i] == buf[if i < k then i else i + 1];
    }
    assert buf == buf[..k] + [buf[k]] + buf[k + 1..];
  }

  lemma AcknowledgedKeeps(una: u32, nxt: u32, buf: seq<Seg>, v: u32, ack: bool, sn: u32)
    requires Ordered(una, nxt, buf)
    ensures forall s :: s in Acknowledged(una, nxt, buf, v, ack, sn) ==> s in buf
    ensures var b := Acknowledged(una, nxt, buf, v, ack, sn);
            var una' := Shrink(nxt, b);
            && Ordered(una', nxt, b)
            && Sub(una', una) <= Sub(nxt, una)
            && Sub(nxt, una') == Sub(nxt, una) - Sub(una', una)
            && (forall i :: 0 <= i < |b| ==> Sub(b[i].sn, una') == Sub(b[i].sn, una) - Sub(una', una))
  {
    var b := ParseUna(buf, v);
    ParseUnaSuffix(buf, v);
    SuffixAscends(una, nxt, buf, |buf| - |b|);
    if ack { AckStepKeeps(una, nxt, b, sn); }
    ShrinkKeeps(una, nxt, Acknowledged(una, nxt, buf, v, ack, sn));
  }

  /** The selective part, seen from the anchor `una` before the cumulative part moved it. */
  lemma AckStepKeeps(una: u32, nxt: u32, b: seq<Seg>, sn: u32)
    requires Ascending(una, nxt, b) && Sub(nxt, una) <= WINDOW_LIMIT
    ensures Ascending(una, nxt, ParseAck(Shrink(nxt, b), nxt, b, sn))
    ensures forall s :: s in ParseAck(Shrink(nxt, b), nxt, b, sn) ==> s in b
  {
    var una1 := Shrink(nxt, b);
    ShrinkKeeps(una, nxt, b);
    if InWindow(una1, nxt, sn) {
      WindowFromEarlier(una, una1, nxt, sn);
      ScanKeeps(una, nxt, b, sn);
    }
  }

  lemma WindowFromEarlier(una: u32, una1: u32, nxt: u32, sn: u32)
    requires Sub(nxt, una) <= WINDOW_LIMIT && Sub(nxt, una1) == Sub(nxt, una) - Sub(una1, una)
    requires InWindow(una1, nxt, sn)
    ensures InWindow(una, nxt, sn) && Sub(sn, una) == Sub(sn, una1) + Sub(una1, una)
  {
  }

  // ---------- the scanning loop ----------

  /** The selective-acknowledgement loop has gone past the first `i` segments. */
  ghost predicate Passed(buf: seq<Seg>, i: nat, sn: u32) {
    i <= |buf| && forall j :: 0 <= j < i ==> buf[j].sn != sn && Diff(sn, buf[j].sn) >= 0
  }

  lemma {:induction false} ScanPassed(buf: seq<Seg>, i: nat, sn: u32)
    requires Passed(buf, i, sn)
    ensures Scan(buf, sn) == buf[..i] + Scan(buf[i..], sn)
  {
    if i == 0 {
      assert buf[0..] == buf;
    } else {
      ScanPassed(buf[1..], i - 1, sn);
      assert buf[1..][i - 1..] == buf[i..] && buf[..i] == [buf[0]] + buf[1..][..i - 1];
    }
  }

  lemma ScanFinds(buf: seq<Seg>, i: nat, sn: u32)
    requires Passed(buf, i, sn) && i < |buf| && buf[i].sn == sn
    ensures Scan(buf, sn) == buf[..i] + buf[i + 1..]
  {
    ScanPassed(buf, i, sn);
  }

  lemma ScanMisses(buf: seq<Seg>, i: nat, sn: u32)
    requires Passed(buf, i, sn) && (i == |buf| || Diff(sn, buf[i].sn) < 0)
    ensures Scan(buf, sn) == buf
  {
    ScanPassed(buf, i, sn);
    assert buf[..i] + buf[i..] == buf;
  }
}
