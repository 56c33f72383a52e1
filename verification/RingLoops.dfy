/**
 The loops that unlink, move and insert while they walk a ring, with the next link saved before the
 current one is cleared. What they leave on the rings, read through the segment that each link is part
 of, is what the functions on sequences give.
 */
module RingLoops {
  import opened Serial
  import opened Segment
  import opened SendBuffer
  import opened Receiver
  import opened Rings

  /** The segment around each link: `iqueue_entry`. */
  type Entries = map<Link, Seg>

  ghost predicate Known(segs: Entries, r: seq<Link>) {
    forall i :: 0 <= i < |r| ==> r[i] in segs
  }

  ghost function Listed(segs: Entries, r: seq<Link>): (s: seq<Seg>)
    requires Known(segs, r)
    ensures |s| == |r| && forall i :: 0 <= i < |r| ==> s[i] == segs[r[i]]
  {
    seq(|r|, i requires 0 <= i < |r| => segs[r[i]])
  }

  /** The link at position `k`, behind all members the head. */
  ghost function At(head: Link, r: seq<Link>, k: nat): Link
    requires k <= |r|
  {
    if k == |r| then head else r[k]
  }

  /** The walk after the `k`-th member is gone stands where it would have stood next. */
  lemma RemovedListed(segs: Entries, head: Link, r: seq<Link>, k: nat)
    requires Known(segs, r) && k < |r|
    ensures Known(segs, Removed(r, k))
    ensures Listed(segs, Removed(r, k)) == Listed(segs, r)[..k] + Listed(segs, r)[k + 1..]
    ensures At(head, Removed(r, k), k) == At(head, r, k + 1)
  {
  }

  method Following(rings: ControlRings, p: nat, q: Link, ghost k: nat) returns (next: Link)
    requires rings.Valid() && p < 4 && k < |rings.items[p]| && q == rings.items[p][k]
    ensures next == At(rings.heads[p], rings.items[p], k + 1)
  {
    next := q.next;
  }

  method First(rings: ControlRings, p: nat) returns (q: Link)
    requires rings.Valid() && p < 4
    ensures q == At(rings.heads[p], rings.items[p], 0)
  {
    q := rings.heads[p].next;
  }

  /** A member is not the head. */
  lemma Inside(rings: ControlRings, p: nat, k: nat)
    requires rings.Valid() && p < 4 && k <= |rings.items[p]|
    ensures At(rings.heads[p], rings.items[p], k) == rings.heads[p] <==> k == |rings.items[p]|
  {
  }

  method FreeKnown(rings: ControlRings, p: nat, seg: Link, ghost k: nat)
    requires rings.Valid() && p < 4 && k < |rings.items[p]| && seg == rings.items[p][k]
    modifies rings, rings.heads, rings.place.Keys
    ensures rings.Valid() && rings.place.Keys == old(rings.place.Keys)
    ensures rings.items[p] == Removed(old(rings.items[p]), k) && Others(old(rings.items), rings.items, p)
  {
    assert rings.place[seg := FREED].Keys == rings.place.Keys;
    rings.Free(p, seg, k);
  }

  // ---------- acknowledgement ----------

  lemma UnaNext(segs: Entries, r: seq<Link>, una: u32)
    requires Known(segs, r) && r != [] && Diff(una, segs[r[0]].sn) > 0
    ensures Known(segs, Removed(r, 0))
    ensures SendBuffer.ParseUna(Listed(segs, Removed(r, 0)), una) == SendBuffer.ParseUna(Listed(segs, r), una)
  {
    assert Listed(segs, Removed(r, 0)) == Listed(segs, r)[1..];
  }

  /** One turn: the next link is saved, then the segment is freed or the walk stops. */
  method UnaTurn(rings: ControlRings, segs: Entries, una: u32, seg: Link) returns (next: Link, stop: bool)
    requires rings.Valid() && Known(segs, rings.items[SEND_BUFFER])
    requires rings.items[SEND_BUFFER] != [] && seg == rings.items[SEND_BUFFER][0]
    modifies rings, rings.heads, rings.place.Keys
    ensures rings.Valid() && rings.place.Keys == old(rings.place.Keys)
    ensures Others(old(rings.items), rings.items, SEND_BUFFER)
    ensures Known(segs, rings.items[SEND_BUFFER])
    ensures SendBuffer.ParseUna(Listed(segs, rings.items[SEND_BUFFER]), una) ==
            SendBuffer.ParseUna(Listed(segs, old(rings.items[SEND_BUFFER])), una)
    ensures stop ==> SendBuffer.ParseUna(Listed(segs, rings.items[SEND_BUFFER]), una) ==
                     Listed(segs, rings.items[SEND_BUFFER])
    ensures !stop ==> next == At(rings.heads[SEND_BUFFER], rings.items[SEND_BUFFER], 0)
    ensures !stop ==> |rings.items[SEND_BUFFER]| < old(|rings.items[SEND_BUFFER]|)
  {
    ghost var r := rings.items[SEND_BUFFER];
    next := Following(rings, SEND_BUFFER, seg, 0);
    stop := Diff(una, segs[seg].sn) <= 0;
    if !stop {
      UnaNext(segs, r, una);
      RemovedListed(segs, rings.heads[SEND_BUFFER], r, 0);
      FreeKnown(rings, SEND_BUFFER, seg, 0);
    }
  }

  /** Cumulative acknowledgement. */
  method ParseUna(rings: ControlRings, segs: Entries, una: u32)
    requires rings.Valid() && Known(segs, rings.items[SEND_BUFFER])
    modifies rings, rings.heads, rings.place.Keys
    ensures rings.Valid() && rings.place.Keys == old(rings.place.Keys)
    ensures Others(old(rings.items), rings.items, SEND_BUFFER)
    ensures Known(segs, rings.items[SEND_BUFFER])
    ensures Listed(segs, rings.items[SEND_BUFFER]) ==
            SendBuffer.ParseUna(Listed(segs, old(rings.items[SEND_BUFFER])), una)
  {
    ghost var before, all := rings.items, SendBuffer.ParseUna(Listed(segs, rings.items[SEND_BUFFER]), una);
    var q := First(rings, SEND_BUFFER);
    while q != rings.heads[SEND_BUFFER]
      invariant rings.Valid() && rings.place.Keys == old(rings.place.Keys)
      invariant Others(before, rings.items, SEND_BUFFER) && Known(segs, rings.items[SEND_BUFFER])
      invariant q == At(rings.heads[SEND_BUFFER], rings.items[SEND_BUFFER], 0)
      invariant SendBuffer.ParseUna(Listed(segs, rings.items[SEND_BUFFER]), una) == all
      decreases |rings.items[SEND_BUFFER]|
    {
      var stop;
      q, stop := UnaTurn(rings, segs, una, q);
      if stop { break; }
    }
  }

  /** The walk to a number: past smaller ones, to it or to the first larger one or the end. */
  method FindNumber(rings: ControlRings, segs: Entries, sn: u32) returns (q: Link, found: bool, ghost k: nat)
    requires rings.Valid() && Known(segs, rings.items[SEND_BUFFER])
    ensures k <= |rings.items[SEND_BUFFER]| && q == At(rings.heads[SEND_BUFFER], rings.items[SEND_BUFFER], k)
    ensures var buf := Listed(segs, rings.items[SEND_BUFFER]);
            && Passed(buf, k, sn)
            && (if found then k < |buf| && buf[k].sn == sn else k == |buf| || Diff(sn, buf[k].sn) < 0)
  {
    q := First(rings, SEND_BUFFER);
    found, k := false, 0;
    while q != rings.heads[SEND_BUFFER]
      invariant k <= |rings.items[SEND_BUFFER]|
      invariant q == At(rings.heads[SEND_BUFFER], rings.items[SEND_BUFFER], k)
      invariant Passed(Listed(segs, rings.items[SEND_BUFFER]), k, sn)
      decreases |rings.items[SEND_BUFFER]| - k
    {
      if segs[q].sn == sn {
        found := true;
        return;
      }
      if Diff(sn, segs[q].sn) < 0 {
        return;
      }
      q := Following(rings, SEND_BUFFER, q, k);
      k := k + 1;
    }
  }

  /** Selective acknowledgement. */
  method ParseAck(rings: ControlRings, segs: Entries, una: u32, nxt: u32, sn: u32)
    requires rings.Valid() && Known(segs, rings.items[SEND_BUFFER])
    modifies rings, rings.heads, rings.place.Keys
    ensures rings.Valid() && rings.place.Keys == old(rings.place.Keys)
    ensures Others(old(rings.items), rings.items, SEND_BUFFER)
    ensures Known(segs, rings.items[SEND_BUFFER])
    ensures Listed(segs, rings.items[SEND_BUFFER]) ==
            SendBuffer.ParseAck(una, nxt, Listed(segs, old(rings.items[SEND_BUFFER])), sn)
  {
    if Diff(sn, una) < 0 || Diff(sn, nxt) >= 0 {
      return;
    }
    ghost var buf := Listed(segs, rings.items[SEND_BUFFER]);
    var q, found;
    ghost var k;
    q, found, k := FindNumber(rings, segs, sn);
    if found {
      ScanFinds(buf, k, sn);
      RemovedListed(segs, rings.heads[SEND_BUFFER], rings.items[SEND_BUFFER], k);
      FreeKnown(rings, SEND_BUFFER, q, k);
    } else {
      ScanMisses(buf, k, sn);
    }
  }

  // ---------- delivery ----------

  /** The ring after `n` segments of `r`. */
  ghost function LeftOf(r: seq<Link>, n: nat, peek: bool): seq<Link>
    requires n <= |r|
  {
    if peek then r else r[n..]
  }

  /** The receive loop has walked over `n` segments of `r`, and stands at `q`. */
  ghost predicate Walked(rings: ControlRings, r: seq<Link>, n: nat, peek: bool, q: Link)
    reads rings
  {
    && |rings.items| == |rings.heads| == 4 && n <= |r|
    && rings.items[RECEIVE_QUEUE] == LeftOf(r, n, peek)
    && q == if n == |r| then rings.heads[RECEIVE_QUEUE] else r[n]
  }

  lemma WalkEnds(rings: ControlRings, r: seq<Link>, n: nat, peek: bool, q: Link)
    requires rings.Valid() && Walked(rings, r, n, peek, q)
    ensures q == rings.heads[RECEIVE_QUEUE] <==> n == |r|
  {
    if n < |r| { assert q == rings.items[RECEIVE_QUEUE][if peek then n else 0]; }
  }

  /** The next link is saved, then the segment is freed unless it is only peeked at. */
  method PassOver(rings: ControlRings, peek: bool, seg: Link, ghost r: seq<Link>, ghost n: nat)
      returns (next: Link)
    requires rings.Valid() && Walked(rings, r, n, peek, seg) && n < |r|
    modifies rings, rings.heads, rings.place.Keys
    ensures rings.Valid() && rings.place.Keys == old(rings.place.Keys)
    ensures Others(old(rings.items), rings.items, RECEIVE_QUEUE) && Walked(rings, r, n + 1, peek, next)
  {
    next := Following(rings, RECEIVE_QUEUE, seg, if peek then n else 0);
    if !peek {
      assert Removed(r[n..], 0) == r[n + 1..];
      FreeKnown(rings, RECEIVE_QUEUE, seg, 0);
    }
  }

  /** The bytes of one segment, if they fit. */
  method AddBytes(seg: Seg, total: u32, bytes: seq<byte>, room: u32, ghost queue: seq<Seg>, ghost n: nat)
      returns (total': u32, bytes': seq<byte>, stop: bool)
    requires n < |queue| && seg == queue[n]
    ensures if stop then
              (total', bytes') == (total, bytes) && TakeFrom(queue, n, total, bytes, room) == (total, bytes, n)
            else
              TakeFrom(queue, n + 1, total', bytes', room) == TakeFrom(queue, n, total, bytes, room)
  {
    total', bytes', stop := total, bytes, ToU32(total + |seg.data|) > room;
    if !stop {
      total', bytes' := ToU32(total + |seg.data|), bytes + seg.data;
    }
  }

  lemma ListedAt(segs: Entries, r: seq<Link>, n: nat, q: Link)
    requires Known(segs, r) && n < |r| && q == r[n]
    ensures q in segs && segs[q] == Listed(segs, r)[n]
  {
  }

  /** One turn: the segment's bytes are taken, or the loop stops. */
  method TakeTurn(
      rings: ControlRings, segs: Entries, room: u32, peek: bool, total: u32, bytes: seq<byte>, q: Link,
      ghost r: seq<Link>, ghost n: nat)
      returns (total': u32, bytes': seq<byte>, next: Link, stop: bool)
    requires rings.Valid() && Known(segs, r) && Walked(rings, r, n, peek, q) && n < |r|
    modifies rings, rings.heads, rings.place.Keys
    ensures rings.Valid() && rings.place.Keys == old(rings.place.Keys)
    ensures Others(old(rings.items), rings.items, RECEIVE_QUEUE)
    ensures if stop then
              && (total', bytes') == (total, bytes) && Walked(rings, r, n, peek, next)
              && TakeFrom(Listed(segs, r), n, total, bytes, room) == (total, bytes, n)
            else
              && Walked(rings, r, n + 1, peek, next)
              && TakeFrom(Listed(segs, r), n + 1, total', bytes', room) ==
                 TakeFrom(Listed(segs, r), n, total, bytes, room)
  {
    ListedAt(segs, r, n, q);
    total', bytes', stop := AddBytes(segs[q], total, bytes, room, Listed(segs, r), n);
    next := q;
    if !stop {
      next := PassOver(rings, peek, q, r, n);
    }
  }

  /** The bytes of the longest run of segments from the front whose sum stays within `room`. */
  method TakeSegments(rings: ControlRings, segs: Entries, room: u32, peek: bool)
      returns (total: u32, bytes: seq<byte>)
    requires rings.Valid() && Known(segs, rings.items[RECEIVE_QUEUE])
    modifies rings, rings.heads, rings.place.Keys
    ensures rings.Valid() && rings.place.Keys == old(rings.place.Keys)
    ensures Others(old(rings.items), rings.items, RECEIVE_QUEUE)
    ensures var queue := Listed(segs, old(rings.items[RECEIVE_QUEUE]));
            var n := Fit(queue, 0, room);
            && bytes == Bytes(queue[..n]) && total == ToU32(|bytes|)
            && rings.items[RECEIVE_QUEUE] == LeftOf(old(rings.items[RECEIVE_QUEUE]), n, peek)
  {
    ghost var before, r, n := rings.items, rings.items[RECEIVE_QUEUE], 0;
    ghost var queue := Listed(segs, r);
    LoopTakes(queue, room);
    total, bytes := 0, [];
    var q := First(rings, RECEIVE_QUEUE);
    assert r[0..] == r;
    WalkEnds(rings, r, n, peek, q);
    while q != rings.heads[RECEIVE_QUEUE]
      invariant rings.Valid() && rings.place.Keys == old(rings.place.Keys)
      invariant Others(before, rings.items, RECEIVE_QUEUE) && Walked(rings, r, n, peek, q)
      invariant q == rings.heads[RECEIVE_QUEUE] <==> n == |r|
      invariant TakeFrom(queue, n, total, bytes, room) == TakeFrom(queue, 0, 0, [], room)
      decreases |r| - n
    {
      var stop;
      total, bytes, q, stop := TakeTurn(rings, segs, room, peek, total, bytes, q, r, n);
      if stop {
        break;
      }
      n := n + 1;
      WalkEnds(rings, r, n, peek, q);
    }
  }

  // ---------- arrival ----------

  /** The walk from the tail. */
  method FindPlace(rings: ControlRings, segs: Entries, sn: u32) returns (p: Link, repeated: bool, ghost k: nat)
    requires rings.Valid() && Known(segs, rings.items[RECEIVE_BUFFER])
    ensures (k, repeated) == Find(Listed(segs, rings.items[RECEIVE_BUFFER]), sn)
    ensures p == Position(rings.heads[RECEIVE_BUFFER], rings.items[RECEIVE_BUFFER], k)
  {
    ghost var buf := Listed(segs, rings.items[RECEIVE_BUFFER]);
    p := Last(rings, RECEIVE_BUFFER);
    repeated, k := false, |buf|;
    while p != rings.heads[RECEIVE_BUFFER]
      invariant k <= |buf| && !repeated && Find(buf, sn) == FindFrom(buf, sn, k)
      invariant p == Position(rings.heads[RECEIVE_BUFFER], rings.items[RECEIVE_BUFFER], k)
      decreases k
    {
      if segs[p].sn == sn {
        repeated := true;
        return;
      }
      if Diff(sn, segs[p].sn) > 0 {
        return;
      }
      p := Previous(rings, RECEIVE_BUFFER, p, k);
      k := k - 1;
    }
  }

  method Last(rings: ControlRings, p: nat) returns (q: Link)
    requires rings.Valid() && p < 4
    ensures q == Position(rings.heads[p], rings.items[p], |rings.items[p]|)
  {
    q := rings.heads[p].prev;
  }

  method Previous(rings: ControlRings, p: nat, q: Link, ghost k: nat) returns (previous: Link)
    requires rings.Valid() && p < 4 && 0 < k <= |rings.items[p]| && q == rings.items[p][k - 1]
    ensures previous == Position(rings.heads[p], rings.items[p], k - 1)
  {
    previous := q.prev;
  }

  /** An acceptable arrival goes to its place, or is freed as a duplicate. */
  method StoreSegment(rings: ControlRings, segs: Entries, seg: Seg) returns (node: Link)
    requires rings.Valid() && Known(segs, rings.items[RECEIVE_BUFFER])
    modifies rings, rings.heads, rings.place.Keys
    ensures rings.Valid() && fresh(node) && Others(old(rings.items), rings.items, RECEIVE_BUFFER)
    ensures Known(segs[node := seg], rings.items[RECEIVE_BUFFER])
    ensures Listed(segs[node := seg], rings.items[RECEIVE_BUFFER]) ==
            Store(Listed(segs, old(rings.items[RECEIVE_BUFFER])), seg)
    ensures node in rings.place
  {
    ghost var r := rings.items[RECEIVE_BUFFER];
    var p, repeated;
    ghost var k;
    p, repeated, k := FindPlace(rings, segs, seg.sn);
    if repeated {
      node := rings.Discard();
      assert Listed(segs[node := seg], r) == Listed(segs, r);
    } else {
      node := rings.Insert(RECEIVE_BUFFER, p, k);
      InsertedListed(segs, r, k, node, seg);
    }
  }

  lemma InsertedListed(segs: Entries, r: seq<Link>, k: nat, node: Link, seg: Seg)
    requires Known(segs, r) && k <= |r| && node !in segs
    ensures Known(segs[node := seg], Inserted(r, k, node))
    ensures Listed(segs[node := seg], Inserted(r, k, node)) == Listed(segs, r)[..k] + [seg] + Listed(segs, r)[k..]
  {
  }

  /** What is next goes from the receive buffer to the queue while there is room. */
  method DrainBuffer(rings: ControlRings, segs: Entries, nxt: u32, wnd: u32) returns (nxt': u32)
    requires rings.Valid() && Known(segs, rings.items[RECEIVE_BUFFER]) && Known(segs, rings.items[RECEIVE_QUEUE])
    modifies rings, rings.heads, rings.place.Keys
    ensures rings.Valid() && rings.place.Keys == old(rings.place.Keys)
    ensures rings.items[SEND_BUFFER] == old(rings.items[SEND_BUFFER])
    ensures rings.items[SEND_QUEUE] == old(rings.items[SEND_QUEUE])
    ensures Known(segs, rings.items[RECEIVE_BUFFER]) && Known(segs, rings.items[RECEIVE_QUEUE])
    ensures Received(segs, rings.items, nxt', wnd) == Drain(Received(segs, old(rings.items), nxt, wnd))
  {
    nxt' := nxt;
    ghost var all := Drain(Received(segs, rings.items, nxt, wnd));
    while true
      invariant rings.Valid() && rings.place.Keys == old(rings.place.Keys)
      invariant rings.items[SEND_BUFFER] == old(rings.items[SEND_BUFFER])
      invariant rings.items[SEND_QUEUE] == old(rings.items[SEND_QUEUE])
      invariant Known(segs, rings.items[RECEIVE_BUFFER]) && Known(segs, rings.items[RECEIVE_QUEUE])
      invariant Drain(Received(segs, rings.items, nxt', wnd)) == all
      decreases |rings.items[RECEIVE_BUFFER]|
    {
      var q := First(rings, RECEIVE_BUFFER);
      Inside(rings, RECEIVE_BUFFER, 0);
      if q == rings.heads[RECEIVE_BUFFER] || segs[q].sn != nxt' || rings.counts[RECEIVE_QUEUE] >= wnd {
        break;
      }
      nxt' := MoveNext(rings, segs, nxt', wnd);
    }
  }

  ghost function Received(segs: Entries, items: seq<seq<Link>>, nxt: u32, wnd: u32): Rcv
    requires |items| == 4 && Known(segs, items[RECEIVE_BUFFER]) && Known(segs, items[RECEIVE_QUEUE])
  {
    Rcv(nxt, wnd, Listed(segs, items[RECEIVE_QUEUE]), Listed(segs, items[RECEIVE_BUFFER]))
  }

  method MoveNext(rings: ControlRings, segs: Entries, nxt: u32, wnd: u32) returns (nxt': u32)
    requires rings.Valid() && Known(segs, rings.items[RECEIVE_BUFFER]) && Known(segs, rings.items[RECEIVE_QUEUE])
    requires rings.items[RECEIVE_BUFFER] != []
    modifies rings, rings.heads, rings.place.Keys
    ensures rings.Valid() && rings.place.Keys == old(rings.place.Keys)
    ensures Known(segs, rings.items[RECEIVE_BUFFER]) && Known(segs, rings.items[RECEIVE_QUEUE])
    ensures rings.items[SEND_BUFFER] == old(rings.items[SEND_BUFFER])
    ensures rings.items[SEND_QUEUE] == old(rings.items[SEND_QUEUE])
    ensures Received(segs, rings.items, nxt', wnd) == Step(Received(segs, old(rings.items), nxt, wnd))
    ensures |rings.items[RECEIVE_BUFFER]| < old(|rings.items[RECEIVE_BUFFER]|)
  {
    ghost var before := rings.items;
    MovedListed(segs, before);
    assert rings.place[before[RECEIVE_BUFFER][0] := RECEIVE_QUEUE].Keys == rings.place.Keys;
    rings.Move(RECEIVE_BUFFER, RECEIVE_QUEUE);
    nxt' := Next(nxt);
  }

  lemma MovedListed(segs: Entries, items: seq<seq<Link>>)
    requires |items| == 4 && Known(segs, items[RECEIVE_BUFFER]) && Known(segs, items[RECEIVE_QUEUE])
    requires items[RECEIVE_BUFFER] != []
    ensures var after := Rings.Moved(items, RECEIVE_BUFFER, RECEIVE_QUEUE);
            && Known(segs, after[RECEIVE_BUFFER]) && Known(segs, after[RECEIVE_QUEUE])
            && Listed(segs, after[RECEIVE_BUFFER]) == Listed(segs, items[RECEIVE_BUFFER])[1..]
            && Listed(segs, after[RECEIVE_QUEUE]) ==
               Listed(segs, items[RECEIVE_QUEUE]) + [segs[items[RECEIVE_BUFFER][0]]]
            && |after[RECEIVE_BUFFER]| < |items[RECEIVE_BUFFER]|
  {
    MovedAt(items, RECEIVE_BUFFER, RECEIVE_QUEUE);
  }
}
