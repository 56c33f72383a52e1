/**
 Queueing data for sending: extension of the tail in stream mode, and fragmentation.
 */
module SendQueue {
  import opened Serial
  import opened Segment

  const FRAGMENT_LIMIT: nat := 255
  const OK: int := 0
  const NEGATIVE_LENGTH: int := -1
  const TOO_MANY_FRAGMENTS: int := -2

  function NewFragment(frg: u32, data: seq<byte>): Seg {
    Seg(0, PUSH, frg, 0, 0, 0, 0, 0, 0, 0, 0, data)
  }

  /** How many bytes stream mode adds to the tail of the queue. */
  function TailRoom(queue: seq<Seg>, stream: bool, mss: u32, len: nat): (n: nat)
    ensures n <= len
  {
    if stream && queue != [] && |queue[|queue| - 1].data| < mss then
      var room := mss - |queue[|queue| - 1].data|;
      if len < room then len else room
    else 0
  }

  /** The replacement of the tail by a longer copy; only command and payload are carried over. */
  function ExtendTail(queue: seq<Seg>, stream: bool, mss: u32, bytes: seq<byte>): seq<Seg> {
    if stream && queue != [] && |queue[|queue| - 1].data| < mss then
      var tail := queue[|queue| - 1];
      var n := TailRoom(queue, stream, mss, |bytes|);
      queue[..|queue| - 1] + [NewFragment(0, tail.data + bytes[..n]).(cmd := tail.cmd)]
    else queue
  }

  function FragmentCount(len: nat, mss: nat): (n: nat)
    requires mss > 0
    ensures n >= 1
  {
    if len <= mss then 1 else (len + mss - 1) / mss
  }

  /** Cuts `bytes` into `count` fragments of at most `mss` bytes. */
  function Cut(bytes: seq<byte>, mss: nat, count: nat, stream: bool): (r: seq<Seg>)
    requires count <= FRAGMENT_LIMIT
    ensures |r| == count
    decreases count
  {
    if count == 0 then []
    else
      var size := if |bytes| > mss then mss else |bytes|;
      [NewFragment(if stream then 0 else count - 1, bytes[..size])] +
      Cut(bytes[size..], mss, count - 1, stream)
  }

  /** The queue after sending `bytes`, and the code returned. */
  function Send(queue: seq<Seg>, stream: bool, mss: u32, bytes: seq<byte>): (seq<Seg>, int)
    requires mss > 0
  {
    var extended := ExtendTail(queue, stream, mss, bytes);
    var rest := bytes[TailRoom(queue, stream, mss, |bytes|)..];
    if stream && rest == [] then (extended, OK)
    else
      var count := FragmentCount(|rest|, mss);
      if count > FRAGMENT_LIMIT then (extended, TOO_MANY_FRAGMENTS)
      else (extended + Cut(rest, mss, count, stream), OK)
  }

  /** The part of `bytes` that a send takes into the queue. */
  function Taken(queue: seq<Seg>, stream: bool, mss: u32, bytes: seq<byte>): seq<byte>
    requires mss > 0
  {
    if Send(queue, stream, mss, bytes).1 == OK then bytes
    else bytes[..TailRoom(queue, stream, mss, |bytes|)]
  }

  // ---------- fragmentation ----------

  lemma CeilingBounds(len: nat, mss: nat)
    requires 0 < mss < len
    ensures var n := FragmentCount(len, mss); (n - 1) * mss < len <= n * mss
  {
    var n := (len + mss - 1) / mss;
    assert len + mss - 1 == n * mss + (len + mss - 1) % mss;
    assert (n - 1) * mss == n * mss - mss;
  }

  /** Enough fragments for the bytes, and no idle ones. */
  ghost predicate RightCount(len: nat, mss: nat, count: nat) {
    mss > 0 && count >= 1 && (count - 1) * mss <= len <= count * mss && (count > 1 ==> (count - 1) * mss < len)
  }

  lemma FragmentCountIsRight(len: nat, mss: nat)
    requires mss > 0
    ensures RightCount(len, mss, FragmentCount(len, mss))
  {
    if len > mss {
      CeilingBounds(len, mss);
    }
  }

  lemma RightCountStep(len: nat, mss: nat, count: nat)
    requires RightCount(len, mss, count) && count > 1
    ensures len > mss && RightCount(len - mss, mss, count - 1)
  {
    assert (count - 1) * mss == (count - 2) * mss + mss;
    assert (count - 2) * mss >= 0 && count * mss == (count - 1) * mss + mss;
  }

  /** The same, one fragment at a time. */
  ghost predicate Covers(len: nat, mss: nat, count: nat) {
    if count <= 1 then count == 1 && len <= mss else len > mss && Covers(len - mss, mss, count - 1)
  }

  lemma {:induction false} RightCountCovers(len: nat, mss: nat, count: nat)
    requires RightCount(len, mss, count)
    ensures Covers(len, mss, count)
    decreases count
  {
    if count == 1 {
      assert 1 * mss == mss;
    } else {
      RightCountStep(len, mss, count);
      RightCountCovers(len - mss, mss, count - 1);
    }
  }

  lemma {:induction false} CutPayload(bytes: seq<byte>, mss: nat, count: nat, stream: bool, fs: seq<Seg>)
    requires Covers(|bytes|, mss, count) && count <= FRAGMENT_LIMIT
    requires fs == Cut(bytes, mss, count, stream)
    ensures Payload(Views(fs)) == bytes
    decreases count
  {
    var size := if |bytes| > mss then mss else |bytes|;
    var rest := Cut(bytes[size..], mss, count - 1, stream);
    if count > 1 { CutPayload(bytes[size..], mss, count - 1, stream, rest); }
    Rejoined(bytes, size, fs[0], rest);
  }

  lemma Rejoined(bytes: seq<byte>, size: nat, first: Seg, rest: seq<Seg>)
    requires size <= |bytes| && first.data == bytes[..size] && Payload(Views(rest)) == bytes[size..]
    ensures Payload(Views([first] + rest)) == bytes
  {
    PayloadFront(first, rest);
    assert bytes == bytes[..size] + bytes[size..];
  }

  lemma PayloadFront(s: Seg, rest: seq<Seg>)
    ensures Payload(Views([s] + rest)) == s.data + Payload(Views(rest))
  {
    assert Views([s] + rest)[1..] == Views(rest);
  }

  lemma CutAt(bytes: seq<byte>, mss: nat, count: nat, stream: bool, i: nat)
    requires i < count <= FRAGMENT_LIMIT
    ensures var size := if |bytes| > mss then mss else |bytes|;
            Cut(bytes, mss, count, stream)[i] ==
            if i == 0 then NewFragment(if stream then 0 else count - 1, bytes[..size])
            else Cut(bytes[size..], mss, count - 1, stream)[i - 1]
  {
  }

  lemma {:induction false} CutShape(bytes: seq<byte>, mss: nat, count: nat, stream: bool, i: nat, f: Seg)
    requires Covers(|bytes|, mss, count) && i < count <= FRAGMENT_LIMIT && f == Cut(bytes, mss, count, stream)[i]
    ensures f.cmd == PUSH && |f.data| <= mss && (i < count - 1 ==> |f.data| == mss)
    ensures f.frg == if stream then 0 else count - 1 - i
    decreases count
  {
    CutAt(bytes, mss, count, stream, i);
    if i > 0 {
      CutShape(bytes[mss..], mss, count - 1, stream, i - 1, f);
    }
  }

  /**
   The fragments, in order, carry exactly the bytes; all but the last are full; without stream
   mode their counters run down to 0, with it they are all 0.
   */
  lemma CutIsFragmentation(bytes: seq<byte>, mss: nat, count: nat, stream: bool)
    requires RightCount(|bytes|, mss, count) && count <= FRAGMENT_LIMIT
    ensures var fs := Cut(bytes, mss, count, stream);
            && Payload(Views(fs)) == bytes
            && (forall i :: 0 <= i < count ==> fs[i].cmd == PUSH && |fs[i].data| <= mss)
            && (forall i :: 0 <= i < count - 1 ==> |fs[i].data| == mss)
            && (forall i :: 0 <= i < count ==> fs[i].frg == if stream then 0 else count - 1 - i)
  {
    RightCountCovers(|bytes|, mss, count);
    CutPayload(bytes, mss, count, stream, Cut(bytes, mss, count, stream));
    forall i | 0 <= i < count
      ensures var f := Cut(bytes, mss, count, stream)[i];
              && f.cmd == PUSH && |f.data| <= mss && (i < count - 1 ==> |f.data| == mss)
              && f.frg == if stream then 0 else count - 1 - i
    {
      CutShape(bytes, mss, count, stream, i, Cut(bytes, mss, count, stream)[i]);
    }
  }

  // ---------- what a queue of unsent segments keeps ----------

  /** Every queued segment is a PUSH that fits one datagram. */
  ghost predicate Sized(queue: seq<Seg>, mss: nat) {
    forall i :: 0 <= i < |queue| ==> queue[i].cmd == PUSH && |queue[i].data| <= mss
  }

  /** Counters run down by one within a message; nothing is said past the end of the list. */
  ghost predicate Chained(fs: seq<Fragment>) {
    && (forall i :: 0 <= i < |fs| ==> fs[i].frg < FRAGMENT_LIMIT)
    && (forall i :: 0 <= i < |fs| - 1 && fs[i].frg > 0 ==> fs[i + 1].frg == fs[i].frg - 1)
  }

  /** Whole messages only: the list ends where a message ends. */
  ghost predicate Complete(fs: seq<Fragment>) {
    Chained(fs) && (fs != [] ==> fs[|fs| - 1].frg == 0)
  }

  lemma CompleteConcat(a: seq<Fragment>, b: seq<Fragment>)
    requires Complete(a) && Complete(b)
    ensures Complete(a + b)
  {
    var c, n := a + b, |a|;
    forall i | 0 <= i < |c|
      ensures c[i].frg < FRAGMENT_LIMIT
      ensures i < |c| - 1 && c[i].frg > 0 ==> c[i + 1].frg == c[i].frg - 1
    {
      if i < n {
        assert c[i] == a[i];
        if i + 1 < n { assert c[i + 1] == a[i + 1]; }
      } else {
        assert c[i] == b[i - n];
        if i + 1 < |c| { assert c[i + 1] == b[i - n + 1]; }
      }
    }
    if b != [] { assert c[|c| - 1] == b[|b| - 1]; } else { assert c == a; }
  }

  /**
   The result of a send, for every queue and input. It takes all the bytes and returns 0, or it
   returns -2 because the bytes beyond the tail's room need more than 255 fragments; then it has
   still taken what fitted into the tail, which is nothing outside stream mode.
   */
  lemma SendTakes(queue: seq<Seg>, stream: bool, mss: u32, bytes: seq<byte>)
    requires mss > 0 && Sized(queue, mss)
    ensures var (queue', code) := Send(queue, stream, mss, bytes);
            && Payload(Views(queue')) == Payload(Views(queue)) + Taken(queue, stream, mss, bytes)
            && Sized(queue', mss)
            && (code == OK || code == TOO_MANY_FRAGMENTS)
            && (code == TOO_MANY_FRAGMENTS <==>
                  |bytes| - TailRoom(queue, stream, mss, |bytes|) > FRAGMENT_LIMIT * mss)
            && (code == TOO_MANY_FRAGMENTS && !stream ==> queue' == queue)
  {
    SendRefuses(queue, stream, mss, bytes);
    SendPayload(queue, stream, mss, bytes);
  }

  lemma SendRefuses(queue: seq<Seg>, stream: bool, mss: u32, bytes: seq<byte>)
    requires mss > 0
    ensures var (queue', code) := Send(queue, stream, mss, bytes);
            && (code == OK || code == TOO_MANY_FRAGMENTS)
            && (code == TOO_MANY_FRAGMENTS <==>
                  |bytes| - TailRoom(queue, stream, mss, |bytes|) > FRAGMENT_LIMIT * mss)
            && (code == TOO_MANY_FRAGMENTS && !stream ==> queue' == queue)
  {
    var rest := bytes[TailRoom(queue, stream, mss, |bytes|)..];
    FragmentCountIsRight(|rest|, mss);
    OverLimit(|rest|, mss, FragmentCount(|rest|, mss));
  }

  lemma SendPayload(queue: seq<Seg>, stream: bool, mss: u32, bytes: seq<byte>)
    requires mss > 0 && Sized(queue, mss)
    ensures var queue' := Send(queue, stream, mss, bytes).0;
            && Payload(Views(queue')) == Payload(Views(queue)) + Taken(queue, stream, mss, bytes)
            && Sized(queue', mss)
  {
    var room := TailRoom(queue, stream, mss, |bytes|);
    var rest := bytes[room..];
    var count := FragmentCount(|rest|, mss);
    var extended := ExtendTail(queue, stream, mss, bytes);
    ExtendTailTakes(queue, stream, mss, bytes);
    FragmentCountIsRight(|rest|, mss);
    if stream && rest == [] {
      assert room == |bytes| && bytes[..room] == bytes;
    } else if count <= FRAGMENT_LIMIT {
      AppendTakes(extended, rest, mss, count, stream);
      assert bytes == bytes[..room] + rest;
      Associative(Payload(Views(queue)), bytes[..room], rest);
    }
  }

  lemma AppendTakes(queue: seq<Seg>, bytes: seq<byte>, mss: nat, count: nat, stream: bool)
    requires RightCount(|bytes|, mss, count) && count <= FRAGMENT_LIMIT && Sized(queue, mss)
    ensures var queue' := queue + Cut(bytes, mss, count, stream);
            Payload(Views(queue')) == Payload(Views(queue)) + bytes && Sized(queue', mss)
  {
    var cut := Cut(bytes, mss, count, stream);
    CutIsFragmentation(bytes, mss, count, stream);
    PayloadConcat(Views(queue), Views(cut));
    ViewsConcat(queue, cut);
  }

  lemma OverLimit(len: nat, mss: nat, count: nat)
    requires RightCount(len, mss, count)
    ensures count > FRAGMENT_LIMIT <==> len > FRAGMENT_LIMIT * mss
  {
    if count > FRAGMENT_LIMIT {
      var extra := count - 1 - FRAGMENT_LIMIT;
      assert (count - 1) * mss == FRAGMENT_LIMIT * mss + extra * mss;
      assert extra * mss >= 0;
    } else {
      var spare := FRAGMENT_LIMIT - count;
      assert FRAGMENT_LIMIT * mss == count * mss + spare * mss;
      assert spare * mss >= 0;
    }
  }

  lemma ExtendTailTakes(queue: seq<Seg>, stream: bool, mss: u32, bytes: seq<byte>)
    requires Sized(queue, mss)
    ensures var extended := ExtendTail(queue, stream, mss, bytes);
            && |extended| == |queue|
            && Sized(extended, mss)
            && Payload(Views(extended)) ==
               Payload(Views(queue)) + bytes[..TailRoom(queue, stream, mss, |bytes|)]
  {
    var extended := ExtendTail(queue, stream, mss, bytes);
    var taken := bytes[..TailRoom(queue, stream, mss, |bytes|)];
    if stream && queue != [] && |queue[|queue| - 1].data| < mss {
      var n := |queue| - 1;
      var front, tail, tail' := Views(queue)[..n], Views(queue)[n], Views(extended)[n];
      assert Views(queue) == front + [tail] && Views(extended) == front + [tail'];
      PayloadConcat(front, [tail]);
      PayloadConcat(front, [tail']);
      assert Payload([tail]) == tail.data + Payload([]) == tail.data;
      assert Payload([tail']) == tail'.data + Payload([]) == tail'.data;
    }
  }

  lemma CutCompletes(bytes: seq<byte>, mss: nat, count: nat, stream: bool)
    requires RightCount(|bytes|, mss, count) && count <= FRAGMENT_LIMIT
    ensures Complete(Views(Cut(bytes, mss, count, stream)))
  {
    CutIsFragmentation(bytes, mss, count, stream);
  }

  lemma AppendCompletes(
      history: seq<Fragment>, queue: seq<Seg>, bytes: seq<byte>, mss: nat, count: nat, stream: bool)
    requires RightCount(|bytes|, mss, count) && count <= FRAGMENT_LIMIT
    requires Complete(history + Views(queue))
    ensures Complete(history + Views(queue + Cut(bytes, mss, count, stream)))
  {
    var cut := Cut(bytes, mss, count, stream);
    CutCompletes(bytes, mss, count, stream);
    CompleteConcat(history + Views(queue), Views(cut));
    ViewsConcat(queue, cut);
    Associative(history, Views(queue), Views(cut));
  }

  lemma SameCountersComplete(a: seq<Fragment>, b: seq<Fragment>)
    requires Complete(a) && |a| == |b| && forall i :: 0 <= i < |a| ==> a[i].frg == b[i].frg
    ensures Complete(b)
  {
  }

  /** A send leaves whole messages queued behind whole messages, whichever mode it was in. */
  lemma SendCompletes(history: seq<Fragment>, queue: seq<Seg>, stream: bool, mss: u32, bytes: seq<byte>)
    requires mss > 0 && Complete(history + Views(queue))
    ensures Complete(history + Views(Send(queue, stream, mss, bytes).0))
  {
    var extended := ExtendTail(queue, stream, mss, bytes);
    var all, all' := history + Views(queue), history + Views(extended);
    SameCountersComplete(all, all');
    var rest := bytes[TailRoom(queue, stream, mss, |bytes|)..];
    var count := FragmentCount(|rest|, mss);
    if !(stream && rest == []) && count <= FRAGMENT_LIMIT {
      FragmentCountIsRight(|rest|, mss);
      AppendCompletes(history, extended, rest, mss, count, stream);
    }
  }

  /**
   One non-stream message, for every queue: it is refused, with nothing queued, exactly if it needs more
   than 255 fragments; else so many fragments, of these sizes, with these counters, are behind the queue.
   */
  lemma MessageFragments(queue: seq<Seg>, mss: u32, bytes: seq<byte>)
    requires mss > 0
    ensures var (queue', code) := Send(queue, false, mss, bytes);
            if |bytes| > 255 * mss then
              code == -2 && queue' == queue
            else
              var fs := queue'[|queue|..];
              && code == 0 && queue <= queue'
              && (if bytes == [] then |fs| == 1 else (|fs| - 1) * mss < |bytes| <= |fs| * mss)
              && Payload(Views(fs)) == bytes
              && (forall i :: 0 <= i < |fs| ==> fs[i].frg == |fs| - 1 - i && fs[i].cmd == PUSH)
              && (forall i :: 0 <= i < |fs| - 1 ==> |fs[i].data| == mss)
  {
    assert bytes[0..] == bytes;
    var count := FragmentCount(|bytes|, mss);
    SendRefuses(queue, false, mss, bytes);
    if count <= FRAGMENT_LIMIT {
      FragmentCountIsRight(|bytes|, mss);
      CutIsFragmentation(bytes, mss, count, false);
      var queue' := Send(queue, false, mss, bytes).0;
      assert queue'[|queue|..] == Cut(bytes, mss, count, false);
    }
  }

  // ---------- stream mode, in the application's terms ----------

  /** The bytes that fit behind what the tail holds; none without a tail. */
  function Behind(queue: seq<Seg>, mss: u32): int {
    if queue == [] then 0 else mss - |queue[|queue| - 1].data|
  }

  function Least(a: int, b: int): int {
    if a <= b then a else b
  }

  /** The tail is filled up first: it keeps its bytes and takes what fits, or all there is. */
  ghost predicate TailFilled(queue: seq<Seg>, queue': seq<Seg>, mss: u32, len: nat) {
    && |queue| <= |queue'|
    && (forall i :: 0 <= i < |queue| - 1 ==> queue'[i] == queue[i])
    && (queue != [] ==>
          var was, tail := queue[|queue| - 1], queue'[|queue| - 1];
          && |tail.data| == Least(mss, |was.data| + len) && was.data <= tail.data && tail.cmd == was.cmd
          && tail.frg == if |was.data| < mss then 0 else was.frg)
  }

  /** New segments hold the rest: as many as it needs, all but the last full, each a message of its own. */
  ghost predicate RestQueued(queue: seq<Seg>, queue': seq<Seg>, mss: u32, rest: int) {
    && |queue| <= |queue'|
    && (if rest <= 0 then |queue'| == |queue|
        else (|queue'| - |queue| - 1) * mss < rest <= (|queue'| - |queue|) * mss)
    && (forall i :: |queue| <= i < |queue'| ==> queue'[i].frg == 0 && queue'[i].cmd == PUSH)
    && (forall i :: |queue| <= i < |queue'| - 1 ==> |queue'[i].data| == mss)
  }

  lemma ExtendFills(queue: seq<Seg>, mss: u32, bytes: seq<byte>)
    requires mss > 0 && Sized(queue, mss)
    ensures TailFilled(queue, ExtendTail(queue, true, mss, bytes), mss, |bytes|)
    ensures |ExtendTail(queue, true, mss, bytes)| == |queue|
    ensures TailRoom(queue, true, mss, |bytes|) == Least(Behind(queue, mss), |bytes|)
  {
  }

  lemma CutQueues(queue: seq<Seg>, rest: seq<byte>, mss: u32)
    requires mss > 0 && rest != [] && FragmentCount(|rest|, mss) <= FRAGMENT_LIMIT
    ensures RestQueued(queue, queue + Cut(rest, mss, FragmentCount(|rest|, mss), true), mss, |rest|)
  {
    var count := FragmentCount(|rest|, mss);
    FragmentCountIsRight(|rest|, mss);
    CutIsFragmentation(rest, mss, count, true);
    var cut := Cut(rest, mss, count, true);
    assert forall i :: |queue| <= i < |queue + cut| ==> (queue + cut)[i] == cut[i - |queue|];
  }

  /**
   Stream mode merges: a send fills the tail of the queue before it makes new segments, and makes no more
   than the rest needs. It returns -2 exactly if the rest needs more than 255, and has then taken what the
   tail took; otherwise it takes all the bytes.
   */
  lemma StreamMerges(queue: seq<Seg>, mss: u32, bytes: seq<byte>)
    requires mss > 0 && Sized(queue, mss)
    ensures var (queue', code) := Send(queue, true, mss, bytes);
            var rest := |bytes| - Behind(queue, mss);
            && code == (if rest > 255 * mss then -2 else 0)
            && TailFilled(queue, queue', mss, |bytes|)
            && RestQueued(queue, queue', mss, if code == 0 then rest else 0)
            && Payload(Views(queue')) ==
               Payload(Views(queue)) + if code == 0 then bytes else bytes[..Behind(queue, mss)]
  {
    var (queue', code) := Send(queue, true, mss, bytes);
    ExtendFills(queue, mss, bytes);
    SendTakes(queue, true, mss, bytes);
    BehindLimit(mss);
    var rest := bytes[TailRoom(queue, true, mss, |bytes|)..];
    if rest != [] && FragmentCount(|rest|, mss) <= FRAGMENT_LIMIT {
      var extended := ExtendTail(queue, true, mss, bytes);
      CutQueues(extended, rest, mss);
      FilledBehind(queue, extended, queue', mss, |bytes|);
    }
  }

  lemma BehindLimit(mss: u32)
    ensures FRAGMENT_LIMIT * mss >= 0
  {
  }

  lemma FilledBehind(queue: seq<Seg>, extended: seq<Seg>, queue': seq<Seg>, mss: u32, len: nat)
    requires TailFilled(queue, extended, mss, len) && extended <= queue'
    ensures TailFilled(queue, queue', mss, len)
  {
    forall i | 0 <= i < |queue| - 1 ensures queue'[i] == queue[i] {
      assert queue'[i] == extended[i];
    }
  }
}
