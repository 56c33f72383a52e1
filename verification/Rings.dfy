/**
 Intrusive circular doubly linked rings, and the four rings of a control block.

 A ring is a head link and the sequence of member links behind it. Each operation changes the
 links in place and is proved to insert into or delete from that sequence.
 */
module Rings {

  class Link {
    var next: Link?
    var prev: Link?

    constructor ()
      ensures next == null && prev == null
    {
      next, prev := null, null;
    }

    /** The head of an empty ring. */
    constructor Empty()
      ensures Ring(this, [])
    {
      next, prev := this, this;
    }
  }

  ghost predicate Distinct(r: seq<Link>) {
    forall i, j :: 0 <= i < j < |r| ==> r[i] != r[j]
  }

  ghost predicate Apart(r: seq<Link>, q: seq<Link>) {
    forall i, j :: 0 <= i < |r| && 0 <= j < |q| ==> r[i] != q[j]
  }

  /** `head` and the members `r` form one well-linked ring, in that order. */
  ghost predicate Ring(head: Link, r: seq<Link>)
    reads head, r
  {
    && head !in r
    && Distinct(r)
    && head.next == (if r == [] then head else r[0])
    && head.prev == (if r == [] then head else r[|r| - 1])
    && (r != [] ==> r[0].prev == head && r[|r| - 1].next == head)
    && (forall i {:trigger r[i].next} :: 0 <= i < |r| - 1 ==> r[i].next == r[i + 1])
    && (forall i {:trigger r[i].prev} :: 1 <= i < |r| ==> r[i].prev == r[i - 1])
  }

  /** The link an insertion after position `k` hangs on: the head for 0, else the k-th member. */
  ghost function Position(head: Link, r: seq<Link>, k: nat): Link
    requires k <= |r|
  {
    if k == 0 then head else r[k - 1]
  }

  ghost function Inserted(r: seq<Link>, k: nat, node: Link): seq<Link>
    requires k <= |r|
  {
    r[..k] + [node] + r[k..]
  }

  ghost function Removed(r: seq<Link>, k: nat): seq<Link>
    requires k < |r|
  {
    r[..k] + r[k + 1..]
  }

  method Init(p: Link)
    modifies p
    ensures Ring(p, [])
  {
    p.next, p.prev := p, p;
  }

  method IsEmpty(head: Link, ghost r: seq<Link>) returns (empty: bool)
    requires Ring(head, r)
    ensures empty <==> r == []
  {
    empty := head == head.next;
  }

  /** Inserts `node` after `p`, the position `k` of the ring. */
  method Add(node: Link, p: Link, ghost head: Link, ghost r: seq<Link>, ghost k: nat)
    requires Ring(head, r) && k <= |r| && p == Position(head, r, k)
    requires node != head && node !in r
    modifies node, p, p.next
    ensures Ring(head, Inserted(r, k, node))
  {
    node.prev := p;
    node.next := p.next;
    p.next.prev := node;
    p.next := node;
  }

  /** Inserts `node` before the head, that is, last. */
  method AddTail(node: Link, head: Link, ghost r: seq<Link>)
    requires Ring(head, r)
    requires node != head && node !in r
    modifies node, head, head.prev
    ensures Ring(head, r + [node])
  {
    node.prev := head.prev;
    node.next := head;
    head.prev.next := node;
    head.prev := node;
  }

  /** Unlinks the `k`-th member and clears its links. */
  method Del(entry: Link, ghost head: Link, ghost r: seq<Link>, ghost k: nat)
    requires Ring(head, r) && k < |r| && entry == r[k]
    modifies entry, entry.next, entry.prev
    ensures Ring(head, Removed(r, k))
    ensures entry.next == null && entry.prev == null
  {
    assert entry.next == if k == |r| - 1 then head else r[k + 1];
    assert entry.prev == if k == 0 then head else r[k - 1];
    entry.next.prev := entry.prev;
    entry.prev.next := entry.next;
    entry.next := null;
    entry.prev := null;
  }

  /** Unlinks the `k`-th member and leaves it as an empty ring of its own. */
  method DelInit(entry: Link, ghost head: Link, ghost r: seq<Link>, ghost k: nat)
    requires Ring(head, r) && k < |r| && entry == r[k]
    modifies entry, entry.next, entry.prev
    ensures Ring(head, Removed(r, k))
    ensures Ring(entry, [])
  {
    Del(entry, head, r, k);
    Init(entry);
  }

  /** `Del` and `Add` with the whole ring as their frame. */
  method RemoveAt(entry: Link, head: Link, ghost r: seq<Link>, ghost k: nat)
    requires Ring(head, r) && k < |r| && entry == r[k]
    modifies head, r
    ensures Ring(head, Removed(r, k))
  {
    Del(entry, head, r, k);
  }

  method InsertAt(node: Link, p: Link, head: Link, ghost r: seq<Link>, ghost k: nat)
    requires Ring(head, r) && k <= |r| && p == Position(head, r, k)
    requires node != head && node !in r
    modifies node, head, r
    ensures Ring(head, Inserted(r, k, node))
  {
    Add(node, p, head, r, k);
  }

  /** Unlinks the first member. */
  method TakeFirst(head: Link, ghost r: seq<Link>) returns (seg: Link)
    requires Ring(head, r) && r != []
    modifies head, r
    ensures seg == r[0] && Ring(head, r[1..])
  {
    seg := head.next;
    Del(seg, head, r, 0);
    assert Removed(r, 0) == r[1..];
  }

  /** The first member of one ring becomes the last member of another. */
  method MoveFirst(from: Link, ghost r: seq<Link>, to: Link, ghost q: seq<Link>)
    requires Ring(from, r) && r != [] && Ring(to, q)
    requires from != to && from !in q && to !in r && Apart(r, q)
    modifies from, r, to, q
    ensures Ring(from, r[1..]) && Ring(to, q + [r[0]])
  {
    var seg := TakeFirst(from, r);
    AddTail(seg, to, q);
  }

  // ---------- four rings ----------

  /** The rings of a control block, and the place of a segment that is on none of them. */
  const SEND_QUEUE: nat := 0
  const RECEIVE_QUEUE: nat := 1
  const SEND_BUFFER: nat := 2
  const RECEIVE_BUFFER: nat := 3
  const FREED: nat := 4

  ghost predicate Separate(heads: seq<Link>, items: seq<seq<Link>>) {
    && |heads| == |items| == 4
    && (forall a, b :: 0 <= a < b < 4 ==> heads[a] != heads[b] && Apart(items[a], items[b]))
    && (forall a, b :: 0 <= a < 4 && 0 <= b < 4 ==> heads[a] !in items[b])
  }

  /** Every segment ever allocated is on the one ring that `place` says, or is freed. */
  ghost predicate Accounted(items: seq<seq<Link>>, place: map<Link, nat>) {
    && |items| == 4
    && (forall a :: 0 <= a < 4 ==> Distinct(items[a]))
    && (forall a, i :: 0 <= a < 4 && 0 <= i < |items[a]| ==>
          items[a][i] in place && place[items[a][i]] == a)
    && (forall x :: x in place ==> place[x] <= FREED && (place[x] < FREED ==> x in items[place[x]]))
  }

  ghost function Moved(items: seq<seq<Link>>, p: nat, q: nat): seq<seq<Link>>
    requires |items| == 4 && p < 4 && q < 4 && p != q && items[p] != []
  {
    items[p := items[p][1..]][q := items[q] + [items[p][0]]]
  }

  /** Only ring `p` differs. */
  ghost predicate Others(before: seq<seq<Link>>, after: seq<seq<Link>>, p: nat) {
    p < |before| == |after| && forall a :: 0 <= a < |before| && a != p ==> after[a] == before[a]
  }

  lemma Emptied(before: seq<seq<Link>>, after: seq<seq<Link>>, p: nat)
    requires Others(before, after, p) && after[p] == []
    ensures after == before[p := []]
  {
  }

  lemma AllFreed(items: seq<seq<Link>>, place: map<Link, nat>)
    requires Accounted(items, place) && forall a :: 0 <= a < 4 ==> items[a] == []
    ensures items == [[], [], [], []]
    ensures forall x :: x in place ==> place[x] == FREED
  {
  }

  lemma ReplacedLast(r: seq<Link>, x: Link)
    requires r != []
    ensures Removed(Inserted(r, |r|, x), |r| - 1) == r[..|r| - 1] + [x]
  {
  }

  lemma AccountedMove(items: seq<seq<Link>>, place: map<Link, nat>, p: nat, q: nat)
    requires Accounted(items, place) && p < 4 && q < 4 && p != q && items[p] != []
    ensures Accounted(Moved(items, p, q), place[items[p][0] := q])
  {
    var after, x := Moved(items, p, q), items[p][0];
    assert after[p] == items[p][1..] && after[q] == items[q] + [x];
    assert items[p] == [x] + after[p];
    assert forall i :: 0 <= i < |items[q]| ==> items[q][i] != x;
  }

  lemma AccountedFree(items: seq<seq<Link>>, place: map<Link, nat>, p: nat, k: nat)
    requires Accounted(items, place) && p < 4 && k < |items[p]|
    ensures Accounted(items[p := Removed(items[p], k)], place[items[p][k] := FREED])
  {
    RemovedMembers(items[p], k);
  }

  lemma RemovedMembers(q: seq<Link>, k: nat)
    requires k < |q| && Distinct(q)
    ensures var r := Removed(q, k);
            && Distinct(r)
            && (forall i :: 0 <= i < |r| ==> r[i] in q && r[i] != q[k])
            && (forall y :: y in q && y != q[k] ==> y in r)
  {
    var r := Removed(q, k);
    assert q == q[..k] + [q[k]] + q[k + 1..];
    assert forall i :: 0 <= i < |r| ==> r[i] == q[if i < k then i else i + 1];
  }

  lemma InsertedDistinct(r: seq<Link>, k: nat, x: Link)
    requires Distinct(r) && k <= |r| && x !in r
    ensures Distinct(Inserted(r, k, x))
  {
  }

  lemma AccountedInsert(items: seq<seq<Link>>, place: map<Link, nat>, p: nat, k: nat, x: Link)
    requires Accounted(items, place) && p < 4 && k <= |items[p]| && x !in place
    ensures Accounted(items[p := Inserted(items[p], k, x)], place[x := p])
    ensures forall a :: 0 <= a < 4 ==> x !in items[a]
  {
    var r := Inserted(items[p], k, x);
    var before := items[p];
    assert x !in before;
    InsertedDistinct(before, k, x);
    forall y | y in place && place[y] == p ensures y in r {
      assert y in before[..k] + before[k..] by { assert before == before[..k] + before[k..]; }
    }
    forall i | 0 <= i < |r| ensures r[i] == x || r[i] in before {
    }
    forall i | 0 <= i < |before| ensures before[i] != x {
    }
  }

  /** Heads apart from segments, segments accounted for, counters equal to lengths. */
  ghost predicate Consistent(heads: seq<Link>, counts: seq<nat>, items: seq<seq<Link>>, place: map<Link, nat>) {
    && |heads| == |counts| == 4
    && Accounted(items, place)
    && (forall a, b :: 0 <= a < b < 4 ==> heads[a] != heads[b])
    && (forall a :: 0 <= a < 4 ==> heads[a] !in place && counts[a] == |items[a]|)
  }

  lemma ConsistentMove(
      heads: seq<Link>, counts: seq<nat>, items: seq<seq<Link>>, place: map<Link, nat>, p: nat, q: nat)
    requires Consistent(heads, counts, items, place) && p < 4 && q < 4 && p != q && items[p] != []
    ensures counts[p] > 0 && Separate(heads, items)
    ensures Consistent(heads, counts[p := counts[p] - 1][q := counts[q] + 1], Moved(items, p, q),
                       place[items[p][0] := q])
  {
    AccountedMove(items, place, p, q);
    MovedAt(items, p, q);
  }

  lemma ConsistentFree(
      heads: seq<Link>, counts: seq<nat>, items: seq<seq<Link>>, place: map<Link, nat>, p: nat, k: nat)
    requires Consistent(heads, counts, items, place) && p < 4 && k < |items[p]|
    ensures counts[p] > 0 && Separate(heads, items)
    ensures Consistent(heads, counts[p := counts[p] - 1], items[p := Removed(items[p], k)],
                       place[items[p][k] := FREED])
  {
    AccountedFree(items, place, p, k);
  }

  lemma ConsistentInsert(
      heads: seq<Link>, counts: seq<nat>, items: seq<seq<Link>>, place: map<Link, nat>, p: nat, k: nat, x: Link)
    requires Consistent(heads, counts, items, place) && p < 4 && k <= |items[p]|
    requires x !in place && x !in heads
    ensures Separate(heads, items)
    ensures Consistent(heads, counts[p := counts[p] + 1], items[p := Inserted(items[p], k, x)], place[x := p])
    ensures forall a :: 0 <= a < 4 ==> x !in items[a]
  {
    AccountedInsert(items, place, p, k, x);
  }

  lemma ConsistentDiscard(heads: seq<Link>, counts: seq<nat>, items: seq<seq<Link>>, place: map<Link, nat>, x: Link)
    requires Consistent(heads, counts, items, place) && x !in place && x !in heads
    ensures Consistent(heads, counts, items, place[x := FREED])
    ensures forall a :: 0 <= a < 4 ==> x !in items[a]
  {
  }

  lemma MovedAt(items: seq<seq<Link>>, p: nat, q: nat)
    requires |items| == 4 && p < 4 && q < 4 && p != q && items[p] != []
    ensures var after := Moved(items, p, q);
            && |after| == 4
            && after[p] == items[p][1..] && after[q] == items[q] + [items[p][0]]
            && |after[p]| == |items[p]| - 1 && |after[q]| == |items[q]| + 1
            && forall a :: 0 <= a < 4 && a != p && a != q ==> after[a] == items[a]
  {
  }

  method MoveLinks(heads: seq<Link>, ghost items: seq<seq<Link>>, p: nat, q: nat, ghost after: seq<seq<Link>>)
    requires Separate(heads, items) && forall a :: 0 <= a < 4 ==> Ring(heads[a], items[a])
    requires p < 4 && q < 4 && p != q && items[p] != []
    requires after == Moved(items, p, q)
    modifies heads, items[p], items[q]
    ensures forall a :: 0 <= a < 4 ==> Ring(heads[a], after[a])
  {
    MovedAt(items, p, q);
    assert Apart(items[p], items[q]);
    MoveFirst(heads[p], items[p], heads[q], items[q]);
    forall a | 0 <= a < 4 && a != p && a != q ensures Ring(heads[a], items[a]) {
      assert Apart(items[p], items[a]) && Apart(items[q], items[a]);
    }
  }

  method RemoveLinks(
      heads: seq<Link>, ghost items: seq<seq<Link>>, p: nat, seg: Link, ghost k: nat,
      ghost after: seq<seq<Link>>)
    requires Separate(heads, items) && forall a :: 0 <= a < 4 ==> Ring(heads[a], items[a])
    requires p < 4 && k < |items[p]| && seg == items[p][k]
    requires after == items[p := Removed(items[p], k)]
    modifies heads, items[p]
    ensures forall a :: 0 <= a < 4 ==> Ring(heads[a], after[a])
  {
    RemoveAt(seg, heads[p], items[p], k);
    forall a | 0 <= a < 4 && a != p ensures Ring(heads[a], items[a]) {
      assert Apart(items[p], items[a]);
    }
  }

  method InsertLinks(
      heads: seq<Link>, ghost items: seq<seq<Link>>, p: nat, seg: Link, at: Link, ghost k: nat,
      ghost after: seq<seq<Link>>)
    requires Separate(heads, items) && forall a :: 0 <= a < 4 ==> Ring(heads[a], items[a])
    requires p < 4 && k <= |items[p]| && at == Position(heads[p], items[p], k)
    requires seg !in heads && forall a :: 0 <= a < 4 ==> seg !in items[a]
    requires after == items[p := Inserted(items[p], k, seg)]
    modifies heads, items[p], seg
    ensures forall a :: 0 <= a < 4 ==> Ring(heads[a], after[a])
  {
    InsertAt(seg, at, heads[p], items[p], k);
    forall a | 0 <= a < 4 && a != p ensures Ring(heads[a], items[a]) {
      assert Apart(items[p], items[a]);
    }
  }

  method AppendLinks(
      heads: seq<Link>, ghost items: seq<seq<Link>>, p: nat, seg: Link, ghost after: seq<seq<Link>>)
    requires Separate(heads, items) && forall a :: 0 <= a < 4 ==> Ring(heads[a], items[a])
    requires p < 4 && seg !in heads && forall a :: 0 <= a < 4 ==> seg !in items[a]
    requires after == items[p := Inserted(items[p], |items[p]|, seg)]
    modifies heads, items[p], seg
    ensures forall a :: 0 <= a < 4 ==> Ring(heads[a], after[a])
  {
    AddTail(seg, heads[p], items[p]);
    assert Inserted(items[p], |items[p]|, seg) == items[p] + [seg];
    forall a | 0 <= a < 4 && a != p ensures Ring(heads[a], items[a]) {
      assert Apart(items[p], items[a]);
    }
  }

  method NewHeads() returns (heads: seq<Link>)
    ensures |heads| == 4 && fresh(heads)
    ensures forall a, b :: 0 <= a < b < 4 ==> heads[a] != heads[b]
    ensures forall a :: 0 <= a < 4 ==> Ring(heads[a], [])
  {
    heads := [];
    for i := 0 to 4
      invariant |heads| == i && fresh(heads)
      invariant forall a, b :: 0 <= a < b < i ==> heads[a] != heads[b]
      invariant forall a :: 0 <= a < i ==> Ring(heads[a], [])
    {
      var h := new Link.Empty();
      heads := heads + [h];
    }
  }

  /**
   The four rings of a control block. Every segment ever allocated is on exactly one of them or
   has been freed, once; the counters are the lengths of the rings.
   */
  class ControlRings {
    const heads: seq<Link>
    var counts: seq<nat>
    /** The members of each ring, in order. */
    ghost var items: seq<seq<Link>>
    /** The place of every segment ever allocated. */
    ghost var place: map<Link, nat>

    ghost predicate Valid()
      reads this, heads, place.Keys
    {
      && Consistent(heads, counts, items, place)
      && (forall p :: 0 <= p < 4 ==> Ring(heads[p], items[p]))
    }

    constructor ()
      ensures Valid() && fresh(heads)
      ensures items == [[], [], [], []] && place == map[]
    {
      var fourHeads := NewHeads();
      heads := fourHeads;
      counts := [0, 0, 0, 0];
      items := [[], [], [], []];
      place := map[];
    }

    /** Records what the links already say. */
    method Commit(newCounts: seq<nat>, ghost newItems: seq<seq<Link>>, ghost newPlace: map<Link, nat>)
      requires Consistent(heads, newCounts, newItems, newPlace)
      requires forall a :: 0 <= a < 4 ==> Ring(heads[a], newItems[a])
      modifies this
      ensures Valid() && counts == newCounts && items == newItems && place == newPlace
    {
      counts, items, place := newCounts, newItems, newPlace;
    }

    /** A new segment goes last on ring `p`: fragmentation. */
    method Append(p: nat) returns (seg: Link)
      requires Valid() && p < 4
      modifies this, heads, place.Keys
      ensures Valid() && fresh(seg)
      ensures items == old(items)[p := Inserted(old(items[p]), old(|items[p]|), seg)]
      ensures place == old(place)[seg := p]
    {
      seg := new Link();
      AppendLink(p, seg);
    }

    method AppendLink(p: nat, seg: Link)
      requires Valid() && p < 4 && seg !in place && seg !in heads
      modifies this, heads, place.Keys, seg
      ensures Valid()
      ensures items == old(items)[p := Inserted(old(items[p]), old(|items[p]|), seg)]
      ensures place == old(place)[seg := p]
    {
      ghost var after := items[p := Inserted(items[p], |items[p]|, seg)];
      ConsistentInsert(heads, counts, items, place, p, |items[p]|, seg);
      AppendLinks(heads, items, p, seg, after);
      Commit(counts[p := counts[p] + 1], after, place[seg := p]);
    }

    /** The first segment of ring `p` becomes the last of ring `q`: numbering, and delivery in order. */
    method Move(p: nat, q: nat)
      requires Valid() && p < 4 && q < 4 && p != q && items[p] != []
      modifies this, heads, place.Keys
      ensures Valid()
      ensures items == old(Moved(items, p, q))
      ensures place == old(place[items[p][0] := q])
    {
      ghost var after, first := Moved(items, p, q), items[p][0];
      ConsistentMove(heads, counts, items, place, p, q);
      MoveLinks(heads, items, p, q, after);
      Commit(counts[p := counts[p] - 1][q := counts[q] + 1], after, place[first := q]);
    }

    /** The `k`-th segment of ring `p` is unlinked and freed: acknowledgement, receipt, release. */
    method Free(p: nat, seg: Link, ghost k: nat)
      requires Valid() && p < 4 && k < |items[p]| && seg == items[p][k]
      modifies this, heads, place.Keys
      ensures Valid()
      ensures items == old(items[p := Removed(items[p], k)])
      ensures place == old(place)[seg := FREED] && old(place)[seg] == p
    {
      ghost var after := items[p := Removed(items[p], k)];
      ConsistentFree(heads, counts, items, place, p, k);
      RemoveLinks(heads, items, p, seg, k, after);
      Commit(counts[p := counts[p] - 1], after, place[seg := FREED]);
    }

    /** A new segment that is freed unlinked: an arrival outside the window, or a duplicate. */
    method Discard() returns (seg: Link)
      requires Valid()
      modifies this
      ensures Valid() && fresh(seg)
      ensures items == old(items) && counts == old(counts)
      ensures place == old(place)[seg := FREED]
    {
      seg := new Link();
      ConsistentDiscard(heads, counts, items, place, seg);
      place := place[seg := FREED];
    }

    /** A new segment goes behind `at`, the position `k` of ring `p`: reordering on arrival. */
    method Insert(p: nat, at: Link, ghost k: nat) returns (seg: Link)
      requires Valid() && p < 4 && k <= |items[p]| && at == Position(heads[p], items[p], k)
      modifies this, heads, place.Keys
      ensures Valid() && fresh(seg)
      ensures items == old(items)[p := Inserted(old(items[p]), k, seg)]
      ensures place == old(place)[seg := p]
    {
      seg := new Link();
      InsertLink(p, seg, at, k);
    }

    method InsertLink(p: nat, seg: Link, at: Link, ghost k: nat)
      requires Valid() && p < 4 && k <= |items[p]| && at == Position(heads[p], items[p], k)
      requires seg !in place && seg !in heads
      modifies this, heads, place.Keys, seg
      ensures Valid()
      ensures items == old(items)[p := Inserted(old(items[p]), k, seg)]
      ensures place == old(place)[seg := p]
    {
      ghost var after := items[p := Inserted(items[p], k, seg)];
      ConsistentInsert(heads, counts, items, place, p, k, seg);
      InsertLinks(heads, items, p, seg, at, k, after);
      Commit(counts[p := counts[p] + 1], after, place[seg := p]);
    }

    /** In stream mode the tail is replaced by a longer copy: the new segment is queued, the old freed. */
    method ReplaceTail(p: nat) returns (seg: Link)
      requires Valid() && p < 4 && items[p] != []
      modifies this, heads, place.Keys
      ensures Valid() && fresh(seg)
      ensures items == old(items)[p := old(items[p][..|items[p]| - 1]) + [seg]]
      ensures counts == old(counts)
    {
      var tail := heads[p].prev;
      ghost var k := |items[p]| - 1;
      ghost var before := items[p];
      seg := Append(p);
      ReplacedLast(before, seg);
      Free(p, tail, k);
    }

    /** Frees the first segment of ring `p`. */
    method FreeFirst(p: nat)
      requires Valid() && p < 4 && items[p] != []
      modifies this, heads, place.Keys
      ensures Valid() && place.Keys == old(place.Keys)
      ensures items[p] == old(items[p][1..]) && Others(old(items), items, p)
    {
      ghost var seg := items[p][0];
      assert Removed(items[p], 0) == items[p][1..];
      assert place[seg := FREED].Keys == place.Keys;
      Free(p, heads[p].next, 0);
    }

    /** Frees whatever is still on ring `p`, from its front. */
    method FreeAll(p: nat)
      requires Valid() && p < 4
      modifies this, heads, place.Keys
      ensures Valid() && place.Keys == old(place.Keys)
      ensures items == old(items)[p := []]
    {
      ghost var before := items;
      while true
        invariant Valid() && place.Keys == old(place.Keys) && Others(before, items, p)
        decreases |items[p]|
      {
        var empty := IsEmpty(heads[p], items[p]);
        if empty { break; }
        FreeFirst(p);
      }
      Emptied(before, items, p);
    }

    /** Releasing the control block frees every segment it ever allocated and had not freed. */
    method Release()
      requires Valid()
      modifies this, heads, place.Keys
      ensures Valid() && place.Keys == old(place.Keys)
      ensures items == [[], [], [], []]
      ensures forall x :: x in place ==> place[x] == FREED
    {
      FreeAll(SEND_BUFFER);
      FreeAll(RECEIVE_BUFFER);
      FreeAll(SEND_QUEUE);
      FreeAll(RECEIVE_QUEUE);
      AllFreed(items, place);
    }
  }
}
