/**
 The list of acknowledgements waiting to be sent: a growable array of (number, timestamp) pairs.
 */
module AckList {
  import opened Serial

  datatype Ack = Ack(sn: u32, ts: u32)

  /** Capacities reached by doubling from 8. */
  predicate IsBlock(n: nat) {
    n == 8 || (n > 8 && n % 2 == 0 && IsBlock(n / 2))
  }

  function Pow2(k: nat): nat {
    if k == 0 then 1 else 2 * Pow2(k - 1)
  }

  /** Every capacity is a power of two of at least 8. */
  lemma {:induction false} BlockIsPowerOfTwo(n: nat) returns (k: nat)
    requires IsBlock(n)
    ensures k >= 3 && n == Pow2(k)
  {
    if n == 8 {
      k := 3;
      assert Pow2(3) == 2 * Pow2(2) && Pow2(2) == 2 * Pow2(1);
    } else {
      k := BlockIsPowerOfTwo(n / 2);
      k := k + 1;
    }
  }

  /** `n` pairs of a raw array, from pair `start` on. */
  function Pairs(raw: seq<u32>, start: nat, n: nat): (r: seq<Ack>)
    requires 2 * (start + n) <= |raw|
    ensures |r| == n
    ensures forall i :: 0 <= i < n ==> r[i] == Ack(raw[2 * (start + i)], raw[2 * (start + i) + 1])
  {
    seq(n, i requires 0 <= i < n => Ack(raw[2 * (start + i)], raw[2 * (start + i) + 1]))
  }

  class AckList {
    var items: array<u32>
    var count: nat
    var block: nat

    ghost predicate Valid()
      reads this, items
    {
      items.Length == 2 * block && count <= block && (block == 0 || IsBlock(block))
    }

    ghost function Contents(): (r: seq<Ack>)
      requires Valid()
      reads this, items
      ensures |r| == count
    {
      Pairs(items[..], 0, count)
    }

    constructor ()
      ensures Valid() && fresh(items)
      ensures Contents() == []
    {
      items := new u32[0];
      count, block := 0, 0;
    }

    /** The smallest doubling of 8 that holds `wanted` pairs. */
    static method NewBlock(wanted: nat) returns (newBlock: nat)
      ensures IsBlock(newBlock) && newBlock >= wanted
      ensures newBlock == 8 || newBlock / 2 < wanted
    {
      newBlock := 8;
      while newBlock < wanted
        invariant IsBlock(newBlock)
        invariant newBlock == 8 || newBlock / 2 < wanted
      {
        newBlock := newBlock * 2;
      }
    }

    method Push(sn: u32, ts: u32)
      requires Valid()
      modifies this, items
      ensures Valid() && (items == old(items) || fresh(items))
      ensures Contents() == old(Contents()) + [Ack(sn, ts)]
      ensures block == old(block) || old(count == block)
    {
      var newSize := count + 1;
      if newSize > block {
        Grow(newSize);
      }
      items[2 * count] := sn;
      items[2 * count + 1] := ts;
      count := count + 1;
    }

    /** Copies the pairs to a larger array. */
    method Grow(newSize: nat)
      requires Valid() && newSize > block
      modifies this
      ensures Valid() && fresh(items) && block >= newSize && count == old(count)
      ensures Contents() == old(Contents())
    {
      var newBlock := NewBlock(newSize);
      var bigger := new u32[newBlock * 2];
      for x := 0 to count
        modifies bigger
        invariant forall j :: 0 <= j < 2 * x ==> bigger[j] == items[j]
      {
        bigger[2 * x] := items[2 * x];
        bigger[2 * x + 1] := items[2 * x + 1];
      }
      items := bigger;
      block := newBlock;
    }

    method Get(p: nat) returns (sn: u32, ts: u32)
      requires Valid() && p < block
      ensures p < count ==> Ack(sn, ts) == Contents()[p]
      ensures sn == items[2 * p] && ts == items[2 * p + 1]
    {
      sn, ts := items[2 * p], items[2 * p + 1];
    }

    /** Moves `num` pairs starting at `st` to the front; source and destination may overlap. */
    method Move(st: nat, num: nat)
      requires Valid() && st + num <= block
      modifies items
      ensures Valid()
      ensures forall j :: 0 <= j < 2 * num ==> items[j] == old(items[2 * st + j])
    {
      forall j | 0 <= j < 2 * num {
        items[j] := items[2 * st + j];
      }
    }

    /**
     The way flush gives up after `sent` acknowledgements: the count has been taken down once for
     each, and exactly the unsent pairs remain, in order.
     */
    method Abandon(sent: nat)
      requires Valid() && sent + count <= block
      modifies items
      ensures Valid()
      ensures Contents() == Pairs(old(items[..]), sent, count)
    {
      if sent != 0 {
        Move(sent, count);
      }
    }
  }
}
