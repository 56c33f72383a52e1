/**
 32-bit sequence numbers and timestamps.

 Both wrap around, so "earlier" and "later" are decided by the sign of a 32-bit difference,
 as in section 3.2 of RFC 1982. `Number` gives an unbounded index its wire number; the
 lemmas say exactly when the wrapped comparison agrees with the comparison of the indices.
 */
module Serial {

  const MODULUS: int := 0x1_0000_0000
  const HALF: int := 0x8000_0000

  type u32 = x: int | 0 <= x < 0x1_0000_0000
  type i32 = x: int | -0x8000_0000 <= x < 0x8000_0000

  function Add(a: u32, b: u32): u32 {
    if a + b < MODULUS then a + b else a + b - MODULUS
  }

  function Sub(a: u32, b: u32): u32 {
    if a >= b then a - b else a - b + MODULUS
  }

  function Next(a: u32): u32 {
    Add(a, 1)
  }

  function Signed(x: u32): i32 {
    if x < HALF then x else x - MODULUS
  }

  /** How far `later` is ahead of `earlier`, read as a signed 32-bit number. */
  function Diff(later: u32, earlier: u32): i32 {
    Signed(Sub(later, earlier))
  }

  /** The wire number of the unbounded index `i`. */
  function Number(i: int): u32 {
    i % 0x1_0000_0000
  }

  /** Reduction of an arbitrary integer to 32 bits, unsigned and two's complement. */
  function ToU32(x: int): u32 {
    x % 0x1_0000_0000
  }

  lemma FitsWord(x: int)
    requires 0 <= x < MODULUS
    ensures ToU32(x) == x
  {
  }

  function ToI32(x: int): i32 {
    Signed(ToU32(x))
  }

  lemma AddIsModular(a: u32, b: u32)
    ensures Add(a, b) == (a + b) % 0x1_0000_0000
    ensures Sub(a, b) == (a - b) % 0x1_0000_0000
  {
  }

  /** Serial comparison is faithful exactly on pairs less than half the space apart. */
  lemma DiffIsExact(i: int, j: int)
    ensures Diff(Number(i), Number(j)) == i - j <==> -HALF <= i - j < HALF
  {
    var d := i - j;
    AddIsModular(Number(i), Number(j));
    assert Sub(Number(i), Number(j)) == d % 0x1_0000_0000;
  }

  lemma NumberAdvance(i: int, k: u32)
    ensures Number(i + k) == Add(Number(i), k)
  {
    AddIsModular(Number(i), k);
  }

  /** Reducing before adding, and what is then ahead by. */
  lemma NumberAhead(i: nat, k: nat)
    ensures Number(Number(i) + k) == Number(i + k)
    ensures k < MODULUS ==> Sub(Number(i + k), Number(i)) == k
  {
  }

  /** Within a window anchored at `base`, the signed difference orders by offset. */
  lemma DiffByOffset(a: u32, b: u32, base: u32)
    requires Sub(a, base) < HALF && Sub(b, base) < HALF
    ensures Diff(a, b) == Sub(a, base) - Sub(b, base)
  {
  }

  lemma OffsetInjective(a: u32, b: u32, base: u32)
    ensures Sub(a, base) == Sub(b, base) <==> a == b
  {
  }
}
