/** Bitwise operations on natural numbers, bit by bit. */
module Bits {
  function Bit(n: nat, k: nat): bool {
    if k == 0 then n % 2 == 1 else Bit(n / 2, k - 1)
  }

  function Pow2(k: nat): (p: nat)
    ensures p > 0
  {
    if k == 0 then 1 else 2 * Pow2(k - 1)
  }

  function Bitwise(op: (bool, bool) -> bool, a: nat, b: nat): nat
    decreases a + b
  {
    if a == 0 && b == 0 then 0
    else 2 * Bitwise(op, a / 2, b / 2) + (if op(a % 2 == 1, b % 2 == 1) then 1 else 0)
  }

  function Or(a: nat, b: nat): nat { Bitwise((x, y) => x || y, a, b) }

  function And(a: nat, b: nat): nat { Bitwise((x, y) => x && y, a, b) }

  function Xor(a: nat, b: nat): nat { Bitwise((x, y) => x != y, a, b) }

  lemma HalfOf(h: nat, b: bool)
    ensures var n := 2 * h + (if b then 1 else 0); n / 2 == h && (n % 2 == 1 <==> b)
  { }

  lemma {:induction false} ZeroHasNoBit(k: nat)
    ensures !Bit(0, k)
  {
    if k > 0 { ZeroHasNoBit(k - 1); }
  }

  lemma {:induction false} BitwiseBit(op: (bool, bool) -> bool, a: nat, b: nat, k: nat)
    requires !op(false, false)
    ensures Bit(Bitwise(op, a, b), k) == op(Bit(a, k), Bit(b, k))
    decreases k
  {
    if a == 0 && b == 0 {
      ZeroHasNoBit(k);
    } else {
      HalfOf(Bitwise(op, a / 2, b / 2), op(a % 2 == 1, b % 2 == 1));
      if k > 0 { BitwiseBit(op, a / 2, b / 2, k - 1); }
    }
  }

  lemma {:induction false} BitwiseBelow(op: (bool, bool) -> bool, a: nat, b: nat, w: nat)
    requires a < Pow2(w) && b < Pow2(w)
    ensures Bitwise(op, a, b) < Pow2(w)
    decreases w
  {
    if w > 0 && !(a == 0 && b == 0) { BitwiseBelow(op, a / 2, b / 2, w - 1); }
  }

  lemma {:induction false} BitOfPow2(x: nat, k: nat)
    ensures Bit(Pow2(x), k) <==> k == x
  {
    if x > 0 {
      HalfOf(Pow2(x - 1), false);
      if k > 0 { BitOfPow2(x - 1, k - 1); }
    } else if k > 0 {
      ZeroHasNoBit(k - 1);
    }
  }

  lemma {:induction false} NoBitAbove(n: nat, w: nat, k: nat)
    requires n < Pow2(w) && w <= k
    ensures !Bit(n, k)
    decreases w
  {
    if w == 0 {
      ZeroHasNoBit(k);
    } else {
      NoBitAbove(n / 2, w - 1, k - 1);
    }
  }

  lemma {:induction false} Pow2Grows(a: nat, b: nat)
    requires a <= b
    ensures Pow2(a) <= Pow2(b)
  {
    if a < b { Pow2Grows(a, b - 1); }
  }

  lemma {:induction false} SameBits(a: nat, b: nat, w: nat)
    requires a < Pow2(w) && b < Pow2(w)
    requires forall k: nat {:trigger Bit(a, k)} {:trigger Bit(b, k)} :: k < w ==> Bit(a, k) == Bit(b, k)
    ensures a == b
  {
    if w > 0 {
      forall k: nat | k < w - 1
        ensures Bit(a / 2, k) == Bit(b / 2, k)
      {
        assert Bit(a, k + 1) == Bit(b, k + 1);
      }
      SameBits(a / 2, b / 2, w - 1);
      assert Bit(a, 0) == Bit(b, 0);
    }
  }

  // ------------------------------------------------------------------ sets as numbers

  /** The number whose bits below `n` are the members of the set. */
  function Mask(s: set<nat>, n: nat): (m: nat)
    ensures m < Pow2(n)
  {
    if n == 0 then 0 else Mask(s, n - 1) + if n - 1 in s then Pow2(n - 1) else 0
  }

  lemma {:induction false} TopBit(low: nat, n: nat, k: nat)
    requires low < Pow2(n)
    ensures Bit(low + Pow2(n), k) <==> k == n || Bit(low, k)
    decreases n
  {
    if n == 0 {
      if k > 0 { ZeroHasNoBit(k - 1); }
    } else {
      assert (low + Pow2(n)) / 2 == low / 2 + Pow2(n - 1) && (low + Pow2(n)) % 2 == low % 2;
      if k > 0 { TopBit(low / 2, n - 1, k - 1); }
    }
  }

  lemma {:induction false} MaskBit(s: set<nat>, n: nat, k: nat)
    requires k < n
    ensures Bit(Mask(s, n), k) <==> k in s
  {
    TopBit(Mask(s, n - 1), n - 1, k);
    if k < n - 1 { MaskBit(s, n - 1, k); } else { NoBitAbove(Mask(s, n - 1), n - 1, k); }
  }

  // ------------------------------------------------------------------ sixteen bits

  const WORD := 0x1_0000

  lemma WordIsPow2()
    ensures Pow2(16) == WORD
  {
    assert Pow2(4) == 16;
    assert Pow2(8) == 256;
    assert Pow2(12) == 4096;
  }

  lemma {:induction false} OnesBit(w: nat, k: nat)
    ensures Bit(Pow2(w) - 1, k) <==> k < w
  {
    if w == 0 {
      ZeroHasNoBit(k);
    } else {
      HalfOf(Pow2(w - 1) - 1, true);
      if k > 0 { OnesBit(w - 1, k - 1); }
    }
  }
}
