/** Single bits of numbers, least significant first, and the word operations in terms of them. */
module Bits {
  type byte = x: int | 0 <= x < 256

  function Pow2(k: nat): (p: nat)
    ensures p >= 1
  {
    if k == 0 then 1 else 2 * Pow2(k - 1)
  }

  predicate Bit(x: nat, i: nat) {
    if i == 0 then x % 2 == 1 else Bit(x / 2, i - 1)
  }

  /** Bitwise or. */
  function Or(x: nat, y: nat): nat
    decreases x + y
  {
    if x == 0 then y
    else if y == 0 then x
    else (if x % 2 == 1 || y % 2 == 1 then 1 else 0) + 2 * Or(x / 2, y / 2)
  }

  /** `x << k` on an unbounded number. */
  function Shl(x: nat, k: nat): nat {
    if k == 0 then x else 2 * Shl(x, k - 1)
  }

  /** `uint16(x) << k`: bits shifted past the sixteenth are lost. */
  function Shl16(x: nat, k: nat): nat {
    Low(Shl(x, k), 16)
  }

  /** `x >> k`. */
  function Shr(x: nat, k: nat): nat {
    if k == 0 then x else Shr(x / 2, k - 1)
  }

  /** The low `k` bits: `x & (1 << k - 1)`, and `uint8(x)` for `k == 8`. */
  function Low(x: nat, k: nat): nat {
    if k == 0 then 0 else x % 2 + 2 * Low(x / 2, k - 1)
  }

  lemma {:induction false} ZeroBits(i: nat)
    ensures !Bit(0, i)
  {
    if i != 0 {
      ZeroBits(i - 1);
    }
  }

  lemma {:induction false} OrBits(x: nat, y: nat, i: nat)
    ensures Bit(Or(x, y), i) <==> Bit(x, i) || Bit(y, i)
    decreases i
  {
    if x == 0 || y == 0 {
      ZeroBits(i);
    } else {
      assert Or(x, y) / 2 == Or(x / 2, y / 2);
      if i != 0 {
        OrBits(x / 2, y / 2, i - 1);
      }
    }
  }

  lemma {:induction false} ShlBits(x: nat, k: nat, i: nat)
    ensures Bit(Shl(x, k), i) <==> k <= i && Bit(x, i - k)
    decreases k
  {
    if k != 0 && i != 0 {
      ShlBits(x, k - 1, i - 1);
    }
  }

  lemma {:induction false} ShrBits(x: nat, k: nat, i: nat)
    ensures Bit(Shr(x, k), i) <==> Bit(x, i + k)
    decreases k
  {
    if k != 0 {
      ShrBits(x / 2, k - 1, i);
    }
  }

  lemma {:induction false} LowBits(x: nat, k: nat, i: nat)
    ensures Bit(Low(x, k), i) <==> i < k && Bit(x, i)
    ensures Low(x, k) < Pow2(k)
    decreases k
  {
    if k == 0 {
      ZeroBits(i);
    } else {
      LowBits(x / 2, k - 1, if i == 0 then 0 else i - 1);
      var y, z := Low(x, k), Low(x / 2, k - 1);
      assert y == 2 * z + x % 2;
      assert y / 2 == z && y % 2 == x % 2;
    }
  }

  lemma {:induction false} HighBits(x: nat, k: nat, i: nat)
    requires x < Pow2(k) && k <= i
    ensures !Bit(x, i)
    decreases k
  {
    if k == 0 {
      ZeroBits(i);
    } else {
      HighBits(x / 2, k - 1, i - 1);
    }
  }

  /** Any `k` bits make a number below the `k`-th power of two. */
  lemma {:induction false} Gathered(f: nat -> bool, k: nat) returns (x: nat)
    ensures x < Pow2(k)
    ensures forall i: nat :: i < k ==> (Bit(x, i) <==> f(i))
    decreases k
  {
    if k == 0 {
      return 0;
    }
    var y := Gathered((j: nat) => f(j + 1), k - 1);
    x := (if f(0) then 1 else 0) + 2 * y;
    forall i: nat | i < k
      ensures Bit(x, i) <==> f(i)
    {
      if i != 0 {
        assert x / 2 == y && (Bit(y, i - 1) <==> f(i));
      }
    }
  }

  /** Numbers below a power of two are equal when their bits are. */
  lemma {:induction false} SameBits(x: nat, y: nat, k: nat)
    requires x < Pow2(k) && y < Pow2(k)
    requires forall i: nat :: i < k ==> (Bit(x, i) <==> Bit(y, i))
    ensures x == y
  {
    if k != 0 {
      forall i: nat | i < k - 1
        ensures Bit(x / 2, i) <==> Bit(y / 2, i)
      {
        assert Bit(x, i + 1) <==> Bit(y, i + 1);
      }
      SameBits(x / 2, y / 2, k - 1);
      assert Bit(x, 0) <==> Bit(y, 0);
    }
  }

  // The bit operations in terms of arithmetic: shifts multiply and divide, and `Low` is the remainder.

  lemma {:induction false} ShlIsTimes(x: nat, k: nat)
    ensures Shl(x, k) == x * Pow2(k)
  {
    if k != 0 {
      ShlIsTimes(x, k - 1);
      assert x * Pow2(k) == 2 * (x * Pow2(k - 1));
    }
  }

  lemma {:induction false} ShrIsQuotient(x: nat, k: nat)
    ensures x == Shr(x, k) * Pow2(k) + Low(x, k) && Low(x, k) < Pow2(k)
    decreases k
  {
    if k != 0 {
      ShrIsQuotient(x / 2, k - 1);
      assert Shr(x, k) * Pow2(k) == 2 * (Shr(x / 2, k - 1) * Pow2(k - 1));
    }
  }

  lemma {:induction false} BitIsParity(x: nat, k: nat)
    ensures Bit(x, k) <==> Shr(x, k) % 2 == 1
    decreases k
  {
    if k != 0 {
      BitIsParity(x / 2, k - 1);
    }
  }
}
