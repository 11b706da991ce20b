/** Bitwise operations on unsigned words, written on naturals: bit i of x is
    its i-th binary digit. C#'s `&`, `|`, `~`, `<<` and `>>` on uint and
    ulong are these functions; the lemmas give each one bit by bit. */
module Bits {
  import opened Binary

  function Pow2(n: nat): (r: nat)
    ensures r >= 1
  {
    if n == 0 then 1 else 2 * Pow2(n - 1)
  }

  const AllOnes: uint32 := 0xFFFF_FFFF

  /** Bit i of x. */
  function Bit(x: nat, i: nat): (b: nat)
    ensures b < 2
  {
    if i == 0 then x % 2 else Bit(x / 2, i - 1)
  }

  /** C#'s `&`. */
  function And(a: nat, b: nat): (r: nat)
    ensures r <= a && r <= b
  {
    if a == 0 || b == 0 then 0
    else 2 * And(a / 2, b / 2) + (if a % 2 == 1 && b % 2 == 1 then 1 else 0)
  }

  /** C#'s `|`. */
  function Or(a: nat, b: nat): (r: nat)
    decreases a + b
  {
    if a == 0 then b
    else if b == 0 then a
    else 2 * Or(a / 2, b / 2) + (if a % 2 == 1 || b % 2 == 1 then 1 else 0)
  }

  /** C#'s `|` on two uints. */
  function OrWord(a: uint32, b: uint32): (r: uint32)
  {
    Pow2Word();
    OrBelow(a, b, 32);
    Or(a, b)
  }

  /** C#'s `~` on a uint. */
  function Not(a: uint32): (r: uint32)
  {
    AllOnes - a
  }

  /** C#'s `<<` on a uint: the count taken modulo 32, the result wrapped
      into 32 bits. */
  function Shl(a: uint32, count: int): (r: uint32)
  {
    (a * Pow2(count % 32)) % 0x1_0000_0000
  }

  /** `>>` on an unsigned value by a count already reduced to the width. */
  function Shr(a: nat, count: nat): (r: nat)
  {
    DivBounds(a, Pow2(count));
    a / Pow2(count)
  }

  /** C#'s unchecked `(1u << count) - 1u`: the low `count % 32` bits set. */
  function LowMask(count: int): (r: uint32)
    ensures r == Pow2(count % 32) - 1
  {
    Pow2Below(count % 32, 31);
    Pow2Word();
    var s := Shl(1, count);
    if s == 0 then AllOnes else s - 1
  }

  // ---- bit-by-bit facts ----

  lemma {:induction false} Pow2Word()
    ensures Pow2(32) == 0x1_0000_0000
    ensures Pow2(31) == 0x8000_0000
  {
    assert Pow2(8) == 0x100;
    assert Pow2(16) == 0x1_0000 by { Pow2Add(8, 8); }
    assert Pow2(31) == 0x8000_0000 by { Pow2Add(16, 15); assert Pow2(15) == 0x8000 by { Pow2Add(8, 7); } }
  }

  lemma {:induction false} Pow2Bytes()
    ensures Pow2(8) == 0x100 && Pow2(16) == 0x1_0000 && Pow2(24) == 0x100_0000
  {
    assert Pow2(8) == 0x100;
    Pow2Add(8, 8);
    Pow2Add(8, 16);
  }

  lemma {:induction false} Pow2Add(a: nat, b: nat)
    ensures Pow2(a + b) == Pow2(a) * Pow2(b)
    decreases a
  {
    if a > 0 {
      Pow2Add(a - 1, b);
      assert Pow2(a + b) == 2 * Pow2(a - 1 + b);
    }
  }

  lemma {:induction false} Pow2Below(a: nat, b: nat)
    requires a <= b
    ensures Pow2(a) <= Pow2(b)
    decreases b
  {
    if a < b {
      Pow2Below(a, b - 1);
    }
  }

  lemma {:induction false} BitZero(i: nat)
    ensures Bit(0, i) == 0
  {
    if i > 0 {
      BitZero(i - 1);
    }
  }

  /** Bit i + 1 of 2q + c is bit i of q. */
  lemma {:induction false} BitHalf(q: nat, c: nat, i: nat)
    requires c < 2
    ensures Bit(2 * q + c, 0) == c
    ensures Bit(2 * q + c, i + 1) == Bit(q, i)
  {
    assert (2 * q + c) / 2 == q;
  }

  lemma {:induction false} AndBit(a: nat, b: nat, i: nat)
    ensures Bit(And(a, b), i) == if Bit(a, i) == 1 && Bit(b, i) == 1 then 1 else 0
    decreases a
  {
    if a == 0 || b == 0 {
      BitZero(i);
    } else {
      var c := if a % 2 == 1 && b % 2 == 1 then 1 else 0;
      BitHalf(And(a / 2, b / 2), c, if i == 0 then 0 else i - 1);
      if i > 0 {
        AndBit(a / 2, b / 2, i - 1);
      }
    }
  }

  lemma {:induction false} OrBit(a: nat, b: nat, i: nat)
    ensures Bit(Or(a, b), i) == if Bit(a, i) == 1 || Bit(b, i) == 1 then 1 else 0
    decreases a + b
  {
    if a == 0 {
      BitZero(i);
    } else if b == 0 {
      BitZero(i);
    } else {
      var c := if a % 2 == 1 || b % 2 == 1 then 1 else 0;
      BitHalf(Or(a / 2, b / 2), c, if i == 0 then 0 else i - 1);
      if i > 0 {
        OrBit(a / 2, b / 2, i - 1);
      }
    }
  }

  /** Or of two numbers below 2^n stays below 2^n. */
  lemma {:induction false} OrBelow(a: nat, b: nat, n: nat)
    requires a < Pow2(n) && b < Pow2(n)
    ensures Or(a, b) < Pow2(n)
    decreases a + b
  {
    if a != 0 && b != 0 {
      assert n > 0;
      OrBelow(a / 2, b / 2, n - 1);
    }
  }

  /** Bits at or above n of a number below 2^n are clear. */
  lemma {:induction false} BitAbove(x: nat, n: nat, i: nat)
    requires x < Pow2(n) && n <= i
    ensures Bit(x, i) == 0
    decreases i
  {
    if x == 0 {
      BitZero(i);
    } else if i > 0 {
      assert n > 0;
      BitAbove(x / 2, n - 1, i - 1);
    }
  }

  /** 2^n - 1 has exactly the bits below n set. */
  lemma {:induction false} LowOnes(n: nat, i: nat)
    ensures Bit(Pow2(n) - 1, i) == if i < n then 1 else 0
    decreases n
  {
    if n == 0 {
      BitZero(i);
    } else {
      assert Pow2(n) - 1 == 2 * (Pow2(n - 1) - 1) + 1;
      BitHalf(Pow2(n - 1) - 1, 1, if i == 0 then 0 else i - 1);
      if i > 0 {
        LowOnes(n - 1, i - 1);
      }
    }
  }

  /** Complementing within n bits flips each of the low n bits. */
  lemma {:induction false} ComplementBit(n: nat, a: nat, i: nat)
    requires a < Pow2(n) && i < n
    ensures Bit(Pow2(n) - 1 - a, i) == 1 - Bit(a, i)
    decreases n
  {
    var c := Pow2(n) - 1 - a;
    assert c == 2 * (Pow2(n - 1) - 1 - a / 2) + (1 - a % 2);
    BitHalf(Pow2(n - 1) - 1 - a / 2, 1 - a % 2, if i == 0 then 0 else i - 1);
    BitHalf(a / 2, a % 2, if i == 0 then 0 else i - 1);
    if i > 0 {
      ComplementBit(n - 1, a / 2, i - 1);
    }
  }

  lemma {:induction false} NotBit(a: uint32, i: nat)
    requires i < 32
    ensures Bit(Not(a), i) == 1 - Bit(a, i)
  {
    Pow2Word();
    ComplementBit(32, a, i);
  }

  /** Two numbers below 2^n with the same low n bits are equal. */
  lemma {:induction false} SameBits(x: nat, y: nat, n: nat)
    requires x < Pow2(n) && y < Pow2(n)
    requires forall i :: 0 <= i < n ==> Bit(x, i) == Bit(y, i)
    ensures x == y
    decreases n
  {
    if n > 0 {
      BitHalf(x / 2, x % 2, 0);
      BitHalf(y / 2, y % 2, 0);
      assert Bit(x, 0) == Bit(y, 0);
      forall i | 0 <= i < n - 1
        ensures Bit(x / 2, i) == Bit(y / 2, i)
      {
        BitHalf(x / 2, x % 2, i);
        BitHalf(y / 2, y % 2, i);
        assert Bit(x, i + 1) == Bit(y, i + 1);
      }
      SameBits(x / 2, y / 2, n - 1);
    }
  }

  /** Multiplying by 2^s moves every bit up by s places. */
  lemma {:induction false} ShiftBit(x: nat, s: nat, i: nat)
    ensures Bit(x * Pow2(s), i) == if i < s then 0 else Bit(x, i - s)
    decreases s
  {
    if s > 0 {
      assert x * Pow2(s) == 2 * (x * Pow2(s - 1)) + 0;
      BitHalf(x * Pow2(s - 1), 0, if i == 0 then 0 else i - 1);
      if i > 0 {
        ShiftBit(x, s - 1, i - 1);
      }
    }
  }

  /** (2^b - 1) * 2^s has exactly the bits from s up to s + b set. */
  lemma {:induction false} ContiguousBit(b: nat, s: nat, i: nat)
    ensures Bit((Pow2(b) - 1) * Pow2(s), i) == if s <= i < s + b then 1 else 0
  {
    ShiftBit(Pow2(b) - 1, s, i);
    if i >= s {
      LowOnes(b, i - s);
    }
  }

  lemma {:induction false} LowMaskBit(count: int, i: nat)
    ensures Bit(LowMask(count), i) == if i < count % 32 then 1 else 0
  {
    LowOnes(count % 32, i);
  }

  // ---- multiplication and division ----

  lemma {:induction false} MulPos(k: int, d: int)
    requires d > 0 && k >= 1
    ensures k * d >= d
  {
  }

  lemma {:induction false} MulMono(a: nat, x: nat, y: nat)
    requires x <= y
    ensures a * x <= a * y
  {
    if a > 0 && x < y {
      MulPos(y - x, a);
      assert a * y - a * x == (y - x) * a;
    }
  }

  lemma {:induction false} DivBelow(x: nat, a: nat, d: nat)
    requires d > 0 && x <= a * d
    ensures x / d <= a
  {
    var q := x / d;
    assert q * d <= x;
    if q > a {
      MulPos(q - a, d);
    }
  }

  lemma {:induction false} MulDiv(a: nat, d: nat)
    requires d > 0
    ensures a * d / d == a
  {
    var q := a * d / d;
    var r := a * d % d;
    assert a * d == q * d + r;
    assert (a - q) * d == r;
    if a - q >= 1 { MulPos(a - q, d); }
    if q - a >= 1 { MulPos(q - a, d); }
  }
}
