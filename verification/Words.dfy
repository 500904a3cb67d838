/** Unsigned machine words as natural numbers: bitwise exclusive-or and conjunction by their binary
    digits, and the facts about them that the checksum and the rings need.  A right shift by k is a
    division by 2^k. */
module Words {

  const U32: nat := 0x1_0000_0000
  const U64: nat := 0x1_0000_0000_0000_0000

  function Pow2(n: nat): (r: nat)
    ensures r > 0
  {
    if n == 0 then 1 else 2 * Pow2(n - 1)
  }

  lemma Pow2Byte()
    ensures Pow2(8) == 256
  {
    assert Pow2(4) == 16;
  }

  lemma Pow2Word()
    ensures Pow2(31) == 0x8000_0000 && Pow2(32) == U32
  {
    assert Pow2(8) == 256;
    assert Pow2(16) == 65536;
    assert Pow2(24) == 16777216;
    assert Pow2(28) == 268435456;
    assert Pow2(31) == 2147483648;
  }

  /** The digits of `x` from the n-th up. */
  function High(x: nat, n: nat): nat
    decreases n
  {
    if n == 0 then x else High(x / 2, n - 1)
  }

  /** The n low digits of `x`. */
  function Low(x: nat, n: nat): (r: nat)
    ensures r < Pow2(n)
    decreases n
  {
    if n == 0 then 0 else x % 2 + 2 * Low(x / 2, n - 1)
  }

  /** `x` with n zero digits put below it. */
  function Up(x: nat, n: nat): nat {
    if n == 0 then x else 2 * Up(x, n - 1)
  }

  lemma HighLowByte(x: nat)
    ensures High(x, 8) == x / 256 && Low(x, 8) == x % 256
  {
    var y := x / 16;
    assert x / 2 / 2 / 2 / 2 == y;
    HighLowNibble(x);
    HighLowNibble(y);
    assert High(x, 8) == High(y, 4);
    assert Low(x, 8) == Low(x, 4) + 16 * Low(y, 4);
  }

  lemma HighLowNibble(x: nat)
    ensures High(x, 4) == x / 16 && Low(x, 4) == x % 16 && Pow2(4) == 16
  {
    var y := x / 4;
    assert High(x, 4) == High(y, 2) && High(y, 2) == y / 4;
    assert Low(y, 2) == y % 4;
    assert Low(x, 4) == x % 4 + 4 * Low(y, 2);
  }

  lemma {:induction false} HighOfSmall(x: nat, n: nat)
    requires x < Pow2(n)
    ensures High(x, n) == 0
    decreases n
  {
    if n > 0 {
      HighOfSmall(x / 2, n - 1);
    }
  }

  function Bit(b: bool): (r: nat)
    ensures r < 2
  {
    if b then 1 else 0
  }

  function Xor(a: nat, b: nat): nat
    decreases a + b
  {
    if a == 0 && b == 0 then 0 else Bit(a % 2 != b % 2) + 2 * Xor(a / 2, b / 2)
  }

  function And(a: nat, b: nat): nat
    decreases a + b
  {
    if a == 0 && b == 0 then 0 else Bit(a % 2 == 1 && b % 2 == 1) + 2 * And(a / 2, b / 2)
  }

  lemma XorDigits(a: nat, b: nat)
    ensures Xor(a, b) % 2 == Bit(a % 2 != b % 2) && Xor(a, b) / 2 == Xor(a / 2, b / 2)
  {}

  lemma {:induction false} XorHigh(a: nat, b: nat, n: nat)
    ensures High(Xor(a, b), n) == Xor(High(a, n), High(b, n))
    decreases n
  {
    if n > 0 {
      XorDigits(a, b);
      XorHigh(a / 2, b / 2, n - 1);
    }
  }

  lemma XorCons(a: nat, b: nat, digit: nat)
    requires digit < 2
    ensures Xor(2 * a, digit + 2 * b) == digit + 2 * Xor(a, b)
  {}

  /** A number is its high part over its low part. */
  lemma {:induction false} XorUpLow(x: nat, n: nat)
    ensures Xor(Up(High(x, n), n), Low(x, n)) == x
    decreases n
  {
    if n == 0 {
      XorZero(x);
    } else {
      hide Xor;
      var above, below := Up(High(x, n), n - 1), Low(x / 2, n - 1);
      XorUpLow(x / 2, n - 1);
      XorCons(above, below, x % 2);
    }
  }

  lemma {:induction false} XorZero(a: nat)
    ensures Xor(a, 0) == a && Xor(0, a) == a
  {
    if a != 0 {
      XorZero(a / 2);
    }
  }

  lemma {:induction false} XorCommutes(a: nat, b: nat)
    ensures Xor(a, b) == Xor(b, a)
    decreases a + b
  {
    if a != 0 || b != 0 {
      XorCommutes(a / 2, b / 2);
    }
  }

  lemma {:induction false} XorAssociates(a: nat, b: nat, c: nat)
    ensures Xor(Xor(a, b), c) == Xor(a, Xor(b, c))
    decreases a + b + c
  {
    if a != 0 || b != 0 || c != 0 {
      XorAssociates(a / 2, b / 2, c / 2);
      XorDigits(a, b);
      XorDigits(b, c);
      XorDigits(Xor(a, b), c);
      XorDigits(a, Xor(b, c));
    }
  }

  lemma {:induction false} XorSelf(a: nat)
    ensures Xor(a, a) == 0
  {
    if a != 0 {
      XorSelf(a / 2);
    }
  }

  /** Four-way regrouping: the sum of two sums is the sum of the pairwise sums. */
  lemma XorInterchange(a: nat, b: nat, c: nat, d: nat)
    ensures Xor(Xor(a, b), Xor(c, d)) == Xor(Xor(a, c), Xor(b, d))
  {
    calc {
      Xor(Xor(a, b), Xor(c, d));
      { XorAssociates(a, b, Xor(c, d)); }
      Xor(a, Xor(b, Xor(c, d)));
      { XorAssociates(b, c, d); XorCommutes(b, c); XorAssociates(c, b, d); }
      Xor(a, Xor(c, Xor(b, d)));
      { XorAssociates(a, c, Xor(b, d)); }
      Xor(Xor(a, c), Xor(b, d));
    }
  }

  lemma {:induction false} XorEqualOnly(a: nat, b: nat)
    ensures Xor(a, b) == 0 <==> a == b
  {
    if a == b {
      XorSelf(a);
    } else if Xor(a, b) == 0 {
      calc {
        a;
        { XorZero(a); }
        Xor(a, Xor(a, b));
        { XorAssociates(a, a, b); XorSelf(a); }
        Xor(0, b);
        { XorZero(b); }
        b;
      }
    }
  }

  lemma {:induction false} XorBound(a: nat, b: nat, n: nat)
    requires a < Pow2(n) && b < Pow2(n)
    ensures Xor(a, b) < Pow2(n)
    decreases n
  {
    if n > 0 {
      XorBound(a / 2, b / 2, n - 1);
    }
  }

  /** A leading digit that only one operand has is kept. */
  lemma {:induction false} XorKeepsTop(a: nat, b: nat, n: nat)
    requires a < Pow2(n) <= b < 2 * Pow2(n)
    ensures Pow2(n) <= Xor(a, b)
    decreases n
  {
    if n > 0 {
      XorKeepsTop(a / 2, b / 2, n - 1);
    }
  }

  lemma {:induction false} AndZero(a: nat)
    ensures And(a, 0) == 0 && And(0, a) == 0
  {
    if a != 0 {
      AndZero(a / 2);
    }
  }

  lemma AndOfOdd(a: nat, b: nat)
    ensures And(a, 2 * b + 1) == a % 2 + 2 * And(a / 2, b)
  {}

  /** Masking with 2^n - 1 keeps the n low digits. */
  lemma {:induction false} AndMask(a: nat, n: nat)
    ensures And(a, Pow2(n) - 1) == Low(a, n)
    decreases n
  {
    if n == 0 {
      AndZero(a);
    } else {
      hide And;
      AndMask(a / 2, n - 1);
      AndOfOdd(a, Pow2(n - 1) - 1);
    }
  }

  lemma {:induction false} LowOfSmall(x: nat, n: nat)
    requires x < Pow2(n)
    ensures Low(x, n) == x
    decreases n
  {
    if n > 0 {
      LowOfSmall(x / 2, n - 1);
    }
  }

  /** Quotient and remainder are determined by the division equation. */
  lemma DivMod(x: nat, m: nat, q: nat, r: nat)
    requires m > 0 && r < m && x == m * q + r
    ensures x / m == q && x % m == r
  {
    var q', r' := x / m, x % m;
    assert x == m * q' + r' && 0 <= r' < m;
    if q > q' {
      ProductGap(m, q, q');
    } else if q < q' {
      ProductGap(m, q', q);
    }
  }

  lemma ProductGap(m: nat, q: nat, q': nat)
    requires q > q'
    ensures m * q >= m * q' + m
  {
    var d := q - q' - 1;
    calc {
      m * q;
      m * (q' + (1 + d));
      m * q' + m * (1 + d);
      m * q' + m + m * d;
    }
    assert m * d >= 0;
  }
}
