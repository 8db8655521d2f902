/**
 The bit operations of MD5, said without naming them: which input each bit comes from, and what rotating does to the
 number.  A bv32 and the number it stands for are the same word.
 */
module Md5Laws {
  import opened Md5Spec
  import opened Powers

  // ----- Words as bits and as numbers -----

  lemma ShiftedNumber(b: bv32)
    ensures (b << 1) as int == if b as int < 0x8000_0000 then 2 * (b as int) else 2 * (b as int) - WORDS
  {
  }

  lemma LowBit(b: bv32)
    ensures ((b << 1) | 1) as int == (b << 1) as int + 1
  {
  }

  lemma {:induction false} BitsOf(x: int) returns (b: bv32)
    requires 0 <= x < WORDS
    ensures b as int == x
  {
    if x == 0 {
      b := 0;
    } else {
      var h := BitsOf(x / 2);
      ShiftedNumber(h);
      LowBit(h);
      b := if x % 2 == 0 then h << 1 else (h << 1) | 1;
    }
  }

  lemma BitsBack(b: bv32)
    ensures Bits(Number(b)) == b
  {
  }

  lemma NumberBack(x: Word)
    ensures Number(Bits(x)) == x
  {
    var b := BitsOf(x as int);
    assert x == Number(b);
    BitsBack(b);
  }

  // ----- Section 3.4: "if X then Y else Z", and so on, for each bit -----

  /** Where X has a 1, F has the bit of Y, and elsewhere that of Z. */
  lemma FSelects(x: Word, y: Word, z: Word)
    ensures Bits(F(x, y, z)) & Bits(x) == Bits(y) & Bits(x)
    ensures Bits(F(x, y, z)) & !Bits(x) == Bits(z) & !Bits(x)
  {
    hide Bits, Number;
    BitsBack(FBits(Bits(x), Bits(y), Bits(z)));
  }

  /** Where Z has a 1, G has the bit of X, and elsewhere that of Y. */
  lemma GSelects(x: Word, y: Word, z: Word)
    ensures Bits(G(x, y, z)) & Bits(z) == Bits(x) & Bits(z)
    ensures Bits(G(x, y, z)) & !Bits(z) == Bits(y) & !Bits(z)
  {
    hide Bits, Number;
    BitsBack(GBits(Bits(x), Bits(y), Bits(z)));
  }

  /** The bits in which two words agree. */
  function Agree(x: bv32, y: bv32): bv32 {
    (x & y) | (!x & !y)
  }

  /** Where X and Y agree, H has the bit of Z, and elsewhere the other one: it is the parity. */
  lemma HParity(x: Word, y: Word, z: Word)
    ensures var same := Agree(Bits(x), Bits(y));
            && Bits(H(x, y, z)) & same == Bits(z) & same
            && Bits(H(x, y, z)) & !same == !Bits(z) & !same
  {
    hide Bits, Number;
    BitsBack(HBits(Bits(x), Bits(y), Bits(z)));
  }

  /** Where Z has a 1, I says whether X and Y differ, and elsewhere it has the other bit than Y. */
  lemma IDiffers(x: Word, y: Word, z: Word)
    ensures Bits(I(x, y, z)) & Bits(z) == !Agree(Bits(x), Bits(y)) & Bits(z)
    ensures Bits(I(x, y, z)) & !Bits(z) == !Bits(y) & !Bits(z)
  {
    hide Bits, Number;
    BitsBack(IBits(Bits(x), Bits(y), Bits(z)));
  }

  // ----- The rotation -----

  /** What rotating by one place does to the number: the highest bit moves to the lowest place. */
  function Doubled(v: int): int {
    if v < 0x8000_0000 then 2 * v else 2 * v - WORDS + 1
  }

  lemma RotateOnceBits(b: bv32)
    ensures ((b << 1) | (b >> 31)) as int == Doubled(b as int)
  {
  }

  lemma RotateOnce(b: bv32)
    ensures Number((b << 1) | (b >> 31)) as int == Doubled(Number(b) as int)
  {
    hide Number;
    RotateOnceBits(b);
    NumberIs((b << 1) | (b >> 31));
    NumberIs(b);
  }

  lemma RotateMore(b: bv32, k: bv32)
    requires k < 32
    ensures var v := Rotated(b, k); Rotated(b, k + 1) == (v << 1) | (v >> 31)
  {
    assert 32 - (k + 1) == 31 - k;
  }

  lemma NoRotation(b: bv32)
    ensures Rotated(b, 0) == b
  {
  }

  lemma PlusOne(k: bv32)
    requires k < 32
    ensures (k + 1) as int == k as int + 1
  {
  }

  /** Rotating once more: `h` are the bits that have moved to the low end, `b` is the next one, `l` are the others. */
  lemma RotateNumber(v: int, h: int, b: int, l: int, p: int, q: int)
    requires 0 <= l < q && 0 <= h < p && 0 <= b <= 1 && q * p == 0x8000_0000 && v == (b * q + l) * p + h
    ensures (if v < 0x8000_0000 then 2 * v else 2 * v - WORDS + 1) == l * (2 * p) + (2 * h + b)
    ensures 2 * h + b < 2 * p
  {
    Distribute(b, q, l, p);
    Below(l, q, p, h);
    assert l * (2 * p) == 2 * (l * p);
  }

  lemma Distribute(b: int, q: int, l: int, p: int)
    ensures (b * q + l) * p == b * (q * p) + l * p
  {
  }

  lemma Below(l: int, q: int, p: int, h: int)
    requires 0 <= l < q && 0 <= h < p
    ensures 0 <= l * p + h < q * p
  {
    assert (l + 1) * p <= q * p;
  }

  lemma SameBits(b: bv32, c: bv32)
    requires b as int == c as int
    ensures b == c
  {
    BitsBack(b);
    BitsBack(c);
  }

  lemma BitsOfAmount(n: nat, k: bv32)
    requires n <= 32 && k as int == n
    ensures k == n as bv32
  {
  }

  lemma AmountIsSmall(k: bv32)
    requires k as int <= 32
    ensures k <= 32
  {
  }

  /** The parts above and below a place, one place further. */
  lemma NextPlace(x: int, q: int)
    requires x >= 0 && q > 0
    ensures var h, b := x / (2 * q), x / q % 2; x / q == 2 * h + b && x % (2 * q) == b * q + x % q
  {
    var d, l := x / q, x % q;
    assert d == 2 * (d / 2) + d % 2;
    TwoPlaces(q, d / 2, d % 2, l);
    assert x == 2 * q * (d / 2) + (d % 2 * q + l);
    Quotient(x, 2 * q, d / 2, d % 2 * q + l);
  }

  lemma TwoPlaces(q: int, h: int, b: int, l: int)
    requires 0 <= l < q && 0 <= b <= 1
    ensures q * (2 * h + b) + l == 2 * q * h + (b * q + l)
    ensures 0 <= b * q + l < 2 * q
  {
    assert b == 0 || b == 1;
  }

  lemma Quotient(x: int, m: int, q: int, r: int)
    requires m > 0 && x == m * q + r && 0 <= r < m
    ensures x / m == q && x % m == r
  {
    var d := x / m - q;
    assert m * d == r - x % m;
    Multiples(m, d);
  }

  lemma Multiples(m: int, d: int)
    requires m > 0
    ensures d >= 1 ==> m * d >= m
    ensures d <= -1 ==> m * d <= -m
  {
  }

  lemma DoubledParts(x: int, n: nat)
    requires 0 <= x < WORDS && 1 <= n <= 32
    ensures var q, p := Pow2(32 - n), Pow2(n - 1);
            Doubled(x % (2 * q) * p + x / (2 * q)) == x % q * (2 * p) + x / q
  {
    var p, q := Pow2(n - 1), Pow2(32 - n);
    Halves(n);
    NextPlace(x, q);
    HighPart(x, q, p);
    RotateNumber(x % (2 * q) * p + x / (2 * q), x / (2 * q), x / q % 2, x % q, p, q);
  }

  /** The bits that leave at the high end are put in at the low end. */
  function Parts(x: int, n: nat): int
    requires n <= 32
  {
    x % Pow2(32 - n) * Pow2(n) + x / Pow2(32 - n)
  }

  lemma NextParts(x: int, n: nat)
    requires 0 <= x < WORDS && 1 <= n <= 32
    ensures Parts(x, n) == Doubled(Parts(x, n - 1))
  {
    DoubledParts(x, n);
    assert Pow2(32 - (n - 1)) == 2 * Pow2(32 - n) && Pow2(n) == 2 * Pow2(n - 1);
  }

  lemma NoParts(x: int)
    requires 0 <= x < WORDS
    ensures Parts(x, 0) == x
  {
    Full();
  }

  lemma RotateMoreNumber(b: bv32, k: bv32)
    requires k < 32
    ensures Number(Rotated(b, k + 1)) as int == Doubled(Number(Rotated(b, k)) as int)
  {
    hide Rotated, Number, Doubled;
    RotateMore(b, k);
    RotateOnce(Rotated(b, k));
  }

  lemma {:induction false} RotatedNumber(b: bv32, n: nat, k: bv32)
    requires n <= 32 && k as int == n
    ensures k <= 32 && Number(Rotated(b, k)) as int == Parts(Number(b) as int, n)
  {
    hide Rotated, Parts, Doubled, Number;
    AmountIsSmall(k);
    if n == 0 {
      SameBits(k, 0);
      NoRotation(b);
      NoParts(Number(b) as int);
    } else {
      var k0 := BitsOf(n - 1);
      RotatedNumber(b, n - 1, k0);
      AmountIsBelow(k0);
      PlusOne(k0);
      SameBits(k, k0 + 1);
      RotateMoreNumber(b, k0);
      NextParts(Number(b) as int, n);
    }
  }

  lemma AmountIsBelow(k: bv32)
    requires k as int < 32
    ensures k < 32
  {
  }

  lemma Full()
    ensures Pow2(32) == WORDS && Pow2(31) == 0x8000_0000
  {
    Pow2Sum(16, 16);
    Pow2Sum(16, 15);
    Pow2Sum(8, 8);
    Pow2Sum(8, 7);
    assert Pow2(4) == 16 && Pow2(8) == 256 by {
      Pow2Sum(4, 4);
    }
    assert Pow2(7) == 128 by {
      Pow2Sum(4, 3);
    }
  }

  lemma Halves(n: nat)
    requires 1 <= n <= 32
    ensures Pow2(32 - n) * Pow2(n - 1) == 0x8000_0000
  {
    Full();
    Pow2Sum(32 - n, n - 1);
  }

  lemma HighPart(x: int, q: int, p: int)
    requires 0 <= x < WORDS && q > 0 && q * p == 0x8000_0000
    ensures 0 <= x / (2 * q) < p
  {
    var h := x / (2 * q);
    assert x == 2 * q * h + x % (2 * q);
    Multiples(2 * q, h);
    Multiples(2 * q, h - p + 1);
    assert 2 * q * (h - p + 1) == 2 * q * h - 2 * (q * p) + 2 * q;
  }

  /** Rotating multiplies by a power of two, and what that carries beyond the word comes back at the low end. */
  lemma RotateLeftNumber(x: Word, n: nat)
    requires n <= 32
    ensures RotateLeft(x, n) as int == x as int * Pow2(n) % WORDS + x as int / Pow2(32 - n)
  {
    hide Parts, Pow2;
    var b := BitsOf(x as int);
    RotateLeftIs(x, n, b);
    Carried(x as int, n);
  }

  lemma BitsAre(x: Word, b: bv32)
    requires b as int == x as int
    ensures Bits(x) == b
  {
    BitsBack(b);
  }

  lemma NumberIs(b: bv32)
    ensures Number(b) as int == b as int
  {
  }

  lemma RotateLeftIs(x: Word, n: nat, b: bv32)
    requires n <= 32 && b as int == x as int
    ensures RotateLeft(x, n) as int == Parts(x as int, n)
  {
    hide Parts, Bits, Number, Rotated;
    var k := BitsOf(n);
    BitsAre(x, b);
    BitsOfAmount(n, k);
    RotatedNumber(b, n, k);
    NumberIs(b);
  }

  lemma Carried(x: int, n: nat)
    requires 0 <= x && n <= 32
    ensures Parts(x, n) == x * Pow2(n) % WORDS + x / Pow2(32 - n)
  {
    hide Pow2;
    var q, p := Pow2(32 - n), Pow2(n);
    Full();
    Pow2Sum(32 - n, n);
    CarriedNumber(x, x / q, x % q, q, p);
  }

  lemma CarriedNumber(x: int, h: int, l: int, q: int, p: int)
    requires x == h * q + l && 0 <= l < q && p > 0 && q * p == WORDS
    ensures l * p == x * p % WORDS
  {
    Distribute(h, q, l, p);
    Below(l, q, p, 0);
    Quotient(x * p, WORDS, h, l * p);
  }
}
