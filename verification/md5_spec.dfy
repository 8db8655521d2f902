/**
 MD5 as section 3 of RFC 1321 defines it, for a whole message at once.  A 32-bit word is a
 number below 2^32; its sums wrap.
 */
module Md5Spec {

  const WORDS := 0x1_0000_0000
  newtype Word = x: int | 0 <= x < 0x1_0000_0000
  newtype Byte = x: int | 0 <= x < 0x100

  function Add(x: Word, y: Word): Word {
    ((x as int + y as int) % WORDS) as Word
  }

  /** The 32 bits of a word, and the word that they make. */
  function Bits(x: Word): bv32 {
    x as bv32
  }

  function Number(b: bv32): Word {
    b as Word
  }

  // Section 3.4: the four auxiliary functions and the rotation.

  function FBits(x: bv32, y: bv32, z: bv32): bv32 {
    (x & y) | (!x & z)
  }

  function GBits(x: bv32, y: bv32, z: bv32): bv32 {
    (x & z) | (y & !z)
  }

  function HBits(x: bv32, y: bv32, z: bv32): bv32 {
    x ^ y ^ z
  }

  function IBits(x: bv32, y: bv32, z: bv32): bv32 {
    y ^ (x | !z)
  }

  function F(x: Word, y: Word, z: Word): Word {
    Number(FBits(Bits(x), Bits(y), Bits(z)))
  }

  function G(x: Word, y: Word, z: Word): Word {
    Number(GBits(Bits(x), Bits(y), Bits(z)))
  }

  function H(x: Word, y: Word, z: Word): Word {
    Number(HBits(Bits(x), Bits(y), Bits(z)))
  }

  function I(x: Word, y: Word, z: Word): Word {
    Number(IBits(Bits(x), Bits(y), Bits(z)))
  }

  function Rotated(b: bv32, k: bv32): bv32
    requires k <= 32
  {
    (b << k) | (b >> (32 - k))
  }

  lemma SmallAmount(n: nat)
    requires n <= 32
    ensures n as bv32 <= 32
  {
  }

  function RotateLeft(x: Word, n: nat): Word
    requires n <= 32
  {
    SmallAmount(n);
    Number(Rotated(Bits(x), n as bv32))
  }

  /** The four registers. */
  datatype Regs = Regs(a: Word, b: Word, c: Word, d: Word)

  // Section 3.3
  const INIT := Regs(0x67452301, 0xefcdab89, 0x98badcfe, 0x10325476)

  function Aux(round: nat, x: Word, y: Word, z: Word): Word {
    if round == 0 then F(x, y, z)
    else if round == 1 then G(x, y, z)
    else if round == 2 then H(x, y, z)
    else I(x, y, z)
  }

  /** Which word of the block operation `i` uses. */
  function Index(i: nat): (k: nat)
    ensures k < 16
  {
    if i < 16 then i
    else if i < 32 then (5 * i + 1) % 16
    else if i < 48 then (3 * i + 5) % 16
    else (7 * i) % 16
  }

  /** How far operation `i` rotates. */
  function Shift(i: nat): (s: nat)
    ensures s <= 32
  {
    var k := i % 4;
    if i < 16 then (if k == 0 then 7 else if k == 1 then 12 else if k == 2 then 17 else 22)
    else if i < 32 then (if k == 0 then 5 else if k == 1 then 9 else if k == 2 then 14 else 20)
    else if i < 48 then (if k == 0 then 4 else if k == 1 then 11 else if k == 2 then 16 else 23)
    else (if k == 0 then 6 else if k == 1 then 10 else if k == 2 then 15 else 21)
  }

  /** T[i + 1] of the RFC: the integer part of 4294967296 * abs(sin(i + 1)). */
  function T(i: nat): Word {
    if i < 16 then T1(i) else if i < 32 then T2(i - 16) else if i < 48 then T3(i - 32) else T4(i - 48)
  }

  function T1(i: nat): Word {
    match i
    case 0 => 0xd76aa478 case 1 => 0xe8c7b756 case 2 => 0x242070db case 3 => 0xc1bdceee
    case 4 => 0xf57c0faf case 5 => 0x4787c62a case 6 => 0xa8304613 case 7 => 0xfd469501
    case 8 => 0x698098d8 case 9 => 0x8b44f7af case 10 => 0xffff5bb1 case 11 => 0x895cd7be
    case 12 => 0x6b901122 case 13 => 0xfd987193 case 14 => 0xa679438e case 15 => 0x49b40821
    case _ => 0
  }

  function T2(i: nat): Word {
    match i
    case 0 => 0xf61e2562 case 1 => 0xc040b340 case 2 => 0x265e5a51 case 3 => 0xe9b6c7aa
    case 4 => 0xd62f105d case 5 => 0x02441453 case 6 => 0xd8a1e681 case 7 => 0xe7d3fbc8
    case 8 => 0x21e1cde6 case 9 => 0xc33707d6 case 10 => 0xf4d50d87 case 11 => 0x455a14ed
    case 12 => 0xa9e3e905 case 13 => 0xfcefa3f8 case 14 => 0x676f02d9 case 15 => 0x8d2a4c8a
    case _ => 0
  }

  function T3(i: nat): Word {
    match i
    case 0 => 0xfffa3942 case 1 => 0x8771f681 case 2 => 0x6d9d6122 case 3 => 0xfde5380c
    case 4 => 0xa4beea44 case 5 => 0x4bdecfa9 case 6 => 0xf6bb4b60 case 7 => 0xbebfbc70
    case 8 => 0x289b7ec6 case 9 => 0xeaa127fa case 10 => 0xd4ef3085 case 11 => 0x04881d05
    case 12 => 0xd9d4d039 case 13 => 0xe6db99e5 case 14 => 0x1fa27cf8 case 15 => 0xc4ac5665
    case _ => 0
  }

  function T4(i: nat): Word {
    match i
    case 0 => 0xf4292244 case 1 => 0x432aff97 case 2 => 0xab9423a7 case 3 => 0xfc93a039
    case 4 => 0x655b59c3 case 5 => 0x8f0ccc92 case 6 => 0xffeff47d case 7 => 0x85845dd1
    case 8 => 0x6fa87e4f case 9 => 0xfe2ce6e0 case 10 => 0xa3014314 case 11 => 0x4e0811a1
    case 12 => 0xf7537e82 case 13 => 0xbd3af235 case 14 => 0x2ad7d2bb case 15 => 0xeb86d391
    case _ => 0
  }

  /** One operation "[abcd k s i]": a = b + ((a + f(b, c, d) + X[k] + T[i]) <<< s). */
  function Operate(f: Word, a: Word, b: Word, x: Word, s: nat, t: Word): Word
    requires s <= 32
  {
    Add(b, RotateLeft(((a as int + f as int + x as int + t as int) % WORDS) as Word, s))
  }

  /** The new value of the first register in operation `i`. */
  function Turn(x: seq<Word>, i: nat, a: Word, b: Word, c: Word, d: Word): Word
    requires |x| >= 16
  {
    Operate(Aux(i / 16, b, c, d), a, b, x[Index(i)], Shift(i), T(i))
  }

  /** Operation `i`; the registers change places, so that the next one is again on [abcd]. */
  function Step(r: Regs, x: seq<Word>, i: nat): Regs
    requires |x| >= 16
  {
    Regs(r.d, Turn(x, i, r.a, r.b, r.c, r.d), r.b, r.c)
  }

  /** The first `n` operations. */
  function Steps(r: Regs, x: seq<Word>, n: nat): Regs
    requires |x| >= 16
  {
    if n == 0 then r else Step(Steps(r, x, n - 1), x, n - 1)
  }

  function WordAt(m: seq<Byte>, k: nat): Word
    requires k + 4 <= |m|
  {
    (m[k] as int + m[k + 1] as int * 0x100 + m[k + 2] as int * 0x1_0000 + m[k + 3] as int * 0x100_0000) as Word
  }

  function BytesOf(w: int): (s: seq<Byte>)
    ensures |s| == 4
  {
    [(w % 0x100) as Byte, (w / 0x100 % 0x100) as Byte, (w / 0x1_0000 % 0x100) as Byte, (w / 0x100_0000 % 0x100) as Byte]
  }

  /** The low-order byte first, in both directions. */
  lemma BytesOfWordAt(m: seq<Byte>, k: nat)
    requires k + 4 <= |m|
    ensures BytesOf(WordAt(m, k) as int) == m[k..k + 4]
  {
    var w := WordAt(m, k) as int;
    assert w / 0x100 == m[k + 1] as int + m[k + 2] as int * 0x100 + m[k + 3] as int * 0x1_0000;
    assert w / 0x1_0000 == m[k + 2] as int + m[k + 3] as int * 0x100;
    assert w / 0x100_0000 == m[k + 3] as int;
  }

  lemma WordAtBytesOf(w: Word)
    ensures WordAt(BytesOf(w as int), 0) == w
  {
    var v := w as int;
    assert v / 0x1_0000 == v / 0x100 / 0x100 && v / 0x100_0000 == v / 0x1_0000 / 0x100;
    assert v / 0x100_0000 % 0x100 == v / 0x100_0000;
  }

  /** The sixteen words of a block. */
  function Decoded(block: seq<Byte>): (x: seq<Word>)
    requires |block| == 64
    ensures |x| == 16
  {
    seq(16, k requires 0 <= k < 16 => WordAt(block, 4 * k))
  }

  /** Section 3.4: one block. */
  function Compress(r: Regs, block: seq<Byte>): Regs
    requires |block| == 64
  {
    var q := Steps(r, Decoded(block), 64);
    Regs(Add(r.a, q.a), Add(r.b, q.b), Add(r.c, q.c), Add(r.d, q.d))
  }

  predicate BlockAligned(n: nat) {
    n % 64 == 0
  }

  /** The chaining value after a number of complete blocks. */
  function Chain(m: seq<Byte>): Regs
    requires BlockAligned(|m|)
  {
    if m == [] then INIT else Compress(Chain(m[..|m| - 64]), m[|m| - 64..])
  }

  /** Section 3.1: a 1 bit and as many 0 bits as bring the length to 56 modulo 64 bytes. */
  function Padding(n: nat): (p: seq<Byte>)
    ensures 1 <= |p| <= 64 && (n + |p|) % 64 == 56
  {
    [0x80 as Byte] + seq((55 - n) % 64, _ => 0 as Byte)
  }

  /** Section 3.2: the length in bits modulo 2^64, low-order word first. */
  function Length(n: nat): (s: seq<Byte>)
    ensures |s| == 8
  {
    BytesOf(8 * n % WORDS) + BytesOf(8 * n / WORDS % WORDS)
  }

  function Padded(m: seq<Byte>): (p: seq<Byte>)
    ensures BlockAligned(|p|)
  {
    PaddedSize(|m|, |Padding(|m|)|);
    m + Padding(|m|) + Length(|m|)
  }

  lemma PaddedSize(n: nat, p: nat)
    requires (n + p) % 64 == 56
    ensures BlockAligned(n + p + 8)
  {
  }

  /** Section 3.5 */
  function Output(r: Regs): (s: seq<Byte>)
    ensures |s| == 16
  {
    BytesOf(r.a as int) + BytesOf(r.b as int) + BytesOf(r.c as int) + BytesOf(r.d as int)
  }

  function Md5(m: seq<Byte>): (digest: seq<Byte>)
    ensures |digest| == 16
  {
    Output(Chain(Padded(m)))
  }

  lemma ChainNext(m: seq<Byte>, k: nat)
    requires BlockAligned(k) && k + 64 <= |m|
    ensures BlockAligned(k + 64)
    ensures Chain(m[..k + 64]) == Compress(Chain(m[..k]), m[k..k + 64])
  {
    assert m[..k + 64][..k] == m[..k];
    assert m[..k + 64][k..] == m[k..k + 64];
  }
}
