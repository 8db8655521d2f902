/** The streaming MD5 of md5.cpp and md5.h. */
module Md5 {
  import opened Md5Spec

  // The macros of md5.h:13-41: the sums are taken in another order than in the RFC.

  function Mix(f: Word, a: Word, b: Word, x: Word, s: nat, ac: Word): (r: Word)
    requires s <= 32
    ensures r == Operate(f, a, b, x, s, ac)
  {
    SumsAgree(a, f, x, ac);
    Add(RotateLeft(Add(a, Add(Add(f, x), ac)), s), b)
  }

  lemma SumsAgree(a: Word, f: Word, x: Word, t: Word)
    ensures Add(a, Add(Add(f, x), t)) as int == (a as int + f as int + x as int + t as int) % WORDS
  {
    ModSum(t as int, f as int + x as int);
    ModSum(a as int, f as int + x as int + t as int);
  }

  lemma ModSum(x: int, y: int)
    ensures (x + y % WORDS) % WORDS == (y % WORDS + x) % WORDS == (x + y) % WORDS
  {
    assert x + y == WORDS * (y / WORDS) + (x + y % WORDS);
  }

  function FF(a: Word, b: Word, c: Word, d: Word, x: Word, s: nat, ac: Word): Word
    requires s <= 32
  {
    Mix(F(b, c, d), a, b, x, s, ac)
  }

  function GG(a: Word, b: Word, c: Word, d: Word, x: Word, s: nat, ac: Word): Word
    requires s <= 32
  {
    Mix(G(b, c, d), a, b, x, s, ac)
  }

  function HH(a: Word, b: Word, c: Word, d: Word, x: Word, s: nat, ac: Word): Word
    requires s <= 32
  {
    Mix(H(b, c, d), a, b, x, s, ac)
  }

  function II(a: Word, b: Word, c: Word, d: Word, x: Word, s: nat, ac: Word): Word
    requires s <= 32
  {
    Mix(I(b, c, d), a, b, x, s, ac)
  }

  /** Four operations in a row, written on registers that stay in place. */
  lemma FourTurns(r: Regs, x: seq<Word>, i: nat, a: Word, b: Word, c: Word, d: Word)
    requires |x| >= 16 && Steps(r, x, i) == Regs(a, b, c, d)
    ensures var a1 := Turn(x, i, a, b, c, d);
            var d1 := Turn(x, i + 1, d, a1, b, c);
            var c1 := Turn(x, i + 2, c, d1, a1, b);
            var b1 := Turn(x, i + 3, b, c1, d1, a1);
            Steps(r, x, i + 4) == Regs(a1, b1, c1, d1)
  {
    hide Turn;
    var a1 := Turn(x, i, a, b, c, d);
    assert Steps(r, x, i + 1) == Regs(d, a1, b, c);
    var d1 := Turn(x, i + 1, d, a1, b, c);
    assert Steps(r, x, i + 2) == Regs(c, d1, a1, b);
    var c1 := Turn(x, i + 2, c, d1, a1, b);
    assert Steps(r, x, i + 3) == Regs(b, c1, d1, a1);
  }

  method Round1(a0: Word, b0: Word, c0: Word, d0: Word, x: array<Word>, ghost r: Regs)
    returns (a: Word, b: Word, c: Word, d: Word)
    requires x.Length == 64 && Steps(r, x[..16], 0) == Regs(a0, b0, c0, d0)
    ensures Steps(r, x[..16], 16) == Regs(a, b, c, d)
  {
    hide Steps, Mix, Operate, F, G, H, I;
    a, b, c, d := a0, b0, c0, d0;
    FourTurns(r, x[..16], 0, a, b, c, d);
    a := FF(a, b, c, d, x[0], 7, 0xd76aa478);
    d := FF(d, a, b, c, x[1], 12, 0xe8c7b756);
    c := FF(c, d, a, b, x[2], 17, 0x242070db);
    b := FF(b, c, d, a, x[3], 22, 0xc1bdceee);
    FourTurns(r, x[..16], 4, a, b, c, d);
    a := FF(a, b, c, d, x[4], 7, 0xf57c0faf);
    d := FF(d, a, b, c, x[5], 12, 0x4787c62a);
    c := FF(c, d, a, b, x[6], 17, 0xa8304613);
    b := FF(b, c, d, a, x[7], 22, 0xfd469501);
    FourTurns(r, x[..16], 8, a, b, c, d);
    a := FF(a, b, c, d, x[8], 7, 0x698098d8);
    d := FF(d, a, b, c, x[9], 12, 0x8b44f7af);
    c := FF(c, d, a, b, x[10], 17, 0xffff5bb1);
    b := FF(b, c, d, a, x[11], 22, 0x895cd7be);
    FourTurns(r, x[..16], 12, a, b, c, d);
    a := FF(a, b, c, d, x[12], 7, 0x6b901122);
    d := FF(d, a, b, c, x[13], 12, 0xfd987193);
    c := FF(c, d, a, b, x[14], 17, 0xa679438e);
    b := FF(b, c, d, a, x[15], 22, 0x49b40821);
  }

  method Round2(a0: Word, b0: Word, c0: Word, d0: Word, x: array<Word>, ghost r: Regs)
    returns (a: Word, b: Word, c: Word, d: Word)
    requires x.Length == 64 && Steps(r, x[..16], 16) == Regs(a0, b0, c0, d0)
    ensures Steps(r, x[..16], 32) == Regs(a, b, c, d)
  {
    hide Steps, Mix, Operate, F, G, H, I;
    a, b, c, d := a0, b0, c0, d0;
    FourTurns(r, x[..16], 16, a, b, c, d);
    a := GG(a, b, c, d, x[1], 5, 0xf61e2562);
    d := GG(d, a, b, c, x[6], 9, 0xc040b340);
    c := GG(c, d, a, b, x[11], 14, 0x265e5a51);
    b := GG(b, c, d, a, x[0], 20, 0xe9b6c7aa);
    FourTurns(r, x[..16], 20, a, b, c, d);
    a := GG(a, b, c, d, x[5], 5, 0xd62f105d);
    d := GG(d, a, b, c, x[10], 9, 0x2441453);
    c := GG(c, d, a, b, x[15], 14, 0xd8a1e681);
    b := GG(b, c, d, a, x[4], 20, 0xe7d3fbc8);
    FourTurns(r, x[..16], 24, a, b, c, d);
    a := GG(a, b, c, d, x[9], 5, 0x21e1cde6);
    d := GG(d, a, b, c, x[14], 9, 0xc33707d6);
    c := GG(c, d, a, b, x[3], 14, 0xf4d50d87);
    b := GG(b, c, d, a, x[8], 20, 0x455a14ed);
    FourTurns(r, x[..16], 28, a, b, c, d);
    a := GG(a, b, c, d, x[13], 5, 0xa9e3e905);
    d := GG(d, a, b, c, x[2], 9, 0xfcefa3f8);
    c := GG(c, d, a, b, x[7], 14, 0x676f02d9);
    b := GG(b, c, d, a, x[12], 20, 0x8d2a4c8a);
  }

  method Round3(a0: Word, b0: Word, c0: Word, d0: Word, x: array<Word>, ghost r: Regs)
    returns (a: Word, b: Word, c: Word, d: Word)
    requires x.Length == 64 && Steps(r, x[..16], 32) == Regs(a0, b0, c0, d0)
    ensures Steps(r, x[..16], 48) == Regs(a, b, c, d)
  {
    hide Steps, Mix, Operate, F, G, H, I;
    a, b, c, d := a0, b0, c0, d0;
    FourTurns(r, x[..16], 32, a, b, c, d);
    a := HH(a, b, c, d, x[5], 4, 0xfffa3942);
    d := HH(d, a, b, c, x[8], 11, 0x8771f681);
    c := HH(c, d, a, b, x[11], 16, 0x6d9d6122);
    b := HH(b, c, d, a, x[14], 23, 0xfde5380c);
    FourTurns(r, x[..16], 36, a, b, c, d);
    a := HH(a, b, c, d, x[1], 4, 0xa4beea44);
    d := HH(d, a, b, c, x[4], 11, 0x4bdecfa9);
    c := HH(c, d, a, b, x[7], 16, 0xf6bb4b60);
    b := HH(b, c, d, a, x[10], 23, 0xbebfbc70);
    FourTurns(r, x[..16], 40, a, b, c, d);
    a := HH(a, b, c, d, x[13], 4, 0x289b7ec6);
    d := HH(d, a, b, c, x[0], 11, 0xeaa127fa);
    c := HH(c, d, a, b, x[3], 16, 0xd4ef3085);
    b := HH(b, c, d, a, x[6], 23, 0x4881d05);
    FourTurns(r, x[..16], 44, a, b, c, d);
    a := HH(a, b, c, d, x[9], 4, 0xd9d4d039);
    d := HH(d, a, b, c, x[12], 11, 0xe6db99e5);
    c := HH(c, d, a, b, x[15], 16, 0x1fa27cf8);
    b := HH(b, c, d, a, x[2], 23, 0xc4ac5665);
  }

  method Round4(a0: Word, b0: Word, c0: Word, d0: Word, x: array<Word>, ghost r: Regs)
    returns (a: Word, b: Word, c: Word, d: Word)
    requires x.Length == 64 && Steps(r, x[..16], 48) == Regs(a0, b0, c0, d0)
    ensures Steps(r, x[..16], 64) == Regs(a, b, c, d)
  {
    hide Steps, Mix, Operate, F, G, H, I;
    a, b, c, d := a0, b0, c0, d0;
    FourTurns(r, x[..16], 48, a, b, c, d);
    a := II(a, b, c, d, x[0], 6, 0xf4292244);
    d := II(d, a, b, c, x[7], 10, 0x432aff97);
    c := II(c, d, a, b, x[14], 15, 0xab9423a7);
    b := II(b, c, d, a, x[5], 21, 0xfc93a039);
    FourTurns(r, x[..16], 52, a, b, c, d);
    a := II(a, b, c, d, x[12], 6, 0x655b59c3);
    d := II(d, a, b, c, x[3], 10, 0x8f0ccc92);
    c := II(c, d, a, b, x[10], 15, 0xffeff47d);
    b := II(b, c, d, a, x[1], 21, 0x85845dd1);
    FourTurns(r, x[..16], 56, a, b, c, d);
    a := II(a, b, c, d, x[8], 6, 0x6fa87e4f);
    d := II(d, a, b, c, x[15], 10, 0xfe2ce6e0);
    c := II(c, d, a, b, x[6], 15, 0xa3014314);
    b := II(b, c, d, a, x[13], 21, 0x4e0811a1);
    FourTurns(r, x[..16], 60, a, b, c, d);
    a := II(a, b, c, d, x[4], 6, 0xf7537e82);
    d := II(d, a, b, c, x[11], 10, 0xbd3af235);
    c := II(c, d, a, b, x[2], 15, 0x2ad7d2bb);
    b := II(b, c, d, a, x[9], 21, 0xeb86d391);
  }

  // MD5Decode (md5.cpp:68-80)
  method Decode(output: array<Word>, input: seq<Byte>, len: nat)
    requires len == |input| && len % 4 == 0 && len / 4 <= output.Length
    modifies output
    ensures forall k | 0 <= k < len / 4 :: output[k] == WordAt(input, 4 * k)
    ensures forall k | len / 4 <= k < output.Length :: output[k] == old(output[k])
  {
    var i, j := 0, 0;
    while j < len
      invariant j == 4 * i <= len
      invariant forall k | 0 <= k < i :: output[k] == WordAt(input, 4 * k)
      invariant forall k | i <= k < output.Length :: output[k] == old(output[k])
    {
      output[i] := WordAt(input, j);
      i := i + 1;
      j := j + 4;
    }
  }

  /** The bytes of the first words of `ws`, low-order byte first. */
  function Encoded(ws: seq<Word>, count: nat): (s: seq<Byte>)
    requires count <= |ws|
    ensures |s| == 4 * count
  {
    if count == 0 then [] else Encoded(ws, count - 1) + BytesOf(ws[count - 1] as int)
  }

  // MD5Encode (md5.cpp:55-67)
  method Encode(output: array<Byte>, input: array<Word>, len: nat)
    requires len == output.Length && len % 4 == 0 && len / 4 <= input.Length
    modifies output
    ensures output[..] == Encoded(input[..], len / 4)
  {
    var i, j := 0, 0;
    while j < len
      invariant j == 4 * i <= len
      invariant output[..j] == Encoded(input[..], i)
    {
      var w := input[i] as int;
      output[j] := (w % 0x100) as Byte;
      output[j + 1] := (w / 0x100 % 0x100) as Byte;
      output[j + 2] := (w / 0x1_0000 % 0x100) as Byte;
      output[j + 3] := (w / 0x100_0000 % 0x100) as Byte;
      assert output[..j + 4] == output[..j] + BytesOf(w);
      i := i + 1;
      j := j + 4;
    }
    assert output[..] == output[..len];
  }

  function RegsOf(state: seq<Word>): Regs
    requires |state| == 4
  {
    Regs(state[0], state[1], state[2], state[3])
  }

  // MD5Transform (md5.cpp:81-163)
  method Transform(state: array<Word>, block: seq<Byte>)
    requires state.Length == 4 && |block| == 64
    modifies state
    ensures RegsOf(state[..]) == Compress(RegsOf(old(state[..])), block)
  {
    hide Steps;
    var x := new Word[64];
    Decode(x, block, 64);
    assert x[..16] == Decoded(block);
    ghost var r := RegsOf(state[..]);
    NoSteps(r, x[..16]);
    var a, b, c, d := Round1(state[0], state[1], state[2], state[3], x, r);
    a, b, c, d := Round2(a, b, c, d, x, r);
    a, b, c, d := Round3(a, b, c, d, x, r);
    a, b, c, d := Round4(a, b, c, d, x, r);
    state[0] := Add(state[0], a);
    state[1] := Add(state[1], b);
    state[2] := Add(state[2], c);
    state[3] := Add(state[3], d);
  }

  lemma NoSteps(r: Regs, x: seq<Word>)
    requires |x| >= 16
    ensures Steps(r, x, 0) == r
  {
  }

  // memcpy(&dst[at], src, |src|)
  method MemCpy(dst: array<Byte>, at: nat, src: seq<Byte>)
    requires at + |src| <= dst.Length
    modifies dst
    ensures dst[..at + |src|] == old(dst[..at]) + src
  {
    for k := 0 to |src|
      invariant dst[..at + k] == old(dst[..at]) + src[..k]
    {
      dst[at + k] := src[k];
      assert dst[..at + k + 1] == dst[..at + k] + [src[k]];
    }
    assert src[..|src|] == src;
  }

  // ----- The context -----

  /** The part of a message that fills complete blocks. */
  function Whole(n: nat): (k: nat)
    ensures k <= n < k + 64 && BlockAligned(k) && BlockAligned(k + 64)
  {
    n - n % 64
  }

  /** The two counter words hold 8 times the number of bytes, modulo 2^64. */
  predicate Counts(c0: Word, c1: Word, n: nat) {
    c0 as int == 8 * n % WORDS && c1 as int == 8 * n / WORDS % WORDS
  }

  lemma IndexIsTail(c0: Word, c1: Word, n: nat)
    requires Counts(c0, c1, n)
    ensures c0 as int / 8 % 64 == n - Whole(n)
  {
    var q := 8 * n / WORDS;
    assert 8 * n == WORDS * q + c0 as int;
    var k := c0 as int / 8;
    Remainder(n, 0x80_0000 * q + k / 64, k % 64);
  }

  lemma Remainder(n: int, q: int, r: int)
    requires n == 64 * q + r && 0 <= r < 64
    ensures n % 64 == r
  {
  }

  /** The loop test i + 64 <= inputlen of MD5Update wraps: for `len` bytes after `n` earlier ones. */
  predicate Wraps(n: nat, len: nat) {
    len >= WORDS - 64 && (64 - n % 64) % 64 <= len - (WORDS - 64)
  }

  /** A position of the loop where the test holds although less than a block is left. */
  predicate ReadsOn(n: nat, len: Word, i: Word) {
    i <= len && BlockAligned(n + i as int) && Add(i, 64) <= len && len as int < i as int + 64
  }

  /** The loop comes to such a position exactly if the test wraps. */
  lemma WrapsIff(n: nat, len: Word)
    ensures Wraps(n, len as int) <==> exists i: Word :: ReadsOn(n, len, i)
  {
    if Wraps(n, len as int) {
      var i := (WORDS - 64 + (64 - n % 64) % 64) as Word;
      FirstAligned(n);
      assert ReadsOn(n, len, i);
    } else if i: Word :| ReadsOn(n, len, i) {
      NoWrap(n, len as int, i as int);
      assert false;
    }
  }

  /** The variable of the loop after `k` turns, on unsigned numbers, starting behind the partial block. */
  function Position(n: nat, k: nat): (i: nat)
    ensures i < WORDS
  {
    (64 - n % 64 + 64 * k) % WORDS
  }

  /** The loop test i + 64 <= inputlen after `k` turns. */
  predicate Continues(n: nat, len: Word, k: nat) {
    (Position(n, k) + 64) % WORDS <= len as int
  }

  /** The test always holds, so that the loop does not end, exactly if it wraps. */
  lemma EndlessIff(n: nat, len: Word)
    ensures (forall k: nat :: Continues(n, len, k)) <==> Wraps(n, len as int)
  {
    if Wraps(n, len as int) {
      forall k: nat
        ensures Continues(n, len, k)
      {
        NextPosition(n, k);
        LastPosition(n, k + 1);
      }
    } else {
      Reached(n);
      var k: nat := if n % 64 == 0 then 0x3FF_FFFD else 0x3FF_FFFE;
      NextPosition(n, k);
      assert !Continues(n, len, k);
    }
  }

  lemma NextPosition(n: nat, k: nat)
    ensures Position(n, k + 1) == (Position(n, k) + 64) % WORDS
  {
    ModSum(64, 64 - n % 64 + 64 * k);
  }

  /** No position is beyond the last one that is a whole number of blocks behind the start. */
  lemma LastPosition(n: nat, k: nat)
    ensures Position(n, k) <= WORDS - 64 + (64 - n % 64) % 64
  {
    var x := 64 - n % 64 + 64 * k;
    var q := x / WORDS;
    assert Position(n, k) == x - WORDS * q == 64 - n % 64 + 64 * (k - 0x400_0000 * q);
  }

  /** That one is reached. */
  lemma Reached(n: nat)
    ensures Position(n, if n % 64 == 0 then 0x3FF_FFFE else 0x3FF_FFFF) == WORDS - 64 + (64 - n % 64) % 64
  {
  }

  /** The first such call: 2^32 - 64 bytes into a fresh context. */
  lemma FirstWraps()
    ensures Wraps(0, WORDS - 64) && forall k: nat :: Continues(0, 0xFFFF_FFC0, k)
  {
    EndlessIff(0, 0xFFFF_FFC0);
  }

  lemma FirstAligned(n: nat)
    ensures BlockAligned(n + WORDS - 64 + (64 - n % 64) % 64)
  {
    var e := (64 - n % 64) % 64;
    assert n % 64 + e == 0 || n % 64 + e == 64;
    Remainder(n + WORDS - 64 + e, n / 64 + 0x400_0000 - 1 + (n % 64 + e) / 64, 0);
  }

  lemma ShortDoesNotWrap(n: nat, len: nat)
    requires len < WORDS - 64
    ensures !Wraps(n, len)
  {
  }

  lemma MustWrap(n: nat, len: nat, i: nat)
    requires i <= len < WORDS && BlockAligned(n + i) && i + 64 >= WORDS
    ensures Wraps(n, len)
  {
    var e := i - (WORDS - 64);
    Remainder(n + e, (n + i) / 64 - (0x400_0000 - 1), 0);
  }

  lemma NoWrap(n: nat, len: nat, i: nat)
    requires i <= len < WORDS && BlockAligned(n + i) && !Wraps(n, len)
    ensures i + 64 < WORDS
  {
    if i + 64 >= WORDS {
      MustWrap(n, len, i);
    }
  }

  lemma Shifted(len: int)
    ensures len * 8 == WORDS * (len / 0x2000_0000) + len * 8 % WORDS
  {
  }

  lemma Carry(x: int, y: int)
    requires 0 <= x < WORDS && 0 <= y < WORDS
    ensures var sum := (x + y) % WORDS;
            x + y == (if sum < y then WORDS else 0) + sum
  {
  }

  lemma CountAgrees(c0: Word, c1: Word, len: Word, n: nat, d0: Word, d1: Word)
    requires Counts(c0, c1, n)
    requires var shifted := len as int * 8 % WORDS;
             && d0 as int == (c0 as int + shifted) % WORDS
             && d1 as int ==
                   ((c1 as int + if d0 as int < shifted then 1 else 0) % WORDS + len as int / 0x2000_0000) % WORDS
    ensures Counts(d0, d1, n + len as int)
  {
    var q := 8 * n / WORDS;
    var shifted := len as int * 8 % WORDS;
    var carry := if d0 as int < shifted then 1 else 0;
    assert 8 * n == WORDS * q + c0 as int;
    Shifted(len as int);
    Carry(c0 as int, shifted);
    var q' := q + len as int / 0x2000_0000 + carry;
    Quotient(8 * (n + len as int), q', d0 as int);
    var z := q / WORDS;
    var y := (c1 as int + carry) / WORDS;
    var w := ((c1 as int + carry) % WORDS + len as int / 0x2000_0000) / WORDS;
    Quotient(q', z + y + w, d1 as int);
  }

  lemma Quotient(x: int, q: int, r: int)
    requires x == WORDS * q + r && 0 <= r < WORDS
    ensures x / WORDS == q && x % WORDS == r
  {
  }

  /** The counter update of MD5Update (md5.cpp:25-28). */
  method CountUp(c0: Word, c1: Word, len: Word, ghost n: nat) returns (d0: Word, d1: Word)
    requires Counts(c0, c1, n)
    ensures Counts(d0, d1, n + len as int)
  {
    var shifted := ((len as int * 8) % WORDS) as Word;
    d0 := Add(c0, shifted);
    d1 := c1;
    if d0 < shifted {
      d1 := Add(d1, 1);
    }
    d1 := Add(d1, len / 0x2000_0000);
    CountAgrees(c0, c1, len, n, d0, d1);
  }

  // md5.cpp:5-8
  const PADDING: seq<Byte> := [0x80 as Byte] + seq(63, _ => 0 as Byte)

  /** What the context says about the bytes fed so far: the chaining value of their complete
      blocks, the bytes after those, and their number. */
  ghost predicate Holds(fed: seq<Byte>, state: seq<Word>, count: seq<Word>, buffer: seq<Byte>) {
    && |state| == 4 && |count| == 2 && |buffer| == 64
    && RegsOf(state) == Chain(fed[..Whole(|fed|)])
    && buffer[..|fed| - Whole(|fed|)] == fed[Whole(|fed|)..]
    && Counts(count[0], count[1], |fed|)
  }

  class Context {
    const count: array<Word>
    const state: array<Word>
    const buffer: array<Byte>
    ghost var fed: seq<Byte>

    ghost predicate Separate() {
      count.Length == 2 && state.Length == 4 && buffer.Length == 64 && count != state
    }

    ghost predicate Valid()
      reads this, count, state, buffer
    {
      Separate() && Holds(fed, state[..], count[..], buffer[..])
    }

    constructor ()
      ensures Separate() && fresh(count) && fresh(state) && fresh(buffer)
    {
      count := new Word[2];
      state := new Word[4];
      buffer := new Byte[64];
    }

    // MD5Init (md5.cpp:11-19)
    method Init()
      requires Separate()
      modifies this, count, state
      ensures Valid() && fed == []
    {
      hide Chain, Whole;
      count[0] := 0;
      count[1] := 0;
      state[0] := 0x67452301;
      state[1] := 0xEFCDAB89;
      state[2] := 0x98BADCFE;
      state[3] := 0x10325476;
      fed := [];
      WholeIs(0, 0);
      NothingFed();
    }

    /** Completes the block in the buffer and transforms it (md5.cpp:32-33). */
    method FirstBlock(part: seq<Byte>, ghost m: seq<Byte>, ghost n: nat)
      requires Separate() && n + |part| == Whole(n) + 64 <= |m| && m[n..n + |part|] == part
      requires RegsOf(state[..]) == Chain(m[..Whole(n)]) && buffer[..n - Whole(n)] == m[Whole(n)..n]
      modifies state, buffer
      ensures RegsOf(state[..]) == Chain(m[..Whole(n) + 64])
    {
      hide Chain, Compress, RegsOf;
      MemCpy(buffer, 64 - |part|, part);
      assert buffer[..] == buffer[..64] == m[Whole(n)..Whole(n) + 64];
      ChainNext(m, Whole(n));
      Transform(state, buffer[..]);
    }

    /** The state is the chaining value of the first `k` bytes, which are complete blocks. */
    ghost predicate Reached(m: seq<Byte>, k: nat)
      requires state.Length == 4
      reads this, state
    {
      k <= |m| && BlockAligned(k) && RegsOf(state[..]) == Chain(m[..k])
    }

    /** Transforms a block of the input (md5.cpp:35). */
    method NextBlock(block: seq<Byte>, ghost m: seq<Byte>, ghost k: nat)
      requires Separate() && BlockAligned(k) && k + 64 <= |m| && block == m[k..k + 64]
      requires RegsOf(state[..]) == Chain(m[..k])
      modifies state
      ensures BlockAligned(k + 64) && RegsOf(state[..]) == Chain(m[..k + 64])
    {
      hide Chain, Compress, RegsOf;
      ChainNext(m, k);
      Transform(state, block);
    }

    /** Keeps what is left of the input in the buffer (md5.cpp:42). */
    method Tail(index: nat, rest: seq<Byte>, ghost m: seq<Byte>)
      requires Separate() && Whole(|m|) + index + |rest| == |m|
      requires buffer[..index] == m[Whole(|m|)..|m| - |rest|] && rest == m[|m| - |rest|..]
      modifies buffer
      ensures buffer[..|m| - Whole(|m|)] == m[Whole(|m|)..]
    {
      MemCpy(buffer, index, rest);
    }

    /** The branch of MD5Update that completes blocks (md5.cpp:32-35). */
    method Blocks(input: seq<Byte>, partLen: Word, ghost n: nat, ghost m: seq<Byte>) returns (i: Word)
      requires Separate() && |input| < WORDS && !Wraps(n, |input|) && |m| == n + |input| && m[n..] == input
      requires n + partLen as int == Whole(n) + 64 <= |m|
      requires RegsOf(state[..]) == Chain(m[..Whole(n)]) && buffer[..n - Whole(n)] == m[Whole(n)..n]
      modifies state, buffer
      ensures i as int <= |input| < i as int + 64 && Reached(m, n + i as int)
    {
      hide Chain, Compress, RegsOf, BlockAligned, Whole;
      var inputLen := |input| as Word;
      FirstBlock(input[..partLen], m, n);
      i := partLen;
      ghost var k := Whole(n) + 64;
      while Add(i, 64) <= inputLen
        invariant i <= inputLen && k == n + i as int && BlockAligned(k)
        invariant RegsOf(state[..]) == Chain(m[..k])
        decreases |input| - i as int
        modifies state
      {
        NoWrap(n, |input|, i as int);
        NextBlock(input[i..i + 64], m, k);
        i := i + 64;
        k := k + 64;
      }
    }

    // MD5Update (md5.cpp:20-43)
    method Update(input: seq<Byte>)
      requires Valid() && |input| < WORDS && !Wraps(|fed|, |input|)
      modifies this`fed, count, state, buffer
      ensures Valid() && fed == old(fed) + input
    {
      hide Chain, Compress, RegsOf, Counts, BlockAligned, Whole;
      var inputLen := |input| as Word;
      ghost var m := fed + input;
      ghost var n := |fed|;
      assert m[..Whole(n)] == fed[..Whole(n)];
      assert m[Whole(n)..n] == fed[Whole(n)..];
      IndexIsTail(count[0], count[1], n);
      var index := (count[0] / 8) % 64;
      var partLen := 64 - index;
      count[0], count[1] := CountUp(count[0], count[1], inputLen, n);
      var i: Word := 0;
      if inputLen >= partLen {
        i := Blocks(input, partLen, n, m);
        index := 0;
      }
      WholeIs(|m|, n + i as int - index as int);
      Tail(index as int, input[i..], m);
      fed := m;
      assert |m| == n + inputLen as int;
    }

    // MD5Final (md5.cpp:44-54)
    method Final(digest: array<Byte>)
      requires Valid() && digest.Length == 16 && digest != buffer
      modifies this`fed, count, state, buffer, digest
      ensures digest[..] == Md5(old(fed))
      ensures Valid() && fed == Padded(old(fed)) && Whole(|fed|) == |fed|
    {
      hide Chain, Counts, BlockAligned, Whole, Encoded, Padding, Length, PADDING, Wraps, Md5;
      ghost var m := fed;
      IndexIsTail(count[0], count[1], |m|);
      var index := (count[0] / 8) % 64;
      var padLen := if index < 56 then 56 - index else 120 - index;
      PaddingAgrees(|m|, index as int, padLen as int);
      var bits := new Byte[8];
      Encode(bits, count, 8);
      LengthAgrees(count[..], |m|);
      ghost var length := bits[..];
      ShortDoesNotWrap(|fed|, |PADDING[..padLen]|);
      Update(PADDING[..padLen]);
      ShortDoesNotWrap(|fed|, |bits[..]|);
      Update(bits[..]);
      assert fed == m + Padding(|m|) + Length(|m|);
      WriteDigest(digest, m);
    }

    /** The state of a padded message, low-order bytes first (md5.cpp:53). */
    method WriteDigest(digest: array<Byte>, ghost m: seq<Byte>)
      requires Valid() && digest.Length == 16 && digest != buffer && fed == Padded(m)
      modifies digest
      ensures Valid() && digest[..] == Md5(m) && Whole(|fed|) == |fed|
    {
      hide Chain, Counts, BlockAligned, Whole, Encoded, Padding, Length, RegsOf;
      WholeIs(|fed|, |fed|);
      assert fed[..|fed|] == fed;
      Encode(digest, state, 16);
      OutputAgrees(state[..]);
    }
  }

  lemma PaddingAgrees(n: nat, index: nat, padLen: nat)
    requires index == n - Whole(n) && padLen == if index < 56 then 56 - index else 120 - index
    ensures padLen <= |PADDING| && PADDING[..padLen] == Padding(n)
  {
    var q := Whole(n) / 64;
    assert n == 64 * q + index;
    assert (55 - n) % 64 == padLen - 1;
  }

  lemma LengthAgrees(count: seq<Word>, n: nat)
    requires |count| == 2 && Counts(count[0], count[1], n)
    ensures Encoded(count, 2) == Length(n)
  {
    assert Encoded(count, 1) == Encoded(count, 0) + BytesOf(count[0] as int);
  }

  lemma OutputAgrees(state: seq<Word>)
    requires |state| == 4
    ensures Encoded(state, 4) == Output(RegsOf(state))
  {
    hide BytesOf;
    assert Encoded(state, 1) == BytesOf(state[0] as int);
    assert Encoded(state, 2) == Encoded(state, 1) + BytesOf(state[1] as int);
    assert Encoded(state, 3) == Encoded(state, 2) + BytesOf(state[2] as int);
  }

  lemma NothingFed()
    ensures Chain([]) == INIT
  {
  }

  lemma WholeIs(n: nat, k: nat)
    requires k <= n < k + 64 && BlockAligned(k)
    ensures Whole(n) == k
  {
  }

  /** Contexts that were fed the same bytes agree on everything a later call can see, however the
      bytes were divided into calls. */
  lemma ChunkingIndependent(x: Context, y: Context)
    requires x.Valid() && y.Valid() && x.fed == y.fed
    ensures x.state[..] == y.state[..] && x.count[..] == y.count[..]
    ensures x.count[0] as int / 8 % 64 == y.count[0] as int / 8 % 64 == |x.fed| % 64
    ensures x.buffer[..|x.fed| % 64] == y.buffer[..|x.fed| % 64]
  {
    hide Chain;
    IndexIsTail(x.count[0], x.count[1], |x.fed|);
    IndexIsTail(y.count[0], y.count[1], |x.fed|);
  }

  function Joined(chunks: seq<seq<Byte>>): seq<Byte> {
    if chunks == [] then [] else Joined(chunks[..|chunks| - 1]) + chunks[|chunks| - 1]
  }

  /** The digest of a message that is fed in any division into chunks. */
  method DigestOf(chunks: seq<seq<Byte>>) returns (digest: array<Byte>)
    requires forall k | 0 <= k < |chunks| :: |chunks[k]| < WORDS && !Wraps(|Joined(chunks[..k])|, |chunks[k]|)
    ensures digest[..] == Md5(Joined(chunks))
  {
    hide Context.Valid, Md5;
    var context := new Context();
    context.Init();
    for k := 0 to |chunks|
      invariant context.Separate() && context.Valid() && context.fed == Joined(chunks[..k])
      invariant fresh(context) && fresh(context.count) && fresh(context.state) && fresh(context.buffer)
    {
      assert chunks[..k + 1][..k] == chunks[..k];
      context.Update(chunks[k]);
    }
    assert chunks[..|chunks|] == chunks;
    digest := new Byte[16];
    context.Final(digest);
  }
}
