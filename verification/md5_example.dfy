/**
 The digest of a message of RFC 1321, section A.5, "abcdefghijklmnopqrstuvwxyz", operation by operation.  It fixes the
 tables and constants of the definition.
 */
module Md5Example {
  import opened Md5Spec
  import opened Md5Laws

  lemma FNumber(x: bv32, y: bv32, z: bv32)
    ensures F(Number(x), Number(y), Number(z)) == Number(FBits(x, y, z))
  {
    hide Bits, Number, FBits;
    BitsBack(x);
    BitsBack(y);
    BitsBack(z);
  }

  lemma GNumber(x: bv32, y: bv32, z: bv32)
    ensures G(Number(x), Number(y), Number(z)) == Number(GBits(x, y, z))
  {
    hide Bits, Number, GBits;
    BitsBack(x);
    BitsBack(y);
    BitsBack(z);
  }

  lemma HNumber(x: bv32, y: bv32, z: bv32)
    ensures H(Number(x), Number(y), Number(z)) == Number(HBits(x, y, z))
  {
    hide Bits, Number, HBits;
    BitsBack(x);
    BitsBack(y);
    BitsBack(z);
  }

  lemma INumber(x: bv32, y: bv32, z: bv32)
    ensures I(Number(x), Number(y), Number(z)) == Number(IBits(x, y, z))
  {
    hide Bits, Number, IBits;
    BitsBack(x);
    BitsBack(y);
    BitsBack(z);
  }

  /** The auxiliary function of a round, on bv32. */
  predicate AuxIs(round: nat, x: bv32, y: bv32, z: bv32, f: bv32) {
    match round
    case 0 => f == FBits(x, y, z)
    case 1 => f == GBits(x, y, z)
    case 2 => f == HBits(x, y, z)
    case _ => f == IBits(x, y, z)
  }

  lemma AuxNumber(round: nat, x: bv32, y: bv32, z: bv32, f: bv32)
    requires AuxIs(round, x, y, z, f)
    ensures Aux(round, Number(x), Number(y), Number(z)) == Number(f)
  {
    hide F, G, H, I, Number, FBits, GBits, HBits, IBits;
    match round
    case 0 => FNumber(x, y, z);
    case 1 => GNumber(x, y, z);
    case 2 => HNumber(x, y, z);
    case _ => INumber(x, y, z);
  }

  lemma RotationNumber(b: bv32, n: nat, k: bv32)
    requires n <= 32 && k as int == n
    ensures k <= 32 && RotateLeft(Number(b), n) == Number(Rotated(b, k))
  {
    hide Bits, Number, Rotated;
    BitsOfAmount(n, k);
    SmallAmount(n);
    BitsBack(b);
  }

  function AlphabetWord(k: nat): Word {
    match k
    case 0 => 0x64636261 case 1 => 0x68676665 case 2 => 0x6c6b6a69 case 3 => 0x706f6e6d
    case 4 => 0x74737271 case 5 => 0x78777675 case 6 => 0x00807a79
    case 14 => 0x000000d0
    case _ => 0
  }

  /** The padded message as words. */
  function Alphabet(): (words: seq<Word>)
    ensures |words| == 16
  {
    seq(16, k requires 0 <= k < 16 => AlphabetWord(k))
  }

  /** The registers after the first `i` operations on it. */
  function AfterOps(i: nat): Regs {
    Steps(INIT, Alphabet(), i)
  }

  /** One operation: the word of the block, the constant and the amount of the rotation; the auxiliary function, the
      sum that is rotated, and the new value of the register. */
  datatype Op = Op(x: Word, t: Word, k: bv32, f: bv32, s: bv32, n: bv32)

  /** The schedule says so for operation `i`. */
  ghost predicate Scheduled(i: nat, o: Op) {
    AlphabetWord(Index(i)) == o.x && T(i) == o.t && Shift(i) == o.k as int
  }

  ghost predicate Computed(round: nat, a: bv32, b: bv32, c: bv32, d: bv32, o: Op) {
    && o.k <= 32 && AuxIs(round, b, c, d, o.f)
    && Number(o.s) as int == (Number(a) as int + Number(o.f) as int + o.x as int + o.t as int) % WORDS
    && Number(o.n) as int == (Number(b) as int + Number(Rotated(o.s, o.k)) as int) % WORDS
  }

  lemma OpTurns(i: nat, a: bv32, b: bv32, c: bv32, d: bv32, o: Op)
    requires Scheduled(i, o) && Computed(i / 16, a, b, c, d, o)
    ensures Turn(Alphabet(), i, Number(a), Number(b), Number(c), Number(d)) == Number(o.n)
  {
    hide AuxIs, Aux, Number, Rotated, RotateLeft, T, Shift, Index, AlphabetWord;
    AuxNumber(i / 16, b, c, d, o.f);
    RotationNumber(o.s, Shift(i), o.k);
  }

  lemma NextStep(i: nat, a: bv32, b: bv32, c: bv32, d: bv32, o: Op)
    requires AfterOps(i) == Regs(Number(a), Number(b), Number(c), Number(d))
    requires Scheduled(i, o) && Computed(i / 16, a, b, c, d, o)
    ensures AfterOps(i + 1) == Regs(Number(d), Number(o.n), Number(b), Number(c))
  {
    hide Turn, Scheduled, Computed, Number;
    OpTurns(i, a, b, c, d, o);
  }

  /** Four operations, after which the registers are in their places again. */
  lemma Four(round: nat, i: nat, a: bv32, b: bv32, c: bv32, d: bv32, o: Op, p: Op, q: Op, r: Op)
    requires AfterOps(i) == Regs(Number(a), Number(b), Number(c), Number(d))
    requires Scheduled(i, o) && Scheduled(i + 1, p) && Scheduled(i + 2, q) && Scheduled(i + 3, r)
    requires i / 16 == (i + 1) / 16 == (i + 2) / 16 == (i + 3) / 16 == round
    requires Computed(round, a, b, c, d, o) && Computed(round, d, o.n, b, c, p)
    requires Computed(round, c, p.n, o.n, b, q) && Computed(round, b, q.n, p.n, o.n, r)
    ensures AfterOps(i + 4) == Regs(Number(o.n), Number(r.n), Number(q.n), Number(p.n))
  {
    hide AfterOps, Scheduled, Computed, Number;
    NextStep(i, a, b, c, d, o);
    NextStep(i + 1, d, o.n, b, c, p);
    NextStep(i + 2, c, p.n, o.n, b, q);
    NextStep(i + 3, b, q.n, p.n, o.n, r);
  }

  lemma NoSteps()
    ensures AfterOps(0) == INIT
  {
  }

  lemma Operations0()
    ensures AfterOps(4) == Regs(0xd6d117a6, 0x4503b812, 0x227d8cf1, 0xaab1aaaa)
  {
    hide AfterOps;
    NoSteps();
    Four(0, 0, 0x67452301, 0xefcdab89, 0x98badcfe, 0x10325476,
         Op(0x64636261, 0xd76aa478, 7, 0x98badcfe, 0x3bce06d8, 0xd6d117a6),
         Op(0x68676665, 0xe8c7b756, 12, 0xceebcbd8, 0x304d3e09, 0xaab1aaaa),
         Op(0x6c6b6a69, 0x242070db, 17, 0xc7dd03a3, 0xf123bbe5, 0x227d8cf1),
         Op(0x706f6e6d, 0xc1bdceee, 22, 0xf6b19ba6, 0x18ac848a, 0x4503b812));
  }

  lemma Operations4()
    requires AfterOps(4) == Regs(0xd6d117a6, 0x4503b812, 0x227d8cf1, 0xaab1aaaa)
    ensures AfterOps(8) == Regs(0xfe15f787, 0xda9bbb0d, 0xb71122fc, 0xa811b278)
  {
    hide AfterOps;
    Four(0, 4, 0xd6d117a6, 0x4503b812, 0x227d8cf1, 0xaab1aaaa,
         Op(0x74737271, 0xf57c0faf, 7, 0xaab18ab8, 0xeb72247e, 0xfe15f787),
         Op(0x78777675, 0x4787c62a, 12, 0x4469b872, 0xaf1a9fbb, 0xa811b278),
         Op(0x00807a79, 0xa8304613, 17, 0xed13ba02, 0xb842077f, 0xb71122fc),
         Op(0x00000000, 0xfd469501, 22, 0xe815f77b, 0x2a60448e, 0xda9bbb0d));
  }

  lemma Operations8()
    requires AfterOps(8) == Regs(0xfe15f787, 0xda9bbb0d, 0xb71122fc, 0xa811b278)
    ensures AfterOps(12) == Regs(0xae752899, 0x56cfa5cb, 0x7d4bd80b, 0x2bbe757f)
  {
    hide AfterOps;
    Four(0, 8, 0xfe15f787, 0xda9bbb0d, 0xb71122fc, 0xa811b278,
         Op(0x00000000, 0x698098d8, 7, 0xb211227c, 0x19a7b2db, 0xae752899),
         Op(0x00000000, 0x8b44f7af, 12, 0x9b112a6d, 0xce67d494, 0x2bbe757f),
         Op(0x00000000, 0xffff5bb1, 17, 0xfa35aa19, 0xb14628c6, 0x7d4bd80b),
         Op(0x00000000, 0x895cd7be, 22, 0xab3e709b, 0x0f370366, 0x56cfa5cb));
  }

  lemma Operations12()
    requires AfterOps(12) == Regs(0xae752899, 0x56cfa5cb, 0x7d4bd80b, 0x2bbe757f)
    ensures AfterOps(16) == Regs(0x1754a316, 0x608d6b7e, 0x00df74d5, 0x85567d90)
  {
    hide AfterOps;
    Four(0, 12, 0xae752899, 0x56cfa5cb, 0x7d4bd80b, 0x2bbe757f,
         Op(0x00000000, 0x6b901122, 7, 0x7d7bd03f, 0x978109fa, 0x1754a316),
         Op(0x00000000, 0xfd987193, 12, 0x7e4ff90b, 0xa7a6e01d, 0x85567d90),
         Op(0x000000d0, 0xa679438e, 17, 0x57dda15b, 0x7ba2bdc4, 0x00df74d5),
         Op(0x00000000, 0x49b40821, 22, 0x1756f792, 0xb7daa57e, 0x608d6b7e));
  }

  lemma Operations16()
    requires AfterOps(16) == Regs(0x1754a316, 0x608d6b7e, 0x00df74d5, 0x85567d90)
    ensures AfterOps(20) == Regs(0x2d8071cc, 0x4c2145b3, 0xedfe7e4b, 0x5dcee119)
  {
    hide AfterOps;
    Four(1, 16, 0x1754a316, 0x608d6b7e, 0x00df74d5, 0x85567d90,
         Op(0x68676665, 0xf61e2562, 5, 0x008d6955, 0x76679832, 0x2d8071cc),
         Op(0x00807a79, 0xc040b340, 9, 0x60807bee, 0xa6982737, 0x5dcee119),
         Op(0x00000000, 0x265e5a51, 14, 0x4d8c7198, 0x74ca40be, 0xedfe7e4b),
         Op(0x64636261, 0xe9b6c7aa, 20, 0x7dcef059, 0x2c7685e2, 0x4c2145b3));
  }

  lemma Operations20()
    requires AfterOps(20) == Regs(0x2d8071cc, 0x4c2145b3, 0xedfe7e4b, 0x5dcee119)
    ensures AfterOps(24) == Regs(0x570c43e0, 0xc9f162d4, 0xc28ab49d, 0x977efd2a)
  {
    hide AfterOps;
    Four(1, 20, 0x2d8071cc, 0x4c2145b3, 0xedfe7e4b, 0x5dcee119,
         Op(0x78777675, 0xd62f105d, 5, 0xec305f53, 0x685757f1, 0x570c43e0),
         Op(0x00000000, 0x02441453, 9, 0x450d43f0, 0xa520395c, 0x977efd2a),
         Op(0x00000000, 0xd8a1e681, 14, 0x172c4762, 0xddccac2e, 0xc28ab49d),
         Op(0x74737271, 0xe7d3fbc8, 20, 0xc27abc8a, 0x6ae37076, 0xc9f162d4));
  }

  lemma Operations24()
    requires AfterOps(24) == Regs(0x570c43e0, 0xc9f162d4, 0xc28ab49d, 0x977efd2a)
    ensures AfterOps(28) == Regs(0x25bfae3b, 0xe6d3b398, 0xf8c8365f, 0x89980104)
  {
    hide AfterOps;
    Four(1, 24, 0x570c43e0, 0xc9f162d4, 0xc28ab49d, 0x977efd2a,
         Op(0x00000000, 0x21e1cde6, 5, 0xc1f06095, 0x3ade725b, 0x25bfae3b),
         Op(0x000000d0, 0xc33707d6, 9, 0x09fbe659, 0x64b1ec29, 0x89980104),
         Op(0x706f6e6d, 0xf4d50d87, 14, 0xad9e8c2f, 0xd56dbcc0, 0xf8c8365f),
         Op(0x00000000, 0x455a14ed, 20, 0xa888271f, 0xb7d39ee0, 0xe6d3b398));
  }

  lemma Operations28()
    requires AfterOps(28) == Regs(0x25bfae3b, 0xe6d3b398, 0xf8c8365f, 0x89980104)
    ensures AfterOps(32) == Regs(0xf54d8710, 0xaeb35766, 0x2e69afc7, 0x927b72e2)
  {
    hide AfterOps;
    Four(1, 28, 0x25bfae3b, 0xe6d3b398, 0xf8c8365f, 0x89980104,
         Op(0x00000000, 0xa9e3e905, 5, 0xf0d0375b, 0xc073ce9b, 0xf54d8710),
         Op(0x6c6b6a69, 0xfcefa3f8, 9, 0xf65b8790, 0xe94e96f5, 0x927b72e2),
         Op(0x00000000, 0x676f02d9, 14, 0x935f3680, 0xf3966fb8, 0x2e69afc7),
         Op(0x00000000, 0x8d2a4c8a, 20, 0x267bf7e2, 0x9a79f804, 0xaeb35766));
  }

  lemma Operations32()
    requires AfterOps(32) == Regs(0xf54d8710, 0xaeb35766, 0x2e69afc7, 0x927b72e2)
    ensures AfterOps(36) == Regs(0xb4bf680e, 0x06a5e211, 0x2361ed0a, 0x4c8ffa80)
  {
    hide AfterOps;
    Four(2, 32, 0xf54d8710, 0xaeb35766, 0x2e69afc7, 0x927b72e2,
         Op(0x78777675, 0xfffa3942, 4, 0x12a18a43, 0x8060c10a, 0xb4bf680e),
         Op(0x00000000, 0x8771f681, 11, 0x346590af, 0x4e52fa12, 0x4c8ffa80),
         Op(0x00000000, 0x6d9d6122, 16, 0x5683c5e8, 0xf28ad6d1, 0x2361ed0a),
         Op(0x000000d0, 0xfde5380c, 23, 0xdb517f84, 0x87ea0fc6, 0x06a5e211));
  }

  lemma Operations36()
    requires AfterOps(36) == Regs(0xb4bf680e, 0x06a5e211, 0x2361ed0a, 0x4c8ffa80)
    ensures AfterOps(40) == Regs(0xb9c0c733, 0x8d41bf99, 0x23a9451b, 0xf1e6dc7a)
  {
    hide AfterOps;
    Four(2, 36, 0xb4bf680e, 0x06a5e211, 0x2361ed0a, 0x4c8ffa80,
         Op(0x68676665, 0xa4beea44, 4, 0x694bf59b, 0x2b31ae52, 0xb9c0c733),
         Op(0x74737271, 0x4bdecfa9, 11, 0x9c04c828, 0xa8e704c2, 0xf1e6dc7a),
         Op(0x00000000, 0xf6bb4b60, 16, 0x4e83f958, 0x68a131c2, 0x23a9451b),
         Op(0x00000000, 0xbebfbc70, 23, 0x6b8f5e52, 0x30f4fcd3, 0x8d41bf99));
  }

  lemma Operations40()
    requires AfterOps(40) == Regs(0xb9c0c733, 0x8d41bf99, 0x23a9451b, 0xf1e6dc7a)
    ensures AfterOps(44) == Regs(0xa3e88ead, 0x90a35af5, 0x66f6468d, 0x02c0b11c)
  {
    hide AfterOps;
    Four(2, 40, 0xb9c0c733, 0x8d41bf99, 0x23a9451b, 0xf1e6dc7a,
         Op(0x00000000, 0x289b7ec6, 4, 0x5f0e26f8, 0x416a6cf1, 0xa3e88ead),
         Op(0x64636261, 0xeaa127fa, 11, 0x0d00742f, 0x4debdb04, 0x02c0b11c),
         Op(0x706f6e6d, 0xd4ef3085, 16, 0x2c698028, 0x95716435, 0x66f6468d),
         Op(0x00807a79, 0x04881d05, 23, 0xc7de793c, 0x5a28d053, 0x90a35af5));
  }

  lemma Operations44()
    requires AfterOps(44) == Regs(0xa3e88ead, 0x90a35af5, 0x66f6468d, 0x02c0b11c)
    ensures AfterOps(48) == Regs(0xb5d41f9c, 0x71d10367, 0x703d54d8, 0xa04b4904)
  {
    hide AfterOps;
    Four(2, 44, 0xa3e88ead, 0x90a35af5, 0x66f6468d, 0x02c0b11c,
         Op(0x00000000, 0xd9d4d039, 4, 0xf495ad64, 0x72530c4a, 0xb5d41f9c),
         Op(0x00000000, 0xe6db99e5, 11, 0x438103e4, 0x2d1d4ee5, 0xa04b4904),
         Op(0x00000000, 0x1fa27cf8, 16, 0x853c0c6d, 0x0bd4cff2, 0x703d54d8),
         Op(0x6c6b6a69, 0xc4ac5665, 23, 0x65a20240, 0x275d1e03, 0x71d10367));
  }

  lemma Operations48()
    requires AfterOps(48) == Regs(0xb5d41f9c, 0x71d10367, 0x703d54d8, 0xa04b4904)
    ensures AfterOps(52) == Regs(0xfc32dd6e, 0x33edb197, 0xb35602cb, 0x65456b34)
  {
    hide AfterOps;
    Four(3, 48, 0xb5d41f9c, 0x71d10367, 0x703d54d8, 0xa04b4904,
         Op(0x64636261, 0xf4292244, 6, 0x0fc8e327, 0x1e298768, 0xfc32dd6e),
         Op(0x00000000, 0x432aff97, 10, 0x8e23fc08, 0x719a44a3, 0x65456b34),
         Op(0x000000d0, 0xab9423a7, 15, 0x135d22d2, 0x2f2e9c21, 0xb35602cb),
         Op(0x78777675, 0xfc93a039, 21, 0xd69a49ef, 0xbd766404, 0x33edb197));
  }

  lemma Operations52()
    requires AfterOps(52) == Regs(0xfc32dd6e, 0x33edb197, 0xb35602cb, 0x65456b34)
    ensures AfterOps(56) == Regs(0xc1e942f1, 0x83877d1b, 0x23a68048, 0xd9bb987c)
  {
    hide AfterOps;
    Four(3, 52, 0xfc32dd6e, 0x33edb197, 0xb35602cb, 0x65456b34,
         Op(0x00000000, 0x655b59c3, 6, 0x08a9b714, 0x6a37ee45, 0xc1e942f1),
         Op(0x706f6e6d, 0x8f0ccc92, 10, 0xfe044e62, 0x62c5f495, 0xd9bb987c),
         Op(0x00000000, 0xffeff47d, 15, 0x1c529c8d, 0xcf9893d5, 0x23a68048),
         Op(0x68676665, 0x85845dd1, 21, 0xe60d2532, 0x07e69aff, 0x83877d1b));
  }

  lemma Operations56()
    requires AfterOps(56) == Regs(0xc1e942f1, 0x83877d1b, 0x23a68048, 0xd9bb987c)
    ensures AfterOps(60) == Regs(0x0077c208, 0x5e6bc930, 0xa3e2247f, 0x847fc2e7)
  {
    hide AfterOps;
    Four(3, 56, 0xc1e942f1, 0x83877d1b, 0x23a68048, 0xd9bb987c,
         Op(0x00000000, 0x6fa87e4f, 6, 0x8461ffd3, 0xb5f3c113, 0x0077c208),
         Op(0x00000000, 0xfe2ce6e0, 10, 0x5ff882a4, 0x37e10200, 0x847fc2e7),
         Op(0x00807a79, 0xa3014314, 15, 0xfc0800ef, 0xc3303ec4, 0xa3e2247f),
         Op(0x00000000, 0x4e0811a1, 21, 0x7b95ff18, 0x4d258dd4, 0x5e6bc930));
  }

  lemma Operations60()
    requires AfterOps(60) == Regs(0x0077c208, 0x5e6bc930, 0xa3e2247f, 0x847fc2e7)
    ensures AfterOps(64) == Regs(0x708ed9c2, 0x1116e6d8, 0xd38f1e7f, 0x2baf1354)
  {
    hide AfterOps;
    Four(3, 60, 0x0077c208, 0x5e6bc930, 0xa3e2247f, 0x847fc2e7,
         Op(0x74737271, 0xf7537e82, 6, 0xdc09d947, 0x48488c42, 0x708ed9c2),
         Op(0x00000000, 0xbd3af235, 10, 0x22f412f2, 0x64aec80e, 0x2baf1354),
         Op(0x6c6b6a69, 0x2ad7d2bb, 15, 0xdb31ee1d, 0x16574fc0, 0xd38f1e7f),
         Op(0x00000000, 0xeb86d391, 21, 0xf4502d2b, 0x3e42c9ec, 0x1116e6d8));
  }

  lemma AllOperations()
    ensures AfterOps(64) == Regs(0x708ed9c2, 0x1116e6d8, 0xd38f1e7f, 0x2baf1354)
  {
    hide AfterOps;
    Operations0();
    Operations4();
    Operations8();
    Operations12();
    Operations16();
    Operations20();
    Operations24();
    Operations28();
    Operations32();
    Operations36();
    Operations40();
    Operations44();
    Operations48();
    Operations52();
    Operations56();
    Operations60();
  }

  /** The codes of the letters from "a" to "z". */
  function Message(): (m: seq<Byte>)
    ensures |m| == 26
  {
    seq(26, k requires 0 <= k < 26 => (0x61 + k) as Byte)
  }

  function Zeros(n: nat): seq<Byte> {
    seq(n, _ => 0 as Byte)
  }

  /** One 1 bit, zeros, and the length of 208 bits. */
  lemma PaddedMessage()
    ensures Padded(Message()) == Message() + ([0x80] + Zeros(29)) + [0xd0, 0, 0, 0, 0, 0, 0, 0]
  {
    assert Padding(26) == [0x80 as Byte] + Zeros(29);
    assert BytesOf(208) == [0xd0, 0, 0, 0] && BytesOf(0) == [0, 0, 0, 0];
    assert Length(26) == BytesOf(208) + BytesOf(0);
  }

  lemma WordOf(m: seq<Byte>, k: nat, a: Byte, b: Byte, c: Byte, d: Byte)
    requires k + 4 <= |m| && m[k] == a && m[k + 1] == b && m[k + 2] == c && m[k + 3] == d
    ensures WordAt(m, k) as int == a as int + b as int * 0x100 + c as int * 0x1_0000 + d as int * 0x100_0000
  {
  }

  lemma LetterWords(m: seq<Byte>)
    requires |m| == 64 && m[..26] == Message() && m[26] == 0x80 && m[27] == 0
    ensures forall k | 0 <= k < 7 :: WordAt(m, 4 * k) == AlphabetWord(k)
  {
    hide WordAt;
    assert forall k | 0 <= k < 26 :: m[k] == m[..26][k] == (0x61 + k) as Byte;
    WordOf(m, 0, 0x61, 0x62, 0x63, 0x64);
    WordOf(m, 4, 0x65, 0x66, 0x67, 0x68);
    WordOf(m, 8, 0x69, 0x6a, 0x6b, 0x6c);
    WordOf(m, 12, 0x6d, 0x6e, 0x6f, 0x70);
    WordOf(m, 16, 0x71, 0x72, 0x73, 0x74);
    WordOf(m, 20, 0x75, 0x76, 0x77, 0x78);
    WordOf(m, 24, 0x79, 0x7a, 0x80, 0);
  }

  lemma OtherWords(m: seq<Byte>)
    requires |m| == 64 && m[56] == 0xd0 && forall k | 27 <= k < 56 || 57 <= k < 64 :: m[k] == 0
    ensures forall k | 7 <= k < 16 :: WordAt(m, 4 * k) == AlphabetWord(k)
  {
    hide WordAt;
    forall k | 7 <= k < 16 && k != 14
      ensures WordAt(m, 4 * k) == 0 == AlphabetWord(k)
    {
      WordOf(m, 4 * k, 0, 0, 0, 0);
    }
    WordOf(m, 56, 0xd0, 0, 0, 0);
  }

  lemma DecodedMessage()
    ensures |Padded(Message())| == 64 && Decoded(Padded(Message())) == Alphabet()
  {
    hide Padded, WordAt;
    PaddedMessage();
    var m := Padded(Message());
    LetterWords(m);
    OtherWords(m);
  }

  /** The bytes of a word, low-order byte first. */
  lemma BytesAre(w: int, a: Byte, b: Byte, c: Byte, d: Byte)
    requires w == a as int + b as int * 0x100 + c as int * 0x1_0000 + d as int * 0x100_0000
    ensures BytesOf(w) == [a, b, c, d]
  {
    assert w / 0x100 == b as int + c as int * 0x100 + d as int * 0x1_0000;
    assert w / 0x1_0000 == c as int + d as int * 0x100;
    assert w / 0x100_0000 == d as int;
  }

  lemma OutputBytes()
    ensures Output(Regs(0xd7d3fcc3, 0x00e49261, 0x6c49fb7d, 0x3be167ca)) == [
              0xc3, 0xfc, 0xd3, 0xd7, 0x61, 0x92, 0xe4, 0x00, 0x7d, 0xfb, 0x49, 0x6c, 0xca, 0x67, 0xe1, 0x3b
            ]
  {
    hide BytesOf;
    BytesAre(0xd7d3fcc3, 0xc3, 0xfc, 0xd3, 0xd7);
    BytesAre(0x00e49261, 0x61, 0x92, 0xe4, 0x00);
    BytesAre(0x6c49fb7d, 0x7d, 0xfb, 0x49, 0x6c);
    BytesAre(0x3be167ca, 0xca, 0x67, 0xe1, 0x3b);
  }

  /** MD5("abcdefghijklmnopqrstuvwxyz") = c3fcd3d76192e4007dfb496cca67e13b. */
  lemma DigestOfAlphabet()
    ensures Md5(Message()) == [
              0xc3, 0xfc, 0xd3, 0xd7, 0x61, 0x92, 0xe4, 0x00, 0x7d, 0xfb, 0x49, 0x6c, 0xca, 0x67, 0xe1, 0x3b
            ]
  {
    hide Steps, Padded, Decoded, Output;
    DecodedMessage();
    AllOperations();
    var m := Padded(Message());
    assert m[..0] == [] && m[0..] == m;
    assert Chain(m) == Compress(INIT, m) == Regs(0xd7d3fcc3, 0x00e49261, 0x6c49fb7d, 0x3be167ca);
    OutputBytes();
  }
}
