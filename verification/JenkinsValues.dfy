/** Known values of the hashes of common/missing/jhash.h, computed digit by digit. */
module JenkinsValues {
  import opened Basics
  import opened JenkinsHash

  // ----- computing a line of the mixing -----

  /** Exclusive or of two hexadecimal digits, bit by bit from the highest. */
  function Xor1(a: int, b: int): int { if (a >= 1) != (b >= 1) then 1 else 0 }

  function Xor2(a: int, b: int): int {
    (if (a >= 2) != (b >= 2) then 2 else 0) + Xor1(if a >= 2 then a - 2 else a, if b >= 2 then b - 2 else b)
  }

  function Xor4(a: int, b: int): int {
    (if (a >= 4) != (b >= 4) then 4 else 0) + Xor2(if a >= 4 then a - 4 else a, if b >= 4 then b - 4 else b)
  }

  function Xor8(a: int, b: int): int {
    (if (a >= 8) != (b >= 8) then 8 else 0) + Xor4(if a >= 8 then a - 8 else a, if b >= 8 then b - 8 else b)
  }

  /** Eight hexadecimal digits, the highest first. */
  datatype Hex = Hex(h7: nat, h6: nat, h5: nat, h4: nat, h3: nat, h2: nat, h1: nat, h0: nat)

  predicate Digits(h: Hex) {
    && h.h7 < 16 && h.h6 < 16 && h.h5 < 16 && h.h4 < 16
    && h.h3 < 16 && h.h2 < 16 && h.h1 < 16 && h.h0 < 16
  }

  function Value(h: Hex): nat {
    h.h0 + 0x10 * h.h1 + 0x100 * h.h2 + 0x1000 * h.h3
    + 0x10000 * h.h4 + 0x100000 * h.h5 + 0x1000000 * h.h6 + 0x10000000 * h.h7
  }

  /** r is the exclusive or of a and b, digit by digit. */
  predicate XorHex(a: Hex, b: Hex, r: Hex) {
    && Digits(a) && Digits(b)
    && r.h7 == Xor8(a.h7, b.h7) && r.h6 == Xor8(a.h6, b.h6) && r.h5 == Xor8(a.h5, b.h5) && r.h4 == Xor8(a.h4, b.h4)
    && r.h3 == Xor8(a.h3, b.h3) && r.h2 == Xor8(a.h2, b.h2) && r.h1 == Xor8(a.h1, b.h1) && r.h0 == Xor8(a.h0, b.h0)
  }

  lemma XorNext(k: nat, x: nat, a: nat, y: nat, b: nat)
    requires x < Pow2(k) && y < Pow2(k) && a < 2 && b < 2
    ensures 2 * x + a < Pow2(k + 1) && 2 * y + b < Pow2(k + 1)
    ensures XorBits(k + 1, 2 * x + a, 2 * y + b) == 2 * XorBits(k, x, y) + Xor1(a, b)
  {
    assert (2 * x + a) / 2 == x && (2 * y + b) / 2 == y;
  }

  datatype Nibble = Nibble(b3: nat, b2: nat, b1: nat, b0: nat)

  /** The bits of a digit. */
  function Split(a: nat): (n: Nibble)
    requires a < 16
    ensures n.b3 < 2 && n.b2 < 2 && n.b1 < 2 && n.b0 < 2
    ensures a == 8 * n.b3 + 4 * n.b2 + 2 * n.b1 + n.b0
  {
    var b3 := if a >= 8 then 1 else 0;
    var r3 := a - 8 * b3;
    var b2 := if r3 >= 4 then 1 else 0;
    var r2 := r3 - 4 * b2;
    var b1 := if r2 >= 2 then 1 else 0;
    Nibble(b3, b2, b1, r2 - 2 * b1)
  }

  lemma Xor8OnBits(a: nat, b: nat)
    requires a < 16 && b < 16
    ensures var m, n := Split(a), Split(b);
            Xor8(a, b) == 8 * Xor1(m.b3, n.b3) + 4 * Xor1(m.b2, n.b2) + 2 * Xor1(m.b1, n.b1) + Xor1(m.b0, n.b0)
  {
    hide Xor2, Xor1;
    var m, n := Split(a), Split(b);
    Xor2OnBits(2 * m.b1 + m.b0, 2 * n.b1 + n.b0, m, n);
    Xor1OfBits(m.b2, n.b2);
    Xor1OfBits(m.b3, n.b3);
  }

  lemma Xor2OnBits(a: nat, b: nat, m: Nibble, n: Nibble)
    requires m.b1 < 2 && m.b0 < 2 && n.b1 < 2 && n.b0 < 2
    requires a == 2 * m.b1 + m.b0 && b == 2 * n.b1 + n.b0
    ensures Xor2(a, b) == 2 * Xor1(m.b1, n.b1) + Xor1(m.b0, n.b0)
  {
  }

  lemma Xor1OfBits(a: nat, b: nat)
    requires a < 2 && b < 2
    ensures Xor1(a, b) == if a != b then 1 else 0
  {
  }

  /** One digit more on both sides, which then are v and w. */
  lemma XorDigit(k: nat, x: nat, a: nat, y: nat, b: nat, v: nat, w: nat)
    requires x < Pow2(k) && y < Pow2(k) && a < 16 && b < 16 && v == 16 * x + a && w == 16 * y + b
    ensures v < Pow2(k + 4) && w < Pow2(k + 4) && XorBits(k + 4, v, w) == 16 * XorBits(k, x, y) + Xor8(a, b)
  {
    hide XorBits, Pow2, Xor1, Xor8, Split;
    Xor8OnBits(a, b);
    var m, n := Split(a), Split(b);
    XorNext(k, x, m.b3, y, n.b3);
    var x1, y1 := 2 * x + m.b3, 2 * y + n.b3;
    XorNext(k + 1, x1, m.b2, y1, n.b2);
    var x2, y2 := 2 * x1 + m.b2, 2 * y1 + n.b2;
    XorNext(k + 2, x2, m.b1, y2, n.b1);
    var x3, y3 := 2 * x2 + m.b1, 2 * y2 + n.b1;
    XorNext(k + 3, x3, m.b0, y3, n.b0);
    assert 2 * x3 + m.b0 == v && 2 * y3 + n.b0 == w;
  }

  lemma XorNothing()
    ensures Pow2(0) == 1 && XorBits(0, 0, 0) == 0
  {
  }

  function Four(a: nat, b: nat, c: nat, d: nat): nat { 0x1000 * a + 0x100 * b + 0x10 * c + d }

  /** Two digits more on both sides. */
  lemma XorTwo(k: nat, x: nat, y: nat, a: nat, b: nat, a': nat, b': nat, v: nat, w: nat)
    requires x < Pow2(k) && y < Pow2(k) && a < 16 && b < 16 && a' < 16 && b' < 16
    requires v == 0x100 * x + 0x10 * a + b && w == 0x100 * y + 0x10 * a' + b'
    ensures v < Pow2(k + 8) && w < Pow2(k + 8)
    ensures XorBits(k + 8, v, w) == 0x100 * XorBits(k, x, y) + 0x10 * Xor8(a, a') + Xor8(b, b')
  {
    hide XorBits, Pow2, Xor8;
    var x1, y1 := 16 * x + a, 16 * y + a';
    XorDigit(k, x, a, y, a', x1, y1);
    XorDigit(k + 4, x1, b, y1, b', v, w);
  }

  /** Four digits more on both sides. */
  lemma XorFour(k: nat, x: nat, y: nat, a: nat, b: nat, c: nat, d: nat, a': nat, b': nat, c': nat, d': nat,
                v: nat, w: nat)
    requires x < Pow2(k) && y < Pow2(k) && a < 16 && b < 16 && c < 16 && d < 16
    requires a' < 16 && b' < 16 && c' < 16 && d' < 16
    requires v == 0x10000 * x + Four(a, b, c, d) && w == 0x10000 * y + Four(a', b', c', d')
    ensures v < Pow2(k + 16) && w < Pow2(k + 16)
    ensures XorBits(k + 16, v, w) ==
            0x10000 * XorBits(k, x, y) + Four(Xor8(a, a'), Xor8(b, b'), Xor8(c, c'), Xor8(d, d'))
  {
    hide XorBits, Pow2, Xor8;
    var x1, y1 := 0x100 * x + 0x10 * a + b, 0x100 * y + 0x10 * a' + b';
    XorTwo(k, x, y, a, b, a', b', x1, y1);
    XorTwo(k + 8, x1, y1, c, d, c', d', v, w);
  }

  lemma ValueOf(h: Hex)
    ensures Value(h) == 0x10000 * Four(h.h7, h.h6, h.h5, h.h4) + Four(h.h3, h.h2, h.h1, h.h0)
  {
  }

  lemma XorValue(a: Hex, b: Hex, r: Hex)
    requires XorHex(a, b, r)
    ensures Value(a) < Pow2(32) && Value(b) < Pow2(32) && XorBits(32, Value(a), Value(b)) == Value(r)
  {
    hide XorBits, Pow2, Xor8, Value, Four;
    ValueOf(a);
    ValueOf(b);
    ValueOf(r);
    XorNothing();
    var x, y := Four(a.h7, a.h6, a.h5, a.h4), Four(b.h7, b.h6, b.h5, b.h4);
    XorFour(0, 0, 0, a.h7, a.h6, a.h5, a.h4, b.h7, b.h6, b.h5, b.h4, x, y);
    XorFour(16, x, y, a.h3, a.h2, a.h1, a.h0, b.h3, b.h2, b.h1, b.h0, Value(a), Value(b));
  }

  /** A line of the mixing, given its difference d after k wraps, its shifted register t and its result r. */
  lemma LineValue(x: uint32, y: uint32, z: uint32, s: uint32, k: nat, d: Hex, t: Hex, r: Hex)
    requires XorHex(d, t, r) && x - y - z + k * UINT32 == Value(d) && s == Value(t)
    ensures Line(x, y, z, s) == Value(r)
  {
    hide Pow2, XorBits, XorHex, Value, Minus;
    WordWidth();
    XorValue(d, t, r);
    Difference(x, y, z, k, Value(d));
  }

  lemma Difference(x: uint32, y: uint32, z: uint32, k: nat, d: nat)
    requires x - y - z + k * UINT32 == d < UINT32
    ensures Minus(Minus(x, y), z) == d
  {
    var w := if x >= y then 0 else 1;
    Quotient(x - y, UINT32, -w, x - y + w * UINT32);
    Quotient(x - y + w * UINT32 - z, UINT32, w - k, d);
  }

  // ----- the mixing of the registers that the keys below lead to -----

  lemma OneWord1a()
    ensures Line(0x9e3779ba, 0x9e3779b9, 0x4, Right(0x4, 0x2000)) == 0xfffffffd
  {
    hide Line;
    LineValue(0x9e3779ba, 0x9e3779b9, 0x4, 0x0, 1, Hex(0xf, 0xf, 0xf, 0xf, 0xf, 0xf, 0xf, 0xd),
              Hex(0x0, 0x0, 0x0, 0x0, 0x0, 0x0, 0x0, 0x0),
              Hex(0xf, 0xf, 0xf, 0xf, 0xf, 0xf, 0xf, 0xd));
  }

  lemma OneWord1b()
    ensures Line(0x9e3779b9, 0x4, 0xfffffffd, Left(0xfffffffd, 0x100)) == 0x61c884b8
  {
    hide Line;
    LineValue(0x9e3779b9, 0x4, 0xfffffffd, 0xfffffd00, 1, Hex(0x9, 0xe, 0x3, 0x7, 0x7, 0x9, 0xb, 0x8),
              Hex(0xf, 0xf, 0xf, 0xf, 0xf, 0xd, 0x0, 0x0),
              Hex(0x6, 0x1, 0xc, 0x8, 0x8, 0x4, 0xb, 0x8));
  }

  lemma OneWord1c()
    ensures Line(0x4, 0xfffffffd, 0x61c884b8, Right(0x61c884b8, 0x2000)) == 0x9e34750b
  {
    hide Line;
    LineValue(0x4, 0xfffffffd, 0x61c884b8, 0x30e44, 2, Hex(0x9, 0xe, 0x3, 0x7, 0x7, 0xb, 0x4, 0xf),
              Hex(0x0, 0x0, 0x0, 0x3, 0x0, 0xe, 0x4, 0x4),
              Hex(0x9, 0xe, 0x3, 0x4, 0x7, 0x5, 0x0, 0xb));
  }

  lemma OneWord1()
    ensures Round(Regs(0x9e3779ba, 0x9e3779b9, 0x4), 0x2000, 0x100, 0x2000) ==
            Regs(0xfffffffd, 0x61c884b8, 0x9e34750b)
  {
    hide Line, Left, Right;
    OneWord1a();
    OneWord1b();
    OneWord1c();
  }

  lemma OneWord2()
    ensures Round(Regs(0xfffffffd, 0x61c884b8, 0x9e34750b), 0x1000, 0x10000, 0x20) ==
            Regs(0xae57d, 0x26f42a30, 0x7602c40f)
  {
    hide Line;
    assert Line(0xfffffffd, 0x61c884b8, 0x9e34750b, Right(0x9e34750b, 0x1000)) == 0xae57d by {
      LineValue(0xfffffffd, 0x61c884b8, 0x9e34750b, 0x9e347, 0, Hex(0x0, 0x0, 0x0, 0x3, 0x0, 0x6, 0x3, 0xa),
                Hex(0x0, 0x0, 0x0, 0x9, 0xe, 0x3, 0x4, 0x7),
                Hex(0x0, 0x0, 0x0, 0xa, 0xe, 0x5, 0x7, 0xd));
    }
    assert Line(0x61c884b8, 0x9e34750b, 0xae57d, Left(0xae57d, 0x10000)) == 0x26f42a30 by {
      LineValue(0x61c884b8, 0x9e34750b, 0xae57d, 0xe57d0000, 1, Hex(0xc, 0x3, 0x8, 0x9, 0x2, 0xa, 0x3, 0x0),
                Hex(0xe, 0x5, 0x7, 0xd, 0x0, 0x0, 0x0, 0x0),
                Hex(0x2, 0x6, 0xf, 0x4, 0x2, 0xa, 0x3, 0x0));
    }
    assert Line(0x9e34750b, 0xae57d, 0x26f42a30, Right(0x26f42a30, 0x20)) == 0x7602c40f by {
      LineValue(0x9e34750b, 0xae57d, 0x26f42a30, 0x137a151, 0, Hex(0x7, 0x7, 0x3, 0x5, 0x6, 0x5, 0x5, 0xe),
                Hex(0x0, 0x1, 0x3, 0x7, 0xa, 0x1, 0x5, 0x1),
                Hex(0x7, 0x6, 0x0, 0x2, 0xc, 0x4, 0x0, 0xf));
    }
  }

  lemma OneWord3()
    ensures Round(Regs(0xae57d, 0x26f42a30, 0x7602c40f), 0x8, 0x400, 0x8000) ==
            Regs(0x6dd3afbf, 0xda34a62, 0xfa8bd2a8)
  {
    hide Line;
    assert Line(0xae57d, 0x26f42a30, 0x7602c40f, Right(0x7602c40f, 0x8)) == 0x6dd3afbf by {
      LineValue(0xae57d, 0x26f42a30, 0x7602c40f, 0xec05881, 1, Hex(0x6, 0x3, 0x1, 0x3, 0xf, 0x7, 0x3, 0xe),
                Hex(0x0, 0xe, 0xc, 0x0, 0x5, 0x8, 0x8, 0x1),
                Hex(0x6, 0xd, 0xd, 0x3, 0xa, 0xf, 0xb, 0xf));
    }
    assert Line(0x26f42a30, 0x7602c40f, 0x6dd3afbf, Left(0x6dd3afbf, 0x400)) == 0xda34a62 by {
      LineValue(0x26f42a30, 0x7602c40f, 0x6dd3afbf, 0x4ebefc00, 1, Hex(0x4, 0x3, 0x1, 0xd, 0xb, 0x6, 0x6, 0x2),
                Hex(0x4, 0xe, 0xb, 0xe, 0xf, 0xc, 0x0, 0x0),
                Hex(0x0, 0xd, 0xa, 0x3, 0x4, 0xa, 0x6, 0x2));
    }
    assert Line(0x7602c40f, 0x6dd3afbf, 0xda34a62, Right(0xda34a62, 0x8000)) == 0xfa8bd2a8 by {
      LineValue(0x7602c40f, 0x6dd3afbf, 0xda34a62, 0x1b46, 1, Hex(0xf, 0xa, 0x8, 0xb, 0xc, 0x9, 0xe, 0xe),
                Hex(0x0, 0x0, 0x0, 0x0, 0x1, 0xb, 0x4, 0x6),
                Hex(0xf, 0xa, 0x8, 0xb, 0xd, 0x2, 0xa, 0x8));
    }
  }

  lemma OneWord()
    ensures Mix(Regs(0x9e3779ba, 0x9e3779b9, 0x4)) == Regs(0x6dd3afbf, 0xda34a62, 0xfa8bd2a8)
  {
    hide Round;
    OneWord1();
    OneWord2();
    OneWord3();
  }

  lemma FourWords1a()
    ensures Line(0x9e3779ba, 0x9e3779bb, 0x8, Right(0x8, 0x2000)) == 0xfffffff7
  {
    hide Line;
    LineValue(0x9e3779ba, 0x9e3779bb, 0x8, 0x0, 1, Hex(0xf, 0xf, 0xf, 0xf, 0xf, 0xf, 0xf, 0x7),
              Hex(0x0, 0x0, 0x0, 0x0, 0x0, 0x0, 0x0, 0x0),
              Hex(0xf, 0xf, 0xf, 0xf, 0xf, 0xf, 0xf, 0x7));
  }

  lemma FourWords1b()
    ensures Line(0x9e3779bb, 0x8, 0xfffffff7, Left(0xfffffff7, 0x100)) == 0x61c88ebc
  {
    hide Line;
    LineValue(0x9e3779bb, 0x8, 0xfffffff7, 0xfffff700, 1, Hex(0x9, 0xe, 0x3, 0x7, 0x7, 0x9, 0xb, 0xc),
              Hex(0xf, 0xf, 0xf, 0xf, 0xf, 0x7, 0x0, 0x0),
              Hex(0x6, 0x1, 0xc, 0x8, 0x8, 0xe, 0xb, 0xc));
  }

  lemma FourWords1c()
    ensures Line(0x8, 0xfffffff7, 0x61c88ebc, Right(0x61c88ebc, 0x2000)) == 0x9e347f11
  {
    hide Line;
    LineValue(0x8, 0xfffffff7, 0x61c88ebc, 0x30e44, 2, Hex(0x9, 0xe, 0x3, 0x7, 0x7, 0x1, 0x5, 0x5),
              Hex(0x0, 0x0, 0x0, 0x3, 0x0, 0xe, 0x4, 0x4),
              Hex(0x9, 0xe, 0x3, 0x4, 0x7, 0xf, 0x1, 0x1));
  }

  lemma FourWords1()
    ensures Round(Regs(0x9e3779ba, 0x9e3779bb, 0x8), 0x2000, 0x100, 0x2000) ==
            Regs(0xfffffff7, 0x61c88ebc, 0x9e347f11)
  {
    hide Line, Left, Right;
    FourWords1a();
    FourWords1b();
    FourWords1c();
  }

  lemma FourWords2()
    ensures Round(Regs(0xfffffff7, 0x61c88ebc, 0x9e347f11), 0x1000, 0x10000, 0x20) ==
            Regs(0xb116d, 0xd2e5fe3e, 0xcdd44097)
  {
    hide Line;
    assert Line(0xfffffff7, 0x61c88ebc, 0x9e347f11, Right(0x9e347f11, 0x1000)) == 0xb116d by {
      LineValue(0xfffffff7, 0x61c88ebc, 0x9e347f11, 0x9e347, 0, Hex(0x0, 0x0, 0x0, 0x2, 0xf, 0x2, 0x2, 0xa),
                Hex(0x0, 0x0, 0x0, 0x9, 0xe, 0x3, 0x4, 0x7),
                Hex(0x0, 0x0, 0x0, 0xb, 0x1, 0x1, 0x6, 0xd));
    }
    assert Line(0x61c88ebc, 0x9e347f11, 0xb116d, Left(0xb116d, 0x10000)) == 0xd2e5fe3e by {
      LineValue(0x61c88ebc, 0x9e347f11, 0xb116d, 0x116d0000, 1, Hex(0xc, 0x3, 0x8, 0x8, 0xf, 0xe, 0x3, 0xe),
                Hex(0x1, 0x1, 0x6, 0xd, 0x0, 0x0, 0x0, 0x0),
                Hex(0xd, 0x2, 0xe, 0x5, 0xf, 0xe, 0x3, 0xe));
    }
    assert Line(0x9e347f11, 0xb116d, 0xd2e5fe3e, Right(0xd2e5fe3e, 0x20)) == 0xcdd44097 by {
      LineValue(0x9e347f11, 0xb116d, 0xd2e5fe3e, 0x6972ff1, 1, Hex(0xc, 0xb, 0x4, 0x3, 0x6, 0xf, 0x6, 0x6),
                Hex(0x0, 0x6, 0x9, 0x7, 0x2, 0xf, 0xf, 0x1),
                Hex(0xc, 0xd, 0xd, 0x4, 0x4, 0x0, 0x9, 0x7));
    }
  }

  lemma FourWords3()
    ensures Round(Regs(0xb116d, 0xd2e5fe3e, 0xcdd44097), 0x8, 0x400, 0x8000) ==
            Regs(0x46ea5a8a, 0x174d4b1d, 0x6f9cb46a)
  {
    hide Line;
    assert Line(0xb116d, 0xd2e5fe3e, 0xcdd44097, Right(0xcdd44097, 0x8)) == 0x46ea5a8a by {
      LineValue(0xb116d, 0xd2e5fe3e, 0xcdd44097, 0x19ba8812, 2, Hex(0x5, 0xf, 0x5, 0x0, 0xd, 0x2, 0x9, 0x8),
                Hex(0x1, 0x9, 0xb, 0xa, 0x8, 0x8, 0x1, 0x2),
                Hex(0x4, 0x6, 0xe, 0xa, 0x5, 0xa, 0x8, 0xa));
    }
    assert Line(0xd2e5fe3e, 0xcdd44097, 0x46ea5a8a, Left(0x46ea5a8a, 0x400)) == 0x174d4b1d by {
      LineValue(0xd2e5fe3e, 0xcdd44097, 0x46ea5a8a, 0xa96a2800, 1, Hex(0xb, 0xe, 0x2, 0x7, 0x6, 0x3, 0x1, 0xd),
                Hex(0xa, 0x9, 0x6, 0xa, 0x2, 0x8, 0x0, 0x0),
                Hex(0x1, 0x7, 0x4, 0xd, 0x4, 0xb, 0x1, 0xd));
    }
    assert Line(0xcdd44097, 0x46ea5a8a, 0x174d4b1d, Right(0x174d4b1d, 0x8000)) == 0x6f9cb46a by {
      LineValue(0xcdd44097, 0x46ea5a8a, 0x174d4b1d, 0x2e9a, 0, Hex(0x6, 0xf, 0x9, 0xc, 0x9, 0xa, 0xf, 0x0),
                Hex(0x0, 0x0, 0x0, 0x0, 0x2, 0xe, 0x9, 0xa),
                Hex(0x6, 0xf, 0x9, 0xc, 0xb, 0x4, 0x6, 0xa));
    }
  }

  lemma FourWords()
    ensures Mix(Regs(0x9e3779ba, 0x9e3779bb, 0x8)) == Regs(0x46ea5a8a, 0x174d4b1d, 0x6f9cb46a)
  {
    hide Round;
    FourWords1();
    FourWords2();
    FourWords3();
  }

  lemma FourthWord1()
    ensures Round(Regs(0x46ea5a8e, 0x174d4b1d, 0x6f9cb47a), 0x2000, 0x100, 0x2000) ==
            Regs(0xc0032612, 0xe48b6291, 0xcb090f8c)
  {
    hide Line;
    assert Line(0x46ea5a8e, 0x174d4b1d, 0x6f9cb47a, Right(0x6f9cb47a, 0x2000)) == 0xc0032612 by {
      LineValue(0x46ea5a8e, 0x174d4b1d, 0x6f9cb47a, 0x37ce5, 1, Hex(0xc, 0x0, 0x0, 0x0, 0x5, 0xa, 0xf, 0x7),
                Hex(0x0, 0x0, 0x0, 0x3, 0x7, 0xc, 0xe, 0x5),
                Hex(0xc, 0x0, 0x0, 0x3, 0x2, 0x6, 0x1, 0x2));
    }
    assert Line(0x174d4b1d, 0x6f9cb47a, 0xc0032612, Left(0xc0032612, 0x100)) == 0xe48b6291 by {
      LineValue(0x174d4b1d, 0x6f9cb47a, 0xc0032612, 0x3261200, 2, Hex(0xe, 0x7, 0xa, 0xd, 0x7, 0x0, 0x9, 0x1),
                Hex(0x0, 0x3, 0x2, 0x6, 0x1, 0x2, 0x0, 0x0),
                Hex(0xe, 0x4, 0x8, 0xb, 0x6, 0x2, 0x9, 0x1));
    }
    assert Line(0x6f9cb47a, 0xc0032612, 0xe48b6291, Right(0xe48b6291, 0x2000)) == 0xcb090f8c by {
      LineValue(0x6f9cb47a, 0xc0032612, 0xe48b6291, 0x7245b, 2, Hex(0xc, 0xb, 0x0, 0xe, 0x2, 0xb, 0xd, 0x7),
                Hex(0x0, 0x0, 0x0, 0x7, 0x2, 0x4, 0x5, 0xb),
                Hex(0xc, 0xb, 0x0, 0x9, 0x0, 0xf, 0x8, 0xc));
    }
  }

  lemma FourthWord2()
    ensures Round(Regs(0xc0032612, 0xe48b6291, 0xcb090f8c), 0x1000, 0x10000, 0x20) ==
            Regs(0x10620365, 0xa454fa0, 0xb03396fa)
  {
    hide Line;
    assert Line(0xc0032612, 0xe48b6291, 0xcb090f8c, Right(0xcb090f8c, 0x1000)) == 0x10620365 by {
      LineValue(0xc0032612, 0xe48b6291, 0xcb090f8c, 0xcb090, 1, Hex(0x1, 0x0, 0x6, 0xe, 0xb, 0x3, 0xf, 0x5),
                Hex(0x0, 0x0, 0x0, 0xc, 0xb, 0x0, 0x9, 0x0),
                Hex(0x1, 0x0, 0x6, 0x2, 0x0, 0x3, 0x6, 0x5));
    }
    assert Line(0xe48b6291, 0xcb090f8c, 0x10620365, Left(0x10620365, 0x10000)) == 0xa454fa0 by {
      LineValue(0xe48b6291, 0xcb090f8c, 0x10620365, 0x3650000, 0, Hex(0x0, 0x9, 0x2, 0x0, 0x4, 0xf, 0xa, 0x0),
                Hex(0x0, 0x3, 0x6, 0x5, 0x0, 0x0, 0x0, 0x0),
                Hex(0x0, 0xa, 0x4, 0x5, 0x4, 0xf, 0xa, 0x0));
    }
    assert Line(0xcb090f8c, 0x10620365, 0xa454fa0, Right(0xa454fa0, 0x20)) == 0xb03396fa by {
      LineValue(0xcb090f8c, 0x10620365, 0xa454fa0, 0x522a7d, 0, Hex(0xb, 0x0, 0x6, 0x1, 0xb, 0xc, 0x8, 0x7),
                Hex(0x0, 0x0, 0x5, 0x2, 0x2, 0xa, 0x7, 0xd),
                Hex(0xb, 0x0, 0x3, 0x3, 0x9, 0x6, 0xf, 0xa));
    }
  }

  lemma FourthWord3()
    ensures Round(Regs(0x10620365, 0xa454fa0, 0xb03396fa), 0x8, 0x400, 0x8000) ==
            Regs(0x43ef6e14, 0xab9a1a92, 0xc0ab5960)
  {
    hide Line;
    assert Line(0x10620365, 0xa454fa0, 0xb03396fa, Right(0xb03396fa, 0x8)) == 0x43ef6e14 by {
      LineValue(0x10620365, 0xa454fa0, 0xb03396fa, 0x160672df, 1, Hex(0x5, 0x5, 0xe, 0x9, 0x1, 0xc, 0xc, 0xb),
                Hex(0x1, 0x6, 0x0, 0x6, 0x7, 0x2, 0xd, 0xf),
                Hex(0x4, 0x3, 0xe, 0xf, 0x6, 0xe, 0x1, 0x4));
    }
    assert Line(0xa454fa0, 0xb03396fa, 0x43ef6e14, Left(0x43ef6e14, 0x400)) == 0xab9a1a92 by {
      LineValue(0xa454fa0, 0xb03396fa, 0x43ef6e14, 0xbdb85000, 1, Hex(0x1, 0x6, 0x2, 0x2, 0x4, 0xa, 0x9, 0x2),
                Hex(0xb, 0xd, 0xb, 0x8, 0x5, 0x0, 0x0, 0x0),
                Hex(0xa, 0xb, 0x9, 0xa, 0x1, 0xa, 0x9, 0x2));
    }
    assert Line(0xb03396fa, 0x43ef6e14, 0xab9a1a92, Right(0xab9a1a92, 0x8000)) == 0xc0ab5960 by {
      LineValue(0xb03396fa, 0x43ef6e14, 0xab9a1a92, 0x15734, 1, Hex(0xc, 0x0, 0xa, 0xa, 0x0, 0xe, 0x5, 0x4),
                Hex(0x0, 0x0, 0x0, 0x1, 0x5, 0x7, 0x3, 0x4),
                Hex(0xc, 0x0, 0xa, 0xb, 0x5, 0x9, 0x6, 0x0));
    }
  }

  lemma FourthWord()
    ensures Mix(Regs(0x46ea5a8e, 0x174d4b1d, 0x6f9cb47a)) == Regs(0x43ef6e14, 0xab9a1a92, 0xc0ab5960)
  {
    hide Round;
    FourthWord1();
    FourthWord2();
    FourthWord3();
  }

  lemma ElevenBytes1()
    ensures Round(Regs(0xa23a7bba, 0xa63e7fbe, 0xb0a090b), 0x2000, 0x100, 0x2000) ==
            Regs(0xf0f1aaa1, 0x5be86d12, 0xbe2d2e1b)
  {
    hide Line;
    assert Line(0xa23a7bba, 0xa63e7fbe, 0xb0a090b, Right(0xb0a090b, 0x2000)) == 0xf0f1aaa1 by {
      LineValue(0xa23a7bba, 0xa63e7fbe, 0xb0a090b, 0x5850, 1, Hex(0xf, 0x0, 0xf, 0x1, 0xf, 0x2, 0xf, 0x1),
                Hex(0x0, 0x0, 0x0, 0x0, 0x5, 0x8, 0x5, 0x0),
                Hex(0xf, 0x0, 0xf, 0x1, 0xa, 0xa, 0xa, 0x1));
    }
    assert Line(0xa63e7fbe, 0xb0a090b, 0xf0f1aaa1, Left(0xf0f1aaa1, 0x100)) == 0x5be86d12 by {
      LineValue(0xa63e7fbe, 0xb0a090b, 0xf0f1aaa1, 0xf1aaa100, 1, Hex(0xa, 0xa, 0x4, 0x2, 0xc, 0xc, 0x1, 0x2),
                Hex(0xf, 0x1, 0xa, 0xa, 0xa, 0x1, 0x0, 0x0),
                Hex(0x5, 0xb, 0xe, 0x8, 0x6, 0xd, 0x1, 0x2));
    }
    assert Line(0xb0a090b, 0xf0f1aaa1, 0x5be86d12, Right(0x5be86d12, 0x2000)) == 0xbe2d2e1b by {
      LineValue(0xb0a090b, 0xf0f1aaa1, 0x5be86d12, 0x2df43, 2, Hex(0xb, 0xe, 0x2, 0xf, 0xf, 0x1, 0x5, 0x8),
                Hex(0x0, 0x0, 0x0, 0x2, 0xd, 0xf, 0x4, 0x3),
                Hex(0xb, 0xe, 0x2, 0xd, 0x2, 0xe, 0x1, 0xb));
    }
  }

  lemma ElevenBytes2()
    ensures Round(Regs(0xf0f1aaa1, 0x5be86d12, 0xbe2d2e1b), 0x1000, 0x10000, 0x20) ==
            Regs(0xd6d7eda6, 0x2b455151, 0xbd55c5ae)
  {
    hide Line;
    assert Line(0xf0f1aaa1, 0x5be86d12, 0xbe2d2e1b, Right(0xbe2d2e1b, 0x1000)) == 0xd6d7eda6 by {
      LineValue(0xf0f1aaa1, 0x5be86d12, 0xbe2d2e1b, 0xbe2d2, 1, Hex(0xd, 0x6, 0xd, 0xc, 0x0, 0xf, 0x7, 0x4),
                Hex(0x0, 0x0, 0x0, 0xb, 0xe, 0x2, 0xd, 0x2),
                Hex(0xd, 0x6, 0xd, 0x7, 0xe, 0xd, 0xa, 0x6));
    }
    assert Line(0x5be86d12, 0xbe2d2e1b, 0xd6d7eda6, Left(0xd6d7eda6, 0x10000)) == 0x2b455151 by {
      LineValue(0x5be86d12, 0xbe2d2e1b, 0xd6d7eda6, 0xeda60000, 2, Hex(0xc, 0x6, 0xe, 0x3, 0x5, 0x1, 0x5, 0x1),
                Hex(0xe, 0xd, 0xa, 0x6, 0x0, 0x0, 0x0, 0x0),
                Hex(0x2, 0xb, 0x4, 0x5, 0x5, 0x1, 0x5, 0x1));
    }
    assert Line(0xbe2d2e1b, 0xd6d7eda6, 0x2b455151, Right(0x2b455151, 0x20)) == 0xbd55c5ae by {
      LineValue(0xbe2d2e1b, 0xd6d7eda6, 0x2b455151, 0x15a2a8a, 1, Hex(0xb, 0xc, 0x0, 0xf, 0xe, 0xf, 0x2, 0x4),
                Hex(0x0, 0x1, 0x5, 0xa, 0x2, 0xa, 0x8, 0xa),
                Hex(0xb, 0xd, 0x5, 0x5, 0xc, 0x5, 0xa, 0xe));
    }
  }

  lemma ElevenBytes3()
    ensures Round(Regs(0xd6d7eda6, 0x2b455151, 0xbd55c5ae), 0x8, 0x400, 0x8000) ==
            Regs(0xf9966e12, 0x2de15591, 0x95de59c9)
  {
    hide Line;
    assert Line(0xd6d7eda6, 0x2b455151, 0xbd55c5ae, Right(0xbd55c5ae, 0x8)) == 0xf9966e12 by {
      LineValue(0xd6d7eda6, 0x2b455151, 0xbd55c5ae, 0x17aab8b5, 1, Hex(0xe, 0xe, 0x3, 0xc, 0xd, 0x6, 0xa, 0x7),
                Hex(0x1, 0x7, 0xa, 0xa, 0xb, 0x8, 0xb, 0x5),
                Hex(0xf, 0x9, 0x9, 0x6, 0x6, 0xe, 0x1, 0x2));
    }
    assert Line(0x2b455151, 0xbd55c5ae, 0xf9966e12, Left(0xf9966e12, 0x400)) == 0x2de15591 by {
      LineValue(0x2b455151, 0xbd55c5ae, 0xf9966e12, 0x59b84800, 2, Hex(0x7, 0x4, 0x5, 0x9, 0x1, 0xd, 0x9, 0x1),
                Hex(0x5, 0x9, 0xb, 0x8, 0x4, 0x8, 0x0, 0x0),
                Hex(0x2, 0xd, 0xe, 0x1, 0x5, 0x5, 0x9, 0x1));
    }
    assert Line(0xbd55c5ae, 0xf9966e12, 0x2de15591, Right(0x2de15591, 0x8000)) == 0x95de59c9 by {
      LineValue(0xbd55c5ae, 0xf9966e12, 0x2de15591, 0x5bc2, 1, Hex(0x9, 0x5, 0xd, 0xe, 0x0, 0x2, 0x0, 0xb),
                Hex(0x0, 0x0, 0x0, 0x0, 0x5, 0xb, 0xc, 0x2),
                Hex(0x9, 0x5, 0xd, 0xe, 0x5, 0x9, 0xc, 0x9));
    }
  }

  lemma ElevenBytes()
    ensures Mix(Regs(0xa23a7bba, 0xa63e7fbe, 0xb0a090b)) == Regs(0xf9966e12, 0x2de15591, 0x95de59c9)
  {
    hide Round;
    ElevenBytes1();
    ElevenBytes2();
    ElevenBytes3();
  }

  // ----- the hashes -----

  /** jhash2 of the one word 1. */
  lemma OneWordHash()
    ensures WordHash([1], 0) == 0xfa8bd2a8
  {
    hide Mix;
    OneWord();
  }

  /** jhash2 of the words 1 to 4, begun with 5: a whole round and one word more. */
  lemma FourWordsHash()
    ensures WordHash([1, 2, 3, 4], 5) == 0xc0ab5960
  {
    hide Mix;
    FourWords();
    FourthWord();
    var k: seq<uint32> := [1, 2, 3, 4];
    assert k[3..] == [4];
    assert WordTail(k) == [4];
  }

  /** jhash of the bytes 1 to 11: every case of the final switch. */
  lemma ElevenBytesHash()
    ensures ByteHash([1, 2, 3, 4, 5, 6, 7, 8, 9, 10, 11], 0) == 0x95de59c9
  {
    hide Mix, Little;
    ElevenBytes();
    var k: Bytes := [1, 2, 3, 4, 5, 6, 7, 8, 9, 10, 11];
    assert Slice(k, 0, 4) == [1, 2, 3, 4];
    assert Slice(k, 4, 8) == [5, 6, 7, 8];
    assert Slice(k, 8, 11) == [9, 10, 11];
    Little4(1, 2, 3, 4);
    Little4(5, 6, 7, 8);
    Little4(9, 10, 11, 0);
  }

  /** The same of the procedures themselves. */
  method KnownHashes() returns (one: uint32, four: uint32, eleven: uint32)
    ensures one == 0xfa8bd2a8 && four == 0xc0ab5960 && eleven == 0x95de59c9
  {
    hide WordHash, ByteHash;
    OneWordHash();
    FourWordsHash();
    ElevenBytesHash();
    one := Jhash2([1], 0);
    four := Jhash2([1, 2, 3, 4], 5);
    eleven := Jhash([1, 2, 3, 4, 5, 6, 7, 8, 9, 10, 11], 0);
  }
}
