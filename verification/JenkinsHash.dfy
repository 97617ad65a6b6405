/** The Jenkins hash of the tables (common/missing/jhash.h): jhash over bytes and jhash2 over words.
    A 32-bit register is a number below 2^32, and its operators are written out on numbers. */
module JenkinsHash {
  import opened Basics

  const GOLDEN_RATIO: uint32 := 0x9e3779b9

  // ----- 32-bit operators -----

  function Plus(a: uint32, b: nat): uint32 { (a + b) % UINT32 }

  function Minus(a: uint32, b: uint32): uint32 { (a - b) % UINT32 }

  /** Shifts by a number of bits, given by the power of two. */
  function Left(v: uint32, power: nat): uint32 { (v * power) % UINT32 }

  function Right(v: uint32, power: nat): uint32
    requires power > 0
  {
    v / power
  }

  /** Exclusive or of the low k bits. */
  function XorBits(k: nat, a: nat, b: nat): (r: nat)
    requires a < Pow2(k) && b < Pow2(k)
    ensures r < Pow2(k)
  {
    if k == 0 then 0 else XorBit(a, b) + 2 * XorBits(k - 1, a / 2, b / 2)
  }

  function XorBit(a: nat, b: nat): (r: nat)
    ensures r < 2
  {
    (a % 2 + b % 2) % 2
  }

  lemma {:induction false} XorTwice(k: nat, a: nat, b: nat)
    requires a < Pow2(k) && b < Pow2(k)
    ensures XorBits(k, XorBits(k, a, b), b) == a
  {
    hide XorBit;
    if k > 0 {
      var c, r := XorBits(k, a, b), XorBits(k - 1, a / 2, b / 2);
      XorTwice(k - 1, a / 2, b / 2);
      XorBitTwice(a, b, r);
      assert XorBits(k, c, b) == XorBit(c, b) + 2 * XorBits(k - 1, r, b / 2);
    }
  }

  lemma XorBitTwice(a: nat, b: nat, r: nat)
    ensures var c := XorBit(a, b) + 2 * r; c / 2 == r && XorBit(c, b) + 2 * (a / 2) == a
  {
  }

  lemma WordWidth()
    ensures Pow2(32) == UINT32
  {
    assert Pow2(8) == 256;
    assert Pow2(16) == 0x10000;
    assert Pow2(24) == 0x100_0000;
  }

  function Xor(a: uint32, b: uint32): uint32 {
    WordWidth();
    XorBits(32, a, b)
  }

  // ----- their meaning on bits -----

  /** Bit k of v, counted from the lowest. */
  function Bit(v: int, k: nat): nat
    decreases k
  {
    if k == 0 then v % 2 else Bit(v / 2, k - 1)
  }

  /** Exclusive or, bit by bit. */
  lemma {:induction false} XorOnBits(n: nat, a: nat, b: nat, k: nat)
    requires a < Pow2(n) && b < Pow2(n) && k < n
    ensures Bit(XorBits(n, a, b), k) == if Bit(a, k) != Bit(b, k) then 1 else 0
  {
    hide XorBit;
    var c, r := XorBits(n, a, b), XorBits(n - 1, a / 2, b / 2);
    XorBitIs(a, b, r);
    if k > 0 { XorOnBits(n - 1, a / 2, b / 2, k - 1); }
  }

  lemma XorBitIs(a: nat, b: nat, r: nat)
    ensures var c := XorBit(a, b) + 2 * r; c / 2 == r && c % 2 == if a % 2 != b % 2 then 1 else 0
  {
  }

  /** Dividing by a power of two moves every bit down. */
  lemma {:induction false} RightOnBits(v: nat, n: nat, k: nat)
    ensures Bit(v / Pow2(n), k) == Bit(v, k + n)
  {
    if n > 0 {
      RightOnBits(v / 2, n - 1, k);
      HalfFirst(v, Pow2(n - 1));
      assert Bit(v, k + n) == Bit(v / 2, k + n - 1);
    } else {
      assert v / Pow2(0) == v;
    }
  }

  lemma HalfFirst(v: nat, p: nat)
    requires p > 0
    ensures v / 2 / p == v / (2 * p)
  {
    var q, r := v / 2 / p, v / 2 % p;
    assert v / 2 == q * p + r && v == 2 * (v / 2) + v % 2;
    assert v == q * (2 * p) + (2 * r + v % 2);
    Quotient(v, 2 * p, q, 2 * r + v % 2);
  }

  /** Multiplying by a power of two moves every bit up. */
  lemma {:induction false} UpOnBits(v: nat, n: nat, k: nat)
    ensures Bit(v * Pow2(n), k) == if k < n then 0 else Bit(v, k - n)
  {
    if n == 0 {
      assert v * Pow2(0) == v;
    } else {
      var w := v * Pow2(n - 1);
      Doubled(v, Pow2(n - 1));
      assert v * Pow2(n) == 2 * w;
      if k > 0 { UpOnBits(v, n - 1, k - 1); }
    }
  }

  lemma Doubled(v: nat, p: nat)
    ensures v * (2 * p) == 2 * (v * p)
  {
  }

  /** Cutting a number to 32 bits leaves these as they are. */
  lemma {:induction false} CutOnBits(v: nat, n: nat, k: nat)
    requires k < n
    ensures Bit(v % Pow2(n), k) == Bit(v, k)
  {
    HalfRemainder(v, Pow2(n - 1));
    if k > 0 { CutOnBits(v / 2, n - 1, k - 1); }
  }

  lemma HalfRemainder(v: nat, p: nat)
    requires p > 0
    ensures v % (2 * p) / 2 == v / 2 % p && v % (2 * p) % 2 == v % 2
  {
    var q, r := v / 2 / p, v / 2 % p;
    assert v / 2 == q * p + r && v == 2 * (v / 2) + v % 2;
    assert v == q * (2 * p) + (2 * r + v % 2);
    Quotient(v, 2 * p, q, 2 * r + v % 2);
  }

  lemma LeftOnBits(v: uint32, n: nat, k: nat)
    requires k < 32
    ensures Bit(Left(v, Pow2(n)), k) == if k < n then 0 else Bit(v, k - n)
  {
    hide Pow2, Bit;
    WordWidth();
    CutOnBits(v * Pow2(n), 32, k);
    UpOnBits(v, n, k);
  }

  // ----- mixing -----

  datatype Regs = Regs(a: uint32, b: uint32, c: uint32)

  /** One line of __jhash_mix: x -= y; x -= z; x ^= s. */
  function Line(x: uint32, y: uint32, z: uint32, s: uint32): uint32 { Xor(Minus(Minus(x, y), z), s) }

  function Unline(x: uint32, y: uint32, z: uint32, s: uint32): uint32 { Plus(Plus(Xor(x, s), z), y) }

  /** Three lines, with the powers of two of their shifts. */
  function Round(r: Regs, p: nat, q: nat, s: nat): Regs
    requires p > 0 && s > 0
  {
    var a := Line(r.a, r.b, r.c, Right(r.c, p));
    var b := Line(r.b, r.c, a, Left(a, q));
    var c := Line(r.c, a, b, Right(b, s));
    Regs(a, b, c)
  }

  function Unround(r: Regs, p: nat, q: nat, s: nat): Regs
    requires p > 0 && s > 0
  {
    var c := Unline(r.c, r.a, r.b, Right(r.b, s));
    var b := Unline(r.b, c, r.a, Left(r.a, q));
    var a := Unline(r.a, b, c, Right(c, p));
    Regs(a, b, c)
  }

  /** __jhash_mix, with shifts by 13, 8, 13; 12, 16, 5; 3, 10, 15. */
  function Mix(r: Regs): Regs {
    Round(Round(Round(r, 0x2000, 0x100, 0x2000), 0x1000, 0x10000, 0x20), 0x8, 0x400, 0x8000)
  }

  function Unmix(r: Regs): Regs {
    Unround(Unround(Unround(r, 0x8, 0x400, 0x8000), 0x1000, 0x10000, 0x20), 0x2000, 0x100, 0x2000)
  }

  function ShiftRight(v: uint32, n: nat): uint32 { Right(v, Pow2(n)) }

  function ShiftLeft(v: uint32, n: nat): uint32 { Left(v, Pow2(n)) }

  lemma Powers()
    ensures Pow2(3) == 0x8 && Pow2(5) == 0x20 && Pow2(8) == 0x100 && Pow2(10) == 0x400
    ensures Pow2(12) == 0x1000 && Pow2(13) == 0x2000 && Pow2(15) == 0x8000 && Pow2(16) == 0x10000
  {
    assert Pow2(5) == 0x20;
    assert Pow2(10) == 0x400;
    assert Pow2(13) == 0x2000;
  }

  /** The nine assignments of __jhash_mix, one after the other, with their shifts. */
  method MixInPlace(r: Regs) returns (m: Regs)
    ensures m == Mix(r)
  {
    hide Pow2, Xor, Minus, Left, Right;
    Powers();
    var a, b, c := r.a, r.b, r.c;
    a := Minus(a, b); a := Minus(a, c); a := Xor(a, ShiftRight(c, 13));
    b := Minus(b, c); b := Minus(b, a); b := Xor(b, ShiftLeft(a, 8));
    c := Minus(c, a); c := Minus(c, b); c := Xor(c, ShiftRight(b, 13));
    a := Minus(a, b); a := Minus(a, c); a := Xor(a, ShiftRight(c, 12));
    b := Minus(b, c); b := Minus(b, a); b := Xor(b, ShiftLeft(a, 16));
    c := Minus(c, a); c := Minus(c, b); c := Xor(c, ShiftRight(b, 5));
    a := Minus(a, b); a := Minus(a, c); a := Xor(a, ShiftRight(c, 3));
    b := Minus(b, c); b := Minus(b, a); b := Xor(b, ShiftLeft(a, 10));
    c := Minus(c, a); c := Minus(c, b); c := Xor(c, ShiftRight(b, 15));
    return Regs(a, b, c);
  }

  /** The same as an equation. */
  lemma MixAssignments(r: Regs, a1: uint32, b1: uint32, c1: uint32, a2: uint32, b2: uint32, c2: uint32,
                       a3: uint32, b3: uint32, c3: uint32)
    requires a1 == Xor(Minus(Minus(r.a, r.b), r.c), ShiftRight(r.c, 13))
    requires b1 == Xor(Minus(Minus(r.b, r.c), a1), ShiftLeft(a1, 8))
    requires c1 == Xor(Minus(Minus(r.c, a1), b1), ShiftRight(b1, 13))
    requires a2 == Xor(Minus(Minus(a1, b1), c1), ShiftRight(c1, 12))
    requires b2 == Xor(Minus(Minus(b1, c1), a2), ShiftLeft(a2, 16))
    requires c2 == Xor(Minus(Minus(c1, a2), b2), ShiftRight(b2, 5))
    requires a3 == Xor(Minus(Minus(a2, b2), c2), ShiftRight(c2, 3))
    requires b3 == Xor(Minus(Minus(b2, c2), a3), ShiftLeft(a3, 10))
    requires c3 == Xor(Minus(Minus(c2, a3), b3), ShiftRight(b3, 15))
    ensures Mix(r) == Regs(a3, b3, c3)
  {
    hide Pow2, Xor, Minus, Left, Right;
    Powers();
  }

  /** The shifts move bits. */
  lemma ShiftsOnBits(v: uint32, n: nat, k: nat)
    requires k < 32
    ensures Bit(ShiftRight(v, n), k) == Bit(v, k + n)
    ensures Bit(ShiftLeft(v, n), k) == if k < n then 0 else Bit(v, k - n)
  {
    hide Bit, Pow2;
    RightOnBits(v, n, k);
    LeftOnBits(v, n, k);
  }

  lemma XorWordOnBits(a: uint32, b: uint32, k: nat)
    requires k < 32
    ensures Bit(Xor(a, b), k) == if Bit(a, k) != Bit(b, k) then 1 else 0
  {
    hide Bit, Pow2, XorBits;
    WordWidth();
    XorOnBits(32, a, b, k);
  }

  lemma LineReverses(x: uint32, y: uint32, z: uint32, s: uint32)
    ensures Unline(Line(x, y, z, s), y, z, s) == x
  {
    hide Pow2, XorBits;
    WordWidth();
    XorTwice(32, Minus(Minus(x, y), z), s);
    MinusPlus(Minus(x, y), z);
    MinusPlus(x, y);
  }

  lemma MinusPlus(x: uint32, y: uint32)
    ensures Plus(Minus(x, y), y) == x
  {
  }

  lemma RoundReverses(r: Regs, p: nat, q: nat, s: nat)
    requires p > 0 && s > 0
    ensures Unround(Round(r, p, q, s), p, q, s) == r
  {
    hide Line, Unline, Left, Right;
    var a := Line(r.a, r.b, r.c, Right(r.c, p));
    var b := Line(r.b, r.c, a, Left(a, q));
    LineReverses(r.c, a, b, Right(b, s));
    LineReverses(r.b, r.c, a, Left(a, q));
    LineReverses(r.a, r.b, r.c, Right(r.c, p));
  }

  /** Mixing loses nothing. */
  lemma MixReverses(r: Regs)
    ensures Unmix(Mix(r)) == r
  {
    hide Round, Unround;
    var r1 := Round(r, 0x2000, 0x100, 0x2000);
    var r2 := Round(r1, 0x1000, 0x10000, 0x20);
    RoundReverses(r2, 0x8, 0x400, 0x8000);
    RoundReverses(r1, 0x1000, 0x10000, 0x20);
    RoundReverses(r, 0x2000, 0x100, 0x2000);
  }

  // ----- the hash of words -----

  function WordRounds(k: seq<uint32>, r: Regs): Regs {
    if |k| < 3 then r else WordRounds(k[3..], Mix(Regs(Plus(r.a, k[0]), Plus(r.b, k[1]), Plus(r.c, k[2]))))
  }

  /** The words left after the last whole round of three. */
  function WordTail(k: seq<uint32>): (r: seq<uint32>)
    ensures |r| < 3 && |r| <= |k|
  {
    if |k| < 3 then k else WordTail(k[3..])
  }

  function WordAt(k: seq<uint32>, i: nat): uint32 { if i < |k| then k[i] else 0 }

  function WordHash(k: seq<uint32>, initval: uint32): uint32 {
    var r, t := WordRounds(k, Regs(GOLDEN_RATIO, GOLDEN_RATIO, initval)), WordTail(k);
    Mix(Regs(Plus(r.a, WordAt(t, 0)), Plus(r.b, WordAt(t, 1)), Plus(r.c, 4 * |k|))).c
  }

  /** jhash2 */
  method Jhash2(key: seq<uint32>, initval: uint32) returns (h: uint32)
    ensures h == WordHash(key, initval)
  {
    hide Mix, Plus;
    PlusZero();
    var r := Regs(GOLDEN_RATIO, GOLDEN_RATIO, initval);
    var k := key;
    while |k| >= 3
      invariant WordRounds(key, Regs(GOLDEN_RATIO, GOLDEN_RATIO, initval)) == WordRounds(k, r)
      invariant WordTail(key) == WordTail(k)
    {
      r := MixInPlace(Regs(Plus(r.a, k[0]), Plus(r.b, k[1]), Plus(r.c, k[2])));
      k := k[3..];
    }
    r := r.(c := Plus(r.c, 4 * |key|));
    if |k| >= 2 { r := r.(b := Plus(r.b, k[1])); }
    if |k| >= 1 { r := r.(a := Plus(r.a, k[0])); }
    r := MixInPlace(r);
    return r.c;
  }

  lemma PlusZero()
    ensures forall a: uint32 :: Plus(a, 0) == a
  {
  }

  // ----- the hash of bytes -----

  /** The little-endian value of up to four bytes. */
  function Little(s: Bytes): nat {
    if s == [] then 0 else s[0] as int + 256 * Little(s[1..])
  }

  /** Bytes from to before to of k, as many as there are. */
  function Slice(k: Bytes, from: nat, to: nat): Bytes
    requires from <= to
  {
    if |k| <= from then [] else if |k| <= to then k[from..] else k[from..to]
  }

  function Absorb(r: Regs, k: Bytes): Regs {
    Regs(Plus(r.a, Little(Slice(k, 0, 4))), Plus(r.b, Little(Slice(k, 4, 8))), Plus(r.c, Little(Slice(k, 8, 12))))
  }

  function ByteRounds(k: Bytes, r: Regs): Regs
    decreases |k|
  {
    if |k| < 12 then r else ByteRounds(k[12..], Mix(Absorb(r, k)))
  }

  function ByteTail(k: Bytes): (r: Bytes)
    ensures |r| < 12 && |r| <= |k|
  {
    if |k| < 12 then k else ByteTail(k[12..])
  }

  /** The last bytes are added like a whole block, except that the first byte of the third word is
      reserved for the length. */
  function AbsorbTail(r: Regs, k: Bytes, length: nat): Regs {
    Regs(Plus(r.a, Little(Slice(k, 0, 4))), Plus(r.b, Little(Slice(k, 4, 8))),
         Plus(r.c, length + 256 * Little(Slice(k, 8, 11))))
  }

  function ByteHash(k: Bytes, initval: uint32): uint32 {
    var r := ByteRounds(k, Regs(GOLDEN_RATIO, GOLDEN_RATIO, initval));
    Mix(AbsorbTail(r, ByteTail(k), |k|)).c
  }

  lemma PlusPlus(a: uint32, x: nat, y: nat)
    ensures Plus(Plus(a, x), y) == Plus(a, x + y)
  {
  }

  lemma Little4(a: byte, b: byte, c: byte, d: byte)
    ensures Little([]) == 0
    ensures Little([a]) == a
    ensures Little([a, b]) == a as int + b as int * 0x100
    ensures Little([a, b, c]) == a as int + b as int * 0x100 + c as int * 0x10000
    ensures Little([a, b, c, d]) == a as int + b as int * 0x100 + c as int * 0x10000 + d as int * 0x1000000
  {
    hide Little;
    LittleNil();
    LittleStep([a], a, []);
    LittleStep([b], b, []);
    LittleStep([c], c, []);
    LittleStep([d], d, []);
    LittleStep([a, b], a, [b]);
    LittleStep([b, c], b, [c]);
    LittleStep([c, d], c, [d]);
    LittleStep([a, b, c], a, [b, c]);
    LittleStep([b, c, d], b, [c, d]);
    LittleStep([a, b, c, d], a, [b, c, d]);
  }

  lemma LittleNil()
    ensures Little([]) == 0
  {
  }

  lemma LittleStep(s: Bytes, b: byte, rest: Bytes)
    requires s == [b] + rest
    ensures Little(s) == b as int + 256 * Little(rest)
  {
    assert s[1..] == rest;
  }

  function ByteAt(g: Bytes, i: nat): int { if i < |g| then g[i] else 0 }

  lemma LittleOf(g: Bytes)
    requires |g| <= 4
    ensures Little(g) == ByteAt(g, 0) + ByteAt(g, 1) * 0x100 + ByteAt(g, 2) * 0x10000 + ByteAt(g, 3) * 0x1000000
  {
    hide Little;
    Little4(ByteAt(g, 0), ByteAt(g, 1), ByteAt(g, 2), ByteAt(g, 3));
    if |g| == 0 { assert g == []; }
    else if |g| == 1 { assert g == [g[0]]; }
    else if |g| == 2 { assert g == [g[0], g[1]]; }
    else if |g| == 3 { assert g == [g[0], g[1], g[2]]; }
    else { assert g == [g[0], g[1], g[2], g[3]]; }
  }

  lemma PlusChain(x: uint32, p: nat, q: nat, r: nat, s: nat)
    ensures Plus(Plus(Plus(Plus(x, p), q), r), s) == Plus(x, p + q + r + s)
  {
    hide Plus;
    PlusPlus(x, p, q);
    PlusPlus(x, p + q, r);
    PlusPlus(x, p + q + r, s);
  }

  /** The cases of the final switch for one word: its bytes from the last to the first. */
  method AddBytes(x: uint32, g: Bytes) returns (y: uint32)
    requires |g| <= 4
    ensures y == Plus(x, Little(g))
  {
    hide Little, Plus;
    PlusZero();
    y := x;
    if |g| >= 4 { y := Plus(y, g[3] as int * 0x1000000); }
    if |g| >= 3 { y := Plus(y, g[2] as int * 0x10000); }
    if |g| >= 2 { y := Plus(y, g[1] as int * 0x100); }
    if |g| >= 1 { y := Plus(y, g[0]); }
    PlusChain(x, ByteAt(g, 3) * 0x1000000, ByteAt(g, 2) * 0x10000, ByteAt(g, 1) * 0x100, ByteAt(g, 0));
    LittleOf(g);
  }

  /** The same for the third word, whose first byte holds the length. */
  method AddHighBytes(x: uint32, length: nat, g: Bytes) returns (y: uint32)
    requires |g| <= 3
    ensures y == Plus(x, length + 256 * Little(g))
  {
    hide Little, Plus;
    PlusZero();
    y := Plus(x, length);
    if |g| >= 3 { y := Plus(y, g[2] as int * 0x1000000); }
    if |g| >= 2 { y := Plus(y, g[1] as int * 0x10000); }
    if |g| >= 1 { y := Plus(y, g[0] as int * 0x100); }
    PlusChain(x, length, ByteAt(g, 2) * 0x1000000, ByteAt(g, 1) * 0x10000, ByteAt(g, 0) * 0x100);
    LittleOf(g);
  }

  function Quad(k: Bytes, i: nat): nat
    requires i + 4 <= |k|
  {
    k[i] as int + k[i + 1] as int * 0x100 + k[i + 2] as int * 0x10000 + k[i + 3] as int * 0x1000000
  }

  lemma QuadIs(k: Bytes, i: nat)
    requires i + 4 <= |k|
    ensures Little(Slice(k, i, i + 4)) == Quad(k, i)
  {
    hide Little;
    assert Slice(k, i, i + 4) == [k[i], k[i + 1], k[i + 2], k[i + 3]];
    Little4(k[i], k[i + 1], k[i + 2], k[i + 3]);
  }

  /** jhash */
  method Jhash(key: Bytes, initval: uint32) returns (h: uint32)
    ensures h == ByteHash(key, initval)
  {
    hide Mix, Plus, Little, Slice, Quad;
    var r := Regs(GOLDEN_RATIO, GOLDEN_RATIO, initval);
    var k := key;
    while |k| >= 12
      invariant ByteRounds(key, Regs(GOLDEN_RATIO, GOLDEN_RATIO, initval)) == ByteRounds(k, r)
      invariant ByteTail(key) == ByteTail(k)
    {
      QuadIs(k, 0);
      QuadIs(k, 4);
      QuadIs(k, 8);
      r := MixInPlace(Regs(Plus(r.a, Quad(k, 0)), Plus(r.b, Quad(k, 4)), Plus(r.c, Quad(k, 8))));
      k := k[12..];
    }
    SliceSizes(k);
    var c := AddHighBytes(r.c, |key|, Slice(k, 8, 11));
    var b := AddBytes(r.b, Slice(k, 4, 8));
    var a := AddBytes(r.a, Slice(k, 0, 4));
    r := MixInPlace(Regs(a, b, c));
    return r.c;
  }

  lemma SliceSizes(k: Bytes)
    ensures |Slice(k, 0, 4)| <= 4 && |Slice(k, 4, 8)| <= 4 && |Slice(k, 8, 11)| <= 3
  {
  }

  // ----- the two agree -----

  /** The bytes of an array of words in memory, least significant first. */
  function Memory(k: seq<uint32>): (r: Bytes)
    ensures |r| == 4 * |k|
  {
    if k == [] then [] else Host(k[0]) + Memory(k[1..])
  }

  lemma HostIs(v: uint32)
    ensures Little(Host(v)) == v
  {
    hide Little, Host;
    HostDigits(v);
    var h := Host(v);
    assert h == [h[0], h[1], h[2], h[3]];
    Little4(h[0], h[1], h[2], h[3]);
  }

  lemma MemoryDrops(k: seq<uint32>, n: nat)
    requires n <= |k|
    ensures Memory(k)[4 * n..] == Memory(k[n..])
  {
    if n == 0 {
      assert k[0..] == k;
    } else {
      MemoryDrops(k[1..], n - 1);
      assert k[1..][n - 1..] == k[n..];
      assert Memory(k)[4..] == Memory(k[1..]);
      assert Memory(k)[4 * n..] == Memory(k)[4..][4 * (n - 1)..];
    }
  }

  /** Word i of the memory is word i of the array. */
  lemma MemoryWord(k: seq<uint32>, i: nat)
    ensures Little(Slice(Memory(k), 4 * i, 4 * i + 4)) == WordAt(k, i)
  {
    hide Little;
    LittleNil();
    if i < |k| {
      MemoryDrops(k, i);
      HostIs(k[i]);
      assert Memory(k[i..])[..4] == Host(k[i]);
      assert Slice(Memory(k), 4 * i, 4 * i + 4) == Memory(k)[4 * i..][..4];
    }
  }

  lemma {:induction false} RoundsAgree(k: seq<uint32>, r: Regs)
    ensures ByteRounds(Memory(k), r) == WordRounds(k, r)
    ensures ByteTail(Memory(k)) == Memory(WordTail(k))
    decreases |k|
  {
    hide Mix, Plus, Little, Slice, Memory;
    if |k| >= 3 {
      MemoryWord(k, 0);
      MemoryWord(k, 1);
      MemoryWord(k, 2);
      MemoryDrops(k, 3);
      RoundsAgree(k[3..], Mix(Absorb(r, Memory(k))));
    }
  }

  /** The byte hash of the memory of an array of words is its word hash, whatever the length. */
  lemma HashesAgree(k: seq<uint32>, initval: uint32)
    ensures ByteHash(Memory(k), initval) == WordHash(k, initval)
  {
    hide Mix, Plus, Little, Slice, Memory, ByteRounds, WordRounds, ByteTail, WordTail;
    RoundsAgree(k, Regs(GOLDEN_RATIO, GOLDEN_RATIO, initval));
    var t := WordTail(k);
    MemoryWord(t, 0);
    MemoryWord(t, 1);
    NothingHigh(Memory(t));
  }

  lemma NothingHigh(k: Bytes)
    requires |k| <= 8
    ensures Little(Slice(k, 8, 11)) == 0
  {
  }
}
