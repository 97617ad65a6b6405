/** What the models share: status codes (common/fh_errors.h), machine integers and their bytes, powers
    of two. */
module Basics {

  datatype Option<+T> = None | Some(value: T)

  /** FH_OK, FH_ERROR, FH_ERR_DUP and FH_ERR_NOTFOUND. */
  datatype Status = Ok | Error | Duplicate | NotFound

  /** For counting how many of several conditions hold. */
  function Tally(b: bool): nat { if b then 1 else 0 }

  // ----- machine integers -----

  const UINT32: nat := 0x1_0000_0000

  /** Assigning a value outside the range is an error, never a wrap. */
  type uint32 = v: int | 0 <= v < UINT32

  type byte = b: int | 0 <= b < 256
  type Bytes = seq<byte>

  function Low(v: uint32): byte { v % 256 }

  function Shift(v: uint32): (r: uint32)
    ensures r == v / 256
  {
    v / 256
  }

  /** The host-order bytes of v, least significant first. */
  function Host(v: uint32): (r: Bytes)
    ensures |r| == 4
  {
    [Low(v), Low(Shift(v)), Low(Shift(Shift(v))), Low(Shift(Shift(Shift(v))))]
  }

  function Combine(b0: int, b1: int, b2: int, b3: int): int { b0 + 256 * (b1 + 256 * (b2 + 256 * b3)) }

  lemma HostDigits(v: uint32)
    ensures v == Combine(Host(v)[0], Host(v)[1], Host(v)[2], Host(v)[3])
  {
    hide Host;
    var v1 := Shift(v);
    var v2 := Shift(v1);
    var v3 := Shift(v2);
    HostBytes(v);
    Digit(v);
    Digit(v1);
    Digit(v2);
    assert v3 < 256;
  }

  lemma HostBytes(v: uint32)
    ensures Host(v) == [Low(v), Low(Shift(v)), Low(Shift(Shift(v))), Low(Shift(Shift(Shift(v))))]
  {
  }

  lemma Digit(v: uint32)
    ensures v == Low(v) as int + 256 * Shift(v)
  {
  }

  // ----- division -----

  lemma Quotient(v: int, p: int, q: int, r: int)
    requires p > 0 && v == q * p + r && 0 <= r < p
    ensures v / p == q && v % p == r
  {
    var a, b := v / p, v % p;
    assert v == a * p + b;
    assert (a - q) * p == r - b;
    if a > q { Larger(a - q, p); } else if a < q { Larger(q - a, p); }
  }

  lemma Larger(d: int, p: int)
    requires d >= 1 && p > 0
    ensures d * p >= p
  {
  }

  // ----- powers of two -----

  function Pow2(k: nat): (r: nat)
    ensures r > 0
  {
    if k == 0 then 1 else 2 * Pow2(k - 1)
  }
}
