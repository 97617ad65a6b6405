/** Sequence numbers as ten characters of text (feeds/directedge/common/fh_edge_login.c):
    convert64to10chars prints one, convert10chartoInt reads one back. Characters are bytes. */
module DecimalText {
  import opened Basics

  const UINT64: nat := 0x1_0000_0000_0000_0000
  type uint64 = v: int | 0 <= v < UINT64

  const SPACE: byte := 32
  const ZERO: int := 48
  const WIDTH: nat := 10

  function Pow10(k: nat): (r: nat)
    ensures r > 0
  {
    if k == 0 then 1 else 10 * Pow10(k - 1)
  }

  // ----- printing, specified -----

  function Digit(d: nat): byte
    requires d < 10
  {
    ZERO + d
  }

  /** v in n decimal places. */
  function Padded(v: nat, n: nat): (r: Bytes)
    ensures |r| == n
  {
    if n == 0 then [] else Padded(v / 10, n - 1) + [Digit(v % 10)]
  }

  /** The number of decimal places of v. */
  function Places(v: nat): (n: nat)
    ensures n > 0
  {
    if v < 10 then 1 else 1 + Places(v / 10)
  }

  function Spaces(n: nat): (r: Bytes)
    ensures |r| == n && forall i :: 0 <= i < n ==> r[i] == SPACE
  {
    seq(n, i => SPACE)
  }

  /** What is printed: v right-justified; past ten places, whatever character the leading part makes. */
  function Printed(v: nat): (r: Bytes)
    ensures |r| == WIDTH
  {
    if Places(v) <= WIDTH then Spaces(WIDTH - Places(v)) + Padded(v, Places(v)) else Led(v, WIDTH)
  }

  /** v before its last n - 1 places, and in them. */
  function Lead(v: nat, n: nat): int
    requires n > 0
  {
    v / Pow10(n - 1)
  }

  function Trail(v: nat, n: nat): nat
    requires n > 0
  {
    v % Pow10(n - 1)
  }

  /** v in n characters, of which the first takes all that is left, modulo 256. */
  function Led(v: nat, n: nat): (r: Bytes)
    requires n > 0
    ensures |r| == n
  {
    [(Lead(v, n) + ZERO) % 256] + Padded(Trail(v, n), n - 1)
  }

  // ----- reading, specified -----

  function Signed(b: byte): int { if b < 128 then b else b as int - 256 }

  /** The value of a 32-bit int computation. */
  function Wrap32(x: int): (r: int)
    ensures -0x8000_0000 <= r < 0x8000_0000
  {
    (x + 0x8000_0000) % 0x1_0000_0000 - 0x8000_0000
  }

  /** The sum of the places from the k-th up to the first space. */
  function Sum(s: Bytes, k: nat): int
    requires |s| == WIDTH && k <= WIDTH
    decreases WIDTH - k
  {
    if k == WIDTH || s[9 - k] == SPACE then 0
    else Wrap32((Signed(s[9 - k]) - ZERO) * Pow10(k)) + Sum(s, k + 1)
  }

  function Parsed(s: Bytes): uint64
    requires |s| == WIDTH
  {
    Sum(s, 0) % UINT64
  }

  // ----- arithmetic -----

  /** Dividing by ten and by a power of ten. */
  lemma TenTimes(v: nat, p: nat)
    requires p > 0
    ensures v / 10 / p == v / (10 * p)
    ensures v % (10 * p) / 10 == v / 10 % p
    ensures v % (10 * p) % 10 == v % 10
  {
    var a, d := v / 10, v % 10;
    var q, r := a / p, a % p;
    assert v == q * (10 * p) + (10 * r + d);
    Quotient(v, 10 * p, q, 10 * r + d);
  }

  /** The leading place of n, and the places after it. */
  lemma {:induction false} LeadingPlace(v: nat, n: nat)
    requires n > 0 && v < Pow10(n)
    ensures 0 <= Lead(v, n) < 10
    ensures Padded(v, n) == [Digit(Lead(v, n))] + Padded(Trail(v, n), n - 1)
  {
    if n > 1 {
      var p := Pow10(n - 2);
      LeadingPlace(v / 10, n - 1);
      TenTimes(v, p);
      assert Padded(v % Pow10(n - 1), n - 1) == Padded(v / 10 % p, n - 2) + [Digit(v % 10)];
    }
  }

  lemma LedIsPadded(v: nat, n: nat)
    requires n > 0 && v < Pow10(n)
    ensures Led(v, n) == Padded(v, n)
  {
    hide Pow10, Padded, Lead, Trail;
    LeadingPlace(v, n);
    OneCharacter(Lead(v, n));
  }

  lemma OneCharacter(d: nat)
    requires d < 10
    ensures (d + ZERO) % 256 == Digit(d)
  {
  }

  lemma {:induction false} PlacesIs(v: nat, n: nat)
    requires n > 0 && v < Pow10(n) && (n == 1 || v >= Pow10(n - 1))
    ensures Places(v) == n
  {
    if n > 1 {
      PowerAtLeast(n - 1);
      if n > 2 { assert v / 10 >= Pow10(n - 2); }
      PlacesIs(v / 10, n - 1);
    }
  }

  lemma PowerAtLeast(n: nat)
    requires n > 0
    ensures Pow10(n) >= 10
  {
  }

  lemma Powers()
    ensures Pow10(0) == 1 && Pow10(1) == 10 && Pow10(2) == 100 && Pow10(3) == 1000 && Pow10(4) == 10000
    ensures Pow10(5) == 100000 && Pow10(6) == 1000000 && Pow10(7) == 10000000 && Pow10(8) == 100000000
    ensures Pow10(9) == 1000000000 && Pow10(10) == 10000000000
  {
    assert Pow10(3) == 1000;
    assert Pow10(6) == 1000000;
  }

  lemma {:induction false} PlacesBeyond(v: nat, n: nat)
    requires v >= Pow10(n)
    ensures Places(v) > n
  {
    if n > 0 {
      PowerAtLeast(n);
      PlacesBeyond(v / 10, n - 1);
    }
  }

  // ----- printing -----

  /** One branch of convert64to10chars: the leading multiple of a power of ten is split off, character
      after character, until two places are left. */
  method PrintPlaces(sess: array<byte>, rest: nat, n: nat)
    requires sess.Length == WIDTH && 2 <= n <= WIDTH
    modifies sess
    ensures sess[..] == old(sess[..WIDTH - n]) + Led(rest, n)
    decreases n
  {
    hide Pow10, Padded, Led;
    var p := Pow10(n - 1);
    var temp := rest / p * p;
    SplitOff(rest, p);
    if n == 2 {
      sess[8] := (rest / 10 + ZERO) % 256;
      sess[9] := rest % 10 + ZERO;
      LastPlace(rest);
    } else {
      sess[WIDTH - n] := (temp / p + ZERO) % 256;
      LedSplits(rest, n, p);
      PrintPlaces(sess, rest - temp, n - 1);
    }
  }

  lemma LedSplits(rest: nat, n: nat, p: nat)
    requires n > 1 && p == Pow10(n - 1)
    ensures Led(rest, n) == [(rest / p + ZERO) % 256] + Led(rest % p, n - 1)
  {
    hide Pow10, Padded;
    LedIsPadded(rest % p, n - 1);
  }

  lemma SplitOff(rest: nat, p: nat)
    requires p > 0
    ensures rest / p * p / p == rest / p && rest - rest / p * p == rest % p && rest % p < p
  {
    Quotient(rest / p * p, p, rest / p, 0);
  }

  lemma LastPlace(rest: nat)
    ensures Led(rest, 2) == [(rest / 10 + ZERO) % 256, rest % 10 + ZERO]
  {
    Powers();
    assert Padded(rest % 10, 1) == [Digit(rest % 10)];
  }

  /** convert64to10chars */
  method Print(value: uint64, sess: array<byte>)
    requires sess.Length == WIDTH
    modifies sess
    ensures sess[..] == Printed(value)
  {
    hide Pow10, Led, Padded, Places, Printed;
    for i := 0 to WIDTH
      invariant forall j :: 0 <= j < i ==> sess[j] == SPACE
    {
      sess[i] := SPACE;
    }
    Powers();
    if value < 10 {
      sess[9] := value + ZERO;
      PrintedIs(value, 1);
      OnePlace(value);
    } else if value < 100 {
      PrintPlaces(sess, value, 2);
      PrintedIs(value, 2);
    } else if value < 1000 {
      PrintPlaces(sess, value, 3);
      PrintedIs(value, 3);
    } else if value < 10000 {
      PrintPlaces(sess, value, 4);
      PrintedIs(value, 4);
    } else if value < 100000 {
      PrintPlaces(sess, value, 5);
      PrintedIs(value, 5);
    } else if value < 1000000 {
      PrintPlaces(sess, value, 6);
      PrintedIs(value, 6);
    } else if value < 10000000 {
      PrintPlaces(sess, value, 7);
      PrintedIs(value, 7);
    } else if value < 100000000 {
      PrintPlaces(sess, value, 8);
      PrintedIs(value, 8);
    } else if value < 1000000000 {
      PrintPlaces(sess, value, 9);
      PrintedIs(value, 9);
    } else {
      PrintPlaces(sess, value, 10);
      if value < 10000000000 { PrintedIs(value, 10); } else { PrintedBeyond(value); }
    }
    assert sess[..] == Printed(value);
  }

  lemma PrintedIs(v: nat, n: nat)
    requires 0 < n <= WIDTH && v < Pow10(n) && (n == 1 || v >= Pow10(n - 1))
    ensures Printed(v) == Spaces(WIDTH - n) + Led(v, n)
  {
    PlacesIs(v, n);
    LedIsPadded(v, n);
  }

  lemma PrintedBeyond(v: nat)
    requires v >= Pow10(WIDTH)
    ensures Printed(v) == Led(v, WIDTH)
  {
    PlacesBeyond(v, WIDTH);
  }

  lemma OnePlace(v: nat)
    requires v < 10
    ensures Led(v, 1) == [Digit(v)]
  {
    assert Padded(v % 1, 0) == [];
  }

  lemma {:induction false} PaddedAt(v: nat, n: nat, k: nat)
    requires k < n
    ensures Padded(v, n)[n - 1 - k] as int == 48 + v / Pow10(k) % 10
  {
    hide Pow10;
    Powers();
    if k > 0 {
      PaddedAt(v / 10, n - 1, k - 1);
      Pow10Next(k);
      TenTimes(v, Pow10(k - 1));
    }
  }

  lemma Pow10Next(k: nat)
    requires k > 0
    ensures Pow10(k) == 10 * Pow10(k - 1)
  {
  }

  lemma PlacesExactly(v: nat, k: nat)
    ensures Places(v) > k <==> k == 0 || v >= Pow10(k)
  {
    hide Pow10;
    if k > 0 {
      if v >= Pow10(k) { PlacesBeyond(v, k); } else { PlacesWithin(v, k); }
    }
  }

  /** The k-th of the ten characters from the right: the decimal digit of that place if v has one there or
      it is the last, a space otherwise; in the first, whatever is left of v, cut to a character. */
  lemma PrintedAt(v: nat, k: nat)
    requires k < 10
    ensures Printed(v)[9 - k] as int ==
            if v < Pow10(k) && k > 0 then 32
            else if k < 9 then 48 + v / Pow10(k) % 10 else (48 + v / Pow10(9)) % 256
  {
    hide Pow10, Padded, Places, Printed;
    if Places(v) <= WIDTH { PrintedShort(v, k); } else { PrintedLong(v, k); }
  }

  lemma PrintedShort(v: nat, k: nat)
    requires k < 10 && Places(v) <= WIDTH
    ensures Printed(v)[9 - k] as int ==
            if v < Pow10(k) && k > 0 then 32
            else if k < 9 then 48 + v / Pow10(k) % 10 else (48 + v / Pow10(9)) % 256
  {
    hide Pow10, Padded, Places, Led;
    PlacesExactly(v, k);
    if k < Places(v) {
      PaddedAt(v, Places(v), k);
      LeadDigit(v);
    }
  }

  lemma PrintedLong(v: nat, k: nat)
    requires k < 10 && Places(v) > WIDTH
    ensures v >= Pow10(k)
    ensures Printed(v)[9 - k] as int == if k < 9 then 48 + v / Pow10(k) % 10 else (48 + v / Pow10(9)) % 256
  {
    hide Pow10, Padded, Places, Trail, Lead;
    PlacesExactly(v, k);
    PlacesExactly(v, WIDTH);
    Powers();
    if k < 9 {
      LaterAt(v, k);
    } else {
      LeadIs(v);
    }
  }

  lemma LaterAt(v: nat, k: nat)
    requires k < 9
    ensures Padded(Trail(v, WIDTH), 9)[8 - k] as int == 48 + v / Pow10(k) % 10
  {
    hide Pow10, Padded;
    PaddedAt(Trail(v, WIDTH), 9, k);
    CutDigit(v, 9, k);
  }

  lemma LeadIs(v: nat)
    ensures Lead(v, WIDTH) == v / Pow10(9)
  {
  }

  /** A number of at most ten places has one digit at the tenth. */
  lemma LeadDigit(v: nat)
    requires Places(v) <= WIDTH
    ensures v / Pow10(9) % 10 == v / Pow10(9) < 10
  {
    hide Places, Pow10;
    PlacesExactly(v, WIDTH);
    Powers();
  }

  /** Cutting off whole multiples of a power of ten keeps the places below it. */
  lemma {:induction false} CutDigit(v: nat, n: nat, k: nat)
    requires k < n
    ensures v % Pow10(n) / Pow10(k) % 10 == v / Pow10(k) % 10
  {
    hide Pow10;
    Pow10Next(n);
    TenTimes(v, Pow10(n - 1));
    if k == 0 {
      Powers();
    } else {
      Pow10Next(k);
      TenTimes(v, Pow10(k - 1));
      TenTimes(v % Pow10(n), Pow10(k - 1));
      CutDigit(v / 10, n - 1, k - 1);
    }
  }

  // ----- reading -----

  /** convert10chartoInt */
  method Read(s: Bytes) returns (temp: uint64)
    requires |s| == WIDTH
    ensures temp == Parsed(s)
  {
    hide Sum, Pow10, Wrap32;
    temp := 0;
    var y, i := 0, 9;
    ghost var total := 0;
    SumStep(s, 0);
    while i >= 0
      invariant -1 <= i <= 9 && total + Sum(s, 9 - i) == Sum(s, 0) && temp == total % UINT64
      invariant y == if i == 9 then 0 else Pow10(8 - i)
    {
      SumStep(s, 9 - i);
      if s[i] == SPACE { break; }
      if y == 0 { y := 1; } else { y := y * 10; SumStep(s, 8 - i); }
      var term := Wrap32((Signed(s[i]) - ZERO) * y);
      AddWraps(total, term);
      temp := (temp + term) % UINT64;
      total := total + term;
      i := i - 1;
    }
  }

  lemma AddWraps(total: int, term: int)
    ensures (total % UINT64 + term) % UINT64 == (total + term) % UINT64
  {
  }

  // ----- the round trip -----

  /** The places from the k-th on, when n of them are the digits of w. */
  lemma {:induction false} SumOfPlaces(s: Bytes, k: nat, n: nat, w: nat)
    requires |s| == WIDTH && k + n <= 9 && w < Pow10(n) && s[WIDTH - k - n..WIDTH - k] == Padded(w, n)
    ensures Sum(s, k) == w * Pow10(k) + Sum(s, k + n)
    decreases n
  {
    hide Pow10, Padded, Sum;
    PaddedStep(w, n);
    SumStep(s, k);
    if n > 0 {
      var t := s[WIDTH - k - n..WIDTH - k];
      assert s[9 - k] == t[n - 1];
      assert s[WIDTH - (k + 1) - (n - 1)..WIDTH - (k + 1)] == t[..n - 1];
      SumOfPlaces(s, k + 1, n - 1, w / 10);
      NoWrap(w % 10, k);
      Distribute(w, Pow10(k));
    }
  }

  lemma PaddedStep(w: nat, n: nat)
    ensures n == 0 && w < Pow10(n) ==> w == 0
    ensures n > 0 ==> Padded(w, n)[n - 1] == Digit(w % 10) && Padded(w, n)[..n - 1] == Padded(w / 10, n - 1)
    ensures n > 0 && w < Pow10(n) ==> w / 10 < Pow10(n - 1)
  {
  }

  lemma SumStep(s: Bytes, k: nat)
    requires |s| == WIDTH && k < WIDTH
    ensures s[9 - k] != SPACE ==> Sum(s, k) == Wrap32((Signed(s[9 - k]) - ZERO) * Pow10(k)) + Sum(s, k + 1)
    ensures s[9 - k] == SPACE ==> Sum(s, k) == 0
    ensures Sum(s, WIDTH) == 0
    ensures Pow10(0) == 1 && Pow10(k + 1) == 10 * Pow10(k)
  {
  }

  lemma NoWrap(d: nat, k: nat)
    requires d < 10 && k <= 8
    ensures Wrap32(d * Pow10(k)) == d * Pow10(k)
  {
    PowerBound(k);
    Scaled(d, Pow10(k));
  }

  lemma Scaled(d: nat, p: nat)
    requires d < 10
    ensures 0 <= d * p <= 9 * p
  {
  }

  lemma PowerBound(k: nat)
    requires k <= 8
    ensures Pow10(k) <= 100000000
  {
    Powers();
  }

  lemma Distribute(w: nat, p: nat)
    ensures w * p == (w % 10) * p + (w / 10) * (10 * p)
  {
    assert w == 10 * (w / 10) + w % 10;
  }

  lemma {:induction false} PlacesWithin(v: nat, n: nat)
    requires n > 0 && v < Pow10(n)
    ensures Places(v) <= n && v < Pow10(Places(v))
  {
    if v >= 10 {
      assert Pow10(1) == 10;
      PlacesWithin(v / 10, n - 1);
    }
  }

  lemma ShortSum(v: nat)
    requires v < Pow10(9)
    ensures Parsed(Printed(v)) == v
  {
    hide Pow10, Padded, Sum, Places;
    PlacesWithin(v, 9);
    var s, n := Printed(v), Places(v);
    assert s[WIDTH - n..WIDTH] == Padded(v, n);
    SumOfPlaces(s, 0, n, v);
    SumStep(s, n);
    assert s[9 - n] == Spaces(WIDTH - n)[9 - n];
    Powers();
  }

  /** What the first character of ten contributes. */
  function LeadTerm(lead: nat): int {
    var c := (lead + ZERO) % 256;
    if c == SPACE then 0 else Wrap32((Signed(c) - ZERO) * 1000000000)
  }

  lemma LongSum(v: nat)
    requires v >= Pow10(9)
    ensures Parsed(Printed(v)) == (v % 1000000000 + LeadTerm(v / 1000000000)) % UINT64
  {
    hide Pow10, Padded, Sum, Places, Printed, Wrap32;
    var s, lead, low := Printed(v), v / 1000000000, v % 1000000000;
    LongText(v, lead, low);
    Powers();
    SumOfPlaces(s, 0, 9, low);
    SumStep(s, 9);
  }

  lemma LongText(v: nat, lead: nat, low: nat)
    requires v >= Pow10(9) && lead == v / 1000000000 && low == v % 1000000000
    ensures var s := Printed(v); s[0] == (lead + ZERO) % 256 && s[WIDTH - 9..WIDTH] == Padded(low, 9)
  {
    hide Pow10, Padded, Places, Printed, Led;
    Powers();
    LedTen(v, lead, low);
    if v < Pow10(10) { PrintedIs(v, 10); assert Spaces(0) + Led(v, 10) == Led(v, 10); } else { PrintedBeyond(v); }
  }

  lemma LedTen(v: nat, lead: nat, low: nat)
    requires lead == v / 1000000000 && low == v % 1000000000
    ensures Led(v, 10) == [(lead + ZERO) % 256] + Padded(low, 9)
  {
    hide Pow10, Padded;
    Powers();
  }

  /** The first character is read back only if it is a digit below 3. */
  lemma LeadTermExactly(lead: nat, low: nat)
    requires 1 <= lead && low < 1000000000 && lead * 1000000000 + low < UINT64
    ensures (low + LeadTerm(lead)) % UINT64 == lead * 1000000000 + low <==> lead < 3
  {
    var w := LeadTerm(lead);
    assert -0x8000_0000 <= w < 0x8000_0000;
    if lead < 10 {
      SmallLead(lead);
    } else if lead >= 18446744072 {
      LargeLead(lead);
    }
  }

  lemma SmallLead(lead: nat)
    requires 1 <= lead < 10
    ensures LeadTerm(lead) == if lead < 3 then lead * 1000000000 else if lead < 7 then lead * 1000000000 - 0x1_0000_0000
            else lead * 1000000000 - 0x2_0000_0000
  {
  }

  lemma LargeLead(lead: nat)
    requires lead == 18446744072 || lead == 18446744073
    ensures LeadTerm(lead) != lead * 1000000000 - UINT64
  {
  }

  /** What is printed reads back exactly when it is below three thousand million: from there on the
      product for the tenth place does not fit in an int. */
  lemma RoundTripExactly(v: uint64)
    ensures Parsed(Printed(v)) == v <==> v < 3000000000
  {
    hide Printed, Parsed, LeadTerm;
    Powers();
    if v < 1000000000 {
      ShortSum(v);
    } else {
      LongSum(v);
      LeadTermExactly(v / 1000000000, v % 1000000000);
    }
  }

  /** A number of ten places from three thousand million on reads back too low, by 2^32 or, from seven
      thousand million on, by twice that. */
  lemma MisreadExactly(v: uint64)
    requires 1000000000 <= v < 10000000000
    ensures Parsed(Printed(v)) ==
            (v - if v < 3000000000 then 0 else if v < 7000000000 then 0x1_0000_0000 else 0x2_0000_0000) % UINT64
  {
    hide Printed, Parsed, LeadTerm;
    LongSum(v);
    SmallLead(v / 1000000000);
  }

  /** A character behind a space counts as it is, digit or not, as a signed char. */
  lemma OneCharacterRead(s: Bytes, b: byte)
    requires |s| == WIDTH && s[8] == 32 && s[9] == b && b != 32
    ensures Parsed(s) == (if b < 128 then b as int - 48 else b as int - 304) % UINT64
  {
    Powers();
    assert Sum(s, 1) == 0;
  }

  /** Printing a number and reading the characters back, as a client of both does. */
  method PrintAndRead(v: uint64) returns (r: uint64)
    ensures r == v <==> v < 3000000000
  {
    hide Printed, Parsed;
    var sess := new byte[WIDTH](i => 0);
    Print(v, sess);
    r := Read(sess[..]);
    RoundTripExactly(v);
  }
}
