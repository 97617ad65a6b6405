/** One field of an ArcaBook FAST message: stop-bit integers and strings, and the copy and increment
    operators of sections 6.3.4 and 6.3.5 of the FAST Specification 1.1
    (feeds/arca/codec/AB_FastDecode.c, newFastDecode.c, AB_Fast.h). */
module FastFields {
  import opened Basics

  const MAX_FIELD: nat := 14
  const MAX_STRLEN: nat := 64
  const STOP: nat := 0x80

  const OP_NONE: int := 0
  const OP_COPY: int := 1
  const OP_INCR: int := 2

  datatype Code = InvalidState | Incomplete | InvalidHeader

  /** FAST_STATE: the value is a union of a host-order (little-endian) integer and a string. */
  datatype RawState = FieldState(field: nat, valid: bool, op: int, size: nat, value: Bytes)

  type FieldState = s: RawState | s.size <= MAX_STRLEN && |s.value| == MAX_STRLEN
    witness FieldState(0, false, 0, 0, seq(MAX_STRLEN, i => 0))

  type Table = t: seq<FieldState> | |t| == MAX_FIELD
    witness seq(MAX_FIELD, i => FieldState(0, false, 0, 0, seq(MAX_STRLEN, j => 0)))

  /** Every entry sits at its own field number. */
  predicate TableOk(t: Table) { forall f :: 0 <= f < MAX_FIELD ==> t[f].field == f }

  // ----- integers as bytes -----

  /** The network-order bytes of v (htonl), most significant first. */
  function Network(v: uint32): (r: Bytes)
    ensures |r| == 4
  {
    [Host(v)[3], Host(v)[2], Host(v)[1], Host(v)[0]]
  }

  function Stored(value: Bytes): uint32
    requires |value| == MAX_STRLEN
  {
    Combine(value[0], value[1], value[2], value[3])
  }

  function Store(value: Bytes, v: uint32): (r: Bytes)
    requires |value| == MAX_STRLEN
    ensures |r| == MAX_STRLEN
  {
    Host(v) + value[4..]
  }

  /** What is stored as an integer is read back as one. */
  lemma StoreRoundTrip(value: Bytes, v: uint32)
    requires |value| == MAX_STRLEN
    ensures Stored(Store(value, v)) == v && Store(value, v)[4..] == value[4..]
  {
    HostDigits(v);
    var s := Store(value, v);
    assert s[0] == Host(v)[0] && s[1] == Host(v)[1] && s[2] == Host(v)[2] && s[3] == Host(v)[3];
  }

  // ----- stop-bit coding -----

  /** The number of bytes before the first one with the stop bit; |buf| if there is none. */
  function StopAt(buf: Bytes): (n: nat)
    ensures n <= |buf|
    ensures forall i :: 0 <= i < n ==> buf[i] < STOP
    ensures n < |buf| ==> buf[n] >= STOP
  {
    if buf == [] || buf[0] >= STOP then 0 else 1 + StopAt(buf[1..])
  }

  lemma {:induction false} StopIs(buf: Bytes, n: nat)
    requires n <= |buf| && (forall i :: 0 <= i < n ==> buf[i] < STOP) && (n < |buf| ==> buf[n] >= STOP)
    ensures StopAt(buf) == n
  {
    hide StopAt;
  }

  /** The stop byte is found in any buffer that begins with the same bytes. */
  lemma {:induction false} StopLocal(buf: Bytes, other: Bytes)
    requires StopAt(buf) < |buf| && StopAt(buf) < |other| && buf[..StopAt(buf) + 1] == other[..StopAt(buf) + 1]
    ensures StopAt(other) == StopAt(buf)
  {
    hide StopAt;
    var n := StopAt(buf);
    forall i | 0 <= i <= n ensures other[i] == buf[i] {
      assert buf[..n + 1][i] == other[..n + 1][i];
    }
    StopIs(other, n);
  }

  /** The base-128 value of a string of bytes, the stop bit not counted. */
  function Base128(s: Bytes): nat {
    if s == [] then 0 else Base128(s[..|s| - 1]) * 128 + s[|s| - 1] % STOP
  }

  lemma Base128Append(s: Bytes, b: byte)
    ensures Base128(s + [b]) == Base128(s) * 128 + b % STOP
  {
    assert (s + [b])[..|s|] == s;
  }

  /** Shifting seven bits into 32, as the loops do it. */
  function ShiftIn(d: uint32, b: byte): uint32 { (d * 128) % UINT32 + b % STOP }

  lemma ShiftInWraps(n: nat, b: byte)
    ensures ShiftIn(n % UINT32, b) == (n * 128 + b % STOP) % UINT32
  {
    var q, d := n / UINT32, n % UINT32;
    assert n * 128 == q * 128 * UINT32 + d * 128;
    var e := (d * 128) % UINT32;
    assert e % 128 == 0 && e + b % STOP < UINT32;
    var p := d * 128 / UINT32;
    assert n * 128 + b % STOP == (q * 128 + p) * UINT32 + (e + b % STOP);
    Remainder(q * 128 + p, e + b % STOP, n * 128 + b % STOP);
  }

  lemma Remainder(q: nat, r: nat, n: nat)
    requires r < UINT32 && n == q * UINT32 + r
    ensures n % UINT32 == r
  {
  }

  // ----- one field, specified -----

  /** The outcome of decoding a value of type V: what was read, how many bytes it took, the new state. */
  datatype Step<V> = Read(value: V, used: nat, state: FieldState) | Failed(code: Code)

  /** An integer field. */
  function IntStep(buf: Bytes, s: FieldState, present: bool): (r: Step<uint32>)
    ensures r.Read? ==> r.used <= |buf| && (present <==> r.used > 0) && r.state.field == s.field
    ensures r.Failed? ==> r.code != InvalidHeader
  {
    if !present then
      if !s.valid then Failed(InvalidState)
      else if s.op == OP_INCR then
        var v := (Stored(s.value) + 1) % UINT32;
        Read(v, 0, s.(value := Store(s.value, v)))
      else if s.op == OP_COPY then Read(Stored(s.value), 0, s)
      else Failed(InvalidState)
    else if StopAt(buf) == |buf| then Failed(Incomplete)
    else
      var v := Base128(buf[..StopAt(buf) + 1]) % UINT32;
      Read(v, StopAt(buf) + 1,
           if s.op == OP_COPY || s.op == OP_INCR
           then s.(valid := true, value := Store(s.value, v), size := 4) else s)
  }

  /** The characters of a string, the stop bit of the last one cleared. */
  function Text(buf: Bytes): (r: Bytes)
    requires StopAt(buf) < |buf|
    ensures |r| == StopAt(buf) + 1
  {
    buf[..StopAt(buf)] + [buf[StopAt(buf)] % STOP]
  }

  /** A string field: too long a string is not kept for copying. */
  function AsciiStep(buf: Bytes, s: FieldState, present: bool): (r: Step<Bytes>)
    ensures r.Read? ==> r.used <= |buf| && (present <==> r.used > 0) && r.state.field == s.field
    ensures r.Failed? ==> r.code != InvalidHeader
  {
    if !present then
      if s.valid && s.op == OP_COPY then Read(s.value[..s.size], 0, s) else Failed(InvalidState)
    else if StopAt(buf) == |buf| then Failed(Incomplete)
    else Read(Text(buf), StopAt(buf) + 1, Keep(s, Text(buf)))
  }

  function Keep(s: FieldState, text: Bytes): (r: FieldState)
    ensures r.field == s.field
  {
    if s.op != OP_COPY then s
    else if |text| <= MAX_STRLEN then
      s.(valid := true, value := text + s.value[|text|..], size := |text|)
    else s.(valid := false)
  }

  // ----- the loops -----

  /** The digit loop of DecodeI32. */
  method ReadNumber(buf: Bytes) returns (data: uint32, size: nat)
    ensures StopAt(buf) == |buf| ==> size == 0
    ensures StopAt(buf) < |buf| ==> size == StopAt(buf) + 1 && data == Base128(buf[..size]) % UINT32
  {
    data, size := 0, 0;
    while |buf| > size && buf[size] < STOP
      invariant size <= |buf| && forall i :: 0 <= i < size ==> buf[i] < STOP
      invariant data == Base128(buf[..size]) % UINT32
    {
      data := NextDigit(data, buf, size);
      size := size + 1;
    }
    StopIs(buf, size);
    if size < |buf| {
      data := NextDigit(data, buf, size);
      size := size + 1;
    } else {
      size := 0;
    }
  }

  method NextDigit(data: uint32, buf: Bytes, i: nat) returns (r: uint32)
    requires i < |buf| && data == Base128(buf[..i]) % UINT32
    ensures r == Base128(buf[..i + 1]) % UINT32
  {
    hide Base128, ShiftIn;
    ShiftInWraps(Base128(buf[..i]), buf[i]);
    Base128Append(buf[..i], buf[i]);
    assert buf[..i + 1] == buf[..i] + [buf[i]];
    r := ShiftIn(data, buf[i]);
  }

  /** The character loop of DecodeASCII. */
  method ReadText(buf: Bytes) returns (data: Bytes, size: nat)
    ensures StopAt(buf) == |buf| ==> size == 0
    ensures StopAt(buf) < |buf| ==> size == StopAt(buf) + 1 && data == Text(buf)
  {
    data, size := [], 0;
    while |buf| > size && buf[size] < STOP
      invariant size <= |buf| && forall i :: 0 <= i < size ==> buf[i] < STOP
      invariant data == buf[..size]
    {
      data := data + [buf[size]];
      size := size + 1;
    }
    StopIs(buf, size);
    if |buf| > size {
      data := data + [buf[size] % STOP];
      size := size + 1;
    } else {
      size := 0;
    }
  }
}
