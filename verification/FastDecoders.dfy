/** The two FAST decoders as they run: the original on a local copy of the state table
    (feeds/arca/codec/AB_FastDecode.c), the optimised one in place (newFastDecode.c). */
module FastDecoders {
  import opened Basics
  import opened FastFields
  import opened FastDecode

  /** AB_OK or an error code. */
  datatype DecodeStatus = AbOk | Err(code: Code)

  /** What a step of a decoder reports, and the table it leaves, are those of w. */
  predicate Follows(w: Walk, rc: DecodeStatus, offset: nat, values: seq<Bytes>, table: seq<FieldState>) {
    match w
    case Done(o, t, v) => rc == AbOk && offset == o && values == v && table == t
    case Stuck(code, t) => rc == Err(code) && table == t
  }

  predicate FollowsInt(r: Step<uint32>, rc: DecodeStatus, len: nat, data: uint32, s: FieldState, s0: FieldState) {
    match r
    case Read(v, used, s1) => rc == AbOk && len == used && data == v && s == s1
    case Failed(code) => rc == Err(code) && s == s0
  }

  predicate FollowsText(r: Step<Bytes>, rc: DecodeStatus, len: nat, data: Bytes, s: FieldState, s0: FieldState) {
    match r
    case Read(v, used, s1) => rc == AbOk && len == used && data == v && s == s1
    case Failed(code) => rc == Err(code) && s == s0
  }

  // ----- presence maps -----

  /** PmapLen: the bytes up to the stop byte, at most n. */
  method PmapLen(pmap: Bytes, n: nat) returns (len: nat)
    requires |pmap| >= n >= 2
    ensures len == StopAt(pmap[..n - 1]) + 1
  {
    var i := 0;
    while pmap[i] < STOP
      invariant i < n - 1 && forall j :: 0 <= j < i ==> pmap[j] < STOP
      decreases n - i
    {
      i := i + 1;
      if i >= n - 1 { break; }
    }
    StopIs(pmap[..n - 1], i);
    return i + 1;
  }

  /** copyPmap: a stop byte that is the last of n is copied, an earlier one is not. */
  method CopyPmap(src: Bytes, n: nat) returns (pmap: Bytes, len: nat)
    requires |src| >= n >= 2
    ensures len == StopAt(src[..n - 1]) + 1
    ensures pmap == if len == n then src[..n] else src[..len - 1] + seq(n - len + 1, i => 0)
  {
    pmap := seq(n, i => 0);
    var i := 0;
    while src[i] < STOP
      invariant i < n - 1 && forall j :: 0 <= j < i ==> src[j] < STOP
      invariant pmap == src[..i] + seq(n - i, i => 0)
      decreases n - i
    {
      pmap := pmap[i := src[i]];
      i := i + 1;
      if i >= n - 1 {
        pmap := pmap[i := src[i]];
        break;
      }
    }
    StopIs(src[..n - 1], i);
    return pmap, i + 1;
  }

  lemma OneByte(src: Bytes)
    requires |src| >= 2
    ensures StopAt(src[..1]) == if src[0] >= STOP then 0 else 1
  {
    StopIs(src[..1], if src[0] >= STOP then 0 else 1);
  }

  /** ABFastValidate of the original. */
  method ValidateOriginal(src: Bytes) returns (rc: DecodeStatus, pmap: Pmap)
    requires |src| >= MIN_FAST_MSG
    ensures rc == if ReadHeader(src).Header? then AbOk else Err(InvalidHeader)
    ensures rc == AbOk ==> pmap == ReadHeader(src).pmap && (pmap[0] >= STOP <==> ReadHeader(src).length == 1)
  {
    pmap := [0, 0];
    var len := PmapLen(src, MAX_PMAP);
    OneByte(src);
    pmap := src[..len] + pmap[len..];
    assert pmap == if len == 1 then [src[0], 0] else [src[0], src[1]];
    if len < 1 || pmap[len - 1] < STOP { return Err(InvalidHeader), pmap; }
    if !BitSet(pmap, MSG_TYPE) { return Err(InvalidHeader), pmap; }
    return AbOk, pmap;
  }

  /** ABFastValidate of the optimised decoder. */
  method ValidateOptimised(src: Bytes) returns (rc: DecodeStatus, pmap: Pmap, len: nat)
    requires |src| >= MIN_FAST_MSG
    ensures rc == if src[0] < STOP && ReadHeader(src).Header? then AbOk else Err(InvalidHeader)
    ensures rc == AbOk ==> ReadHeader(src) == Header(pmap, len)
  {
    var copy;
    copy, len := CopyPmap(src, MAX_PMAP);
    pmap := copy;
    OneByte(src);
    assert pmap == if src[0] >= STOP then [0, 0] else [src[0], src[1]];
    if len < 1 || pmap[len - 1] < STOP { return Err(InvalidHeader), pmap, len; }
    if !BitSet(pmap, MSG_TYPE) { return Err(InvalidHeader), pmap, len; }
    return AbOk, pmap, len;
  }

  // ----- one field -----

  /** DecodeI32 on the state of its field. */
  method DecodeInt(buf: Bytes, s: FieldState, present: bool)
    returns (rc: DecodeStatus, len: nat, data: uint32, s1: FieldState)
    ensures FollowsInt(IntStep(buf, s, present), rc, len, data, s1, s)
  {
    s1, len, data := s, 0, 0;
    if !present {
      if s1.valid {
        if s1.op == OP_INCR {
          s1 := s1.(value := Store(s1.value, (Stored(s1.value) + 1) % UINT32));
          StoreRoundTrip(s.value, (Stored(s.value) + 1) % UINT32);
        } else if s1.op != OP_COPY {
          return Err(InvalidState), len, data, s1;
        }
        data := Stored(s1.value);
      } else {
        return Err(InvalidState), len, data, s1;
      }
      return AbOk, len, data, s1;
    }
    data, len := ReadNumber(buf);
    if len == 0 { return Err(Incomplete), len, data, s1; }
    if s1.op == OP_COPY || s1.op == OP_INCR {
      s1 := s1.(valid := true, value := Store(s1.value, data), size := 4);
    }
    return AbOk, len, data, s1;
  }

  /** DecodeASCII on the state of its field. */
  method DecodeText(buf: Bytes, s: FieldState, present: bool)
    returns (rc: DecodeStatus, len: nat, data: Bytes, s1: FieldState)
    ensures FollowsText(AsciiStep(buf, s, present), rc, len, data, s1, s)
  {
    s1, len, data := s, 0, [];
    if !present {
      if s1.valid {
        if s1.op == OP_COPY {
          data := s1.value[..s1.size];
        } else {
          return Err(InvalidState), len, data, s1;
        }
      } else {
        return Err(InvalidState), len, data, s1;
      }
      return AbOk, len, data, s1;
    }
    data, len := ReadText(buf);
    if len == 0 { return Err(Incomplete), len, data, s1; }
    if s1.op == OP_COPY {
      if len <= MAX_STRLEN {
        s1 := s1.(valid := true, value := data + s1.value[len..], size := len);
      } else {
        s1 := s1.(valid := false);
      }
    }
    return AbOk, len, data, s1;
  }

  /** htons of a 16-bit value. */
  function Swapped(v: nat): Bytes
    requires v < 0x10000
  {
    [v / 256, v % 256]
  }

  /** Narrowing before the conversion to network order, as the original does, and after it, as the
      optimised decoder does, deliver the same bytes. */
  lemma NarrowingCommutes(v: uint32)
    ensures Swapped(v % 0x10000) == Wire(I16, v) && [Low(v)] == Wire(I8, v)
  {
    hide Low, Shift;
    SecondByte(v);
    FirstByte(v);
    assert Wire(I16, v) == [Low(Shift(v)), Low(v)];
  }

  lemma SecondByte(v: uint32)
    ensures v % 0x10000 / 256 == Low(Shift(v))
  {
    var a, b := v / 0x10000, v % 0x10000;
    assert v == 0x10000 * a + b;
    assert v / 256 == 256 * a + b / 256;
  }

  lemma FirstByte(v: uint32)
    ensures v % 0x10000 % 256 == Low(v)
  {
    var a, b := v / 0x10000, v % 0x10000;
    assert v == 256 * (256 * a) + b;
  }

  /** One field of the original: the entry is checked, and a narrow integer is cut, then converted. */
  method OriginalField(item: Item, src: Bytes, off: nat, state: array<FieldState>, p: Pmap)
    returns (rc: DecodeStatus, offset: nat, value: Bytes)
    requires state.Length == MAX_FIELD && off <= |src|
    modifies state
    ensures Follows(One(item, src, off, old(state[..]), p), rc, offset, [value], state[..])
  {
    hide IntStep, AsciiStep, BitSet, TableOk, Wire;
    var f := item.field;
    offset, value := off, [];
    if state[f].field != f { return Err(InvalidState), offset, value; }
    var len, s;
    if item.kind.Ascii? {
      rc, len, value, s := DecodeText(src[off..], state[f], BitSet(p, f));
    } else {
      var data;
      rc, len, data, s := DecodeInt(src[off..], state[f], BitSet(p, f));
      NarrowingCommutes(data);
      match item.kind
      case I8 => value := [Low(data)];
      case I16 => value := Swapped(data % 0x10000);
      case _ => value := Network(data); FullWidth(data);
    }
    state[f] := s;
    if rc == AbOk { offset := off + len; }
  }

  lemma FullWidth(v: uint32)
    ensures Network(v) == Wire(I32, v)
  {
  }

  /** One field of the optimised decoder: the entry's own number selects the presence bit, and a narrow
      integer is converted, then cut. */
  method OptimisedField(item: Item, src: Bytes, off: nat, state: array<FieldState>, p: Pmap)
    returns (rc: DecodeStatus, offset: nat, value: Bytes)
    requires state.Length == MAX_FIELD && off <= |src| && TableOk(state[..])
    modifies state
    ensures Follows(One(item, src, off, old(state[..]), p), rc, offset, [value], state[..])
    ensures TableOk(state[..])
  {
    hide IntStep, AsciiStep, BitSet;
    var f := item.field;
    assert state[..][f].field == f;
    offset, value := off, [];
    var len, s;
    if item.kind.Ascii? {
      rc, len, value, s := DecodeText(src[off..], state[f], BitSet(p, state[f].field));
    } else {
      var data;
      rc, len, data, s := DecodeInt(src[off..], state[f], BitSet(p, state[f].field));
      match item.kind
      case I8 => value := Network(data)[3..];
      case I16 => value := Network(data)[2..];
      case _ => value := Network(data);
    }
    state[f] := s;
    if rc == AbOk { offset := off + len; }
  }

  // ----- several fields -----

  lemma FieldsUnfold(items: seq<Item>, k: nat, src: Bytes, off: nat, t: Table, p: Pmap)
    requires k < |items| && off <= |src|
    ensures Fields(items[k..], src, off, t, p) ==
            var w := One(items[k], src, off, t, p);
            if w.Stuck? then w else Prepend(w.values, Fields(items[k + 1..], src, w.offset, w.table, p))
  {
    hide One, Prepend, TableOk;
    assert items[k..][0] == items[k] && items[k..][1..] == items[k + 1..];
  }

  /** The state of a decoder that has decoded the first k items from off0 and table t0. */
  predicate Reached(items: seq<Item>, k: nat, src: Bytes, off0: nat, t0: Table, p: Pmap,
                    offset: nat, values: seq<Bytes>, t: Table) {
    && k <= |items| && off0 <= |src| && offset <= |src|
    && Fields(items, src, off0, t0, p) == Prepend(values, Fields(items[k..], src, offset, t, p))
  }

  lemma ReachStart(items: seq<Item>, src: Bytes, off0: nat, t0: Table, p: Pmap)
    requires off0 <= |src|
    ensures Reached(items, 0, src, off0, t0, p, off0, [], t0)
  {
    PrependTwice([], [], Fields(items, src, off0, t0, p));
    assert items[0..] == items;
  }

  lemma ReachNext(items: seq<Item>, k: nat, src: Bytes, off0: nat, t0: Table, p: Pmap,
                  offset: nat, values: seq<Bytes>, t: Table)
    requires Reached(items, k, src, off0, t0, p, offset, values, t) && k < |items|
    ensures var w := One(items[k], src, offset, t, p);
            if w.Done? then Reached(items, k + 1, src, off0, t0, p, w.offset, values + w.values, w.table)
            else Fields(items, src, off0, t0, p) == w
  {
    hide One, Fields, TableOk;
    FieldsUnfold(items, k, src, offset, t, p);
    var w := One(items[k], src, offset, t, p);
    if w.Done? { PrependTwice(values, w.values, Fields(items[k + 1..], src, w.offset, w.table, p)); }
  }

  lemma ReachEnd(items: seq<Item>, src: Bytes, off0: nat, t0: Table, p: Pmap,
                 offset: nat, values: seq<Bytes>, t: Table)
    requires Reached(items, |items|, src, off0, t0, p, offset, values, t)
    ensures Fields(items, src, off0, t0, p) == Done(offset, t, values)
  {
    assert items[|items|..] == [];
  }

  method OriginalFields(items: seq<Item>, src: Bytes, off: nat, state: array<FieldState>, p: Pmap)
    returns (rc: DecodeStatus, offset: nat, values: seq<Bytes>)
    requires state.Length == MAX_FIELD && off <= |src|
    modifies state
    ensures Follows(Fields(items, src, off, old(state[..]), p), rc, offset, values, state[..])
  {
    hide One, Fields, TableOk, Reached;
    rc, offset, values := AbOk, off, [];
    ReachStart(items, src, off, state[..], p);
    for k := 0 to |items|
      invariant rc == AbOk && offset <= |src|
      invariant Reached(items, k, src, off, old(state[..]), p, offset, values, state[..])
    {
      ReachNext(items, k, src, off, old(state[..]), p, offset, values, state[..]);
      var value;
      rc, offset, value := OriginalField(items[k], src, offset, state, p);
      if rc != AbOk { return; }
      values := values + [value];
    }
    ReachEnd(items, src, off, old(state[..]), p, offset, values, state[..]);
  }

  method OptimisedFields(items: seq<Item>, src: Bytes, off: nat, state: array<FieldState>, p: Pmap)
    returns (rc: DecodeStatus, offset: nat, values: seq<Bytes>)
    requires state.Length == MAX_FIELD && off <= |src| && TableOk(state[..])
    modifies state
    ensures Follows(Fields(items, src, off, old(state[..]), p), rc, offset, values, state[..])
    ensures TableOk(state[..])
  {
    hide One, Fields, TableOk, Reached;
    rc, offset, values := AbOk, off, [];
    ReachStart(items, src, off, state[..], p);
    for k := 0 to |items|
      invariant rc == AbOk && offset <= |src| && TableOk(state[..])
      invariant Reached(items, k, src, off, old(state[..]), p, offset, values, state[..])
    {
      ReachNext(items, k, src, off, old(state[..]), p, offset, values, state[..]);
      var value;
      rc, offset, value := OptimisedField(items[k], src, offset, state, p);
      if rc != AbOk { return; }
      values := values + [value];
    }
    ReachEnd(items, src, off, old(state[..]), p, offset, values, state[..]);
  }

  // ----- whole messages -----

  /** The fields after the type, of a known type. */
  lemma BodyIs(msgType: nat, src: Bytes, off: nat, t: Table, p: Pmap)
    requires off <= |src| && Layout(msgType) != []
    ensures Body(msgType, src, off, t, p) ==
            match Fields(Layout(msgType), src, off, t, p)
            case Done(offset, table, values) => Decoding(Decoded(msgType, values, offset), table)
            case Stuck(code, table) => Decoding(Rejected(code), table)
  {
    hide Layout, Fields;
  }

  lemma BodyFallback(msgType: nat, src: Bytes, off: nat, t: Table, p: Pmap)
    requires off <= |src| && Layout(msgType) == []
    ensures Body(msgType, src, off, t, p) == Decoding(Fallback(msgType, off), t)
  {
    hide Layout, Fields;
  }

  /** The original's switch on the message type. */
  method OriginalBody(msgType: nat, src: Bytes, off: nat, state: array<FieldState>, p: Pmap) returns (o: Outcome)
    requires state.Length == MAX_FIELD && off <= |src|
    modifies state
    ensures Decoding(o, state[..]) == Body(msgType, src, off, old(state[..]), p)
  {
    hide Layout, Fields, Body, TableOk;
    if Layout(msgType) == [] {
      BodyFallback(msgType, src, off, state[..], p);
      return Fallback(msgType, off);
    }
    BodyIs(msgType, src, off, state[..], p);
    var rc, offset, values := OriginalFields(Layout(msgType), src, off, state, p);
    if rc != AbOk { return Rejected(rc.code); }
    return Decoded(msgType, values, offset);
  }

  /** The optimised decoder's: the four frequent types share their first fields. */
  method OptimisedBody(msgType: nat, src: Bytes, off: nat, state: array<FieldState>, p: Pmap) returns (o: Outcome)
    requires state.Length == MAX_FIELD && off <= |src| && TableOk(state[..])
    modifies state
    ensures Decoding(o, state[..]) == Body(msgType, src, off, old(state[..]), p)
    ensures TableOk(state[..])
  {
    hide Layout, Common, Rest, Fields, Body, TableOk;
    var rc, offset, values;
    if Frequent(msgType) {
      LayoutSplits(msgType);
      CommonFirst(msgType);
      BodyIs(msgType, src, off, state[..], p);
      FieldsAppend(Common(), Rest(msgType), src, off, state[..], p);
      rc, offset, values := OptimisedFields(Common(), src, off, state, p);
      if rc != AbOk { return Rejected(rc.code); }
      var more;
      rc, offset, more := OptimisedFields(Rest(msgType), src, offset, state, p);
      values := values + more;
    } else {
      if Layout(msgType) == [] {
        BodyFallback(msgType, src, off, state[..], p);
        return Fallback(msgType, off);
      }
      BodyIs(msgType, src, off, state[..], p);
      rc, offset, values := OptimisedFields(Layout(msgType), src, off, state, p);
    }
    if rc != AbOk { return Rejected(rc.code); }
    return Decoded(msgType, values, offset);
  }

  lemma CommonFirst(msgType: nat)
    requires Frequent(msgType)
    ensures Common() + Rest(msgType) != []
  {
  }

  /** ABFastDecode of the original, on a copy of the caller's table. */
  method DecodeOriginal(src: Bytes, state: array<FieldState>) returns (o: Outcome)
    requires state.Length == MAX_FIELD
    modifies state
    ensures Decoding(o, state[..]) == Original(src, old(state[..]))
  {
    hide ReadHeader, One, Body, TableOk, BitSet;
    if |src| < MIN_FAST_MSG { return Rejected(Incomplete); }
    var rc, pmap := ValidateOriginal(src);
    if rc != AbOk { return Rejected(rc.code); }
    OneByte(pmap);
    HeaderLength(src);
    var offset := PmapLen(pmap, MAX_PMAP);
    var local := new FieldState[MAX_FIELD](i requires 0 <= i < MAX_FIELD reads state => state[i]);
    assert local[..] == state[..];
    var value;
    rc, offset, value := OriginalField(Item(I16, MSG_TYPE), src, offset, local, pmap);
    if rc != AbOk { return Rejected(rc.code); }
    o := OriginalBody(Number16(value), src, offset, local, pmap);
    if o.Rejected? { return; }
    forall i | 0 <= i < MAX_FIELD { state[i] := local[i]; }
    assert state[..] == local[..];
  }

  lemma HeaderLength(src: Bytes)
    requires |src| >= MIN_FAST_MSG && ReadHeader(src).Header?
    ensures var h := ReadHeader(src); h.length == if h.pmap[0] >= STOP then 1 else 2
  {
  }

  /** ABFastDecode of the optimised decoder, on the caller's table. */
  method DecodeOptimised(src: Bytes, state: array<FieldState>) returns (o: Outcome)
    requires state.Length == MAX_FIELD && TableOk(state[..])
    modifies state
    ensures Decoding(o, state[..]) == Optimised(src, old(state[..]))
    ensures TableOk(state[..])
  {
    hide ReadHeader, One, Body, TableOk, BitSet;
    if |src| < MIN_FAST_MSG { return Rejected(Incomplete); }
    var rc, pmap, offset := ValidateOptimised(src);
    if rc != AbOk { return Rejected(rc.code); }
    var value;
    rc, offset, value := OptimisedField(Item(I16, MSG_TYPE), src, offset, state, pmap);
    if rc != AbOk { return Rejected(rc.code); }
    o := OptimisedBody(Number16(value), src, offset, state, pmap);
  }

  /** Both decoders on the same message and equal tables: unless the presence map has one byte, they
      return the same, and leave the same table if the message is not refused. */
  method DecodeBoth(src: Bytes, a: array<FieldState>, b: array<FieldState>)
    returns (original: Outcome, optimised: Outcome)
    requires a.Length == MAX_FIELD && b.Length == MAX_FIELD && a != b && a[..] == b[..] && TableOk(a[..])
    modifies a, b
    ensures original == optimised <==> !OneByteMap(src)
    ensures original.Rejected? ==> a[..] == old(a[..])
    ensures !OneByteMap(src) && !original.Rejected? ==> a[..] == b[..]
  {
    hide Original, Optimised, TableOk;
    DecodersAgree(src, a[..]);
    original := DecodeOriginal(src, a);
    optimised := DecodeOptimised(src, b);
  }
}
