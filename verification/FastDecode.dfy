/** The two FAST decoders of the Arca feed: the original, which works on a copy of the state table and
    stores it back on success (feeds/arca/codec/AB_FastDecode.c), and the optimised one, which works on
    the caller's table (newFastDecode.c). */
module FastDecode {
  import opened Basics
  import opened FastFields

  // ----- presence maps -----

  const MAX_PMAP: nat := 2
  const MIN_FAST_MSG: nat := 2

  type Pmap = p: Bytes | |p| == MAX_PMAP witness [0, 0]

  function Mask(k: nat): (r: nat)
    requires k < 7
    ensures r > 0
  {
    if k == 0 then 64 else if k == 1 then 32 else if k == 2 then 16 else if k == 3 then 8
    else if k == 4 then 4 else if k == 5 then 2 else 1
  }

  /** ISBITSET: seven fields a byte, from the second highest bit down. */
  predicate BitSet(p: Pmap, f: nat)
    requires f < MAX_FIELD
  {
    p[f / 7] / Mask(f % 7) % 2 == 1
  }

  datatype Header = Header(pmap: Pmap, length: nat) | BadHeader

  /** A presence map of one or two bytes, ended by its stop bit, that has the message type. */
  function ReadHeader(src: Bytes): (h: Header)
    requires |src| >= MIN_FAST_MSG
    ensures h.Header? ==> 1 <= h.length <= 2 && BitSet(h.pmap, 0)
  {
    if src[0] >= STOP then
      if BitSet([src[0], 0], 0) then Header([src[0], 0], 1) else BadHeader
    else if src[1] >= STOP && BitSet([src[0], src[1]], 0) then Header([src[0], src[1]], 2)
    else BadHeader
  }

  // ----- the fields of a message -----

  datatype Kind = I8 | I16 | I32 | Ascii

  type Field = f: nat | f < MAX_FIELD

  datatype Item = Item(kind: Kind, field: Field)

  const MSG_TYPE: Field := 0
  const STOCK_IDX: Field := 1
  const SEQUENCE: Field := 2
  const TIME: Field := 3
  const ORDER_ID: Field := 4
  const VOLUME: Field := 5
  const PRICE: Field := 6
  const PRICE_SCALE: Field := 7
  const BUY_SELL: Field := 8
  const EXCH_ID: Field := 9
  const SECURITY_TYPE: Field := 10
  const FIRM_ID: Field := 11
  const SESSION_ID: Field := 12
  const BITMAP: Field := 13

  /** The fields of each message type as the original decodes them; none for an unknown type. */
  function Layout(msgType: nat): seq<Item> {
    if msgType == 100 || msgType == 101 then
      [Item(I16, STOCK_IDX), Item(I32, SEQUENCE), Item(I32, TIME), Item(I32, ORDER_ID), Item(I32, VOLUME),
       Item(I32, PRICE), Item(I8, PRICE_SCALE), Item(Ascii, BUY_SELL), Item(Ascii, EXCH_ID),
       Item(Ascii, SECURITY_TYPE), Item(I16, FIRM_ID), Item(I8, SESSION_ID)]
    else if msgType == 102 then
      [Item(I16, STOCK_IDX), Item(I32, SEQUENCE), Item(I32, TIME), Item(I32, ORDER_ID), Item(Ascii, BUY_SELL),
       Item(Ascii, EXCH_ID), Item(Ascii, SECURITY_TYPE), Item(I8, SESSION_ID), Item(I16, FIRM_ID)]
    else if msgType == 103 then
      [Item(I16, STOCK_IDX), Item(I32, SEQUENCE), Item(I32, TIME), Item(I32, VOLUME), Item(I32, ORDER_ID),
       Item(I32, BITMAP), Item(I32, PRICE), Item(I8, PRICE_SCALE), Item(Ascii, BUY_SELL), Item(Ascii, EXCH_ID),
       Item(Ascii, SECURITY_TYPE), Item(I8, SESSION_ID), Item(I16, FIRM_ID)]
    else if msgType == 35 then [Item(I16, STOCK_IDX), Item(I8, SESSION_ID), Item(Ascii, BITMAP)]
    else if msgType == 36 then [Item(I32, SEQUENCE), Item(I16, STOCK_IDX), Item(Ascii, SESSION_ID)]
    else if msgType == 37 then [Item(I16, FIRM_ID), Item(Ascii, BITMAP)]
    else if msgType == 32 then
      [Item(I32, SEQUENCE), Item(I32, TIME), Item(I32, ORDER_ID), Item(I32, VOLUME), Item(I32, PRICE),
       Item(I8, PRICE_SCALE), Item(Ascii, BUY_SELL), Item(Ascii, EXCH_ID), Item(Ascii, SECURITY_TYPE),
       Item(I16, FIRM_ID)]
    else if msgType == 1 then [Item(I32, SEQUENCE)]
    else []
  }

  /** The optimised decoder reads the fields common to types 100 to 103 first. */
  function Common(): seq<Item> { [Item(I16, STOCK_IDX), Item(I32, SEQUENCE), Item(I32, TIME)] }

  predicate Frequent(msgType: nat) { 100 <= msgType <= 103 }

  function Rest(msgType: nat): seq<Item>
    requires Frequent(msgType)
  {
    if msgType <= 101 then
      [Item(I32, ORDER_ID), Item(I32, VOLUME), Item(I32, PRICE), Item(I8, PRICE_SCALE), Item(Ascii, BUY_SELL),
       Item(Ascii, EXCH_ID), Item(Ascii, SECURITY_TYPE), Item(I16, FIRM_ID), Item(I8, SESSION_ID)]
    else if msgType == 102 then
      [Item(I32, ORDER_ID), Item(Ascii, BUY_SELL), Item(Ascii, EXCH_ID), Item(Ascii, SECURITY_TYPE),
       Item(I8, SESSION_ID), Item(I16, FIRM_ID)]
    else
      [Item(I32, VOLUME), Item(I32, ORDER_ID), Item(I32, BITMAP), Item(I32, PRICE), Item(I8, PRICE_SCALE),
       Item(Ascii, BUY_SELL), Item(Ascii, EXCH_ID), Item(Ascii, SECURITY_TYPE), Item(I8, SESSION_ID),
       Item(I16, FIRM_ID)]
  }

  lemma LayoutSplits(msgType: nat)
    requires Frequent(msgType)
    ensures Layout(msgType) == Common() + Rest(msgType)
  {
  }

  /** The bytes of a narrow integer on the wire: the last of its 32 bits in network order. */
  function Wire(kind: Kind, v: uint32): (r: Bytes)
    ensures |r| == (match kind case I8 => 1 case I16 => 2 case _ => 4)
  {
    match kind
    case I8 => Network(v)[3..]
    case I16 => Network(v)[2..]
    case _ => Network(v)
  }

  /** One field, delivered in network order. */
  function FieldStep(kind: Kind, buf: Bytes, s: FieldState, present: bool): (r: Step<Bytes>)
    ensures r.Read? ==> r.used <= |buf| && (present <==> r.used > 0) && r.state.field == s.field
    ensures r.Read? && kind.I16? ==> |r.value| == 2
    ensures r.Failed? ==> r.code != InvalidHeader
  {
    if kind.Ascii? then AsciiStep(buf, s, present)
    else
      match IntStep(buf, s, present)
      case Read(v, used, s1) => Read(Wire(kind, v), used, s1)
      case Failed(code) => Failed(code)
  }

  /** The outcome of decoding some fields: the offset reached, the table and the values; on failure the
      code and the table as it then stands. */
  datatype Walk = Done(offset: nat, table: Table, values: seq<Bytes>) | Stuck(code: Code, table: Table)

  /** One field, from offset off of src. A table entry out of place is refused. */
  function One(item: Item, src: Bytes, off: nat, t: Table, p: Pmap): (w: Walk)
    requires off <= |src|
    ensures w.Done? ==> off <= w.offset <= |src| && |w.values| == 1 && (BitSet(p, item.field) ==> off < w.offset)
    ensures w.Done? && item.kind.I16? ==> |w.values[0]| == 2
    ensures w.Stuck? ==> w.table == t && w.code != InvalidHeader
    ensures TableOk(t) ==> TableOk(w.table)
  {
    var f := item.field;
    if t[f].field != f then Stuck(InvalidState, t)
    else
      match FieldStep(item.kind, src[off..], t[f], BitSet(p, f))
      case Failed(code) => Stuck(code, t)
      case Read(v, used, s) => Done(off + used, t[f := s], [v])
  }

  /** The fields of items in turn. */
  function Fields(items: seq<Item>, src: Bytes, off: nat, t: Table, p: Pmap): (w: Walk)
    requires off <= |src|
    ensures w.Done? ==> off <= w.offset <= |src| && |w.values| == |items|
    ensures w.Stuck? ==> w.code != InvalidHeader
    ensures TableOk(t) ==> TableOk(w.table)
    decreases |items|
  {
    if items == [] then Done(off, t, [])
    else
      var w := One(items[0], src, off, t, p);
      if w.Stuck? then w else Prepend(w.values, Fields(items[1..], src, w.offset, w.table, p))
  }

  function Prepend(values: seq<Bytes>, w: Walk): (r: Walk)
    ensures r.table == w.table && r.Done? == w.Done? && (w.Stuck? ==> r == w)
  {
    match w
    case Done(offset, table, rest) => Done(offset, table, values + rest)
    case Stuck(_, _) => w
  }

  lemma PrependTwice(a: seq<Bytes>, b: seq<Bytes>, w: Walk)
    ensures Prepend(a, Prepend(b, w)) == Prepend(a + b, w) && Prepend([], w) == w
  {
    if w.Done? { assert a + (b + w.values) == a + b + w.values; }
  }

  /** Decoding one list of fields and then another is decoding both. */
  lemma {:induction false} FieldsAppend(xs: seq<Item>, ys: seq<Item>, src: Bytes, off: nat, t: Table, p: Pmap)
    requires off <= |src|
    ensures Fields(xs + ys, src, off, t, p) ==
            var w := Fields(xs, src, off, t, p);
            if w.Stuck? then w else Prepend(w.values, Fields(ys, src, w.offset, w.table, p))
    decreases |xs|
  {
    hide One, Prepend, TableOk;
    if xs == [] {
      assert xs + ys == ys;
      PrependTwice([], [], Fields(ys, src, off, t, p));
    } else {
      var w := One(xs[0], src, off, t, p);
      assert (xs + ys)[1..] == xs[1..] + ys;
      if w.Done? {
        FieldsAppend(xs[1..], ys, src, w.offset, w.table, p);
        var v := Fields(xs[1..], src, w.offset, w.table, p);
        if v.Done? { PrependDone(w, v, Fields(ys, src, v.offset, v.table, p)); }
      }
    }
  }

  lemma PrependDone(w: Walk, v: Walk, rest: Walk)
    requires w.Done? && v.Done?
    ensures Prepend(w.values, Prepend(v.values, rest)) == Prepend(Prepend(w.values, v).values, rest)
    ensures Prepend(w.values, v) == Done(v.offset, v.table, w.values + v.values)
  {
    PrependTwice(w.values, v.values, rest);
  }

  // ----- locality -----

  lemma SameStop(buf: Bytes, other: Bytes, n: nat)
    requires n <= |buf| && n <= |other| && buf[..n] == other[..n] && StopAt(buf) < n
    ensures StopAt(other) == StopAt(buf) && buf[..StopAt(buf) + 1] == other[..StopAt(buf) + 1]
  {
    var k := StopAt(buf) + 1;
    assert buf[..k] == buf[..n][..k] && other[..k] == other[..n][..k];
    StopLocal(buf, other);
  }

  /** A field depends only on the bytes it uses. */
  lemma StepLocal(kind: Kind, buf: Bytes, other: Bytes, s: FieldState, present: bool)
    requires var r := FieldStep(kind, buf, s, present);
             r.Read? && r.used <= |other| && buf[..r.used] == other[..r.used]
    ensures FieldStep(kind, other, s, present) == FieldStep(kind, buf, s, present)
  {
    hide StopAt, Base128, Wire, Keep, Store, Stored;
    if present {
      var n := FieldStep(kind, buf, s, present).used;
      SameStop(buf, other, n);
      var k := StopAt(buf);
      assert buf[..k] == buf[..k + 1][..k] && other[..k] == other[..k + 1][..k];
      assert buf[k] == buf[..k + 1][k] && other[k] == other[..k + 1][k];
    }
  }

  lemma OneLocal(item: Item, src: Bytes, other: Bytes, off: nat, t: Table, p: Pmap)
    requires off <= |src|
    requires var w := One(item, src, off, t, p); w.Done? && w.offset <= |other| && src[..w.offset] == other[..w.offset]
    ensures One(item, other, off, t, p) == One(item, src, off, t, p)
  {
    hide FieldStep, BitSet, TableOk;
    var n := One(item, src, off, t, p).offset;
    assert src[off..][..n - off] == src[..n][off..] && other[off..][..n - off] == other[..n][off..];
    StepLocal(item.kind, src[off..], other[off..], t[item.field], BitSet(p, item.field));
  }

  lemma {:induction false} FieldsLocal(items: seq<Item>, src: Bytes, other: Bytes, off: nat, t: Table, p: Pmap)
    requires off <= |src|
    requires var w := Fields(items, src, off, t, p);
             w.Done? && w.offset <= |other| && src[..w.offset] == other[..w.offset]
    ensures Fields(items, other, off, t, p) == Fields(items, src, off, t, p)
    decreases |items|
  {
    hide One, TableOk;
    if items != [] {
      var n := Fields(items, src, off, t, p).offset;
      var w := One(items[0], src, off, t, p);
      assert src[..w.offset] == src[..n][..w.offset] && other[..w.offset] == other[..n][..w.offset];
      OneLocal(items[0], src, other, off, t, p);
      FieldsLocal(items[1..], src, other, w.offset, w.table, p);
    }
  }

  // ----- whole messages, specified -----

  /** What a decoder returns: the message type, the field values and the bytes used; or an error; or,
      for a type that has no layout, the offset at which the generic fallback takes over. */
  datatype Outcome = Decoded(msgType: nat, values: seq<Bytes>, used: nat) | Rejected(code: Code)
                   | Fallback(msgType: nat, offset: nat)

  /** An outcome and the caller's table afterwards. */
  datatype Decoding = Decoding(outcome: Outcome, table: Table)

  function Number16(b: Bytes): nat
    requires |b| == 2
  {
    b[0] as int * 256 + b[1] as int
  }

  /** The fields of a message of the given type, decoded in place from offset off. */
  function Body(msgType: nat, src: Bytes, off: nat, t: Table, p: Pmap): (d: Decoding)
    requires off <= |src|
    ensures d.outcome.Decoded? ==> off <= d.outcome.used <= |src|
    ensures d.outcome.Rejected? ==> d.outcome.code != InvalidHeader
    ensures TableOk(t) ==> TableOk(d.table)
  {
    var items := Layout(msgType);
    if items == [] then Decoding(Fallback(msgType, off), t)
    else
      match Fields(items, src, off, t, p)
      case Done(offset, table, values) => Decoding(Decoded(msgType, values, offset), table)
      case Stuck(code, table) => Decoding(Rejected(code), table)
  }

  /** Decoding in place, from the end of the presence map: the type, then the fields. */
  function InPlace(src: Bytes, t: Table, h: Header): (d: Decoding)
    requires h.Header? && h.length <= |src|
    ensures d.outcome.Decoded? ==> h.length + (if BitSet(h.pmap, 0) then 1 else 0) <= d.outcome.used <= |src|
    ensures d.outcome.Rejected? ==> d.outcome.code != InvalidHeader
    ensures TableOk(t) ==> TableOk(d.table)
  {
    var w := One(Item(I16, MSG_TYPE), src, h.length, t, h.pmap);
    if w.Stuck? then Decoding(Rejected(w.code), w.table)
    else Body(Number16(w.values[0]), src, w.offset, w.table, h.pmap)
  }

  /** The original: a refused message leaves the table as it was. */
  function Original(src: Bytes, t: Table): (d: Decoding)
    ensures d.outcome.Rejected? ==> d.table == t
    ensures d.outcome.Decoded? ==> 2 <= d.outcome.used <= |src|
    ensures TableOk(t) ==> TableOk(d.table)
  {
    if |src| < MIN_FAST_MSG then Decoding(Rejected(Incomplete), t)
    else if ReadHeader(src).BadHeader? then Decoding(Rejected(InvalidHeader), t)
    else
      var d := InPlace(src, t, ReadHeader(src));
      if d.outcome.Rejected? then Decoding(d.outcome, t) else d
  }

  /** The optimised one: a one-byte presence map is refused. */
  function Optimised(src: Bytes, t: Table): (d: Decoding)
    ensures d.outcome.Decoded? ==> 3 <= d.outcome.used <= |src|
    ensures TableOk(t) ==> TableOk(d.table)
  {
    if |src| < MIN_FAST_MSG then Decoding(Rejected(Incomplete), t)
    else if src[0] >= STOP || ReadHeader(src).BadHeader? then Decoding(Rejected(InvalidHeader), t)
    else InPlace(src, t, ReadHeader(src))
  }

  // ----- the two decoders compared -----

  /** A presence map of one byte that announces the message type. */
  predicate OneByteMap(src: Bytes) { |src| >= MIN_FAST_MSG && src[0] >= 0xC0 }

  /** The decoders agree on outcome and table, except on a refused message, whose effects only the
      optimised one keeps, and on a one-byte presence map, which it always refuses and the original
      never refuses as a header. */
  lemma DecodersAgree(src: Bytes, t: Table)
    ensures Optimised(src, t).outcome == Original(src, t).outcome <==> !OneByteMap(src)
    ensures !OneByteMap(src) && !Original(src, t).outcome.Rejected? ==> Optimised(src, t) == Original(src, t)
    ensures OneByteMap(src) ==> Optimised(src, t) == Decoding(Rejected(InvalidHeader), t)
  {
    hide InPlace, TableOk;
  }

  lemma InPlaceLocal(src: Bytes, other: Bytes, t: Table, h: Header)
    requires h.Header? && h.length <= |src|
    requires var o := InPlace(src, t, h).outcome;
             o.Decoded? && h.length <= o.used <= |other| && src[..o.used] == other[..o.used]
    ensures InPlace(other, t, h) == InPlace(src, t, h)
  {
    hide One, Fields, Layout, TableOk, BitSet;
    var n := InPlace(src, t, h).outcome.used;
    var w := One(Item(I16, MSG_TYPE), src, h.length, t, h.pmap);
    assert src[..w.offset] == src[..n][..w.offset] && other[..w.offset] == other[..n][..w.offset];
    OneLocal(Item(I16, MSG_TYPE), src, other, h.length, t, h.pmap);
    FieldsLocal(Layout(Number16(w.values[0])), src, other, w.offset, w.table, h.pmap);
  }

  /** A decoded message is decided by the bytes it uses: whatever follows them changes nothing. */
  lemma DecodingIsLocal(src: Bytes, other: Bytes, t: Table)
    requires var o := Original(src, t).outcome;
             o.Decoded? && o.used <= |other| && src[..o.used] == other[..o.used]
    ensures Original(other, t) == Original(src, t) && Optimised(other, t) == Optimised(src, t)
  {
    hide InPlace, TableOk, BitSet;
    var n := Original(src, t).outcome.used;
    assert src[0] == src[..n][0] && other[0] == other[..n][0] && src[1] == src[..n][1] && other[1] == other[..n][1];
    InPlaceLocal(src, other, t, ReadHeader(src));
  }

  // ----- the table of a new packet -----

  /** fastStateInit */
  function InitialTable(): (t: Table)
    ensures TableOk(t)
  {
    seq(MAX_FIELD, (f: nat) => FieldState(f, false,
        if f == MSG_TYPE || f == BITMAP then OP_NONE else if f == SEQUENCE then OP_INCR else OP_COPY,
        0, seq(MAX_STRLEN, i => 0)))
  }

  lemma SingleByte(buf: Bytes, s: FieldState)
    requires |buf| > 0 && buf[0] >= STOP
    ensures IntStep(buf, s, true) == Read(buf[0] - STOP, 1, if s.op == OP_COPY || s.op == OP_INCR
            then s.(valid := true, value := Store(s.value, buf[0] - STOP), size := 4) else s)
  {
    StopIs(buf, 0);
    assert buf[..1] == [] + [buf[0]];
    Base128Append([], buf[0]);
  }

  /** A message whose first field is present and whose second is neither present nor valid. */
  lemma StuckAtSecond(items: seq<Item>, src: Bytes, off: nat, t: Table, p: Pmap)
    requires |items| >= 2 && off <= |src|
    requires One(items[0], src, off, t, p).Done?
    requires var w := One(items[0], src, off, t, p); One(items[1], src, w.offset, w.table, p).Stuck?
    ensures var w := One(items[0], src, off, t, p); var e := One(items[1], src, w.offset, w.table, p);
            Fields(items, src, off, t, p) == Stuck(e.code, w.table)
  {
    hide One, TableOk;
    assert items[1..][0] == items[1];
  }

  const BadAdd: Bytes := [0x60, 0x80, 0xE4, 0x85]

  lemma BadAddType(t: Table)
    requires TableOk(t) && t[MSG_TYPE].op == OP_NONE
    ensures One(Item(I16, MSG_TYPE), BadAdd, 2, t, [0x60, 0x80]) == Done(3, t, [[0, 100]])
  {
    hide IntStep;
    assert BadAdd[2..][0] == 0xE4;
    SingleByte(BadAdd[2..], t[MSG_TYPE]);
    assert Wire(I16, 100) == [0, 100];
    assert t[MSG_TYPE := t[MSG_TYPE]] == t;
  }

  lemma BadAddFields(t: Table)
    requires TableOk(t) && t[STOCK_IDX].op == OP_COPY && !t[SEQUENCE].valid
    ensures var w := Fields(Layout(100), BadAdd, 3, t, [0x60, 0x80]);
            w.Stuck? && w.code == InvalidState && w.table[STOCK_IDX].valid
  {
    hide IntStep, Fields;
    var p: Pmap := [0x60, 0x80];
    assert BadAdd[3..][0] == 0x85;
    SingleByte(BadAdd[3..], t[STOCK_IDX]);
    var w := One(Item(I16, STOCK_IDX), BadAdd, 3, t, p);
    assert w.Done? && w.table[STOCK_IDX].valid && w.table[SEQUENCE] == t[SEQUENCE];
    NotPresent(BadAdd[w.offset..], t[SEQUENCE]);
    StuckAtSecond(Layout(100), BadAdd, 3, t, p);
  }

  lemma NotPresent(buf: Bytes, s: FieldState)
    requires !s.valid
    ensures IntStep(buf, s, false) == Failed(InvalidState)
  {
  }

  /** On an error the optimised decoder does not preserve the table: an add message whose stock index is
      present and whose sequence number has nothing to be incremented from. */
  lemma OptimisedLosesTable()
    ensures var t := InitialTable(); var d := Optimised(BadAdd, t);
            d.outcome == Rejected(InvalidState) && d.table[STOCK_IDX].valid && !t[STOCK_IDX].valid &&
            Original(BadAdd, t) == Decoding(Rejected(InvalidState), t)
  {
    hide One, Fields, Layout, TableOk, BitSet;
    var t := InitialTable();
    var p: Pmap := [0x60, 0x80];
    BadAddHeader();
    BadAddType(t);
    BadAddFields(t);
    assert Number16([0, 100]) == 100;
    LayoutKnown();
    assert InPlace(BadAdd, t, Header(p, 2)) == Body(100, BadAdd, 3, t, p);
  }

  lemma BadAddHeader()
    ensures ReadHeader(BadAdd) == Header([0x60, 0x80], 2)
  {
  }

  lemma LayoutKnown()
    ensures Layout(100) != []
  {
  }
}
