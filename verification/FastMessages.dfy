/** Whole FAST messages, from the sender's side. Each message type is a record of named fields with an
    encoder of its own, which the decoders of feeds/arca/codec/AB_FastDecode.c and newFastDecode.c
    must invert: the fields sent, under which bit of the presence map, in which order and how wide. */
module FastMessages {
  import opened Basics
  import opened FastFields
  import opened FastDecode
  import opened FastDecoders
  import opened FastPackets

  type uint16 = v: int | 0 <= v < 0x10000

  /** A string on the wire: at least one character, of seven bits each. */
  type Letters = s: Bytes | s != [] && forall i :: 0 <= i < |s| ==> s[i] < 128 witness [0]

  /** The fields of an add and of a modify message. */
  datatype Order = Order(stockIdx: uint16, sequence: uint32, time: uint32, orderId: uint32, volume: uint32,
                         price: uint32, priceScale: byte, side: Letters, exchange: Letters,
                         securityType: Letters, firm: uint16, session: byte)

  datatype Message =
    | Add(order: Order)
    | Modify(order: Order)
    | Delete(stockIdx: uint16, sequence: uint32, time: uint32, orderId: uint32, side: Letters,
             exchange: Letters, securityType: Letters, session: byte, firm: uint16)
    | Imbalance(stockIdx: uint16, sequence: uint32, time: uint32, volume: uint32, totalImbalance: uint32,
                marketImbalance: uint32, price: uint32, priceScale: byte, auctionType: Letters,
                exchange: Letters, securityType: Letters, session: byte, auctionTime: uint16)
    | BookRefresh(sequence: uint32, time: uint32, orderId: uint32, volume: uint32, price: uint32,
                  priceScale: byte, side: Letters, exchange: Letters, securityType: Letters, firm: uint16)
    | SymbolUpdate(stockIdx: uint16, session: byte, symbol: Letters)
    | SymbolClear(nextSequence: uint32, stockIdx: uint16, sessionText: Letters)
    | FirmUpdate(firm: uint16, firmId: Letters)
    | SequenceReset(nextSequence: uint32)

  /** One field of a message: its bit in the presence map, and its value of one, two or four bytes, or a
      string. */
  datatype Part =
    | Int8(bit: Field, v: byte)
    | Int16(bit: Field, w: uint16)
    | Int32(bit: Field, n: uint32)
    | Str(bit: Field, text: Letters)

  function TypeOf(m: Message): uint16 {
    match m
    case Add(_) => 100
    case Modify(_) => 101
    case Delete(_, _, _, _, _, _, _, _, _) => 102
    case Imbalance(_, _, _, _, _, _, _, _, _, _, _, _, _) => 103
    case BookRefresh(_, _, _, _, _, _, _, _, _, _) => 32
    case SymbolUpdate(_, _, _) => 35
    case SymbolClear(_, _, _) => 36
    case FirmUpdate(_, _) => 37
    case SequenceReset(_) => 1
  }

  function OrderParts(o: Order): seq<Part> {
    [Int16(1, o.stockIdx), Int32(2, o.sequence), Int32(3, o.time), Int32(4, o.orderId), Int32(5, o.volume),
     Int32(6, o.price), Int8(7, o.priceScale), Str(8, o.side), Str(9, o.exchange),
     Str(10, o.securityType), Int16(11, o.firm), Int8(12, o.session)]
  }

  /** The fields of a message in the order in which they are sent. */
  function Parts(m: Message): seq<Part> {
    match m
    case Add(o) => OrderParts(o)
    case Modify(o) => OrderParts(o)
    case Delete(stockIdx, sequence, time, orderId, side, exchange, securityType, session, firm) =>
      [Int16(1, stockIdx), Int32(2, sequence), Int32(3, time), Int32(4, orderId), Str(8, side),
       Str(9, exchange), Str(10, securityType), Int8(12, session), Int16(11, firm)]
    case Imbalance(stockIdx, sequence, time, volume, totalImbalance, marketImbalance, price, priceScale,
                   auctionType, exchange, securityType, session, auctionTime) =>
      [Int16(1, stockIdx), Int32(2, sequence), Int32(3, time), Int32(5, volume), Int32(4, totalImbalance),
       Int32(13, marketImbalance), Int32(6, price), Int8(7, priceScale), Str(8, auctionType),
       Str(9, exchange), Str(10, securityType), Int8(12, session), Int16(11, auctionTime)]
    case BookRefresh(sequence, time, orderId, volume, price, priceScale, side, exchange, securityType, firm) =>
      [Int32(2, sequence), Int32(3, time), Int32(4, orderId), Int32(5, volume), Int32(6, price),
       Int8(7, priceScale), Str(8, side), Str(9, exchange), Str(10, securityType), Int16(11, firm)]
    case SymbolUpdate(stockIdx, session, symbol) => [Int16(1, stockIdx), Int8(12, session), Str(13, symbol)]
    case SymbolClear(nextSequence, stockIdx, sessionText) =>
      [Int32(2, nextSequence), Int16(1, stockIdx), Str(12, sessionText)]
    case FirmUpdate(firm, firmId) => [Int16(11, firm), Str(13, firmId)]
    case SequenceReset(nextSequence) => [Int32(2, nextSequence)]
  }

  // ----- the encoder -----

  /** The byte of n at the place of the given weight. */
  function Place(n: int, weight: int): byte
    requires weight > 0
  {
    n / weight % 0x100
  }

  /** The most significant byte first, as a message delivers its numbers. */
  function Value(part: Part): Bytes {
    match part
    case Int8(_, v) => [v]
    case Int16(_, w) => [Place(w, 0x100), Place(w, 1)]
    case Int32(_, n) => [Place(n, 0x100_0000), Place(n, 0x1_0000), Place(n, 0x100), Place(n, 1)]
    case Str(_, text) => text
  }

  function Values(parts: seq<Part>): (r: seq<Bytes>)
    ensures |r| == |parts|
  {
    seq(|parts|, i requires 0 <= i < |parts| => Value(parts[i]))
  }

  function Number(part: Part): uint32
    requires !part.Str?
  {
    match part
    case Int8(_, v) => v
    case Int16(_, w) => w
    case Int32(_, n) => n
  }

  /** The bytes of a field, the last of them with the stop bit. */
  function Coded(part: Part): Bytes {
    if part.Str? then part.text[..|part.text| - 1] + [part.text[|part.text| - 1] + 128] else Encoded(Number(part))
  }

  /** The bytes of those fields that are sent. */
  function AllCoded(parts: seq<Part>, sent: set<nat>): Bytes {
    if parts == [] then []
    else (if parts[0].bit in sent then Coded(parts[0]) else []) + AllCoded(parts[1..], sent)
  }

  /** The bits of seven fields, the first the most significant. */
  function SevenBits(sent: set<nat>, f: nat): (r: nat)
    ensures r < 128
  {
    64 * Tally(f in sent) + 32 * Tally(f + 1 in sent) + 16 * Tally(f + 2 in sent) + 8 * Tally(f + 3 in sent) +
    4 * Tally(f + 4 in sent) + 2 * Tally(f + 5 in sent) + Tally(f + 6 in sent)
  }

  /** A presence map of two bytes, the second with the stop bit; the type; and the fields that are sent. */
  function Encode(m: Message, sent: set<nat>): Bytes {
    [SevenBits(sent, 0), 128 + SevenBits(sent, 7)] + Encoded(TypeOf(m)) + AllCoded(Parts(m), sent)
  }

  /** The same with a presence map of one byte, for a message that sends none of the last seven fields. */
  function EncodeShort(m: Message, sent: set<nat>): Bytes {
    [128 + SevenBits(sent, 0)] + Encoded(TypeOf(m)) + AllCoded(Parts(m), sent)
  }

  // ----- fields that are not sent -----

  /** The number in the first four bytes, the least significant first. */
  function LittleValue(value: Bytes): uint32
    requires |value| >= 4
  {
    value[0] as int + 0x100 * value[1] as int + 0x1_0000 * value[2] as int + 0x100_0000 * value[3] as int
  }

  /** The number an entry of the state table stands for when its field is not sent. */
  function Recalled(s: FieldState): uint32 {
    var n := LittleValue(s.value);
    if s.op == 2 then (n + 1) % 0x1_0000_0000 else n
  }

  /** The entry s supplies the field when it is not sent: a copied value, or the successor of a number. */
  predicate Held(part: Part, s: FieldState) {
    s.valid &&
    match part
    case Int8(_, v) => (s.op == 1 || s.op == 2) && Recalled(s) % 0x100 == v
    case Int16(_, w) => (s.op == 1 || s.op == 2) && Recalled(s) % 0x1_0000 == w
    case Int32(_, n) => (s.op == 1 || s.op == 2) && Recalled(s) == n
    case Str(_, text) => s.op == 1 && s.value[..s.size] == text
  }

  predicate AllHeld(parts: seq<Part>, sent: set<nat>, t: Table) {
    forall i :: 0 <= i < |parts| ==> parts[i].bit in sent || Held(parts[i], t[parts[i].bit])
  }

  /** A number in the bytes of an entry, the least significant first. */
  function Little(n: uint32): Bytes { [Place(n, 1), Place(n, 0x100), Place(n, 0x1_0000), Place(n, 0x100_0000)] }

  /** The entry of a field after a message that has it. */
  function Kept(part: Part, isSent: bool, s: FieldState): FieldState {
    if part.Str? then
      if !isSent || s.op != 1 then s
      else if |part.text| > 64 then s.(valid := false)
      else s.(valid := true, size := |part.text|, value := part.text + s.value[|part.text|..])
    else if isSent && (s.op == 1 || s.op == 2) then
      s.(valid := true, size := 4, value := Little(Number(part)) + s.value[4..])
    else if !isSent && s.op == 2 then s.(value := Little(Recalled(s)) + s.value[4..])
    else s
  }

  function AllKept(parts: seq<Part>, sent: set<nat>, t: Table): Table
    decreases |parts|
  {
    if parts == [] then t
    else
      var f := parts[0].bit;
      AllKept(parts[1..], sent, t[f := Kept(parts[0], f in sent, t[f])])
  }

  /** The table after a message: the type has field number 0 and is always sent. */
  function After(m: Message, sent: set<nat>, t: Table): Table {
    AllKept(Parts(m), sent, t[0 := Kept(Int16(0, TypeOf(m)), true, t[0])])
  }

  // ----- numbers and their bytes -----

  lemma Little4(n: uint32)
    ensures Host(n) == Little(n) && Network(n) == [Little(n)[3], Little(n)[2], Little(n)[1], Little(n)[0]]
  {
    Halves(n);
  }

  lemma Halves(n: nat)
    ensures n / 0x100 / 0x100 == n / 0x1_0000 && n / 0x100 / 0x100 / 0x100 == n / 0x100_0000
  {
  }

  lemma StoredIs(value: Bytes)
    requires |value| == MAX_STRLEN
    ensures Stored(value) == LittleValue(value)
  {
  }

  lemma Residues(n: uint32)
    ensures n % 0x1_0000 / 0x100 == n / 0x100 % 0x100 && n % 0x1_0000 % 0x100 == n % 0x100
  {
  }

  function KindOf(part: Part): Kind {
    match part
    case Int8(_, _) => I8
    case Int16(_, _) => I16
    case Int32(_, _) => I32
    case Str(_, _) => Ascii
  }

  function Items(parts: seq<Part>): (r: seq<Item>)
    ensures |r| == |parts|
  {
    seq(|parts|, i requires 0 <= i < |parts| => Item(KindOf(parts[i]), parts[i].bit))
  }

  /** The bytes delivered for a number are those of the field exactly if it is the number, as wide as
      the field. */
  lemma WireIs(part: Part, n: uint32)
    requires !part.Str?
    ensures Wire(KindOf(part), n) == Value(part) <==>
            (match part case Int8(_, v) => n % 0x100 == v case Int16(_, w) => n % 0x1_0000 == w
             case Int32(_, k) => n == k case _ => true)
  {
    hide Network;
    Little4(n);
    Residues(n);
    Little4(Number(part));
    if part.Int32? && Wire(I32, n) == Value(part) { Digits4(n, part.n); }
  }

  lemma Digits4(a: uint32, b: uint32)
    requires Network(a) == Network(b)
    ensures a == b
  {
    hide Network;
    Little4(a);
    Little4(b);
    HostDigits(a);
    HostDigits(b);
  }

  // ----- one field -----

  lemma TextStops(text: Letters, rest: Bytes)
    ensures var buf := text[..|text| - 1] + [text[|text| - 1] + 128] + rest;
            StopAt(buf) == |text| - 1 < |buf| && FastFields.Text(buf) == text
  {
    var n := |text| - 1;
    var buf := text[..n] + [text[n] + 128] + rest;
    StopIs(buf, n);
    assert buf[..n] == text[..n];
  }

  lemma TextSent(part: Part, rest: Bytes, s: FieldState)
    requires part.Str?
    ensures AsciiStep(Coded(part) + rest, s, true) == Read(Value(part), |Coded(part)|, Kept(part, true, s))
  {
    hide StopAt, FastFields.Text;
    TextStops(part.text, rest);
  }

  lemma NumberSent(part: Part, rest: Bytes, s: FieldState)
    requires !part.Str?
    ensures IntStep(Coded(part) + rest, s, true) == Read(Number(part), |Coded(part)|, Kept(part, true, s))
  {
    hide StopAt, Base128, Encoded, Little;
    EncodedStops(Number(part), rest);
    Little4(Number(part));
  }

  lemma NumberRecalled(part: Part, buf: Bytes, s: FieldState)
    requires !part.Str?
    ensures IntStep(buf, s, false) ==
            if s.valid && (s.op == 1 || s.op == 2) then Read(Recalled(s), 0, Kept(part, false, s))
            else Failed(InvalidState)
  {
    hide Stored, Little;
    StoredIs(s.value);
    Little4(Recalled(s));
  }

  /** One field: sent, it is delivered; not sent, it is delivered exactly if the table holds it. */
  lemma FieldDelivered(part: Part, rest: Bytes, s: FieldState, isSent: bool)
    ensures var r := FieldStep(KindOf(part), (if isSent then Coded(part) else []) + rest, s, isSent);
            if isSent || Held(part, s)
            then r == Read(Value(part), if isSent then |Coded(part)| else 0, Kept(part, isSent, s))
            else r.Read? ==> r.value != Value(part)
  {
    hide IntStep, AsciiStep, Coded, Wire, Recalled;
    var buf := (if isSent then Coded(part) else []) + rest;
    if part.Str? {
      if isSent { TextSent(part, rest, s); } else { TextNotSent(buf, s); }
    } else if isSent {
      NumberSent(part, rest, s);
      WireIs(part, Number(part));
    } else {
      NumberRecalled(part, buf, s);
      WireIs(part, Recalled(s));
    }
  }

  lemma TextNotSent(buf: Bytes, s: FieldState)
    ensures AsciiStep(buf, s, false) ==
            if s.valid && s.op == 1 then Read(s.value[..s.size], 0, s) else Failed(InvalidState)
  {
  }

  /** The presence map p announces exactly the fields of sent. */
  predicate Announces(p: Pmap, sent: set<nat>) { forall f :: 0 <= f < MAX_FIELD ==> (BitSet(p, f) <==> f in sent) }

  /** The bytes of a field, if it is sent. */
  function Bit(part: Part, sent: set<nat>): Bytes { if part.bit in sent then Coded(part) else [] }

  lemma PartDecodes(part: Part, src: Bytes, pre: Bytes, rest: Bytes, t: Table, p: Pmap, sent: set<nat>)
    requires TableOk(t) && Announces(p, sent) && src == pre + Bit(part, sent) + rest
    ensures var w := One(Item(KindOf(part), part.bit), src, |pre|, t, p); var s := t[part.bit];
            if part.bit in sent || Held(part, s)
            then w == Done(|pre| + |Bit(part, sent)|, t[part.bit := Kept(part, part.bit in sent, s)], [Value(part)])
            else w.Done? ==> w.values[0] != Value(part)
  {
    hide FieldStep, BitSet, Coded, Value, Kept, Held;
    assert src[|pre|..] == Bit(part, sent) + rest;
    FieldDelivered(part, rest, t[part.bit], part.bit in sent);
  }

  // ----- the fields of a message -----

  predicate Distinct(parts: seq<Part>) {
    forall i, j :: 0 <= i < j < |parts| ==> parts[i].bit != parts[j].bit
  }

  lemma HeldNext(parts: seq<Part>, sent: set<nat>, t: Table, s: FieldState)
    requires parts != [] && Distinct(parts)
    ensures AllHeld(parts, sent, t) <==>
            (parts[0].bit in sent || Held(parts[0], t[parts[0].bit])) &&
            AllHeld(parts[1..], sent, t[parts[0].bit := s])
  {
    hide Held;
    var u := t[parts[0].bit := s];
    forall i | 0 <= i < |parts[1..]|
      ensures parts[1..][i] == parts[i + 1] && u[parts[i + 1].bit] == t[parts[i + 1].bit]
    {
    }
    if AllHeld(parts[1..], sent, u) && (parts[0].bit in sent || Held(parts[0], t[parts[0].bit])) {
      forall i | 0 <= i < |parts| ensures parts[i].bit in sent || Held(parts[i], t[parts[i].bit]) {
        if i > 0 { assert parts[1..][i - 1] == parts[i]; }
      }
    }
  }

  lemma ListsNext(parts: seq<Part>, sent: set<nat>)
    requires parts != []
    ensures Items(parts)[0] == Item(KindOf(parts[0]), parts[0].bit) && Items(parts)[1..] == Items(parts[1..])
    ensures Values(parts) == [Value(parts[0])] + Values(parts[1..])
    ensures AllCoded(parts, sent) == Bit(parts[0], sent) + AllCoded(parts[1..], sent)
  {
    hide Value, Coded, KindOf;
  }

  /** The fields of a list are delivered in turn exactly if those that are not sent are held. */
  lemma {:induction false} PartsDecode(parts: seq<Part>, src: Bytes, pre: Bytes, rest: Bytes, t: Table, p: Pmap,
                                       sent: set<nat>)
    requires TableOk(t) && Announces(p, sent) && Distinct(parts) && src == pre + AllCoded(parts, sent) + rest
    ensures var w := Fields(Items(parts), src, |pre|, t, p);
            if AllHeld(parts, sent, t)
            then w == Done(|pre| + |AllCoded(parts, sent)|, AllKept(parts, sent, t), Values(parts))
            else w.Done? ==> w.values != Values(parts)
    decreases |parts|
  {
    hide One, BitSet, Items, Values, Bit, Announces, Kept, Held, AllHeld, TableOk;
    if parts == [] {
      NothingHeld(sent, t);
      return;
    }
    ListsNext(parts, sent);
    var part, more := parts[0], Bit(parts[0], sent);
    PartDecodes(part, src, pre, AllCoded(parts[1..], sent) + rest, t, p, sent);
    var u := t[part.bit := Kept(part, part.bit in sent, t[part.bit])];
    HeldNext(parts, sent, t, u[part.bit]);
    var w := One(Items(parts)[0], src, |pre|, t, p);
    if part.bit in sent || Held(part, t[part.bit]) {
      assert src == (pre + more) + AllCoded(parts[1..], sent) + rest;
      TableAfter(Items(parts)[0], src, |pre|, t, p);
      DistinctNext(parts);
      PartsDecode(parts[1..], src, pre + more, rest, u, p, sent);
      assert |pre + more| == w.offset;
      FirstValue(w.values, Fields(Items(parts[1..]), src, w.offset, u, p), Value(part), Values(parts[1..]));
    } else if w.Done? {
      FirstValue(w.values, Fields(Items(parts[1..]), src, w.offset, w.table, p), Value(part), Values(parts[1..]));
    }
  }

  lemma NothingHeld(sent: set<nat>, t: Table)
    ensures AllHeld([], sent, t) && Values([]) == [] && Items([]) == []
  {
  }

  lemma DistinctNext(parts: seq<Part>)
    requires parts != [] && Distinct(parts)
    ensures Distinct(parts[1..])
  {
  }

  lemma TableAfter(item: Item, src: Bytes, off: nat, t: Table, p: Pmap)
    requires off <= |src| && TableOk(t)
    ensures TableOk(One(item, src, off, t, p).table)
  {
    hide FieldStep, BitSet;
  }

  lemma FirstValue(values: seq<Bytes>, w: Walk, v: Bytes, vs: seq<Bytes>)
    requires |values| == 1
    ensures w.Done? ==> (Prepend(values, w).values == [v] + vs <==> values[0] == v && w.values == vs)
    ensures w.Done? ==> Prepend(values, w) == Done(w.offset, w.table, values + w.values)
    ensures w.Stuck? ==> Prepend(values, w) == w
  {
    if w.Done? {
      assert (values + w.values)[0] == values[0] && (values + w.values)[1..] == w.values;
      assert ([v] + vs)[0] == v && ([v] + vs)[1..] == vs;
    }
  }

  // ----- presence maps -----

  lemma BitIs(r: nat, w: int, c: nat, high: nat, bit: int, low: nat)
    requires w * c == 64 && low < w && 0 <= bit < 2 && r == (2 * high + bit) * w + low
    ensures r / w % 2 == bit && (128 + r) / w % 2 == bit
  {
    Quotient(r, w, 2 * high + bit, low);
    assert 128 + r == (2 * (high + c) + bit) * w + low;
    Quotient(128 + r, w, 2 * (high + c) + bit, low);
  }

  lemma SevenRead(a0: nat, a1: nat, a2: nat, a3: nat, a4: nat, a5: nat, a6: nat, r: nat)
    requires a0 < 2 && a1 < 2 && a2 < 2 && a3 < 2 && a4 < 2 && a5 < 2 && a6 < 2
    requires r == 64 * a0 + 32 * a1 + 16 * a2 + 8 * a3 + 4 * a4 + 2 * a5 + a6
    ensures r / 64 % 2 == (128 + r) / 64 % 2 == a0 && r / 32 % 2 == (128 + r) / 32 % 2 == a1
    ensures r / 16 % 2 == (128 + r) / 16 % 2 == a2 && r / 8 % 2 == (128 + r) / 8 % 2 == a3
    ensures r / 4 % 2 == (128 + r) / 4 % 2 == a4 && r / 2 % 2 == (128 + r) / 2 % 2 == a5
    ensures r / 1 % 2 == (128 + r) / 1 % 2 == a6
  {
    BitIs(r, 64, 1, 0, a0, 32 * a1 + 16 * a2 + 8 * a3 + 4 * a4 + 2 * a5 + a6);
    BitIs(r, 32, 2, a0, a1, 16 * a2 + 8 * a3 + 4 * a4 + 2 * a5 + a6);
    BitIs(r, 16, 4, 2 * a0 + a1, a2, 8 * a3 + 4 * a4 + 2 * a5 + a6);
    BitIs(r, 8, 8, 4 * a0 + 2 * a1 + a2, a3, 4 * a4 + 2 * a5 + a6);
    BitIs(r, 4, 16, 8 * a0 + 4 * a1 + 2 * a2 + a3, a4, 2 * a5 + a6);
    BitIs(r, 2, 32, 16 * a0 + 8 * a1 + 4 * a2 + 2 * a3 + a4, a5, a6);
    BitIs(r, 1, 64, 32 * a0 + 16 * a1 + 8 * a2 + 4 * a3 + 2 * a4 + a5, a6, 0);
  }

  lemma SevenBitsAre(sent: set<nat>, f: nat)
    ensures var r := SevenBits(sent, f);
            r / 64 % 2 == (128 + r) / 64 % 2 == Tally(f in sent) &&
            r / 32 % 2 == (128 + r) / 32 % 2 == Tally(f + 1 in sent) &&
            r / 16 % 2 == (128 + r) / 16 % 2 == Tally(f + 2 in sent) &&
            r / 8 % 2 == (128 + r) / 8 % 2 == Tally(f + 3 in sent) &&
            r / 4 % 2 == (128 + r) / 4 % 2 == Tally(f + 4 in sent) &&
            r / 2 % 2 == (128 + r) / 2 % 2 == Tally(f + 5 in sent) &&
            r / 1 % 2 == (128 + r) / 1 % 2 == Tally(f + 6 in sent)
  {
    SevenRead(Tally(f in sent), Tally(f + 1 in sent), Tally(f + 2 in sent), Tally(f + 3 in sent),
              Tally(f + 4 in sent), Tally(f + 5 in sent), Tally(f + 6 in sent), SevenBits(sent, f));
  }

  lemma SevenBitsRead(sent: set<nat>, f: nat, k: nat)
    requires k < 7
    ensures SevenBits(sent, f) / Mask(k) % 2 == Tally(f + k in sent)
    ensures (128 + SevenBits(sent, f)) / Mask(k) % 2 == Tally(f + k in sent)
  {
    hide SevenBits, Tally;
    SevenBitsAre(sent, f);
  }

  lemma MapAnnounces(sent: set<nat>, p: Pmap)
    requires p[0] == SevenBits(sent, 0) || p[0] == 128 + SevenBits(sent, 0)
    requires p[1] == 128 + SevenBits(sent, 7) || (p[1] == 0 && forall f :: 7 <= f < 14 ==> f !in sent)
    ensures Announces(p, sent)
  {
    hide SevenBits;
    forall f | 0 <= f < MAX_FIELD ensures BitSet(p, f) <==> f in sent {
      if f < 7 { SevenBitsRead(sent, 0, f); } else { SevenBitsRead(sent, 7, f - 7); }
    }
  }

  // ----- whole messages -----

  lemma PartsDistinct(m: Message)
    ensures Distinct(Parts(m)) && forall i :: 0 <= i < |Parts(m)| ==> Parts(m)[i].bit != 0
  {
    hide OrderParts;
    if m.Add? || m.Modify? { OrderDistinct(m.order); }
  }

  lemma OrderDistinct(o: Order)
    ensures Distinct(OrderParts(o)) && forall i :: 0 <= i < |OrderParts(o)| ==> OrderParts(o)[i].bit != 0
  {
  }

  /** The decoders' list of fields is the message's. */
  lemma LayoutOf(m: Message)
    ensures Items(Parts(m)) == Layout(TypeOf(m)) && Layout(TypeOf(m)) != []
  {
    assert |Items(Parts(m))| == |Layout(TypeOf(m))|;
  }

  lemma HeldAfterType(parts: seq<Part>, sent: set<nat>, t: Table, s: FieldState)
    requires forall i :: 0 <= i < |parts| ==> parts[i].bit != 0
    ensures AllHeld(parts, sent, t[0 := s]) <==> AllHeld(parts, sent, t)
  {
    hide Held;
  }

  /** Decoding in place, once the presence map pre is read. */
  lemma MessageInPlace(m: Message, sent: set<nat>, pre: Bytes, rest: Bytes, t: Table, h: Header)
    requires TableOk(t) && 0 in sent && h.Header? && Announces(h.pmap, sent) && h.length == |pre|
    ensures var src := pre + (Encoded(TypeOf(m)) + AllCoded(Parts(m), sent)) + rest;
            var d := InPlace(src, t, h);
            var o := Decoded(TypeOf(m), Values(Parts(m)), |src| - |rest|);
            if AllHeld(Parts(m), sent, t) then d == Decoding(o, After(m, sent, t)) else d.outcome != o
  {
    hide One, Fields, Parts, TypeOf, Layout, Values, Items, AllCoded, AllKept, AllHeld, Announces, Encoded, BitSet,
         Kept, TableOk;
    var kind, code, fields := Int16(0, TypeOf(m)), Encoded(TypeOf(m)), AllCoded(Parts(m), sent);
    var src := pre + (code + fields) + rest;
    assert Bit(kind, sent) == code;
    assert src == pre + code + (fields + rest) && src == (pre + code) + fields + rest;
    PartDecodes(kind, src, pre, fields + rest, t, h.pmap, sent);
    var u := t[0 := Kept(kind, true, t[0])];
    TableAfter(Item(I16, MSG_TYPE), src, |pre|, t, h.pmap);
    PartsDistinct(m);
    HeldAfterType(Parts(m), sent, t, u[0]);
    PartsDecode(Parts(m), src, pre + code, rest, u, h.pmap, sent);
    LayoutOf(m);
    BodyIs(TypeOf(m), src, |pre + code|, u, h.pmap);
    assert Number16(Value(kind)) == TypeOf(m);
  }

  // ----- whole messages, by both decoders -----

  lemma HeaderOf(sent: set<nat>, more: Bytes)
    requires 0 in sent && more != []
    ensures ReadHeader([SevenBits(sent, 0), 128 + SevenBits(sent, 7)] + more) ==
            Header([SevenBits(sent, 0), 128 + SevenBits(sent, 7)], 2)
    ensures Announces([SevenBits(sent, 0), 128 + SevenBits(sent, 7)], sent)
  {
    hide SevenBits, BitSet;
    MapAnnounces(sent, [SevenBits(sent, 0), 128 + SevenBits(sent, 7)]);
  }

  lemma ShortHeaderOf(sent: set<nat>, more: Bytes)
    requires 0 in sent && more != [] && forall f :: 7 <= f < 14 ==> f !in sent
    ensures ReadHeader([128 + SevenBits(sent, 0)] + more) == Header([128 + SevenBits(sent, 0), 0], 1)
    ensures Announces([128 + SevenBits(sent, 0), 0], sent)
    ensures OneByteMap([128 + SevenBits(sent, 0)] + more)
  {
    hide SevenBits, BitSet;
    MapAnnounces(sent, [128 + SevenBits(sent, 0), 0]);
    SevenBitsRead(sent, 0, 0);
  }

  /** What decoding a message must return. */
  function Whole(m: Message, used: nat): Outcome { Decoded(TypeOf(m), Values(Parts(m)), used) }

  /** Every message, with any choice of the fields that are sent and whatever follows it: both decoders
      return exactly its fields, in order and of their widths, and use exactly its bytes, if and only if
      the table holds each field that is not sent. The table afterwards is the sender's. */
  lemma MessageRoundTrip(m: Message, sent: set<nat>, rest: Bytes, t: Table)
    requires TableOk(t) && 0 in sent
    ensures var src := Encode(m, sent) + rest; var o := Whole(m, |Encode(m, sent)|);
            && (Original(src, t).outcome == o <==> AllHeld(Parts(m), sent, t))
            && (Optimised(src, t).outcome == o <==> AllHeld(Parts(m), sent, t))
            && (AllHeld(Parts(m), sent, t) ==>
                Original(src, t) == Optimised(src, t) == Decoding(o, After(m, sent, t)))
  {
    hide InPlace, ReadHeader, Parts, TypeOf, Values, AllCoded, After, AllHeld, Announces, Encoded, BitSet, SevenBits,
         TableOk;
    var pre := [SevenBits(sent, 0), 128 + SevenBits(sent, 7)];
    var more := Encoded(TypeOf(m)) + AllCoded(Parts(m), sent);
    EncodedNonEmpty(TypeOf(m));
    var src := Encode(m, sent) + rest;
    assert src == pre + (more + rest) && src == pre + more + rest;
    HeaderOf(sent, more + rest);
    assert src[0] < STOP;
    MessageInPlace(m, sent, pre, rest, t, Header(pre, 2));
  }

  lemma EncodedNonEmpty(n: nat)
    ensures Encoded(n) != []
  {
  }

  /** With a presence map of one byte the same holds of the original, and the optimised decoder refuses
      the message. */
  lemma ShortRoundTrip(m: Message, sent: set<nat>, rest: Bytes, t: Table)
    requires TableOk(t) && 0 in sent && forall f :: 7 <= f < 14 ==> f !in sent
    ensures var src := EncodeShort(m, sent) + rest; var o := Whole(m, |EncodeShort(m, sent)|);
            && (Original(src, t).outcome == o <==> AllHeld(Parts(m), sent, t))
            && (AllHeld(Parts(m), sent, t) ==> Original(src, t) == Decoding(o, After(m, sent, t)))
            && Optimised(src, t) == Decoding(Rejected(InvalidHeader), t)
  {
    hide InPlace, ReadHeader, Parts, TypeOf, Values, AllCoded, After, AllHeld, Announces, Encoded, BitSet, SevenBits,
         TableOk, Optimised;
    var pre := [128 + SevenBits(sent, 0)];
    var more := Encoded(TypeOf(m)) + AllCoded(Parts(m), sent);
    EncodedNonEmpty(TypeOf(m));
    var src := EncodeShort(m, sent) + rest;
    assert src == pre + (more + rest) && src == pre + more + rest;
    ShortHeaderOf(sent, more + rest);
    MessageInPlace(m, sent, pre, rest, t, Header([pre[0], 0], 1));
    DecodersAgree(src, t);
  }

  /** Both decoders run on an encoded message. */
  method DecodeEncoded(m: Message, sent: set<nat>, rest: Bytes, a: array<FieldState>, b: array<FieldState>)
    returns (original: Outcome, optimised: Outcome)
    requires a.Length == MAX_FIELD && b.Length == MAX_FIELD && a != b && a[..] == b[..] && TableOk(a[..]) && 0 in sent
    modifies a, b
    ensures original == Whole(m, |Encode(m, sent)|) <==> old(AllHeld(Parts(m), sent, a[..]))
    ensures optimised == Whole(m, |Encode(m, sent)|) <==> old(AllHeld(Parts(m), sent, a[..]))
    ensures old(AllHeld(Parts(m), sent, a[..])) ==> a[..] == b[..] == After(m, sent, old(a[..]))
  {
    hide Original, Optimised, Encode, AllHeld, After, Whole, TableOk;
    MessageRoundTrip(m, sent, rest, a[..]);
    original := DecodeOriginal(Encode(m, sent) + rest, a);
    optimised := DecodeOptimised(Encode(m, sent) + rest, b);
  }
}
