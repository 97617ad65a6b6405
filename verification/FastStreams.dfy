/** FAST messages on the wire: which are refused, and whole packets that leave out of each message what
    the ones before it supply. */
module FastStreams {
  import opened Basics
  import opened FastFields
  import opened FastDecode
  import opened FastDecoders
  import opened FastPackets
  import opened FastMessages

  // ----- messages that are refused -----

  lemma CodedUnfinished(part: Part, n: nat)
    requires n < |Coded(part)|
    ensures StopAt(Coded(part)[..n]) == n
  {
    hide StopAt, Base128, Digits;
    var c := Coded(part);
    if !part.Str? { DigitsAreBase128(Number(part) / 128); }
    StopIs(c[..n], n);
  }

  /** A field cut off before its last byte. */
  lemma PartCutOff(part: Part, src: Bytes, pre: Bytes, n: nat, t: Table, p: Pmap)
    requires TableOk(t) && BitSet(p, part.bit) && n < |Coded(part)| && src == pre + Coded(part)[..n]
    ensures One(Item(KindOf(part), part.bit), src, |pre|, t, p) == Stuck(Incomplete, t)
  {
    hide StopAt, BitSet, Coded;
    assert src[|pre|..] == Coded(part)[..n];
    CodedUnfinished(part, n);
  }

  lemma CutOffSplits(pre: Bytes, c: Bytes, more: Bytes, n: nat)
    requires n < |c + more|
    ensures n < |c| ==> pre + (c + more)[..n] == pre + c[..n]
    ensures n >= |c| ==> pre + (c + more)[..n] == (pre + c) + more[..n - |c|] == pre + c + more[..n - |c|]
  {
  }

  /** A list of fields cut off anywhere. */
  lemma {:induction false} PartsCutOff(parts: seq<Part>, n: nat, src: Bytes, pre: Bytes, t: Table, p: Pmap,
                                       sent: set<nat>)
    requires TableOk(t) && Announces(p, sent) && Distinct(parts) && AllHeld(parts, sent, t)
    requires n < |AllCoded(parts, sent)| && src == pre + AllCoded(parts, sent)[..n]
    ensures var w := Fields(Items(parts), src, |pre|, t, p); w.Stuck? && w.code == Incomplete
    decreases |parts|
  {
    hide One, BitSet, Items, Values, Coded, Kept, Held, AllHeld, TableOk;
    if parts == [] { return; }
    ListsNext(parts, sent);
    var part, c, more := parts[0], Bit(parts[0], sent), AllCoded(parts[1..], sent);
    CutOffSplits(pre, c, more, n);
    HeldNext(parts, sent, t, Kept(part, part.bit in sent, t[part.bit]));
    if n < |c| {
      PartCutOff(part, src, pre, n, t, p);
    } else {
      PartDecodes(part, src, pre, more[..n - |c|], t, p, sent);
      TableAfter(Items(parts)[0], src, |pre|, t, p);
      DistinctNext(parts);
      PartsCutOff(parts[1..], n - |c|, src, pre + c, t[part.bit := Kept(part, part.bit in sent, t[part.bit])], p, sent);
    }
  }

  /** A message cut off anywhere is incomplete: its presence map, its type, or one of its fields. */
  lemma CutOffIncomplete(m: Message, sent: set<nat>, n: nat, t: Table)
    requires TableOk(t) && 0 in sent && AllHeld(Parts(m), sent, t) && n < |Encode(m, sent)|
    ensures var src := Encode(m, sent)[..n];
            Original(src, t).outcome == Optimised(src, t).outcome == Rejected(Incomplete)
  {
    hide InPlace, ReadHeader, Parts, TypeOf, AllCoded, AllHeld, Announces, Encoded, BitSet, SevenBits, TableOk;
    if n >= 2 {
      var pre := [SevenBits(sent, 0), 128 + SevenBits(sent, 7)];
      var code, fields := Encoded(TypeOf(m)), AllCoded(Parts(m), sent);
      var src := Encode(m, sent)[..n];
      assert src == pre + (code + fields)[..n - 2];
      CutOffHeader(sent, (code + fields)[..n - 2]);
      InPlaceCutOff(m, sent, n - 2, src, pre, t, Header(pre, 2));
    }
  }

  lemma CutOffHeader(sent: set<nat>, more: Bytes)
    requires 0 in sent
    ensures var pre := [SevenBits(sent, 0), 128 + SevenBits(sent, 7)];
            ReadHeader(pre + more) == Header(pre, 2) && Announces(pre, sent)
  {
    hide SevenBits, BitSet;
    MapAnnounces(sent, [SevenBits(sent, 0), 128 + SevenBits(sent, 7)]);
  }

  lemma InPlaceCutOff(m: Message, sent: set<nat>, n: nat, src: Bytes, pre: Bytes, t: Table, h: Header)
    requires TableOk(t) && 0 in sent && h.Header? && Announces(h.pmap, sent) && h.length == |pre|
    requires AllHeld(Parts(m), sent, t)
    requires var body := Encoded(TypeOf(m)) + AllCoded(Parts(m), sent); n < |body| && src == pre + body[..n]
    ensures InPlace(src, t, h).outcome == Rejected(Incomplete)
  {
    hide One, Fields, Parts, TypeOf, Layout, Values, Items, AllCoded, AllHeld, Encoded, BitSet, Kept, TableOk;
    var kind, code, fields := Int16(0, TypeOf(m)), Encoded(TypeOf(m)), AllCoded(Parts(m), sent);
    assert Coded(kind) == code && Bit(kind, sent) == code;
    CutOffSplits(pre, code, fields, n);
    if n < |code| {
      PartCutOff(kind, src, pre, n, t, h.pmap);
    } else {
      PartDecodes(kind, src, pre, fields[..n - |code|], t, h.pmap, sent);
      var u := t[0 := Kept(kind, true, t[0])];
      TableAfter(Item(I16, MSG_TYPE), src, |pre|, t, h.pmap);
      PartsDistinct(m);
      HeldAfterType(Parts(m), sent, t, u[0]);
      PartsCutOff(Parts(m), n - |code|, src, pre + code, u, h.pmap, sent);
      LayoutOf(m);
      BodyIs(TypeOf(m), src, |pre + code|, u, h.pmap);
      assert Number16(Value(kind)) == TypeOf(m);
    }
  }

  /** Bytes that no message can begin with: a presence map without the message type, or without a stop bit
      in its two bytes. Both decoders refuse them, and nothing else, for their header; the optimised one
      also any map of one byte. */
  lemma InvalidHeaderExactly(src: Bytes, t: Table)
    ensures Original(src, t).outcome == Rejected(InvalidHeader) <==>
            |src| >= 2 && (src[0] / 64 % 2 == 0 || (src[0] < 128 && src[1] < 128))
    ensures Optimised(src, t).outcome == Rejected(InvalidHeader) <==>
            |src| >= 2 && (src[0] / 64 % 2 == 0 || src[0] >= 128 || src[1] < 128)
  {
    hide InPlace, TableOk;
  }

  /** A message type other than the nine is left to the default branch of the decoders, with the offset
      behind the type. */
  lemma UnknownFallsBack(msgType: uint16, sent: set<nat>, rest: Bytes, t: Table)
    requires TableOk(t) && 0 in sent && msgType !in {1, 32, 35, 36, 37, 100, 101, 102, 103}
    ensures var head := [SevenBits(sent, 0), 128 + SevenBits(sent, 7)] + Encoded(msgType);
            var d := Decoding(Fallback(msgType, |head|), t[0 := Kept(Int16(0, msgType), true, t[0])]);
            Original(head + rest, t) == Optimised(head + rest, t) == d
  {
    hide One, Fields, ReadHeader, Encoded, BitSet, Kept, SevenBits, TableOk;
    var pre, code, kind := [SevenBits(sent, 0), 128 + SevenBits(sent, 7)], Encoded(msgType), Int16(0, msgType);
    var src := pre + code + rest;
    EncodedNonEmpty(msgType);
    assert src == pre + (code + rest);
    HeaderOf(sent, code + rest);
    assert Bit(kind, sent) == code;
    PartDecodes(kind, src, pre, rest, t, pre, sent);
    assert Number16(Value(kind)) == msgType;
  }

  /** An entry has something for a field that is not sent: a value to copy, or a number to count on from. */
  predicate Supplies(part: Part, s: FieldState) { s.valid && (s.op == 1 || (s.op == 2 && !part.Str?)) }

  lemma PartUnsupplied(part: Part, src: Bytes, off: nat, t: Table, p: Pmap)
    requires TableOk(t) && off <= |src| && !BitSet(p, part.bit) && !Supplies(part, t[part.bit])
    ensures One(Item(KindOf(part), part.bit), src, off, t, p) == Stuck(InvalidState, t)
  {
    hide StopAt, BitSet, Base128;
  }

  lemma {:induction false} PartsUnsupplied(parts: seq<Part>, k: nat, src: Bytes, pre: Bytes, rest: Bytes, t: Table,
                                           p: Pmap, sent: set<nat>)
    requires TableOk(t) && Announces(p, sent) && Distinct(parts) && k < |parts|
    requires AllHeld(parts[..k], sent, t) && src == pre + AllCoded(parts, sent) + rest
    requires parts[k].bit !in sent && !Supplies(parts[k], t[parts[k].bit])
    ensures var w := Fields(Items(parts), src, |pre|, t, p); w.Stuck? && w.code == InvalidState
    decreases |parts|
  {
    hide One, BitSet, Items, Values, Bit, Kept, Held, AllHeld, Supplies, TableOk;
    ListsNext(parts, sent);
    var part, c, more := parts[0], Bit(parts[0], sent), AllCoded(parts[1..], sent);
    if k == 0 {
      PartUnsupplied(part, src, |pre|, t, p);
    } else {
      var s := Kept(part, part.bit in sent, t[part.bit]);
      assert parts[..k][0] == part && parts[..k][1..] == parts[1..][..k - 1];
      HeldNext(parts[..k], sent, t, s);
      PartDecodes(part, src, pre, more + rest, t, p, sent);
      TableAfter(Items(parts)[0], src, |pre|, t, p);
      DistinctNext(parts);
      assert src == (pre + c) + more + rest;
      PartsUnsupplied(parts[1..], k - 1, src, pre + c, rest, t[part.bit := s], p, sent);
    }
  }

  /** If the first field that is neither sent nor held has nothing in the table to stand for it, both
      decoders refuse the message for its state. */
  lemma UnsuppliedInvalid(m: Message, sent: set<nat>, rest: Bytes, t: Table, k: nat)
    requires TableOk(t) && 0 in sent && k < |Parts(m)| && AllHeld(Parts(m)[..k], sent, t)
    requires Parts(m)[k].bit !in sent && !Supplies(Parts(m)[k], t[Parts(m)[k].bit])
    ensures var src := Encode(m, sent) + rest;
            Original(src, t).outcome == Optimised(src, t).outcome == Rejected(InvalidState)
  {
    hide InPlace, ReadHeader, Parts, TypeOf, AllCoded, AllHeld, Announces, Encoded, BitSet, SevenBits, Supplies,
         TableOk;
    var pre := [SevenBits(sent, 0), 128 + SevenBits(sent, 7)];
    var code, fields := Encoded(TypeOf(m)), AllCoded(Parts(m), sent);
    var src := Encode(m, sent) + rest;
    EncodedNonEmpty(TypeOf(m));
    assert src == pre + (code + fields + rest) && src == pre + code + fields + rest;
    HeaderOf(sent, code + fields + rest);
    InPlaceUnsupplied(m, sent, src, pre, rest, t, Header(pre, 2), k);
  }

  lemma InPlaceUnsupplied(m: Message, sent: set<nat>, src: Bytes, pre: Bytes, rest: Bytes, t: Table, h: Header, k: nat)
    requires TableOk(t) && 0 in sent && h.Header? && Announces(h.pmap, sent) && h.length == |pre|
    requires src == pre + Encoded(TypeOf(m)) + AllCoded(Parts(m), sent) + rest
    requires k < |Parts(m)| && AllHeld(Parts(m)[..k], sent, t)
    requires Parts(m)[k].bit !in sent && !Supplies(Parts(m)[k], t[Parts(m)[k].bit])
    ensures InPlace(src, t, h).outcome == Rejected(InvalidState)
  {
    hide One, Fields, Parts, TypeOf, Layout, Values, Items, AllCoded, AllHeld, Encoded, BitSet, Kept, Supplies, TableOk;
    var kind, code, fields := Int16(0, TypeOf(m)), Encoded(TypeOf(m)), AllCoded(Parts(m), sent);
    assert Coded(kind) == code && Bit(kind, sent) == code;
    assert src == pre + code + (fields + rest);
    PartDecodes(kind, src, pre, fields + rest, t, h.pmap, sent);
    var u := t[0 := Kept(kind, true, t[0])];
    TableAfter(Item(I16, MSG_TYPE), src, |pre|, t, h.pmap);
    PartsDistinct(m);
    HeldAfterType(Parts(m)[..k], sent, t, u[0]);
    PartsUnsupplied(Parts(m), k, src, pre + code, rest, u, h.pmap, sent);
    LayoutOf(m);
    BodyIs(TypeOf(m), src, |pre + code|, u, h.pmap);
    assert Number16(Value(kind)) == TypeOf(m);
  }

  // ----- packets -----

  /** The fields that must be sent: the type, and those that the table does not hold. */
  function Needed(m: Message, t: Table): set<nat> {
    var parts := Parts(m);
    {0} + set i | 0 <= i < |parts| && !Held(parts[i], t[parts[i].bit]) :: parts[i].bit
  }

  lemma NeededSuffices(m: Message, t: Table)
    ensures 0 in Needed(m, t) && AllHeld(Parts(m), Needed(m, t), t)
  {
    hide Parts, Held;
  }

  /** A packet of messages, each sent with no field that the ones before it supply. */
  function Compressed(ms: seq<Message>, t: Table): Bytes {
    if ms == [] then []
    else
      var sent := Needed(ms[0], t);
      Encode(ms[0], sent) + Compressed(ms[1..], After(ms[0], sent, t))
  }

  /** What decoding that packet must return: every message whole, whatever was left out of it. */
  function Delivered(ms: seq<Message>, t: Table): (r: seq<Outcome>)
    ensures |r| == |ms|
  {
    if ms == [] then []
    else
      var sent := Needed(ms[0], t);
      [Whole(ms[0], |Encode(ms[0], sent)|)] + Delivered(ms[1..], After(ms[0], sent, t))
  }

  lemma {:induction false} DeliveredWhole(ms: seq<Message>, t: Table, i: nat)
    requires i < |ms|
    ensures var o := Delivered(ms, t)[i]; o.Decoded? && o.msgType == TypeOf(ms[i]) && o.values == Values(Parts(ms[i]))
  {
    hide Needed, Encode, After, TypeOf, Values, Parts;
    if i > 0 { DeliveredWhole(ms[1..], After(ms[0], Needed(ms[0], t), t), i - 1); }
  }

  function Final(ms: seq<Message>, t: Table): Table {
    if ms == [] then t else Final(ms[1..], After(ms[0], Needed(ms[0], t), t))
  }

  /** Leaving out of each message what the ones before it supply loses nothing: both packet loops
      return every message, in order and with all its fields. */
  lemma {:induction false} CompressedRoundTrip(ms: seq<Message>, t: Table)
    requires TableOk(t)
    ensures var src := Compressed(ms, t);
            OriginalPacket(src, t) == OptimisedPacket(src, t) == Complete(Delivered(ms, t), Final(ms, t))
  {
    hide Original, Optimised, Encode, AllHeld, After, Needed, Parts, TypeOf, Values, TableOk;
    if ms != [] {
      var m, sent := ms[0], Needed(ms[0], t);
      var u := After(m, sent, t);
      var code, more := Encode(m, sent), Compressed(ms[1..], After(m, sent, t));
      NeededSuffices(m, t);
      MessageRoundTrip(m, sent, more, t);
      EncodeNonEmpty(m, sent);
      assert Original(code + more, t).table == u;
      CompressedRoundTrip(ms[1..], u);
      assert (code + more)[|code|..] == more;
    }
  }

  lemma EncodeNonEmpty(m: Message, sent: set<nat>)
    ensures Encode(m, sent) != []
  {
  }

  /** The packet loop over such a packet. */
  method DecodeCompressed(ms: seq<Message>, bodies: nat, state: array<FieldState>)
    returns (messages: seq<Outcome>, last: Outcome, ok: bool)
    requires state.Length == MAX_FIELD && bodies > 0
    modifies state
    ensures ok && messages == Delivered(ms, InitialTable()) && state[..] == Final(ms, InitialTable())
  {
    hide Compressed, Delivered, Final, InitialTable, OptimisedPacket, OriginalPacket, TableOk;
    CompressedRoundTrip(ms, InitialTable());
    messages, last, ok := DecodePacket(Compressed(ms, InitialTable()), bodies, state);
  }

  // ----- what the table supplies -----

  /** The operators of a packet: the type and field 13 have none, the sequence number counts on, every
      other field is copied. */
  predicate Standard(t: Table) {
    t[0].op == 0 && t[13].op == 0 && t[2].op == 2 && forall f :: 1 <= f < 13 && f != 2 ==> t[f].op == 1
  }

  /** At the start of a packet the operators are in place and no field is held. */
  lemma InitialTableHoldsNothing(part: Part)
    ensures TableOk(InitialTable()) && Standard(InitialTable()) && !Held(part, InitialTable()[part.bit])
  {
  }

  /** The same message with the next sequence number. */
  function Following(m: Message): Message {
    match m
    case Add(o) => Add(o.(sequence := (o.sequence + 1) % UINT32))
    case Modify(o) => Modify(o.(sequence := (o.sequence + 1) % UINT32))
    case SymbolClear(n, stockIdx, text) => SymbolClear((n + 1) % UINT32, stockIdx, text)
    case SequenceReset(n) => SequenceReset((n + 1) % UINT32)
    case SymbolUpdate(_, _, _) => m
    case FirmUpdate(_, _) => m
    case Delete(i, n, t, o, side, e, s, x, f) => Delete(i, (n + 1) % UINT32, t, o, side, e, s, x, f)
    case Imbalance(i, n, t, v, ti, mi, p, ps, a, e, s, x, at) =>
      Imbalance(i, (n + 1) % UINT32, t, v, ti, mi, p, ps, a, e, s, x, at)
    case BookRefresh(n, t, o, v, p, ps, side, e, s, f) => BookRefresh((n + 1) % UINT32, t, o, v, p, ps, side, e, s, f)
  }

  function NextPart(part: Part): Part { if part.Int32? && part.bit == 2 then Int32(2, (part.n + 1) % UINT32) else part }

  lemma NextBit(part: Part)
    ensures NextPart(part).bit == part.bit
  {
  }

  /** The list next is parts with the sequence number advanced. */
  predicate Advances(parts: seq<Part>, next: seq<Part>) {
    |next| == |parts| &&
    forall i :: 0 <= i < |parts| ==> next[i] == NextPart(parts[i]) && (parts[i].bit == 2 ==> parts[i].Int32?)
  }

  lemma FollowingParts(m: Message)
    ensures Advances(Parts(m), Parts(Following(m)))
  {
    hide OrderParts, Advances, NextPart;
    if m.Add? || m.Modify? { FollowingOrder(m.order); }
    else if m.Imbalance? { FollowingImbalance(m); }
    else { FollowingOther(m); }
  }

  lemma FollowingImbalance(m: Message)
    requires m.Imbalance?
    ensures Advances(Parts(m), Parts(Following(m)))
  {
  }

  lemma FollowingOther(m: Message)
    requires !m.Add? && !m.Modify? && !m.Imbalance?
    ensures Advances(Parts(m), Parts(Following(m)))
  {
  }

  lemma FollowingOrder(o: Order)
    ensures Advances(OrderParts(o), OrderParts(o.(sequence := (o.sequence + 1) % UINT32)))
  {
  }

  /** What is kept of a field supplies it next time. */
  lemma KeptIsHeld(part: Part, isSent: bool, s: FieldState)
    requires isSent || Held(part, s)
    requires part.Str? ==> |part.text| <= MAX_STRLEN
    requires if part.bit == 2 then s.op == 2 && part.Int32? else s.op == 1
    ensures Held(NextPart(part), Kept(part, isSent, s))
  {
    hide LittleValue;
    if part.Str? {
      if isSent { assert (part.text + s.value[|part.text|..])[..|part.text|] == part.text; }
    } else if isSent {
      LittleReads(Number(part), s.value[4..]);
    } else {
      LittleReads(Recalled(s), s.value[4..]);
    }
  }

  lemma LittleReads(n: uint32, rest: Bytes)
    ensures LittleValue(Little(n) + rest) == n
  {
    Little4(n);
    HostDigits(n);
  }

  lemma {:induction false} KeptAt(parts: seq<Part>, sent: set<nat>, t: Table, i: nat)
    requires Distinct(parts) && i < |parts|
    ensures AllKept(parts, sent, t)[parts[i].bit] == Kept(parts[i], parts[i].bit in sent, t[parts[i].bit])
    decreases |parts|
  {
    hide Kept;
    var f := parts[0].bit;
    var u := t[f := Kept(parts[0], f in sent, t[f])];
    if i == 0 {
      KeptElsewhere(parts[1..], sent, u, f);
    } else {
      assert parts[1..][i - 1] == parts[i];
      KeptAt(parts[1..], sent, u, i - 1);
    }
  }

  lemma {:induction false} KeptElsewhere(parts: seq<Part>, sent: set<nat>, t: Table, f: Field)
    requires forall i :: 0 <= i < |parts| ==> parts[i].bit != f
    ensures AllKept(parts, sent, t)[f] == t[f]
    decreases |parts|
  {
    hide Kept;
    if parts != [] {
      var g := parts[0].bit;
      KeptElsewhere(parts[1..], sent, t[g := Kept(parts[0], g in sent, t[g])], f);
    }
  }

  /** After a message, the same with the next sequence number needs nothing but its type and, if it has
      one, field 13. */
  lemma NextMessageIsShort(m: Message, sent: set<nat>, t: Table)
    requires Standard(t) && AllHeld(Parts(m), sent, t)
    requires forall i :: 0 <= i < |Parts(m)| && Parts(m)[i].Str? ==> |Parts(m)[i].text| <= MAX_STRLEN
    ensures Needed(Following(m), After(m, sent, t)) <= {0, 13}
  {
    hide Parts, Kept, Held, AllKept, TypeOf, NextPart;
    var parts, next := Parts(m), Parts(Following(m));
    PartsDistinct(m);
    FollowingParts(m);
    forall i | 0 <= i < |parts| && parts[i].bit != 13
      ensures Held(NextPart(parts[i]), After(m, sent, t)[parts[i].bit])
    {
      KeptAt(parts, sent, t[0 := Kept(Int16(0, TypeOf(m)), true, t[0])], i);
      KeptIsHeld(parts[i], parts[i].bit in sent, t[parts[i].bit]);
    }
    forall i | 0 <= i < |parts| ensures next[i].bit == parts[i].bit { NextBit(parts[i]); }
  }

  // ----- known messages -----

  lemma {:induction false} SingleBytes(parts: seq<Part>, sent: set<nat>, codes: Bytes)
    requires |codes| == |parts|
    requires forall i :: 0 <= i < |parts| ==> parts[i].bit in sent && Coded(parts[i]) == [codes[i]]
    ensures AllCoded(parts, sent) == codes
  {
    hide Coded;
    if parts != [] { SingleBytes(parts[1..], sent, codes[1..]); }
  }

  lemma SmallNumber(n: nat)
    requires n < 128
    ensures Encoded(n) == [n + 128]
  {
  }

  predicate Small(part: Part) { if part.Str? then |part.text| == 1 else Number(part) < 128 }

  function SmallByte(part: Part): byte
    requires Small(part)
  {
    (if part.Str? then part.text[0] else Number(part)) + 128
  }

  lemma SmallCode(part: Part)
    requires Small(part)
    ensures Coded(part) == [SmallByte(part)]
  {
    if !part.Str? { SmallNumber(Number(part)); }
  }

  const Everything: set<nat> := {0, 1, 2, 3, 4, 5, 6, 7, 8, 9, 10, 11, 12, 13}

  lemma EveryField()
    ensures forall f :: 0 <= f < 14 ==> f in Everything
    ensures SevenBits(Everything, 0) == 127 && SevenBits(Everything, 7) == 127
  {
  }

  lemma SmallMessage(m: Message, codes: Bytes)
    requires TypeOf(m) < 128 && |codes| == |Parts(m)|
    requires forall i :: 0 <= i < |codes| ==> Small(Parts(m)[i]) && SmallByte(Parts(m)[i]) == codes[i]
    ensures Encode(m, Everything) == [0x7F, 0xFF, 128 + TypeOf(m)] + codes
  {
    hide Encoded, Coded, AllCoded, Parts, SevenBits, Small, SmallByte;
    EveryField();
    forall i | 0 <= i < |codes| ensures Parts(m)[i].bit in Everything && Coded(Parts(m)[i]) == [codes[i]] {
      SmallCode(Parts(m)[i]);
    }
    SingleBytes(Parts(m), Everything, codes);
    SmallNumber(TypeOf(m));
  }

  /** One message of each of the frequent layouts, byte for byte. */
  lemma KnownAdd()
    ensures Encode(Add(Order(5, 1, 2, 3, 10, 20, 4, [66], [80], [69], 6, 7)), Everything) ==
            [0x7F, 0xFF, 0xE4, 0x85, 0x81, 0x82, 0x83, 0x8A, 0x94, 0x84, 0xC2, 0xD0, 0xC5, 0x86, 0x87]
  {
    hide Encode;
    SmallMessage(Add(Order(5, 1, 2, 3, 10, 20, 4, [66], [80], [69], 6, 7)),
                 [0x85, 0x81, 0x82, 0x83, 0x8A, 0x94, 0x84, 0xC2, 0xD0, 0xC5, 0x86, 0x87]);
  }

  lemma KnownDelete()
    ensures Encode(Delete(5, 1, 2, 3, [66], [80], [69], 7, 6), Everything) ==
            [0x7F, 0xFF, 0xE6, 0x85, 0x81, 0x82, 0x83, 0xC2, 0xD0, 0xC5, 0x87, 0x86]
  {
    hide Encode;
    SmallMessage(Delete(5, 1, 2, 3, [66], [80], [69], 7, 6),
                 [0x85, 0x81, 0x82, 0x83, 0xC2, 0xD0, 0xC5, 0x87, 0x86]);
  }

  lemma KnownImbalance()
    ensures Encode(Imbalance(5, 1, 2, 10, 11, 12, 20, 4, [67], [80], [69], 7, 9), Everything) ==
            [0x7F, 0xFF, 0xE7, 0x85, 0x81, 0x82, 0x8A, 0x8B, 0x8C, 0x94, 0x84, 0xC3, 0xD0, 0xC5, 0x87, 0x89]
  {
    hide Encode;
    SmallMessage(Imbalance(5, 1, 2, 10, 11, 12, 20, 4, [67], [80], [69], 7, 9),
                 [0x85, 0x81, 0x82, 0x8A, 0x8B, 0x8C, 0x94, 0x84, 0xC3, 0xD0, 0xC5, 0x87, 0x89]);
  }
}
