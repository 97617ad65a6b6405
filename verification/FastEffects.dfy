/** What a refused message leaves behind in the table of the optimised decoder
    (feeds/arca/codec/newFastDecode.c), which works on the caller's table. */
module FastEffects {
  import opened Basics
  import opened FastFields
  import opened FastDecode

  /** An integer field leaves its entry as it was: absent, it is copied; present, it is not kept, or the
      entry already holds its value. */
  predicate QuietInt(buf: Bytes, s: FieldState, present: bool)
    requires present ==> StopAt(buf) < |buf|
  {
    if !present then s.op == OP_COPY
    else
      (s.op != OP_COPY && s.op != OP_INCR) ||
      (s.valid && s.size == 4 && Stored(s.value) == Base128(buf[..StopAt(buf) + 1]) % UINT32)
  }

  /** A string field leaves its entry as it was: absent; not kept; already stored; or too long to be
      kept, with an entry already invalid. */
  predicate QuietText(buf: Bytes, s: FieldState, present: bool)
    requires present ==> StopAt(buf) < |buf|
  {
    !present || s.op != OP_COPY ||
    (var text := Text(buf);
     if |text| <= MAX_STRLEN then s.valid && s.size == |text| && s.value[..|text|] == text else !s.valid)
  }

  predicate QuietField(kind: Kind, buf: Bytes, s: FieldState, present: bool)
    requires present ==> StopAt(buf) < |buf|
  {
    if kind.Ascii? then QuietText(buf, s, present) else QuietInt(buf, s, present)
  }

  lemma StoreExactly(value: Bytes, v: uint32)
    requires |value| == MAX_STRLEN
    ensures Store(value, v) == value <==> Stored(value) == v
  {
    StoreRoundTrip(value, v);
    if Stored(value) == v {
      HostOf(value[0], value[1], value[2], value[3]);
      assert value == value[..4] + value[4..];
      assert value[..4] == [value[0], value[1], value[2], value[3]];
    }
  }

  lemma HostOf(b0: byte, b1: byte, b2: byte, b3: byte)
    ensures 0 <= Combine(b0, b1, b2, b3) < UINT32 && Host(Combine(b0, b1, b2, b3)) == [b0, b1, b2, b3]
  {
    hide Host, Low, Shift, Combine;
    CombineIs(b0, b1, b2, b3);
    var v2 := b2 as int + 256 * b3 as int;
    var v1 := b1 as int + 256 * v2;
    var v := b0 as int + 256 * v1;
    assert v2 < 0x1_0000;
    assert v1 < 0x100_0000;
    HostBytes(v);
    ByteOf(v, b0, v1);
    ByteOf(v1, b1, v2);
    ByteOf(v2, b2, b3);
    OneByte(b3);
  }

  lemma CombineIs(b0: byte, b1: byte, b2: byte, b3: byte)
    ensures Combine(b0, b1, b2, b3) == b0 as int + 256 * (b1 as int + 256 * (b2 as int + 256 * b3 as int))
  {
  }

  lemma OneByte(b: byte)
    ensures Low(b) == b
  {
  }

  lemma ByteOf(v: uint32, b: byte, rest: nat)
    requires v == b as int + 256 * rest
    ensures Low(v) == b && Shift(v) == rest
  {
  }

  /** A field that is decoded leaves its entry as it was exactly if it is quiet. */
  lemma QuietExactly(kind: Kind, buf: Bytes, s: FieldState, present: bool)
    requires FieldStep(kind, buf, s, present).Read?
    ensures present ==> StopAt(buf) < |buf|
    ensures FieldStep(kind, buf, s, present).state == s <==> QuietField(kind, buf, s, present)
  {
    hide Base128, Store, Stored, Wire, StopAt;
    if kind.Ascii? {
      if present { KeepExactly(s, Text(buf)); }
    } else if present {
      StoreExactly(s.value, Base128(buf[..StopAt(buf) + 1]) % UINT32);
    } else {
      StoreExactly(s.value, (Stored(s.value) + 1) % UINT32);
    }
  }

  lemma KeepExactly(s: FieldState, text: Bytes)
    ensures Keep(s, text) == s <==>
            s.op != OP_COPY ||
            if |text| <= MAX_STRLEN then s.valid && s.size == |text| && s.value[..|text|] == text else !s.valid
  {
    if |text| <= MAX_STRLEN {
      assert s.value == s.value[..|text|] + s.value[|text|..];
      assert (text + s.value[|text|..])[..|text|] == text;
    }
  }

  // ----- several fields -----

  predicate Distinct(items: seq<Item>) {
    forall i, j :: 0 <= i < j < |items| ==> items[i].field != items[j].field
  }

  predicate Free(items: seq<Item>, f: Field) { forall i :: 0 <= i < |items| ==> items[i].field != f }

  /** Every field that is decoded before one fails leaves table t as it was. */
  predicate Quiet(items: seq<Item>, src: Bytes, off: nat, t: Table, p: Pmap)
    requires off <= |src|
    decreases |items|
  {
    if items == [] then true
    else
      var f, w := items[0].field, One(items[0], src, off, t, p);
      w.Stuck? ||
      ((BitSet(p, f) ==> StopAt(src[off..]) < |src[off..]|) &&
       QuietField(items[0].kind, src[off..], t[f], BitSet(p, f)) && Quiet(items[1..], src, w.offset, t, p))
  }

  lemma OneQuiet(item: Item, src: Bytes, off: nat, t: Table, p: Pmap)
    requires off <= |src| && One(item, src, off, t, p).Done?
    ensures BitSet(p, item.field) ==> StopAt(src[off..]) < |src[off..]|
    ensures One(item, src, off, t, p).table == t <==>
            QuietField(item.kind, src[off..], t[item.field], BitSet(p, item.field))
    ensures forall f: nat :: f < MAX_FIELD && f != item.field ==> One(item, src, off, t, p).table[f] == t[f]
  {
    hide FieldStep, QuietField, StopAt, BitSet, TableOk;
    var f := item.field;
    QuietExactly(item.kind, src[off..], t[f], BitSet(p, f));
    var s := FieldStep(item.kind, src[off..], t[f], BitSet(p, f)).state;
    assert t[f := s] == t <==> s == t[f];
  }

  lemma {:induction false} Untouched(items: seq<Item>, src: Bytes, off: nat, t: Table, p: Pmap, f: Field)
    requires off <= |src| && Free(items, f)
    ensures Fields(items, src, off, t, p).table[f] == t[f]
    decreases |items|
  {
    hide One, QuietField, TableOk, StopAt, BitSet;
    if items != [] {
      var w := One(items[0], src, off, t, p);
      if w.Done? {
        OneQuiet(items[0], src, off, t, p);
        Untouched(items[1..], src, w.offset, w.table, p, f);
      }
    }
  }

  /** The fields leave the table as it was exactly if they are quiet. */
  lemma {:induction false} FieldsQuiet(items: seq<Item>, src: Bytes, off: nat, t: Table, p: Pmap)
    requires off <= |src| && Distinct(items)
    ensures Fields(items, src, off, t, p).table == t <==> Quiet(items, src, off, t, p)
    decreases |items|
  {
    hide One, QuietField, TableOk, StopAt, BitSet;
    if items != [] {
      var f, w := items[0].field, One(items[0], src, off, t, p);
      if w.Done? {
        OneQuiet(items[0], src, off, t, p);
        if w.table == t {
          FieldsQuiet(items[1..], src, w.offset, t, p);
        } else {
          Untouched(items[1..], src, w.offset, w.table, p, f);
          assert w.table[f] != t[f];
        }
      }
    }
  }

  lemma LayoutDistinct(msgType: nat)
    ensures Distinct(Layout(msgType)) && Free(Layout(msgType), MSG_TYPE)
  {
    hide Layout, Distinct, Free;
    if Frequent(msgType) { FrequentDistinct(msgType); } else { OtherDistinct(msgType); }
    LayoutFree(msgType);
  }

  lemma FrequentDistinct(msgType: nat)
    requires Frequent(msgType)
    ensures Distinct(Layout(msgType))
  {
  }

  lemma OtherDistinct(msgType: nat)
    requires !Frequent(msgType)
    ensures Distinct(Layout(msgType))
  {
  }

  lemma LayoutFree(msgType: nat)
    ensures Free(Layout(msgType), MSG_TYPE)
  {
  }

  // ----- whole messages -----

  /** The type and the fields of a message, as far as they are decoded, leave table t as it was. */
  predicate QuietMessage(src: Bytes, t: Table) {
    |src| < MIN_FAST_MSG || src[0] >= STOP || ReadHeader(src).BadHeader? ||
    (var h := ReadHeader(src);
     var w := One(Item(I16, MSG_TYPE), src, h.length, t, h.pmap);
     Quiet([Item(I16, MSG_TYPE)], src, h.length, t, h.pmap) &&
     (w.Done? ==> Quiet(Layout(Number16(w.values[0])), src, w.offset, t, h.pmap)))
  }

  /** The optimised decoder leaves the caller's table as it was exactly on a quiet message. */
  lemma OptimisedKeepsTable(src: Bytes, t: Table)
    ensures Optimised(src, t).table == t <==> QuietMessage(src, t)
  {
    hide One, Quiet, Layout, TableOk, BitSet, ReadHeader;
    if !(|src| < MIN_FAST_MSG || src[0] >= STOP || ReadHeader(src).BadHeader?) {
      var h := ReadHeader(src);
      TypeQuiet(src, h.length, t, h.pmap);
      var w := One(Item(I16, MSG_TYPE), src, h.length, t, h.pmap);
      if w.Done? { BodyQuiet(Number16(w.values[0]), src, w.offset, t, w.table, h.pmap); }
    }
  }

  lemma TypeQuiet(src: Bytes, off: nat, t: Table, p: Pmap)
    requires off <= |src|
    ensures var w := One(Item(I16, MSG_TYPE), src, off, t, p);
            && (w.table == t <==> Quiet([Item(I16, MSG_TYPE)], src, off, t, p))
            && forall f: nat :: f < MAX_FIELD && f != MSG_TYPE ==> w.table[f] == t[f]
  {
    hide One, QuietField, StopAt, BitSet, TableOk;
    var item := Item(I16, MSG_TYPE);
    var w := One(item, src, off, t, p);
    if w.Done? { OneQuiet(item, src, off, t, p); }
    assert [item][0] == item && [item][1..] == [];
  }

  lemma BodyQuiet(msgType: nat, src: Bytes, off: nat, t: Table, t1: Table, p: Pmap)
    requires off <= |src| && forall f: nat :: f < MAX_FIELD && f != MSG_TYPE ==> t1[f] == t[f]
    ensures Body(msgType, src, off, t1, p).table == t <==> t1 == t && Quiet(Layout(msgType), src, off, t, p)
  {
    hide Layout, Fields, Quiet, TableOk, Distinct, Free;
    var items := Layout(msgType);
    LayoutDistinct(msgType);
    FieldsQuiet(items, src, off, t1, p);
    Untouched(items, src, off, t1, p, MSG_TYPE);
    NothingQuiet(src, off, t, p);
    assert t1[MSG_TYPE] == t[MSG_TYPE] ==> t1 == t;
  }

  lemma NothingQuiet(src: Bytes, off: nat, t: Table, p: Pmap)
    requires off <= |src|
    ensures Quiet([], src, off, t, p) && Fields([], src, off, t, p) == Done(off, t, [])
  {
  }

  /** A message that both decoders refuse leaves them with the same table exactly if it is quiet: the
      original always restores its own. */
  lemma RefusedAlikeExactly(src: Bytes, t: Table)
    requires Original(src, t).outcome.Rejected?
    ensures Optimised(src, t).table == Original(src, t).table <==> QuietMessage(src, t)
  {
    hide Optimised, QuietMessage;
    OptimisedKeepsTable(src, t);
  }
}
