/** The packet loop over a FAST decoder (feeds/arca/common/rcv_feed_packets.c), and the stop-bit
    encoding that the integer fields invert. */
module FastPackets {
  import opened Basics
  import opened FastFields
  import opened FastDecode
  import opened FastDecoders

  /** A packet of messages: all decoded, or broken off at an error or at a message of no known type. */
  datatype Packet = Complete(messages: seq<Outcome>, table: Table) | Broken(messages: seq<Outcome>, last: Outcome)

  function Before(o: Outcome, p: Packet): (r: Packet)
    ensures r.Complete? == p.Complete? && r.messages == [o] + p.messages
  {
    match p
    case Complete(ms, t) => Complete([o] + ms, t)
    case Broken(ms, last) => Broken([o] + ms, last)
  }

  /** Message after message, each starting where the one before ended, with the table it left. */
  function OriginalPacket(src: Bytes, t: Table): (p: Packet)
    decreases |src|
  {
    if src == [] then Complete([], t)
    else
      var d := Original(src, t);
      if d.outcome.Decoded? then Before(d.outcome, OriginalPacket(src[d.outcome.used..], d.table))
      else Broken([], d.outcome)
  }

  function OptimisedPacket(src: Bytes, t: Table): (p: Packet)
    decreases |src|
  {
    if src == [] then Complete([], t)
    else
      var d := Optimised(src, t);
      if d.outcome.Decoded? then Before(d.outcome, OptimisedPacket(src[d.outcome.used..], d.table))
      else Broken([], d.outcome)
  }

  /** No message that the original reaches begins with a one-byte presence map. */
  predicate TwoByteMaps(src: Bytes, t: Table)
    decreases |src|
  {
    src == [] ||
    (!OneByteMap(src) &&
     var d := Original(src, t);
     (d.outcome.Decoded? ==> TwoByteMaps(src[d.outcome.used..], d.table)))
  }

  /** The decoders agree on a whole packet exactly when all its presence maps have two bytes. */
  lemma {:induction false} PacketsAgree(src: Bytes, t: Table)
    ensures OptimisedPacket(src, t) == OriginalPacket(src, t) <==> TwoByteMaps(src, t)
    decreases |src|
  {
    hide Original, Optimised, OneByteMap, TableOk;
    if src != [] {
      DecodersAgree(src, t);
      var d := Original(src, t);
      if d.outcome.Decoded? && !OneByteMap(src) {
        PacketsAgree(src[d.outcome.used..], d.table);
        BeforeInjective(d.outcome, OptimisedPacket(src[d.outcome.used..], d.table),
                        OriginalPacket(src[d.outcome.used..], d.table));
      } else if OneByteMap(src) {
        assert OptimisedPacket(src, t) == Broken([], Rejected(InvalidHeader));
      }
    }
  }

  lemma BeforeInjective(o: Outcome, p: Packet, q: Packet)
    ensures Before(o, p) == Before(o, q) <==> p == q
  {
    if Before(o, p) == Before(o, q) {
      assert ([o] + p.messages)[1..] == p.messages && ([o] + q.messages)[1..] == q.messages;
    }
  }

  /** The bytes used by the messages of a packet. */
  function Used(ms: seq<Outcome>): nat {
    if ms == [] then 0 else (if ms[0].Decoded? then ms[0].used else 0) + Used(ms[1..])
  }

  /** A complete packet is used up exactly, at no less than two bytes a message. */
  lemma {:induction false} PacketUsesItsBytes(src: Bytes, t: Table)
    ensures var p := OriginalPacket(src, t);
            p.Complete? ==> Used(p.messages) == |src| && 2 * |p.messages| <= |src|
    decreases |src|
  {
    hide Original, TableOk;
    if src != [] {
      var d := Original(src, t);
      if d.outcome.Decoded? {
        var rest := OriginalPacket(src[d.outcome.used..], d.table);
        PacketUsesItsBytes(src[d.outcome.used..], d.table);
        assert ([d.outcome] + rest.messages)[1..] == rest.messages;
      }
    }
  }

  /** The packet whole is the messages ms followed by the packet rest. */
  predicate Progress(whole: Packet, ms: seq<Outcome>, rest: Packet) {
    whole == match rest
             case Complete(more, t) => Complete(ms + more, t)
             case Broken(more, last) => Broken(ms + more, last)
  }

  lemma ProgressNext(whole: Packet, ms: seq<Outcome>, o: Outcome, rest: Packet)
    requires Progress(whole, ms, Before(o, rest))
    ensures Progress(whole, ms + [o], rest)
  {
    assert ms + ([o] + rest.messages) == ms + [o] + rest.messages;
  }

  /** The FAST loop of process_packet, over a table set up for the packet. The count of messages is
      never advanced, so any positive number of announced bodies has the same effect: the loop runs
      until the bytes are used up, and it ends because each message uses some. */
  method DecodePacket(src: Bytes, bodies: nat, state: array<FieldState>)
    returns (messages: seq<Outcome>, last: Outcome, ok: bool)
    requires state.Length == MAX_FIELD
    modifies state
    ensures bodies == 0 ==> ok && messages == []
    ensures bodies > 0 ==>
            OptimisedPacket(src, InitialTable()) == if ok then Complete(messages, state[..]) else Broken(messages, last)
  {
    hide Optimised, TableOk, InitialTable;
    forall f | 0 <= f < MAX_FIELD { state[f] := InitialTable()[f]; }
    assert state[..] == InitialTable();
    var remaining, count := src, 0;
    messages, last, ok := [], Rejected(Incomplete), true;
    while |remaining| > 0 && count < bodies
      invariant ok && count == 0 && TableOk(state[..])
      invariant bodies == 0 ==> messages == []
      invariant Progress(OptimisedPacket(src, InitialTable()), messages, OptimisedPacket(remaining, state[..]))
      decreases |remaining|
    {
      last := DecodeOptimised(remaining, state);
      if !last.Decoded? { return messages, last, false; }
      ProgressNext(OptimisedPacket(src, InitialTable()), messages, last,
                   OptimisedPacket(remaining[last.used..], state[..]));
      messages := messages + [last];
      remaining := remaining[last.used..];
    }
  }

  // ----- the encoding of an integer -----

  /** The base-128 digits of n, most significant first. */
  function Digits(n: nat): Bytes {
    if n == 0 then [] else Digits(n / 128) + [n % 128]
  }

  /** The stop-bit encoding of n: its digits, the last one marked. */
  function Encoded(n: nat): Bytes { Digits(n / 128) + [n % 128 + STOP] }

  lemma Base128Nil()
    ensures Base128([]) == 0
  {
  }

  lemma {:induction false} DigitsAreBase128(n: nat)
    ensures Base128(Digits(n)) == n
    ensures forall i :: 0 <= i < |Digits(n)| ==> Digits(n)[i] < STOP
  {
    hide Base128;
    Base128Nil();
    if n > 0 {
      DigitsAreBase128(n / 128);
      Base128Append(Digits(n / 128), n % 128);
    }
  }

  /** Decoding what was encoded gives it back, uses exactly its bytes, and stores it. */
  lemma EncodedRoundTrip(v: uint32, rest: Bytes, s: FieldState)
    ensures var r := IntStep(Encoded(v) + rest, s, true);
            r.Read? && r.value == v && r.used == |Encoded(v)| &&
            (s.op == OP_COPY || s.op == OP_INCR ==> r.state.valid && Stored(r.state.value) == v)
  {
    hide Base128, Store, Stored, StopAt, Encoded;
    EncodedStops(v, rest);
    StoreRoundTrip(s.value, v);
  }

  lemma EncodedStops(v: nat, rest: Bytes)
    ensures var buf, n := Encoded(v) + rest, StopAt(Encoded(v) + rest);
            n + 1 == |Encoded(v)| <= |buf| && buf[..n + 1] == Encoded(v) && Base128(buf[..n + 1]) == v
  {
    hide Base128;
    DigitsAreBase128(v / 128);
    Base128Append(Digits(v / 128), v % 128 + STOP);
    var buf, n := Encoded(v) + rest, |Digits(v / 128)|;
    StopIs(buf, n);
    assert buf[..n + 1] == Encoded(v);
  }

  /** After a field was encoded, leaving it out of the next message repeats it, or counts on from it. */
  lemma OmittedAfterEncoded(v: uint32, rest: Bytes, s: FieldState, next: Bytes)
    requires s.op == OP_COPY || s.op == OP_INCR
    ensures var e := IntStep(Encoded(v) + rest, s, true);
            e.Read? && var r := IntStep(next, e.state, false);
            r.Read? && r.used == 0 && r.value == if s.op == OP_COPY then v else (v + 1) % UINT32
  {
    hide Base128, Store, Stored;
    EncodedRoundTrip(v, rest, s);
  }
}
