/** The arbitration rule of feeds/arca/common/seq_handling.c, stated over sets of sequence numbers.
    An Arbiter holds what the rule depends on: the two expected counters, the numbers recorded as
    missing, the base of the missing window, the last number recorded in it and the statistics. The
    implementation with its bitmap is in FeedGroup.dfy. */
module Arbitration {
  import opened Basics

  const MISSING_SIZE: nat := 256 * 128
  const MISSING_RANGE: nat := MISSING_SIZE * 64

  datatype Feed = Primary | Secondary
  datatype Packet = Packet(feed: Feed, seqNo: nat)

  /** missing_packet_incidence, missing_message_range, unrecoverable_messages,
      packets_lost_incidence, loss_of_in_sequence and restoral_of_in_sequence. */
  datatype Stats = Stats(incidence: nat, range: nat, unrecoverable: nat,
                         lostIncidence: nat, outOfSequence: nat, restored: nat)

  datatype Arbiter = Arbiter(primary: nat, secondary: nat, missing: set<nat>, base: nat, highest: nat, stats: Stats)

  const Initial: Arbiter := Arbiter(0, 0, {}, 0, 0, Stats(0, 0, 0, 0, 0, 0))

  function Max(a: nat, b: nat): nat { if a < b then b else a }

  function Mine(s: Arbiter, f: Feed): nat { if f.Primary? then s.primary else s.secondary }

  function SetMine(s: Arbiter, f: Feed, n: nat): Arbiter {
    if f.Primary? then s.(primary := n) else s.(secondary := n)
  }

  /** The larger expected counter. */
  function Front(s: Arbiter): nat { Max(s.primary, s.secondary) }

  predicate InSequence(s: Arbiter) { s.missing == {} }

  ghost predicate Inv(s: Arbiter) {
    && (InSequence(s) ==> s.base == s.highest == 0)
    && (!InSequence(s) ==> 1 <= s.base && Front(s) <= s.base + MISSING_RANGE + 1)
    && (!InSequence(s) ==> s.highest < s.base + MISSING_RANGE && s.highest < Front(s))
    && forall n :: n in s.missing ==> s.base <= n <= s.highest
  }

  /** A packet is published when it is at or beyond both counters or fills a recorded hole. */
  predicate Publishes(s: Arbiter, q: nat) { q >= Front(s) || q in s.missing }

  /** Out of sequence, the packet lies beyond the closed end of the window. */
  predicate JumpsWindow(s: Arbiter, q: nat) { !InSequence(s) && q > s.base + MISSING_RANGE }

  predicate Within(n: nat, lo: nat, hi: nat) { lo <= n < hi }

  /** The numbers lo, lo + 1, ..., hi - 1. */
  function Interval(lo: nat, hi: nat): set<nat> { set n | lo <= n < hi && Within(n, lo, hi) }

  lemma {:induction false} IntervalSize(lo: nat, hi: nat)
    requires lo <= hi
    ensures |Interval(lo, hi)| == hi - lo
    decreases hi
  {
    if lo < hi {
      IntervalSize(lo, hi - 1);
      assert Interval(lo, hi) == Interval(lo, hi - 1) + {hi - 1};
    }
  }

  /** What happens to the numbers between the front and a packet beyond it. */
  datatype GapCase = NoGap | LateJoin | Jump | Recorded | TooWide | Extended | Rewindow

  function Gap(s: Arbiter, p: Packet): GapCase {
    var q := p.seqNo;
    if JumpsWindow(s, q) then Jump
    else if Mine(s, p.feed) == 0 then LateJoin
    else if q <= Front(s) then NoGap
    else if InSequence(s) then (if q - Front(s) > MISSING_RANGE then TooWide else Recorded)
    else if q < s.base + MISSING_RANGE then Extended
    else Rewindow
  }

  function CountGap(t: Stats, size: nat): Stats {
    t.(incidence := t.incidence + 1, range := t.range + size)
  }

  /** The effect on the window and the statistics of a packet at or beyond the front. */
  function Ahead(s: Arbiter, p: Packet): Arbiter
    requires Inv(s) && p.seqNo >= Front(s)
  {
    var q, f := p.seqNo, Front(s);
    match Gap(s, p)
    case NoGap | LateJoin => s
    case Jump =>
      s.(missing := {}, base := 0, highest := 0,
         stats := s.stats.(lostIncidence := s.stats.lostIncidence + 1,
                           unrecoverable := s.stats.unrecoverable + |s.missing|,
                           restored := s.stats.restored + 1))
    case Recorded =>
      s.(missing := Interval(f, q), base := f, highest := q - 1,
         stats := CountGap(s.stats, q - f).(outOfSequence := s.stats.outOfSequence + 1))
    case TooWide => s.(stats := CountGap(s.stats, q - f))
    case Extended =>
      s.(missing := s.missing + Interval(f, q), highest := q - 1, stats := CountGap(s.stats, q - f))
    case Rewindow =>
      s.(missing := Interval(q - MISSING_RANGE / 2, q), base := q - MISSING_RANGE / 2, highest := q - 1,
         stats := CountGap(s.stats, q - f))
  }

  /** The effect of a packet that fills a recorded hole. */
  function Fill(s: Arbiter, q: nat): Arbiter {
    if s.missing == {q}
    then s.(missing := {}, base := 0, highest := 0, stats := s.stats.(restored := s.stats.restored + 1))
    else s.(missing := s.missing - {q})
  }

  // ----- what is reported lost -----

  /** A call of notify_packet_loss: size numbers from begin on are declared lost. */
  datatype Report = Report(begin: nat, size: nat)

  ghost function Least(s: set<nat>): (m: nat)
    requires s != {}
    ensures m in s && forall n :: n in s ==> m <= n
  {
    var x :| x in s;
    if s == {x} then x
    else
      assert s == s - {x} + {x};
      var m := Least(s - {x});
      if x < m then x else m
  }

  /** Past the window, the report runs from the lowest missing number to the highest ever recorded in
      it; at the window end, over as many numbers as are missing. */
  ghost function ReportOf(s: Arbiter, p: Packet): Option<Report>
    requires Inv(s)
  {
    match Gap(s, p)
    case Jump => Some(Report(Least(s.missing), s.highest - Least(s.missing) + 1))
    case Rewindow => Some(Report(Least(s.missing), |s.missing|))
    case _ => None
  }

  /** One call of need_2_publish. */
  function Step(s: Arbiter, p: Packet): (r: Arbiter)
    requires Inv(s)
    ensures Inv(r)
    ensures Front(r) == if p.seqNo >= Front(s) then p.seqNo + 1 else Front(s)
  {
    var q, my := p.seqNo, Mine(s, p.feed);
    if q >= Front(s) then
      var r := SetMine(Ahead(s, p), p.feed, q + 1);
      AheadKeepsInv(s, p);
      r
    else if q in s.missing then SetMine(Fill(s, q), p.feed, Max(my, q + 1))
    else if InSequence(s) then SetMine(s, p.feed, Max(my, q + 1))
    else SetMine(s, p.feed, if my == 0 then q else my)
  }

  lemma AheadKeepsInv(s: Arbiter, p: Packet)
    requires Inv(s) && p.seqNo >= Front(s)
    ensures Inv(SetMine(Ahead(s, p), p.feed, p.seqNo + 1))
    ensures Front(SetMine(Ahead(s, p), p.feed, p.seqNo + 1)) == p.seqNo + 1
  {
    var q, f, r := p.seqNo, Front(s), SetMine(Ahead(s, p), p.feed, p.seqNo + 1);
    match Gap(s, p) {
      case NoGap =>
      case LateJoin =>
      case Jump =>
      case Recorded => assert f in r.missing;
      case TooWide =>
      case Extended => assert f in r.missing;
      case Rewindow => assert q - 1 in r.missing;
    }
  }
}
