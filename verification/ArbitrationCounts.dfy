/** The six statistics of a feed group over whole runs, counted from the packets. */
module ArbitrationCounts {
  import opened Basics
  import opened Arbitration
  import opened ArbitrationRuns

  /** Out of sequence, the packet is past the window. */
  predicate Abandons(s: Arbiter, p: Packet) { s.missing != {} && p.seqNo > s.base + MISSING_RANGE }

  /** The packet leaves a gap before it on a feed that has been heard before. */
  predicate CountsGap(s: Arbiter, p: Packet) {
    !Abandons(s, p) && Mine(s, p.feed) != 0 && p.seqNo > s.primary && p.seqNo > s.secondary
  }

  /** In sequence, it leaves a gap that a window can hold. */
  predicate LosesSequence(s: Arbiter, p: Packet) {
    s.missing == {} && CountsGap(s, p) && p.seqNo <= Max(s.primary, s.secondary) + MISSING_RANGE
  }

  /** The four ways of passing a counted gap, and the other cases. */
  lemma GapCounted(s: Arbiter, p: Packet)
    requires Inv(s)
    ensures CountsGap(s, p) <==> Gap(s, p) in {Recorded, TooWide, Extended, Rewindow}
    ensures Abandons(s, p) <==> Gap(s, p) == Jump
    ensures LosesSequence(s, p) <==> Gap(s, p) == Recorded
    ensures Gap(s, p) == TooWide <==> CountsGap(s, p) && s.missing == {} && !LosesSequence(s, p)
    ensures Gap(s, p) == Extended <==> CountsGap(s, p) && s.missing != {} && p.seqNo < s.base + MISSING_RANGE
    ensures Gap(s, p) == Rewindow <==> CountsGap(s, p) && s.missing != {} && p.seqNo == s.base + MISSING_RANGE
    ensures Gap(s, p) == LateJoin <==> !Abandons(s, p) && Mine(s, p.feed) == 0
    ensures CountsGap(s, p) || Abandons(s, p) ==> p.seqNo >= Front(s)
  {
  }

  /** The number of gaps. */
  ghost function Gaps(run: seq<Packet>): nat {
    if run == [] then 0
    else Gaps(run[..|run| - 1]) + Tally(CountsGap(After(run[..|run| - 1]), run[|run| - 1]))
  }

  /** The numbers in them. */
  ghost function GapNumbers(run: seq<Packet>): nat {
    if run == [] then 0
    else
      var s, p := After(run[..|run| - 1]), run[|run| - 1];
      GapNumbers(run[..|run| - 1]) + if CountsGap(s, p) then p.seqNo - Front(s) else 0
  }

  /** The number of packets past the window. */
  ghost function Jumps(run: seq<Packet>): nat {
    if run == [] then 0
    else Jumps(run[..|run| - 1]) + Tally(Abandons(After(run[..|run| - 1]), run[|run| - 1]))
  }

  /** The numbers given up by them. */
  ghost function GivenUp(run: seq<Packet>): nat {
    if run == [] then 0
    else
      var s, p := After(run[..|run| - 1]), run[|run| - 1];
      GivenUp(run[..|run| - 1]) + if Abandons(s, p) then |s.missing| else 0
  }

  /** The number of times that sequence was lost. */
  ghost function Outages(run: seq<Packet>): nat {
    if run == [] then 0
    else Outages(run[..|run| - 1]) + Tally(LosesSequence(After(run[..|run| - 1]), run[|run| - 1]))
  }

  /** The statistics t are what the run, now in sequence or not, amounts to. */
  ghost predicate Counted(run: seq<Packet>, t: Stats, inSequence: bool) {
    && t.incidence == Gaps(run) && t.range == GapNumbers(run)
    && t.lostIncidence == Jumps(run) && t.unrecoverable == GivenUp(run)
    && t.outOfSequence == Outages(run) && t.restored + Tally(!inSequence) == Outages(run)
  }

  /** What one packet adds to each statistic. */
  lemma StepCounts(s: Arbiter, p: Packet)
    requires Inv(s)
    ensures var t, u := s.stats, Step(s, p).stats;
            && u.incidence == t.incidence + Tally(CountsGap(s, p))
            && u.range == t.range + (if CountsGap(s, p) then p.seqNo - Front(s) else 0)
            && u.lostIncidence == t.lostIncidence + Tally(Abandons(s, p))
            && u.unrecoverable == t.unrecoverable + (if Abandons(s, p) then |s.missing| else 0)
            && u.outOfSequence == t.outOfSequence + Tally(LosesSequence(s, p))
            && u.outOfSequence + Tally(InSequence(Step(s, p))) + t.restored
               == t.outOfSequence + Tally(InSequence(s)) + u.restored
  {
    hide Interval, Inv;
    GapCounted(s, p);
    if p.seqNo >= Front(s) { NowMissing(s, p); } else if p.seqNo in s.missing { StillMissing(s.missing, p.seqNo); }
  }

  /** Whether a packet at or beyond the front leaves numbers missing. */
  lemma NowMissing(s: Arbiter, p: Packet)
    requires Inv(s) && p.seqNo >= Front(s)
    ensures var missing := Ahead(s, p).missing;
            match Gap(s, p)
            case NoGap | LateJoin => missing == s.missing
            case TooWide => missing == {} == s.missing
            case Jump => missing == {}
            case Recorded => missing != {} && s.missing == {}
            case Extended | Rewindow => missing != {} && s.missing != {}
  {
    var q, r := p.seqNo, Ahead(s, p);
    match Gap(s, p) {
      case NoGap =>
      case LateJoin =>
      case Jump =>
      case Recorded => assert q - 1 in r.missing;
      case TooWide =>
      case Extended => assert q - 1 in r.missing;
      case Rewindow => assert q - 1 in r.missing;
    }
  }

  lemma StillMissing(missing: set<nat>, q: nat)
    requires q in missing
    ensures missing == {q} <==> missing - {q} == {}
  {
    if missing - {q} == {} { assert missing == (missing - {q}) + {q}; }
  }

  /** Over every run each statistic is a count over its packets, and sequence was restored as often as
      it was lost, but for the time it is lost now. */
  lemma {:induction false} StatsExactly(run: seq<Packet>)
    ensures Counted(run, After(run).stats, InSequence(After(run)))
  {
    hide Step, Inv, CountsGap, Abandons, LosesSequence, After;
    if run == [] {
      NothingCounted();
    } else {
      StatsExactly(run[..|run| - 1]);
      LastAfter(run);
      StepCounts(After(run[..|run| - 1]), run[|run| - 1]);
    }
  }

  lemma NothingCounted()
    ensures After([]) == Initial
  {
  }

  lemma LastAfter(run: seq<Packet>)
    requires run != []
    ensures After(run) == Step(After(run[..|run| - 1]), run[|run| - 1])
  {
    hide Step, Inv;
  }

  /** The expected counters after a packet: the other feed's is untouched, and its own moves past the
      packet if the group is in sequence or the packet is published; else it moves only to start. */
  lemma StepCounters(s: Arbiter, f: Feed, q: nat)
    requires Inv(s)
    ensures var r, other := Step(s, Packet(f, q)), if f.Primary? then Secondary else Primary;
            && Mine(r, other) == Mine(s, other)
            && Mine(r, f) == if s.missing == {} || Publishes(s, q) then Max(Mine(s, f), q + 1)
                             else if Mine(s, f) == 0 then q else Mine(s, f)
  {
    hide Inv, Interval;
  }
}
