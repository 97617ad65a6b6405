/** Whole runs of the gap list: its time stamps, and the numbers its operations report as lost. */
module GapAccounts {
  import opened GapRanges

  // ----- time stamps -----

  /** The gaps of the run were pushed at times that never decrease and do not pass now. */
  ghost predicate Timely(run: seq<Event>, now: int) {
    run == [] ||
    (var before, e := run[..|run| - 1], run[|run| - 1];
     if e.NewGap? then e.r.stamp <= now && Timely(before, e.r.stamp) else Timely(before, now))
  }

  ghost predicate StampedBy(rs: seq<Range>, now: int) { forall i :: 0 <= i < |rs| ==> rs[i].stamp <= now }

  /** The event splits a range of a full list into a head node of another time stamp. */
  predicate Restamps(rs: seq<Range>, max: nat, e: Event) {
    e.Arrival? && var k := Find(rs, e.n);
    k < |rs| && CutOf(rs, max, k, e.n).SplitFull? && rs[0].stamp != rs[k].stamp
  }

  lemma StepStampedBy(rs: seq<Range>, max: nat, e: Event, now: int)
    requires StampedBy(rs, now) && (e.NewGap? ==> e.r.stamp <= now)
    ensures StampedBy(Step(rs, max, e), now)
  {
    if e.Arrival? && Find(rs, e.n) < |rs| {
      var k := Find(rs, e.n);
      SpliceStampedBy(rs, if CutOf(rs, max, k, e.n).SplitFull? then 1 else 0, k, Mid(rs, max, k, e.n), now);
    }
  }

  lemma SpliceStampedBy(rs: seq<Range>, lo: nat, k: nat, mid: seq<Range>, now: int)
    requires lo <= k < |rs| && StampedBy(rs, now) && StampedBy(mid, now)
    ensures StampedBy(Splice(rs, lo, k, mid), now)
  {
  }

  lemma StepStamped(rs: seq<Range>, max: nat, e: Event)
    requires Stamped(rs) && (e.NewGap? ==> StampedBy(rs, e.r.stamp))
    ensures Stamped(Step(rs, max, e)) <==> !Restamps(rs, max, e)
  {
    hide Stamped, Push, Del, Flush, Find, CutOf;
    match e {
      case NewGap(r) => PushKeepsStamps(rs, max, r);
      case Arrival(n) => if Find(rs, n) < |rs| { DelKeepsStampsExactly(rs, max, Find(rs, n), n); }
      case Sweep(limit) => FlushKeepsStamps(rs, limit);
    }
  }

  lemma {:induction false} RunStampedBy(max: nat, run: seq<Event>, now: int)
    requires Timely(run, now)
    ensures StampedBy(After(max, run), now)
  {
    hide Step;
    if run != [] {
      var before, e := run[..|run| - 1], run[|run| - 1];
      RunStampedBy(max, before, if e.NewGap? then e.r.stamp else now);
      StepStampedBy(After(max, before), max, e, now);
    }
  }

  /** At every point of the run the list is oldest first. */
  ghost predicate AlwaysStamped(max: nat, run: seq<Event>) {
    Stamped(After(max, run)) && (run != [] ==> AlwaysStamped(max, run[..|run| - 1]))
  }

  ghost predicate NoRestamp(max: nat, run: seq<Event>) {
    run == [] || (NoRestamp(max, run[..|run| - 1]) && !Restamps(After(max, run[..|run| - 1]), max, run[|run| - 1]))
  }

  /** With times that never decrease, the list is oldest first throughout a run exactly if no arrival
      reuses a head of another time stamp. */
  lemma {:induction false} StampedExactly(max: nat, run: seq<Event>, now: int)
    requires Timely(run, now)
    ensures AlwaysStamped(max, run) <==> NoRestamp(max, run)
  {
    hide Step, Stamped, Restamps, StampedBy;
    NothingStamped();
    if run != [] {
      var before, e := run[..|run| - 1], run[|run| - 1];
      var latest := if e.NewGap? then e.r.stamp else now;
      StampedExactly(max, before, latest);
      RunStampedBy(max, before, latest);
      if AlwaysStamped(max, before) { StepStamped(After(max, before), max, e); }
    }
  }

  lemma NothingStamped()
    ensures Stamped([])
  {
  }

  /** At every point of the run a sweep, whatever its time, would remove exactly the expired ranges. */
  ghost predicate AlwaysSweepsExpired(max: nat, run: seq<Event>) {
    && (forall limit :: FlushesExpired(After(max, run), limit))
    && (run != [] ==> AlwaysSweepsExpired(max, run[..|run| - 1]))
  }

  lemma {:induction false} SweepsAreStamped(max: nat, run: seq<Event>)
    ensures AlwaysSweepsExpired(max, run) <==> AlwaysStamped(max, run)
  {
    hide Stamped, FlushesExpired, After;
    FlushRemovesExpired(After(max, run));
    if run != [] { SweepsAreStamped(max, run[..|run| - 1]); }
  }

  /** Sweeps remove exactly what has expired, throughout a run, exactly under the same condition. */
  lemma SweepsExactly(max: nat, run: seq<Event>, now: int)
    requires Timely(run, now)
    ensures AlwaysSweepsExpired(max, run) <==> NoRestamp(max, run)
  {
    SweepsAreStamped(max, run);
    StampedExactly(max, run, now);
  }

  // ----- numbers -----

  /** The value the call for an event returns: what it reports as lost. */
  function Returns(rs: seq<Range>, max: nat, e: Event): nat {
    match e
    case NewGap(_) => if |rs| + 1 > max && rs != [] then rs[0].size else 0
    case Arrival(n) => if Find(rs, n) < |rs| then DelResult(rs, max, Find(rs, n), n) else 0
    case Sweep(limit) => Total(rs[..Expired(rs, limit)])
  }

  function Pushes(e: Event): nat { if e.NewGap? then e.r.size else 0 }

  /** An arrival fills one number if a range holds it. */
  function Fills(rs: seq<Range>, e: Event): nat { if e.Arrival? && Find(rs, e.n) < |rs| then 1 else 0 }

  /** The event splits a range of a full list into a head node of another size. */
  predicate Misreports(rs: seq<Range>, max: nat, e: Event) {
    e.Arrival? && var k := Find(rs, e.n);
    k < |rs| && CutOf(rs, max, k, e.n).SplitFull? && rs[0].size != rs[k].size
  }

  lemma StepAccounts(rs: seq<Range>, max: nat, e: Event)
    ensures Total(Step(rs, max, e)) + Fills(rs, e) + Returns(rs, max, e) == Total(rs) + Pushes(e)
            <==> !Misreports(rs, max, e)
  {
    hide Total, Push, Del, Flush, Find, CutOf, DelResult, Expired;
    match e {
      case NewGap(r) => PushConserves(rs, max, r);
      case Arrival(n) => if Find(rs, n) < |rs| { DelConserves(rs, max, Find(rs, n), n); }
      case Sweep(limit) => FlushConserves(rs, limit);
    }
  }

  /** The numbers pushed, filled and reported lost so far. */
  datatype Account = Account(pushed: nat, filled: nat, returned: nat)

  function AccountOf(max: nat, run: seq<Event>): Account {
    if run == [] then Account(0, 0, 0)
    else
      var before, e := run[..|run| - 1], run[|run| - 1];
      var a, rs := AccountOf(max, before), After(max, before);
      Account(a.pushed + Pushes(e), a.filled + Fills(rs, e), a.returned + Returns(rs, max, e))
  }

  /** Every number pushed is still listed, was filled, or was reported lost. */
  ghost predicate Accounted(max: nat, run: seq<Event>) {
    var a := AccountOf(max, run);
    a.pushed == Total(After(max, run)) + a.filled + a.returned
  }

  ghost predicate AlwaysAccounted(max: nat, run: seq<Event>) {
    Accounted(max, run) && (run != [] ==> AlwaysAccounted(max, run[..|run| - 1]))
  }

  ghost predicate NoMisreport(max: nat, run: seq<Event>) {
    run == [] || (NoMisreport(max, run[..|run| - 1]) && !Misreports(After(max, run[..|run| - 1]), max, run[|run| - 1]))
  }

  /** The returned values account for every number throughout a run exactly if no split reuses a head
      of another size. */
  lemma {:induction false} AccountedExactly(max: nat, run: seq<Event>)
    ensures AlwaysAccounted(max, run) <==> NoMisreport(max, run)
  {
    hide Total, Step, Misreports, Fills, Returns, Pushes;
    TotalNil();
    if run != [] {
      var before, e := run[..|run| - 1], run[|run| - 1];
      AccountedExactly(max, before);
      StepAccounts(After(max, before), max, e);
    }
  }

  // ----- a run that breaks both -----

  /** In a full list of two, the arrival of 12 inside the younger range reuses the older head: five
      numbers are reported lost where one is, and the right part is older than the left. */
  lemma WrongSplit()
    ensures var run := [NewGap(Range(1, 1, 0)), NewGap(Range(10, 5, 1))]; var rs := After(2, run);
            && rs == [Range(1, 1, 0), Range(10, 5, 1)] && Find(rs, 12) == 1
            && DelResult(rs, 2, 1, 12) == 5 && DelLoss(rs, 2, 1, 12) == 1
            && Restamps(rs, 2, Arrival(12)) && Misreports(rs, 2, Arrival(12))
            && Step(rs, 2, Arrival(12)) == [Range(10, 2, 1), Range(13, 2, 0)] && !Stamped(Step(rs, 2, Arrival(12)))
  {
    var a, b := NewGap(Range(1, 1, 0)), NewGap(Range(10, 5, 1));
    assert [a, b][..1] == [a] && [a][..0] == [];
    assert After(2, [a]) == [a.r];
    var rs := After(2, [a, b]);
    assert rs == [a.r, b.r];
    FirstIsFind(rs, 12, 1);
    var split := Step(rs, 2, Arrival(12));
    assert split[0].stamp > split[1].stamp;
  }
}
