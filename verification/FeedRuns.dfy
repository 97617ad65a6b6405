/** Runs of the bitmap implementation, and the concrete runs on which its promises break. */
module FeedRuns {
  import opened Basics
  import opened Arbitration
  import opened ArbitrationRuns
  import opened ArbitrationCounts
  import opened FeedGroups

  /** A new feed group fed any interleaving of packets: call by call it returns 1 exactly where the
      rule publishes, reports as lost what the rule does, and it ends in the state of the rule, with
      statistics that count the packets. */
  method Receive(run: seq<Packet>) returns (group: FeedGroup, publish: seq<bool>, reports: seq<Option<Report>>)
    requires forall i :: 0 <= i < |run| ==> run[i].seqNo < SEQ_LIMIT
    ensures fresh(group) && group.Valid() && group.Abs() == After(run)
    ensures |publish| == |run| && forall i :: 0 <= i < |run| ==> publish[i] == PublishedAt(run, i)
    ensures |reports| == |run| && forall i :: 0 <= i < |run| ==> reports[i] == ReportOf(After(run[..i]), run[i])
    ensures group.stats.incidence == Gaps(run) && group.stats.range == GapNumbers(run)
    ensures group.stats.lostIncidence == Jumps(run) && group.stats.unrecoverable == GivenUp(run)
    ensures group.stats.outOfSequence == Outages(run)
    ensures group.stats.restored + Tally(!group.inSequence) == Outages(run)
    ensures Clean(run) ==>
            forall i, j :: 0 <= i < j < |run| && publish[i] && publish[j] ==> run[i].seqNo != run[j].seqNo
  {
    hide After, Step, Inv, Clean, Publishes, ReportOf;
    hide Gaps, GapNumbers, Jumps, GivenUp, Outages;
    AfterNothing();
    group := new FeedGroup();
    publish, reports := [], [];
    for k := 0 to |run|
      invariant fresh(group) && fresh(group.words) && group.Valid() && group.Abs() == After(run[..k])
      invariant |publish| == k && forall i :: 0 <= i < k ==> publish[i] == PublishedAt(run, i)
      invariant |reports| == k && forall i :: 0 <= i < k ==> reports[i] == ReportOf(After(run[..i]), run[i])
    {
      var flag, report := group.NeedToPublish(run[k].feed, run[k].seqNo);
      AfterAppend(run[..k], run[k]);
      assert run[..k + 1] == run[..k] + [run[k]];
      publish, reports := publish + [flag], reports + [report];
    }
    assert run[..|run|] == run;
    StatsExactly(run);
    if Clean(run) { CleanRunNoRepeat(run); }
  }

  lemma AfterNothing()
    ensures After([]) == Initial
  {
  }

  lemma CleanRunNoRepeat(run: seq<Packet>)
    requires Clean(run)
    ensures NoRepeat(run)
  {
    forall i, j | 0 <= i < j < |run| && PublishedAt(run, i) && PublishedAt(run, j)
      ensures run[i].seqNo != run[j].seqNo
    {
      assert forall k :: 0 <= k < j ==> run[..j][..k] == run[..k];
      PublishedOnce(run, i, j);
    }
  }

  /** The primary feed sends 1, 3 and MISSING_RANGE; then MISSING_RANGE + 2, the window end, reopens
      the window, and resending any of the published numbers near it publishes that number again. The
      same packet unbalances the statistics: half a window is recorded where far more was missing. */
  lemma ReopeningRun()
    ensures var run, p := [Packet(Primary, 1), Packet(Primary, 3), Packet(Primary, MISSING_RANGE)],
                          Packet(Primary, MISSING_RANGE + 2);
            Clean(run) && Reopens(After(run), p) && Miscounts(After(run), p)
  {
    hide After, Clean, Step, Inv, Reopens, Miscounts;
    var a, b, c := Packet(Primary, 1), Packet(Primary, 3), Packet(Primary, MISSING_RANGE);
    AfterNothing();
    FirstPacket(Initial);
    AfterAppend([], a);
    assert [] + [a] == [a];
    CleanAppend([], a);
    FirstHole(After([a]));
    AfterAppend([a], b);
    assert [a] + [b] == [a, b];
    CleanAppend([a], b);
    WideHole(After([a, b]));
    AfterAppend([a, b], c);
    assert [a, b] + [c] == [a, b, c];
    CleanAppend([a, b], c);
    WindowEnd(After([a, b, c]));
  }

  lemma FirstPacket(s: Arbiter)
    requires s == Initial
    ensures var p := Packet(Primary, 1); var r := Step(s, p);
            !Reopens(s, p) && r.primary == 2 && r.secondary == 0 && r.missing == {}
  {
  }

  lemma FirstHole(s: Arbiter)
    requires Inv(s) && s.primary == 2 && s.secondary == 0 && s.missing == {}
    ensures var p := Packet(Primary, 3); var r := Step(s, p);
            !Reopens(s, p) && r.primary == 4 && r.secondary == 0 && r.base == 2 && 2 in r.missing && |r.missing| == 1
  {
    GapBalances(s, Packet(Primary, 3));
  }

  lemma WideHole(s: Arbiter)
    requires Inv(s) && s.primary == 4 && s.secondary == 0 && s.base == 2 && 2 in s.missing && |s.missing| == 1
    ensures var p := Packet(Primary, MISSING_RANGE); var r := Step(s, p);
            !Reopens(s, p) && r.primary == MISSING_RANGE + 1 && r.secondary == 0 && r.base == 2 && 2 in r.missing &&
            |r.missing| == MISSING_RANGE - 3
  {
    GapBalances(s, Packet(Primary, MISSING_RANGE));
  }

  lemma WindowEnd(s: Arbiter)
    requires s.primary == MISSING_RANGE + 1 && s.secondary == 0 && s.base == 2 && 2 in s.missing
    requires |s.missing| == MISSING_RANGE - 3
    ensures var p := Packet(Primary, MISSING_RANGE + 2); Reopens(s, p) && Miscounts(s, p)
  {
  }

  /** The primary feed sends 1 and then a number more than a window further on: all between are skipped. */
  lemma WideGapRun()
    ensures var s, p := After([Packet(Primary, 1)]), Packet(Primary, MISSING_RANGE + 3);
            Gap(s, p).TooWide? && Skips(s, p) == Interval(2, MISSING_RANGE + 3) && ReportOf(s, p) == None &&
            Step(s, p).missing == {}
  {
    hide After;
    AfterNothing();
    FirstPacket(Initial);
    AfterAppend([], Packet(Primary, 1));
    assert [] + [Packet(Primary, 1)] == [Packet(Primary, 1)];
  }

  /** After 1, 3 and 5 on the primary feed 2 and 4 are missing. */
  lemma TwoHoles()
    ensures var run := [Packet(Primary, 1), Packet(Primary, 3), Packet(Primary, 5)]; var s := After(run);
            && Clean(run) && 3 in LedgerOf(run).published
            && s.primary == 6 && s.secondary == 0 && s.base == 2 && s.highest == 4 && s.missing == {2, 4}
  {
    hide After, Clean, Step, Inv, Reopens, LedgerOf, Publishes;
    var a, b, c := Packet(Primary, 1), Packet(Primary, 3), Packet(Primary, 5);
    AfterNothing();
    FirstPacket(Initial);
    AfterAppend([], a);
    assert [] + [a] == [a];
    CleanAppend([], a);
    HoleAtTwo(After([a]));
    AfterAppend([a], b);
    assert [a] + [b] == [a, b];
    CleanAppend([a], b);
    HoleAtFour(After([a, b]));
    AfterAppend([a, b], c);
    assert [a, b] + [c] == [a, b, c];
    CleanAppend([a, b], c);
    assert [a, b, c][..1] == [a];
    assert PublishedAt([a, b, c], 1);
    PublishedBook([a, b, c], 3);
  }

  lemma HoleAtTwo(s: Arbiter)
    requires Inv(s) && s.primary == 2 && s.secondary == 0 && s.missing == {}
    ensures var p := Packet(Primary, 3); var r := Step(s, p);
            !Reopens(s, p) && r.primary == 4 && r.secondary == 0 && r.base == r.highest == 2 && r.missing == {2}
    ensures Publishes(s, 3)
  {
  }

  lemma HoleAtFour(s: Arbiter)
    requires Inv(s) && s.primary == 4 && s.secondary == 0 && s.base == s.highest == 2 && s.missing == {2}
    ensures var p := Packet(Primary, 5); var r := Step(s, p);
            !Reopens(s, p) && r.primary == 6 && r.secondary == 0 && r.base == 2 && r.highest == 4 &&
            r.missing == {2, 4}
  {
  }

  /** After that run, a packet past the window declares 2, 3 and 4 lost, though 3 was published; a packet
      at the window end, which reopens nothing, declares 2 and 3 lost, and 4 is dropped unreported. */
  lemma WrongReports()
    ensures var run := [Packet(Primary, 1), Packet(Primary, 3), Packet(Primary, 5)];
            var s, past, end := After(run), Packet(Primary, MISSING_RANGE + 3), Packet(Primary, MISSING_RANGE + 2);
            && Clean(run) && 3 in LedgerOf(run).published
            && Gap(s, past).Jump? && Declared(s, past) == {2, 3, 4} && Drops(s, past) == {2, 4}
            && Gap(s, end).Rewindow? && !Reopens(s, end) && Declared(s, end) == {2, 3} && Drops(s, end) == {2, 4}
            && !Exact(s, past) && !Exact(s, end)
  {
    hide After, Clean, LedgerOf, Inv, Exact, Least;
    TwoHoles();
    var s := After([Packet(Primary, 1), Packet(Primary, 3), Packet(Primary, 5)]);
    LeastIs(s.missing, 2);
    assert |s.missing| == 2;
    ReportExactly(s, Packet(Primary, MISSING_RANGE + 3));
    ReportExactly(s, Packet(Primary, MISSING_RANGE + 2));
    assert 3 in Declared(s, Packet(Primary, MISSING_RANGE + 3));
    assert 3 in Declared(s, Packet(Primary, MISSING_RANGE + 2));
  }

  /** After 1, 4 and 2 on the primary feed the window starts at 2 and misses 3 alone. */
  lemma LowestMoved()
    ensures var s := After([Packet(Primary, 1), Packet(Primary, 4), Packet(Primary, 2)]);
            s.primary == 5 && s.secondary == 0 && s.base == 2 && s.missing == {3}
  {
    hide After;
    var a, b, c := Packet(Primary, 1), Packet(Primary, 4), Packet(Primary, 2);
    AfterNothing();
    AfterAppend([], a);
    assert [] + [a] == [a];
    AfterAppend([a], b);
    assert [a] + [b] == [a, b];
    assert After([a, b]).missing == {2, 3};
    AfterAppend([a, b], c);
    assert [a, b] + [c] == [a, b, c];
  }

  /** The primary feed sends 1, 4, 2, MISSING_RANGE + 1 and MISSING_RANGE + 2; the window then starts
      at 2, its lowest missing number is 3, and looking up MISSING_RANGE + 2, which the secondary feed
      may deliver next, indexes the word after the bitmap. */
  lemma PastWindowRun()
    ensures var s := After([Packet(Primary, 1), Packet(Primary, 4), Packet(Primary, 2),
                            Packet(Primary, MISSING_RANGE + 1), Packet(Primary, MISSING_RANGE + 2)]);
            && !InSequence(s) && s.base == 2 && 2 !in s.missing && 3 in s.missing
            && s.base + MISSING_RANGE < Front(s)
  {
    hide After;
    var abc := [Packet(Primary, 1), Packet(Primary, 4), Packet(Primary, 2)];
    var d, e := Packet(Primary, MISSING_RANGE + 1), Packet(Primary, MISSING_RANGE + 2);
    LowestMoved();
    AfterAppend(abc, d);
    AfterAppend(abc + [d], e);
    assert abc + [d] + [e] == [abc[0], abc[1], abc[2], d, e];
  }

  /** A feed group that has received that run reads past its bitmap to look up MISSING_RANGE + 2. */
  method ReceivePastWindow() returns (group: FeedGroup)
    ensures fresh(group) && group.Valid() && group.ReadsPastWindow(MISSING_RANGE + 2)
  {
    hide After, PublishedAt, Clean;
    var run := [Packet(Primary, 1), Packet(Primary, 4), Packet(Primary, 2),
                Packet(Primary, MISSING_RANGE + 1), Packet(Primary, MISSING_RANGE + 2)];
    var publish, reports;
    group, publish, reports := Receive(run);
    PastWindowRun();
    group.PastWindowExactly(MISSING_RANGE + 2);
  }
}
