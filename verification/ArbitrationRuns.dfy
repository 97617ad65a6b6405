/** Whole runs of the arbiter: what every interleaving of primary and secondary packets keeps. */
module ArbitrationRuns {
  import opened Basics
  import opened Arbitration

  /** The fate of the numbers seen so far. Dropped numbers left the window while they were missing;
      skipped numbers were passed over without any record; reported ones were declared lost. */
  datatype Ledger = Ledger(published: set<nat>, dropped: set<nat>, skipped: set<nat>, reported: set<nat>,
                           recovered: nat, wide: nat)

  /** The numbers that a packet makes the feed group declare lost. */
  ghost function Declared(s: Arbiter, p: Packet): set<nat>
    requires Inv(s)
  {
    match ReportOf(s, p)
    case Some(r) => Interval(r.begin, r.begin + r.size)
    case None => {}
  }

  /** The numbers that a packet makes the window drop while they are missing. */
  function Drops(s: Arbiter, p: Packet): set<nat> {
    if Gap(s, p).Jump? || Gap(s, p).Rewindow? then s.missing else {}
  }

  /** The numbers that a packet passes over without a record. */
  function Skips(s: Arbiter, p: Packet): set<nat> {
    var q, f := p.seqNo, Front(s);
    match Gap(s, p)
    case LateJoin | Jump | TooWide => Interval(f, q)
    case Rewindow => Interval(f, q - MISSING_RANGE / 2)
    case _ => {}
  }

  ghost function Record(l: Ledger, s: Arbiter, p: Packet): Ledger
    requires Inv(s)
  {
    var q, f := p.seqNo, Front(s);
    if q < f then
      if q in s.missing then l.(published := l.published + {q}, recovered := l.recovered + 1) else l
    else
      l.(published := l.published + {q}, dropped := l.dropped + Drops(s, p), skipped := l.skipped + Skips(s, p),
         reported := l.reported + Declared(s, p), wide := l.wide + if Gap(s, p).TooWide? then q - f else 0)
  }

  /** In how many of the books published, missing, dropped and skipped n is entered. */
  function Fates(s: Arbiter, l: Ledger, n: nat): nat {
    Tally(n in l.published) + Tally(n in s.missing) + Tally(n in l.dropped) + Tally(n in l.skipped)
  }

  /** Every number below the front has exactly one fate, the others have none, and the number just
      below the front was published. */
  ghost predicate Partitioned(s: Arbiter, l: Ledger) {
    && (forall n: nat :: Fates(s, l, n) == Tally(n < Front(s)))
    && (Front(s) > 0 ==> Front(s) - 1 in l.published)
  }

  /** missing_message_range accounts for every number of a counted gap. */
  ghost predicate Balanced(s: Arbiter, l: Ledger) {
    s.stats.range == l.recovered + |s.missing| + s.stats.unrecoverable + l.wide
  }

  /** The packet sits exactly at the window end, is ahead of both counters and less than half a
      window ahead: the rebuilt window then reaches back over published numbers. */
  predicate Reopens(s: Arbiter, p: Packet) {
    Gap(s, p).Rewindow? && p.seqNo - Front(s) < MISSING_RANGE / 2
  }

  lemma StepPartitions(s: Arbiter, l: Ledger, p: Packet)
    requires Inv(s) && Partitioned(s, l)
    ensures Partitioned(Step(s, p), Record(l, s, p)) <==> !Reopens(s, p)
  {
    hide Step, Record, Inv, Fates, Reopens;
    var r, m := Step(s, p), Record(l, s, p);
    FrontPublished(s, l, p);
    if Reopens(s, p) {
      TwoFates(s, l, p);
    } else {
      forall n: nat ensures Fates(r, m, n) == Tally(n < Front(r)) { OneFate(s, l, p, n); }
    }
  }

  lemma FrontPublished(s: Arbiter, l: Ledger, p: Packet)
    requires Inv(s) && (Front(s) > 0 ==> Front(s) - 1 in l.published)
    ensures var r := Step(s, p); Front(r) > 0 ==> Front(r) - 1 in Record(l, s, p).published
  {
    hide ReportOf, Inv, Drops, Skips, Declared, Ahead, Fill;
  }

  /** A reopened number is both published and missing. */
  lemma TwoFates(s: Arbiter, l: Ledger, p: Packet)
    requires Inv(s) && Reopens(s, p) && (Front(s) > 0 ==> Front(s) - 1 in l.published)
    ensures Front(s) > 0 && Fates(Step(s, p), Record(l, s, p), Front(s) - 1) >= 2
  {
    hide ReportOf, Drops, Skips, Declared;
    assert Front(s) - 1 in Interval(p.seqNo - MISSING_RANGE / 2, p.seqNo);
  }

  lemma OneFate(s: Arbiter, l: Ledger, p: Packet, n: nat)
    requires Inv(s) && Fates(s, l, n) == Tally(n < Front(s)) && !Reopens(s, p)
    ensures Fates(Step(s, p), Record(l, s, p), n) == Tally(n < Front(Step(s, p)))
  {
    hide ReportOf, Declared, Least, Inv, Step;
    if p.seqNo >= Front(s) { OneFateAhead(s, l, p, n); } else { OneFateBehind(s, l, p, n); }
  }

  lemma OneFateBehind(s: Arbiter, l: Ledger, p: Packet, n: nat)
    requires Inv(s) && p.seqNo < Front(s) && Fates(s, l, n) == Tally(n < Front(s))
    ensures Fates(Step(s, p), Record(l, s, p), n) == Tally(n < Front(Step(s, p)))
  {
    hide ReportOf, Declared, Drops, Skips, Least, Interval;
  }

  lemma OneFateAhead(s: Arbiter, l: Ledger, p: Packet, n: nat)
    requires Inv(s) && p.seqNo >= Front(s) && Fates(s, l, n) == Tally(n < Front(s)) && !Reopens(s, p)
    ensures Fates(Step(s, p), Record(l, s, p), n) == Tally(n < Front(Step(s, p)))
  {
    hide ReportOf, Declared, Least;
    match Gap(s, p) {
      case NoGap =>
      case LateJoin =>
      case Jump =>
      case Recorded =>
      case TooWide =>
      case Extended =>
      case Rewindow =>
    }
  }

  /** The packet rebuilds the window, and half a window is not what was missing and is missing now. */
  predicate Miscounts(s: Arbiter, p: Packet) {
    Gap(s, p).Rewindow? && |s.missing| + (p.seqNo - Front(s)) != MISSING_RANGE / 2
  }

  lemma StepBalances(s: Arbiter, l: Ledger, p: Packet)
    requires Inv(s) && Balanced(s, l)
    ensures Balanced(Step(s, p), Record(l, s, p)) <==> !Miscounts(s, p)
  {
    hide ReportOf, Declared, Least, Drops, Skips, Interval, Inv;
    if p.seqNo >= Front(s) {
      GapBalances(s, p);
    } else if p.seqNo in s.missing {
      assert |s.missing - {p.seqNo}| == |s.missing| - 1;
    }
  }

  /** How the size of the missing set changes with a packet at or beyond the front. */
  lemma GapBalances(s: Arbiter, p: Packet)
    requires Inv(s) && p.seqNo >= Front(s)
    ensures var k := |Ahead(s, p).missing|;
            match Gap(s, p)
            case NoGap | LateJoin | TooWide => k == |s.missing|
            case Jump => k == 0
            case Recorded => |s.missing| == 0 && k == p.seqNo - Front(s)
            case Extended => k == |s.missing| + (p.seqNo - Front(s))
            case Rewindow => k == MISSING_RANGE / 2
  {
    var q, f := p.seqNo, Front(s);
    match Gap(s, p) {
      case NoGap =>
      case LateJoin =>
      case Jump =>
      case Recorded => IntervalSize(f, q);
      case TooWide =>
      case Extended =>
        IntervalSize(f, q);
        assert s.missing !! Interval(f, q);
      case Rewindow => IntervalSize(q - MISSING_RANGE / 2, q);
    }
  }

  // ----- runs -----

  ghost function After(run: seq<Packet>): (s: Arbiter)
    ensures Inv(s)
  {
    if run == [] then Initial else Step(After(run[..|run| - 1]), run[|run| - 1])
  }

  ghost function LedgerOf(run: seq<Packet>): Ledger {
    if run == [] then Ledger({}, {}, {}, {}, 0, 0)
    else Record(LedgerOf(run[..|run| - 1]), After(run[..|run| - 1]), run[|run| - 1])
  }

  ghost predicate PublishedAt(run: seq<Packet>, i: nat)
    requires i < |run|
  {
    Publishes(After(run[..i]), run[i].seqNo)
  }

  /** No packet of the run reopens the window over published numbers. */
  ghost predicate Clean(run: seq<Packet>) {
    forall i :: 0 <= i < |run| ==> !Reopens(After(run[..i]), run[i])
  }

  ghost predicate NoRepeat(run: seq<Packet>) {
    forall i, j :: 0 <= i < j < |run| && PublishedAt(run, i) && PublishedAt(run, j)
                   ==> run[i].seqNo != run[j].seqNo
  }

  lemma {:induction false} RunPartitions(run: seq<Packet>)
    requires Clean(run)
    ensures Partitioned(After(run), LedgerOf(run))
  {
    if run != [] {
      var r := run[..|run| - 1];
      assert forall i :: 0 <= i < |r| ==> run[..i] == r[..i];
      RunPartitions(r);
      StepPartitions(After(r), LedgerOf(r), run[|run| - 1]);
    }
  }

  /** At every point of the run every number below the front has exactly one fate. */
  ghost predicate AlwaysPartitioned(run: seq<Packet>) {
    Partitioned(After(run), LedgerOf(run)) && (run != [] ==> AlwaysPartitioned(run[..|run| - 1]))
  }

  /** Every number has one fate throughout a run exactly if no packet reopens the window. */
  lemma {:induction false} PartitionedExactly(run: seq<Packet>)
    ensures AlwaysPartitioned(run) <==> Clean(run)
  {
    hide Partitioned, Reopens, Step, Record, After, LedgerOf, Inv;
    RunStart();
    if run != [] {
      var r := run[..|run| - 1];
      assert forall i :: 0 <= i < |r| ==> run[..i] == r[..i];
      PartitionedExactly(r);
      LastStep(run);
      if AlwaysPartitioned(r) { StepPartitions(After(r), LedgerOf(r), run[|run| - 1]); }
    }
  }

  lemma RunStart()
    ensures Partitioned(After([]), LedgerOf([])) && Balanced(After([]), LedgerOf([])) && Below(After([]), LedgerOf([]))
    ensures LedgerOf([]).reported == LedgerOf([]).dropped
  {
  }

  /** At every point of the run the gap statistics balance. */
  ghost predicate AlwaysBalanced(run: seq<Packet>) {
    Balanced(After(run), LedgerOf(run)) && (run != [] ==> AlwaysBalanced(run[..|run| - 1]))
  }

  ghost predicate NoMiscount(run: seq<Packet>) {
    forall i :: 0 <= i < |run| ==> !Miscounts(After(run[..i]), run[i])
  }

  lemma LastStep(run: seq<Packet>)
    requires run != []
    ensures var r, p := run[..|run| - 1], run[|run| - 1];
            After(run) == Step(After(r), p) && LedgerOf(run) == Record(LedgerOf(r), After(r), p)
  {
    hide Step, Record, Inv;
  }

  /** The statistics balance throughout a run exactly if no packet miscounts. */
  lemma {:induction false} BalancedExactly(run: seq<Packet>)
    ensures AlwaysBalanced(run) <==> NoMiscount(run)
  {
    hide Balanced, Miscounts, Step, Record, After, LedgerOf, Inv;
    RunStart();
    if run != [] {
      var r := run[..|run| - 1];
      assert forall i :: 0 <= i < |r| ==> run[..i] == r[..i];
      BalancedExactly(r);
      LastStep(run);
      if AlwaysBalanced(r) { StepBalances(After(r), LedgerOf(r), run[|run| - 1]); }
    }
  }

  // ----- what is declared lost -----

  lemma SizeDecides(a: set<nat>, lo: nat, hi: nat)
    requires a <= Interval(lo, hi) && lo <= hi
    ensures a == Interval(lo, hi) <==> |a| == hi - lo
  {
    IntervalSize(lo, hi);
    if |a| == hi - lo { assert |Interval(lo, hi) - a| == 0; }
  }

  /** The report of a packet past the window covers every missing number, and nothing else exactly if
      there is no other number between the lowest missing and the highest recorded one. */
  lemma JumpReport(s: Arbiter, p: Packet)
    requires Inv(s) && Gap(s, p).Jump?
    ensures s.missing <= Declared(s, p)
    ensures Declared(s, p) == s.missing <==> |s.missing| == s.highest - Least(s.missing) + 1
  {
    hide Least;
    SizeDecides(s.missing, Least(s.missing), s.highest + 1);
  }

  /** The report of a packet at the window end covers as many numbers as are missing, and these exactly
      if no missing number lies further up. */
  lemma RewindowReport(s: Arbiter, p: Packet)
    requires Inv(s) && Gap(s, p).Rewindow?
    ensures |Declared(s, p)| == |s.missing|
    ensures Declared(s, p) == s.missing <==> forall n :: n in s.missing ==> n < Least(s.missing) + |s.missing|
  {
    hide Least;
    var lo, hi := Least(s.missing), Least(s.missing) + |s.missing|;
    IntervalSize(lo, hi);
    if forall n :: n in s.missing ==> n < hi {
      assert s.missing <= Interval(lo, hi);
      SizeDecides(s.missing, lo, hi);
    }
  }

  /** The report, if there is one, is exact. */
  ghost predicate Exact(s: Arbiter, p: Packet)
    requires Inv(s)
  {
    match Gap(s, p)
    case Jump => |s.missing| == s.highest - Least(s.missing) + 1
    case Rewindow => forall n :: n in s.missing ==> n < Least(s.missing) + |s.missing|
    case _ => true
  }

  /** What is declared lost is what was dropped exactly if the report is exact. */
  lemma ReportExactly(s: Arbiter, p: Packet)
    requires Inv(s)
    ensures Declared(s, p) == Drops(s, p) <==> Exact(s, p)
  {
    hide Inv, Interval, Least;
    if Gap(s, p).Jump? {
      JumpReport(s, p);
    } else if Gap(s, p).Rewindow? {
      RewindowReport(s, p);
    } else {
      assert Drops(s, p) == {} && ReportOf(s, p) == None;
    }
  }

  /** No report begins below what is dropped. */
  lemma DeclaredFrom(s: Arbiter, p: Packet, n: nat)
    requires Inv(s) && n in Declared(s, p)
    ensures exists m :: m in Drops(s, p) && m <= n
  {
    hide Inv;
    assert Least(s.missing) in Drops(s, p) && Least(s.missing) <= n;
  }

  /** Dropped numbers lie below the missing ones and the front. */
  ghost predicate Below(s: Arbiter, l: Ledger) {
    forall d :: d in l.dropped ==> d < Front(s) && forall m :: m in s.missing ==> d < m
  }

  lemma StepBelow(s: Arbiter, l: Ledger, p: Packet)
    requires Inv(s) && Below(s, l) && !Reopens(s, p)
    ensures Below(Step(s, p), Record(l, s, p))
  {
    hide ReportOf, Declared, Skips;
    if p.seqNo >= Front(s) {
      match Gap(s, p) {
        case NoGap =>
        case LateJoin =>
        case Jump =>
        case Recorded =>
        case TooWide =>
        case Extended =>
        case Rewindow =>
      }
    }
  }

  /** One packet keeps the reported numbers equal to the dropped ones exactly if its report is exact. */
  lemma StepDeclares(s: Arbiter, l: Ledger, p: Packet)
    requires Inv(s) && Below(s, l) && l.reported == l.dropped
    ensures Record(l, s, p).reported == Record(l, s, p).dropped <==> Exact(s, p)
  {
    hide ReportOf, Skips, Exact, Declared, Inv;
    ReportExactly(s, p);
    DropsMissing(s, p);
    forall n | n in Declared(s, p) ensures n !in l.dropped { DeclaredFrom(s, p, n); }
    var x, d, m := l.dropped, Declared(s, p), Drops(s, p);
    assert x !! m && x !! d;
    assert x + d == x + m <==> d == m by {
      assert d == (x + d) - x && m == (x + m) - x;
    }
  }

  lemma DropsMissing(s: Arbiter, p: Packet)
    requires Inv(s)
    ensures Drops(s, p) <= s.missing
    ensures p.seqNo < Front(s) ==> Declared(s, p) == Drops(s, p) == {}
  {
  }

  lemma {:induction false} CleanBooks(run: seq<Packet>)
    requires Clean(run)
    ensures Partitioned(After(run), LedgerOf(run)) && Below(After(run), LedgerOf(run))
  {
    hide Partitioned, Below, Reopens, Step, Record, After, LedgerOf, Inv;
    RunPartitions(run);
    RunStart();
    if run != [] {
      var r := run[..|run| - 1];
      assert forall i :: 0 <= i < |r| ==> run[..i] == r[..i];
      CleanBooks(r);
      LastStep(run);
      StepBelow(After(r), LedgerOf(r), run[|run| - 1]);
    }
  }

  ghost predicate AllExact(run: seq<Packet>) { forall i :: 0 <= i < |run| ==> Exact(After(run[..i]), run[i]) }

  lemma {:induction false} ExactBooks(run: seq<Packet>)
    requires Clean(run) && AllExact(run)
    ensures LedgerOf(run).reported == LedgerOf(run).dropped
  {
    hide Partitioned, Below, Reopens, Exact, Step, Record, After, LedgerOf, Inv;
    RunStart();
    if run != [] {
      var r := run[..|run| - 1];
      assert forall i :: 0 <= i < |r| ==> run[..i] == r[..i];
      ExactBooks(r);
      CleanBooks(r);
      LastStep(run);
      StepDeclares(After(r), LedgerOf(r), run[|run| - 1]);
    }
  }

  /** Every number below the front is exactly one of published, missing, declared lost and skipped. */
  ghost predicate Declares(s: Arbiter, l: Ledger) {
    forall n: nat ::
      Tally(n in l.published) + Tally(n in s.missing) + Tally(n in l.reported) + Tally(n in l.skipped)
      == Tally(n < Front(s))
  }

  ghost predicate AlwaysDeclares(run: seq<Packet>) {
    Declares(After(run), LedgerOf(run)) && (run != [] ==> AlwaysDeclares(run[..|run| - 1]))
  }

  lemma DeclaresIfEqual(s: Arbiter, l: Ledger)
    requires Partitioned(s, l)
    ensures Declares(s, l) <==> l.reported == l.dropped
  {
    if Declares(s, l) {
      forall n: nat ensures n in l.reported <==> n in l.dropped {
        assert Fates(s, l, n) == Tally(n < Front(s));
      }
    } else {
      var n: nat :| Tally(n in l.published) + Tally(n in s.missing) + Tally(n in l.reported) + Tally(n in l.skipped)
                    != Tally(n < Front(s));
      assert Fates(s, l, n) == Tally(n < Front(s));
    }
  }

  /** Throughout a run every number below the front is exactly one of published, missing, declared lost
      and skipped, if and only if no packet reopens the window and every report of loss is exact. */
  lemma {:induction false} DeclaredExactly(run: seq<Packet>)
    ensures AlwaysDeclares(run) <==> Clean(run) && AllExact(run)
  {
    hide Partitioned, Declares, Below, Reopens, Exact, Step, Record, After, LedgerOf, Inv;
    RunStart();
    DeclaresIfEqual(After([]), LedgerOf([]));
    if run != [] {
      var r, p := run[..|run| - 1], run[|run| - 1];
      assert forall i :: 0 <= i < |r| ==> run[..i] == r[..i];
      DeclaredExactly(r);
      LastStep(run);
      if AlwaysDeclares(r) {
        CleanBooks(r);
        ExactBooks(r);
        LastDeclared(After(r), LedgerOf(r), p);
      }
    }
  }

  lemma LastDeclared(s: Arbiter, l: Ledger, p: Packet)
    requires Inv(s) && Partitioned(s, l) && Below(s, l) && l.reported == l.dropped
    ensures Declares(Step(s, p), Record(l, s, p)) <==> !Reopens(s, p) && Exact(s, p)
  {
    hide Partitioned, Below, Reopens, Exact, Step, Record, Inv;
    StepPartitions(s, l, p);
    StepDeclares(s, l, p);
    if Reopens(s, p) {
      ReopenedTwice(s, l, p);
    } else {
      DeclaresIfEqual(Step(s, p), Record(l, s, p));
    }
  }

  lemma ReopenedTwice(s: Arbiter, l: Ledger, p: Packet)
    requires Inv(s) && Partitioned(s, l) && Reopens(s, p)
    ensures var n, r, m := Front(s) - 1, Step(s, p), Record(l, s, p); n in m.published && n in r.missing && n >= 0
    ensures !Declares(Step(s, p), Record(l, s, p))
  {
    hide ReportOf, Declared, Drops, Skips, Fates;
    var n, r, m := Front(s) - 1, Step(s, p), Record(l, s, p);
    assert n in Interval(p.seqNo - MISSING_RANGE / 2, p.seqNo);
    assert Tally(n in m.published) + Tally(n in r.missing) == 2;
  }

  lemma PublishedAtPrefix(run: seq<Packet>, k: nat, i: nat)
    requires i < k <= |run|
    ensures PublishedAt(run[..k], i) == PublishedAt(run, i)
  {
    assert run[..k][..i] == run[..i];
  }

  lemma NothingPublished()
    ensures LedgerOf([]).published == {}
  {
  }

  lemma RecordPublishes(l: Ledger, s: Arbiter, p: Packet, n: nat)
    requires Inv(s)
    ensures n in Record(l, s, p).published <==> n in l.published || (Publishes(s, p.seqNo) && p.seqNo == n)
  {
    hide Interval;
  }

  /** The published book holds exactly the numbers some packet of the run published. */
  lemma {:induction false} PublishedBook(run: seq<Packet>, n: nat)
    ensures n in LedgerOf(run).published <==>
            exists i :: 0 <= i < |run| && PublishedAt(run, i) && run[i].seqNo == n
  {
    hide Step, Inv, After, LedgerOf, Record, Publishes;
    if run == [] {
      NothingPublished();
    } else {
      var k := |run| - 1;
      var r := run[..k];
      PublishedBook(r, n);
      LastStep(run);
      RecordPublishes(LedgerOf(r), After(r), run[k], n);
      if n in LedgerOf(r).published {
        var i :| 0 <= i < k && PublishedAt(r, i) && r[i].seqNo == n;
        PublishedAtPrefix(run, k, i);
      } else if i :| 0 <= i < k && PublishedAt(run, i) && run[i].seqNo == n {
        PublishedAtPrefix(run, k, i);
      }
      assert PublishedAt(run, k) == Publishes(After(r), run[k].seqNo);
    }
  }

  /** At most once: whatever the interleaving, two packets with the same number are not both published. */
  lemma PublishedOnce(run: seq<Packet>, i: nat, j: nat)
    requires i < j < |run| && Clean(run[..j])
    requires PublishedAt(run, i) && PublishedAt(run, j)
    ensures run[i].seqNo != run[j].seqNo
  {
    var r := run[..j];
    assert r[..i] == run[..i];
    assert PublishedAt(r, i);
    PublishedBook(r, run[i].seqNo);
    RunPartitions(r);
    assert Fates(After(r), LedgerOf(r), run[i].seqNo) == Tally(run[i].seqNo < Front(After(r)));
  }

  /** A clean run followed by any one packet repeats nothing. */
  lemma CleanRunRepeatsNothing(run: seq<Packet>, q: Packet)
    requires Clean(run)
    ensures NoRepeat(run + [q])
  {
    hide After, Step, Inv, Publishes, Reopens;
    var all := run + [q];
    forall i, j | 0 <= i < j < |all| && PublishedAt(all, i) && PublishedAt(all, j)
      ensures all[i].seqNo != all[j].seqNo
    {
      assert forall k :: 0 <= k < j ==> all[..j][..k] == run[..k];
      PublishedOnce(all, i, j);
    }
  }

  lemma AfterAppend(run: seq<Packet>, p: Packet)
    ensures After(run + [p]) == Step(After(run), p)
  {
    assert (run + [p])[..|run|] == run;
  }

  lemma CleanAppend(run: seq<Packet>, p: Packet)
    requires Clean(run) && !Reopens(After(run), p)
    ensures Clean(run + [p])
  {
    assert forall i :: 0 <= i <= |run| ==> (run + [p])[..i] == run[..i];
    assert run[..|run|] == run;
  }

  /** A reopening packet puts the published number just below the front back among the missing. */
  lemma ReopeningForgets(s: Arbiter, l: Ledger, p: Packet)
    requires Inv(s) && Partitioned(s, l) && Reopens(s, p)
    ensures Front(s) > 0 && Front(s) - 1 in l.published
    ensures Publishes(Step(s, p), Front(s) - 1)
  {
    assert Front(s) - 1 in Interval(p.seqNo - MISSING_RANGE / 2, p.seqNo);
  }

  lemma ReopenedRepeats(run: seq<Packet>, p: Packet)
    requires Clean(run) && Reopens(After(run), p)
    ensures exists q :: !NoRepeat(run + [p] + [q])
  {
    hide After, Step, LedgerOf, Partitioned, Reopens, Publishes, Clean;
    RunPartitions(run);
    ReopeningForgets(After(run), LedgerOf(run), p);
    var k, n := |run|, Front(After(run)) - 1;
    var q := Packet(p.feed, n);
    var all := run + [p] + [q];
    PublishedBook(run, n);
    var i :| 0 <= i < k && PublishedAt(run, i) && run[i].seqNo == n;
    assert all[..i] == run[..i];
    AfterAppend(run, p);
    assert all[..k + 1] == run + [p];
    assert PublishedAt(all, i) && PublishedAt(all, k + 1);
    assert !NoRepeat(all);
  }

  /** After a clean run, packet p leaves every next packet unable to repeat a publication if and only
      if p does not reopen the window. */
  lemma AtMostOnceExactly(run: seq<Packet>, p: Packet)
    requires Clean(run)
    ensures (forall q :: NoRepeat(run + [p] + [q])) <==> !Reopens(After(run), p)
  {
    if Reopens(After(run), p) {
      ReopenedRepeats(run, p);
    } else {
      CleanAppend(run, p);
      forall q ensures NoRepeat(run + [p] + [q]) { CleanRunRepeatsNothing(run + [p], q); }
    }
  }
}
