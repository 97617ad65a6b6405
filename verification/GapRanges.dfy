/** The gap list of feeds/shared/gap_mgmt/fh_shr_gap_fill.h as the sequence of its ranges from head to
    tail, and what its operations keep over whole runs. The linked nodes are in GapList.dfy. */
module GapRanges {
  import opened Basics

  /** The numbers seqNo to seqNo + size - 1, missing since the given time. */
  datatype Range = Range(seqNo: nat, size: nat, stamp: int)

  function End(r: Range): nat { r.seqNo + r.size }

  predicate Contains(r: Range, n: nat) { r.seqNo <= n < End(r) }

  ghost predicate Covered(rs: seq<Range>, n: nat) { exists i :: 0 <= i < |rs| && Contains(rs[i], n) }

  predicate NonEmpty(rs: seq<Range>) { forall i :: 0 <= i < |rs| ==> rs[i].size > 0 }

  /** Sorted, disjoint and non-empty. */
  ghost predicate Ordered(rs: seq<Range>) {
    && NonEmpty(rs)
    && forall i, j :: 0 <= i < j < |rs| ==> End(rs[i]) <= rs[j].seqNo
  }

  ghost predicate EndsBy(rs: seq<Range>, top: nat) { forall i :: 0 <= i < |rs| ==> End(rs[i]) <= top }

  /** Oldest first. */
  ghost predicate Stamped(rs: seq<Range>) {
    forall i, j :: 0 <= i < j < |rs| ==> rs[i].stamp <= rs[j].stamp
  }

  function Total(rs: seq<Range>): nat { if rs == [] then 0 else Total(rs[..|rs| - 1]) + rs[|rs| - 1].size }

  // ----- the operations -----

  /** A push into a full list reuses the head. */
  function Room(rs: seq<Range>, max: nat): seq<Range> { if |rs| + 1 > max && rs != [] then rs[1..] else rs }

  function Push(rs: seq<Range>, max: nat, r: Range): seq<Range> { Room(rs, max) + [r] }

  /** What is left of a range on either side of one of its numbers. */
  function Left(r: Range, n: nat): Range
    requires Contains(r, n)
  {
    r.(size := n - r.seqNo)
  }

  function Right(r: Range, n: nat): Range
    requires Contains(r, n)
  {
    r.(seqNo := n + 1, size := End(r) - n - 1)
  }

  datatype Cut = AtEdge | SplitInRoom | SplitAtHead | SplitFull

  /** Which branch of fh_shr_gap_fill_del removes n from the range at position k. */
  function CutOf(rs: seq<Range>, max: nat, k: nat, n: nat): Cut
    requires k < |rs|
  {
    if n == rs[k].seqNo || n + 1 == End(rs[k]) then AtEdge
    else if |rs| < max then SplitInRoom
    else if k == 0 then SplitAtHead
    else SplitFull
  }

  /** What takes the place of the range at k. A split in a full list reuses the head, which keeps its
      time stamp, as the right part; when the head itself is split its left part is given up. */
  function Mid(rs: seq<Range>, max: nat, k: nat, n: nat): seq<Range>
    requires k < |rs| && Contains(rs[k], n)
  {
    var l, r := Left(rs[k], n), Right(rs[k], n);
    match CutOf(rs, max, k, n)
    case AtEdge => if rs[k].size == 1 then [] else [if l.size == 0 then r else l]
    case SplitInRoom => [l, r]
    case SplitAtHead => [r]
    case SplitFull => [l, r.(stamp := rs[0].stamp)]
  }

  function Splice(rs: seq<Range>, lo: nat, k: nat, mid: seq<Range>): seq<Range>
    requires lo <= k < |rs|
  {
    rs[lo..k] + mid + rs[k + 1..]
  }

  function Del(rs: seq<Range>, max: nat, k: nat, n: nat): seq<Range>
    requires k < |rs| && Contains(rs[k], n)
  {
    Splice(rs, if CutOf(rs, max, k, n).SplitFull? then 1 else 0, k, Mid(rs, max, k, n))
  }

  /** The value fh_shr_gap_fill_del returns. */
  function DelResult(rs: seq<Range>, max: nat, k: nat, n: nat): nat
    requires k < |rs| && Contains(rs[k], n)
  {
    match CutOf(rs, max, k, n)
    case AtEdge | SplitInRoom => 0
    case SplitAtHead => n - rs[0].seqNo
    case SplitFull => rs[k].size
  }

  /** How many numbers it really gives up. */
  function DelLoss(rs: seq<Range>, max: nat, k: nat, n: nat): nat
    requires k < |rs| && Contains(rs[k], n)
  {
    match CutOf(rs, max, k, n)
    case AtEdge | SplitInRoom => 0
    case SplitAtHead => n - rs[0].seqNo
    case SplitFull => rs[0].size
  }

  /** The position, after the deletion, of the node handed back to the caller: the right part of a
      split, the node itself if a part of its range is left, none otherwise. */
  function HandedBack(rs: seq<Range>, max: nat, k: nat, n: nat): Option<nat>
    requires k < |rs| && Contains(rs[k], n)
  {
    match CutOf(rs, max, k, n)
    case AtEdge => if rs[k].size == 1 then None else Some(k)
    case SplitInRoom => Some(k + 1)
    case SplitAtHead => Some(0)
    case SplitFull => Some(k)
  }

  /** Deleting a number from the inside of a range, by the state of the list. */
  lemma DelInside(rs: seq<Range>, max: nat, k: nat, n: nat)
    requires k < |rs| && rs[k].seqNo < n < End(rs[k]) - 1
    ensures var l, r := Left(rs[k], n), Right(rs[k], n);
            && Del(rs, max, k, n) ==
               (if |rs| < max then Splice(rs, 0, k, [l, r])
                else if k == 0 then Splice(rs, 0, 0, [r])
                else Splice(rs, 1, k, [l, r.(stamp := rs[0].stamp)]))
            && DelResult(rs, max, k, n) ==
               (if |rs| < max then 0 else if k == 0 then n - rs[0].seqNo else rs[k].size)
            && HandedBack(rs, max, k, n) == Some(if |rs| < max then k + 1 else k)
  {
  }

  /** The node handed back holds the numbers of the range after the deleted one; if there are none, those
      before it; and if there are none of these either there is no such node. */
  lemma HandedBackExactly(rs: seq<Range>, max: nat, k: nat, n: nat)
    requires k < |rs| && Contains(rs[k], n)
    ensures var at, ds := HandedBack(rs, max, k, n), Del(rs, max, k, n);
            if n + 1 < End(rs[k]) then
              at.Some? && at.value < |ds| && ds[at.value].seqNo == n + 1 && End(ds[at.value]) == End(rs[k])
            else if rs[k].seqNo < n then
              at.Some? && at.value < |ds| && ds[at.value].seqNo == rs[k].seqNo && End(ds[at.value]) == n
            else at.None?
  {
  }

  /** The number of leading ranges older than the limit. */
  function Expired(rs: seq<Range>, limit: int): (k: nat)
    ensures k <= |rs| && (forall i :: 0 <= i < k ==> rs[i].stamp < limit)
    ensures k < |rs| ==> rs[k].stamp >= limit
  {
    if rs == [] || rs[0].stamp >= limit then 0 else 1 + Expired(rs[1..], limit)
  }

  lemma ExpiredIs(rs: seq<Range>, limit: int, k: nat)
    requires k <= |rs| && (forall i :: 0 <= i < k ==> rs[i].stamp < limit) && (k < |rs| ==> rs[k].stamp >= limit)
    ensures Expired(rs, limit) == k
  {
  }

  function Flush(rs: seq<Range>, limit: int): seq<Range> { rs[Expired(rs, limit)..] }

  // ----- each operation on the numbers -----

  lemma PushKeepsOrder(rs: seq<Range>, max: nat, r: Range)
    requires Ordered(rs) && r.size > 0 && EndsBy(rs, r.seqNo)
    ensures Ordered(Push(rs, max, r))
  {
  }

  lemma DelKeepsOrder(rs: seq<Range>, max: nat, k: nat, n: nat)
    requires Ordered(rs) && k < |rs| && Contains(rs[k], n)
    ensures Ordered(Del(rs, max, k, n))
  {
    SpliceKeepsOrder(rs, if CutOf(rs, max, k, n).SplitFull? then 1 else 0, k, Mid(rs, max, k, n));
  }

  lemma SpliceKeepsOrder(rs: seq<Range>, lo: nat, k: nat, mid: seq<Range>)
    requires Ordered(rs) && lo <= k < |rs| && Ordered(mid)
    requires forall i :: 0 <= i < |mid| ==> rs[k].seqNo <= mid[i].seqNo && End(mid[i]) <= End(rs[k])
    ensures Ordered(Splice(rs, lo, k, mid))
  {
    OrderedJoin(rs[lo..k], mid);
    OrderedJoin(rs[lo..k] + mid, rs[k + 1..]);
  }

  lemma OrderedJoin(a: seq<Range>, b: seq<Range>)
    requires Ordered(a) && Ordered(b)
    requires forall i, j :: 0 <= i < |a| && 0 <= j < |b| ==> End(a[i]) <= b[j].seqNo
    ensures Ordered(a + b)
  {
  }

  lemma FlushKeepsOrder(rs: seq<Range>, limit: int)
    requires Ordered(rs)
    ensures Ordered(Flush(rs, limit))
  {
  }

  /** The ranges after a push cover the new range and all the old ones but an evicted head. */
  lemma PushCovers(rs: seq<Range>, max: nat, r: Range, n: nat)
    requires Ordered(rs)
    ensures Covered(Push(rs, max, r), n) <==>
            Contains(r, n) || (Covered(rs, n) && !(|rs| + 1 > max && rs != [] && Contains(rs[0], n)))
  {
    var ps := Push(rs, max, r);
    var d := if |rs| + 1 > max && rs != [] then 1 else 0;
    assert ps[|ps| - 1] == r;
    assert forall i :: d <= i < |rs| ==> ps[i - d] == rs[i];
    if i :| 0 <= i < |rs| && Contains(rs[i], n) && (d == 0 || !Contains(rs[0], n)) {
      assert Contains(ps[i - d], n);
    }
    if j :| 0 <= j < |ps| && Contains(ps[j], n) && !Contains(r, n) {
      assert ps[j] == rs[j + d];
    }
  }

  /** Where the numbers given up by a deletion were. */
  predicate GivenUp(rs: seq<Range>, max: nat, k: nat, n: nat, m: nat)
    requires k < |rs| && Contains(rs[k], n)
  {
    match CutOf(rs, max, k, n)
    case AtEdge | SplitInRoom => false
    case SplitAtHead => Contains(Left(rs[0], n), m)
    case SplitFull => Contains(rs[0], m)
  }

  lemma DelCovers(rs: seq<Range>, max: nat, k: nat, n: nat, m: nat)
    requires Ordered(rs) && k < |rs| && Contains(rs[k], n)
    ensures Covered(Del(rs, max, k, n), m) <==> Covered(rs, m) && m != n && !GivenUp(rs, max, k, n, m)
  {
    var lo, mid := if CutOf(rs, max, k, n).SplitFull? then 1 else 0, Mid(rs, max, k, n);
    SpliceCovers(rs, lo, k, mid, m);
    MidCovers(rs, max, k, n, m);
    if i :| 0 <= i < |rs| && Contains(rs[i], m) {
      assert forall j :: 0 <= j < |rs| && j != i ==> !Contains(rs[j], m);
    }
  }

  /** A splice covers what its three parts cover. */
  lemma SpliceCovers(rs: seq<Range>, lo: nat, k: nat, mid: seq<Range>, m: nat)
    requires lo <= k < |rs|
    ensures Covered(Splice(rs, lo, k, mid), m) <==>
            Covered(mid, m) || exists i :: lo <= i < |rs| && i != k && Contains(rs[i], m)
  {
    var ss, d := Splice(rs, lo, k, mid), |mid|;
    if j :| 0 <= j < |ss| && Contains(ss[j], m) {
      if j < k - lo { assert Contains(rs[lo + j], m); }
      else if j < k - lo + d { assert Contains(mid[j - (k - lo)], m); }
      else { assert Contains(rs[j + lo + 1 - d], m); }
    }
    if i :| 0 <= i < d && Contains(mid[i], m) { assert ss[k - lo + i] == mid[i]; }
    if i :| lo <= i < |rs| && i != k && Contains(rs[i], m) {
      assert ss[if i < k then i - lo else i - lo - 1 + d] == rs[i];
    }
  }

  lemma MidCovers(rs: seq<Range>, max: nat, k: nat, n: nat, m: nat)
    requires k < |rs| && Contains(rs[k], n)
    ensures Covered(Mid(rs, max, k, n), m) <==>
            Contains(rs[k], m) && m != n && !(CutOf(rs, max, k, n).SplitAtHead? && m < n)
  {
    var mid := Mid(rs, max, k, n);
    assert Covered(mid, m) <==> (|mid| > 0 && Contains(mid[0], m)) || (|mid| > 1 && Contains(mid[1], m));
  }

  /** A flush keeps exactly the covered numbers outside the expired prefix. */
  lemma FlushCovers(rs: seq<Range>, limit: int, n: nat)
    requires Ordered(rs)
    ensures Covered(Flush(rs, limit), n) <==> Covered(rs, n) && !Covered(rs[..Expired(rs, limit)], n)
  {
    hide Expired;
    var k := Expired(rs, limit);
    assert forall i :: k <= i < |rs| ==> rs[k..][i - k] == rs[i];
    if i :| 0 <= i < |rs| && Contains(rs[i], n) {
      assert forall j :: 0 <= j < |rs| && j != i ==> !Contains(rs[j], n);
      if i < k { assert rs[..k][i] == rs[i]; } else { assert rs[k..][i - k] == rs[i]; }
    }
  }

  // ----- time stamps -----

  /** A push with the current time keeps the list oldest first. */
  lemma PushKeepsStamps(rs: seq<Range>, max: nat, r: Range)
    requires Stamped(rs) && forall i :: 0 <= i < |rs| ==> rs[i].stamp <= r.stamp
    ensures Stamped(Push(rs, max, r))
  {
  }

  lemma FlushKeepsStamps(rs: seq<Range>, limit: int)
    requires Stamped(rs)
    ensures Stamped(Flush(rs, limit))
  {
    hide Expired;
  }

  /** A deletion keeps the list oldest first, unless it reuses a head older than the split range. */
  lemma DelKeepsStampsExactly(rs: seq<Range>, max: nat, k: nat, n: nat)
    requires Stamped(rs) && k < |rs| && Contains(rs[k], n)
    ensures Stamped(Del(rs, max, k, n)) <==> !(CutOf(rs, max, k, n).SplitFull? && rs[0].stamp != rs[k].stamp)
  {
    if CutOf(rs, max, k, n).SplitFull? && rs[0].stamp != rs[k].stamp {
      var ds := Del(rs, max, k, n);
      assert ds[k - 1].stamp == rs[k].stamp > ds[k].stamp;
    } else {
      SpliceKeepsStamps(rs, if CutOf(rs, max, k, n).SplitFull? then 1 else 0, k, Mid(rs, max, k, n));
    }
  }

  lemma SpliceKeepsStamps(rs: seq<Range>, lo: nat, k: nat, mid: seq<Range>)
    requires Stamped(rs) && lo <= k < |rs| && forall i :: 0 <= i < |mid| ==> mid[i].stamp == rs[k].stamp
    ensures Stamped(Splice(rs, lo, k, mid))
  {
    StampedJoin(rs[lo..k], mid);
    StampedJoin(rs[lo..k] + mid, rs[k + 1..]);
  }

  lemma StampedJoin(a: seq<Range>, b: seq<Range>)
    requires Stamped(a) && Stamped(b)
    requires forall i, j :: 0 <= i < |a| && 0 <= j < |b| ==> a[i].stamp <= b[j].stamp
    ensures Stamped(a + b)
  {
  }

  /** A flush at the limit removes exactly the ranges older than it. */
  ghost predicate FlushesExpired(rs: seq<Range>, limit: int) {
    forall i :: 0 <= i < |rs| ==> (i < Expired(rs, limit) <==> rs[i].stamp < limit)
  }

  /** Oldest first is exactly what a flush needs to remove the expired ranges and no others. */
  lemma FlushRemovesExpired(rs: seq<Range>)
    ensures Stamped(rs) <==> forall limit :: FlushesExpired(rs, limit)
  {
    hide Expired;
    if i, j :| 0 <= i < j < |rs| && rs[i].stamp > rs[j].stamp {
      assert !FlushesExpired(rs, rs[i].stamp);
    }
  }

  // ----- counting -----

  lemma {:induction false} TotalJoin(a: seq<Range>, b: seq<Range>)
    ensures Total(a + b) == Total(a) + Total(b)
  {
    if b == [] {
      assert a + b == a;
    } else {
      var k := |b| - 1;
      assert (a + b)[..|a + b| - 1] == a + b[..k];
      TotalJoin(a, b[..k]);
    }
  }

  /** The value a push returns is what the list lost besides the pushed range it gained. */
  lemma PushConserves(rs: seq<Range>, max: nat, r: Range)
    ensures Total(Push(rs, max, r)) + (if |rs| + 1 > max && rs != [] then rs[0].size else 0) == Total(rs) + r.size
  {
    hide Total;
    if |rs| + 1 > max && rs != [] {
      TotalJoin(rs[..1], rs[1..]);
      TotalFirst(rs, 1);
      assert rs[..1] + rs[1..] == rs;
    }
    TotalJoin(Room(rs, max), [r]);
    TotalOne(r);
  }

  /** A deletion takes one number and what it gives up; the value returned is the latter, except that
      reusing the head returns the size of the split range. */
  lemma DelConserves(rs: seq<Range>, max: nat, k: nat, n: nat)
    requires k < |rs| && Contains(rs[k], n)
    ensures Total(Del(rs, max, k, n)) + 1 + DelLoss(rs, max, k, n) == Total(rs)
    ensures DelResult(rs, max, k, n) == DelLoss(rs, max, k, n) <==>
            !(CutOf(rs, max, k, n).SplitFull? && rs[k].size != rs[0].size)
  {
    hide Total, Mid, Splice;
    var lo := if CutOf(rs, max, k, n).SplitFull? then 1 else 0;
    TotalSplice(rs, lo, k, Mid(rs, max, k, n));
    MidTotal(rs, max, k, n);
    TotalFirst(rs, lo);
  }

  lemma MidTotal(rs: seq<Range>, max: nat, k: nat, n: nat)
    requires k < |rs| && Contains(rs[k], n)
    ensures Total(Mid(rs, max, k, n)) + 1 + (if CutOf(rs, max, k, n).SplitAtHead? then n - rs[0].seqNo else 0)
            == rs[k].size
  {
    hide Total;
    var l, r := Left(rs[k], n), Right(rs[k], n);
    TotalNil();
    TotalOne(l);
    TotalOne(r);
    TotalOne(r.(stamp := rs[0].stamp));
    TotalJoin([l], [r]);
    TotalJoin([l], [r.(stamp := rs[0].stamp)]);
    assert [l] + [r] == [l, r] && [l] + [r.(stamp := rs[0].stamp)] == [l, r.(stamp := rs[0].stamp)];
  }

  lemma TotalNil()
    ensures Total([]) == 0
  {
  }

  lemma TotalFirst(rs: seq<Range>, lo: nat)
    requires lo <= 1 && lo <= |rs|
    ensures Total(rs[..lo]) == if lo == 0 then 0 else rs[0].size
  {
    hide Total;
    TotalNil();
    if lo == 1 { assert rs[..1] == [rs[0]]; TotalOne(rs[0]); } else { assert rs[..0] == []; }
  }

  lemma TotalSplice(rs: seq<Range>, lo: nat, k: nat, mid: seq<Range>)
    requires lo <= k < |rs|
    ensures Total(Splice(rs, lo, k, mid)) + rs[k].size + Total(rs[..lo]) == Total(rs) + Total(mid)
  {
    hide Total;
    TotalJoin(rs[lo..k] + mid, rs[k + 1..]);
    TotalJoin(rs[lo..k], mid);
    TotalJoin(rs[..lo], rs[lo..k]);
    assert rs[..lo] + rs[lo..k] == rs[..k];
    TotalOne(rs[k]);
    TotalJoin(rs[..k], [rs[k]]);
    TotalJoin(rs[..k] + [rs[k]], rs[k + 1..]);
    assert rs[..k] + [rs[k]] + rs[k + 1..] == rs;
  }

  lemma TotalOne(r: Range)
    ensures Total([r]) == r.size
  {
    assert [r][..0] == [];
  }

  lemma FlushConserves(rs: seq<Range>, limit: int)
    ensures Total(Flush(rs, limit)) + Total(rs[..Expired(rs, limit)]) == Total(rs)
  {
    var k := Expired(rs, limit);
    TotalJoin(rs[..k], rs[k..]);
    assert rs[..k] + rs[k..] == rs;
  }

  // ----- runs -----

  /** The calls of a line handler: a new gap, the arrival of a number (find, then del), a flush. */
  datatype Event = NewGap(r: Range) | Arrival(n: nat) | Sweep(limit: int)

  /** fh_shr_gap_fill_find: the position of the first range holding n, or the length. */
  function Find(rs: seq<Range>, n: nat): (k: nat)
    ensures k <= |rs| && (k < |rs| ==> Contains(rs[k], n))
    ensures forall i :: 0 <= i < k ==> !Contains(rs[i], n)
  {
    if rs == [] || Contains(rs[0], n) then 0 else 1 + Find(rs[1..], n)
  }

  lemma FirstIsFind(rs: seq<Range>, n: nat, k: nat)
    requires k <= |rs| && (k < |rs| ==> Contains(rs[k], n))
    requires forall i :: 0 <= i < k ==> !Contains(rs[i], n)
    ensures Find(rs, n) == k
  {
  }

  function Step(rs: seq<Range>, max: nat, e: Event): seq<Range> {
    match e
    case NewGap(r) => Push(rs, max, r)
    case Arrival(n) => var k := Find(rs, n); if k < |rs| then Del(rs, max, k, n) else rs
    case Sweep(limit) => Flush(rs, limit)
  }

  function After(max: nat, run: seq<Event>): seq<Range> {
    if run == [] then [] else Step(After(max, run[..|run| - 1]), max, run[|run| - 1])
  }

  /** One past the highest number ever pushed. */
  function Top(run: seq<Event>): nat {
    if run == [] then 0
    else
      var t, e := Top(run[..|run| - 1]), run[|run| - 1];
      if e.NewGap? && End(e.r) > t then End(e.r) else t
  }

  /** Each new gap is non-empty and starts at or after the end of every earlier one. */
  ghost predicate Increasing(run: seq<Event>) {
    run == [] ||
    (var e, before := run[|run| - 1], run[..|run| - 1];
     Increasing(before) && (e.NewGap? ==> e.r.size > 0 && Top(before) <= e.r.seqNo))
  }

  /** What became of a number. */
  datatype Fate = Unseen | Missing | Filled | Evicted | TimedOut

  function FateStep(f: Fate, rs: seq<Range>, max: nat, e: Event, m: nat): Fate {
    match e
    case NewGap(r) =>
      if Contains(r, m) then Missing
      else if f.Missing? && |rs| + 1 > max && rs != [] && Contains(rs[0], m) then Evicted else f
    case Arrival(n) =>
      var k := Find(rs, n);
      if !f.Missing? || k == |rs| then f
      else if n == m then Filled
      else if GivenUp(rs, max, k, n, m) then Evicted else f
    case Sweep(limit) =>
      if f.Missing? && Find(rs, m) < Expired(rs, limit) then TimedOut else f
  }

  function FateOf(max: nat, run: seq<Event>, m: nat): Fate {
    if run == [] then Unseen
    else
      var before := run[..|run| - 1];
      FateStep(FateOf(max, before, m), After(max, before), max, run[|run| - 1], m)
  }

  /** Over every increasing run the list stays sorted, disjoint and non-empty, ends below Top, and
      covers exactly the numbers pushed and not filled, evicted or expired. */
  lemma {:induction false} RunKeepsList(max: nat, run: seq<Event>, m: nat)
    requires Increasing(run)
    ensures Ordered(After(max, run)) && EndsBy(After(max, run), Top(run))
    ensures Covered(After(max, run), m) <==> FateOf(max, run, m) == Missing
    ensures m >= Top(run) ==> FateOf(max, run, m) == Unseen
  {
    if run != [] {
      var before, e := run[..|run| - 1], run[|run| - 1];
      RunKeepsList(max, before, m);
      StepKeepsList(After(max, before), max, e, Top(before), FateOf(max, before, m), m);
    }
  }

  lemma StepKeepsList(rs: seq<Range>, max: nat, e: Event, top: nat, f: Fate, m: nat)
    requires Ordered(rs) && EndsBy(rs, top)
    requires e.NewGap? ==> e.r.size > 0 && top <= e.r.seqNo
    requires (Covered(rs, m) <==> f == Missing) && (m >= top ==> f == Unseen)
    ensures Ordered(Step(rs, max, e)) && EndsBy(Step(rs, max, e), if e.NewGap? then End(e.r) else top)
    ensures Covered(Step(rs, max, e), m) <==> FateStep(f, rs, max, e, m) == Missing
    ensures f in {Filled, Evicted, TimedOut} ==> FateStep(f, rs, max, e, m) == f
  {
    hide Ordered, Covered, Push, Del, Flush, Expired, GivenUp;
    StepEnds(rs, max, e, top);
    match e {
      case NewGap(r) =>
        PushKeepsOrder(rs, max, r);
        PushCovers(rs, max, r, m);
      case Arrival(n) =>
        var k := Find(rs, n);
        if k < |rs| {
          DelKeepsOrder(rs, max, k, n);
          DelCovers(rs, max, k, n, m);
        }
      case Sweep(limit) =>
        FlushKeepsOrder(rs, limit);
        FlushCovers(rs, limit, m);
        FoundInPrefix(rs, Expired(rs, limit), m);
    }
  }

  lemma StepEnds(rs: seq<Range>, max: nat, e: Event, top: nat)
    requires EndsBy(rs, top) && (e.NewGap? ==> top <= e.r.seqNo)
    ensures EndsBy(Step(rs, max, e), if e.NewGap? then End(e.r) else top)
  {
    if e.Arrival? && Find(rs, e.n) < |rs| {
      var k := Find(rs, e.n);
      SpliceEnds(rs, if CutOf(rs, max, k, e.n).SplitFull? then 1 else 0, k, Mid(rs, max, k, e.n), top);
    }
  }

  lemma SpliceEnds(rs: seq<Range>, lo: nat, k: nat, mid: seq<Range>, top: nat)
    requires lo <= k < |rs| && EndsBy(rs, top) && EndsBy(mid, top)
    ensures EndsBy(Splice(rs, lo, k, mid), top)
  {
  }

  lemma FoundInPrefix(rs: seq<Range>, p: nat, m: nat)
    requires p <= |rs|
    ensures Covered(rs[..p], m) <==> Find(rs, m) < p
  {
    if i :| 0 <= i < p && Contains(rs[i], m) { assert Find(rs, m) <= i; }
    if Find(rs, m) < p { assert Contains(rs[..p][Find(rs, m)], m); }
  }

  /** A number filled, evicted or expired never goes missing again. */
  lemma {:induction false} FateIsFinal(max: nat, run: seq<Event>, more: seq<Event>, m: nat)
    requires Increasing(run + more) && FateOf(max, run, m) in {Filled, Evicted, TimedOut}
    ensures FateOf(max, run + more, m) == FateOf(max, run, m)
    decreases |more|
  {
    if more == [] {
      assert run + more == run;
    } else {
      var all, k := run + more, |run + more| - 1;
      assert all[..k] == run + more[..|more| - 1];
      FateIsFinal(max, run, more[..|more| - 1], m);
      RunKeepsList(max, all[..k], m);
      StepKeepsList(After(max, all[..k]), max, all[k], Top(all[..k]), FateOf(max, all[..k], m), m);
    }
  }
}
