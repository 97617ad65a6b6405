/** The feed_group of feeds/arca/common: the missing window as a bitmap of 64-bit words, and
    need_2_publish, proved against the set rule of module Arbitration. */
module FeedGroups {
  import opened Basics
  import opened Arbitration

  /** A 64-bit word of the bitmap, as the set of the positions of its one bits. */
  type Word = set<nat>

  /** Sequence numbers below this limit keep every counter and window end below 2^31. */
  const SEQ_LIMIT: nat := 0x8000_0000 - MISSING_RANGE - 2

  /** Bit k of the window, counted from its base. */
  predicate BitAt(words: array<Word>, k: nat)
    requires words.Length == MISSING_SIZE && k < MISSING_RANGE
    reads words
  {
    k % 64 in words[k / 64]
  }

  /** The bitmap, read from its base, holds exactly the given numbers. */
  ghost predicate Holds(words: array<Word>, base: nat, numbers: set<nat>)
    requires words.Length == MISSING_SIZE
    reads words
  {
    && (forall k {:trigger BitAt(words, k)} :: 0 <= k < MISSING_RANGE ==> (BitAt(words, k) <==> base + k in numbers))
    && (forall n :: n in numbers ==> base <= n < base + MISSING_RANGE)
  }

  lemma {:induction false} SubsetSize(a: set<nat>, b: set<nat>)
    requires a <= b
    ensures |a| <= |b|
  {
    if a != {} {
      var x :| x in a;
      SubsetSize(a - {x}, b - {x});
    }
  }

  /** Adding an interval above a set inside the window: the size adds up and stays within the window. */
  lemma AddedSize(numbers: set<nat>, base: nat, lo: nat, hi: nat)
    requires base <= lo <= hi <= base + MISSING_RANGE && forall n :: n in numbers ==> base <= n < lo
    ensures |numbers + Interval(lo, hi)| == |numbers| + (hi - lo) <= MISSING_RANGE
  {
    IntervalSize(lo, hi);
    assert numbers !! Interval(lo, hi);
    IntervalSize(base, base + MISSING_RANGE);
    SubsetSize(numbers + Interval(lo, hi), Interval(base, base + MISSING_RANGE));
  }

  /** The four window fields describe the set: count its size, lowest its minimum, highest an upper
      bound inside the window. */
  ghost predicate Describes(base: nat, count: nat, lowest: nat, highest: nat, numbers: set<nat>) {
    && count == |numbers|
    && (numbers == {} ==> base == lowest == highest == 0)
    && (numbers != {} ==> base > 0 && lowest in numbers && highest < base + MISSING_RANGE)
    && forall n :: n in numbers ==> base <= n && lowest <= n <= highest
  }

  lemma DescribesAdded(base: nat, count: nat, lowest: nat, highest: nat, numbers: set<nat>, lo: nat, hi: nat)
    requires Describes(base, count, lowest, highest, numbers) && 0 < lo < hi
    requires if numbers == {} then hi <= lo + MISSING_RANGE else highest < lo && hi <= base + MISSING_RANGE
    ensures var opens := numbers == {};
            Describes(if opens then lo else base, count + (hi - lo), if opens then lo else lowest, hi - 1,
                      numbers + Interval(lo, hi))
    ensures count + (hi - lo) <= MISSING_RANGE
    ensures count == 0 <==> numbers == {}
    ensures numbers == {} ==> highest == 0
    ensures numbers + Interval(lo, hi) != {}
  {
    AddedSize(numbers, if numbers == {} then lo else base, lo, hi);
    assert lo in numbers + Interval(lo, hi);
  }

  /** Step for a gap while out of sequence. */
  lemma StepAcrossGap(s: Arbiter, p: Packet)
    requires Inv(s) && !InSequence(s) && Mine(s, p.feed) != 0
    requires Front(s) < p.seqNo <= s.base + MISSING_RANGE
    ensures Front(Step(s, p)) == p.seqNo + 1 && s.highest < Front(s)
    ensures var q, f := p.seqNo, Front(s);
            var inside, start := q < s.base + MISSING_RANGE, q - MISSING_RANGE / 2;
            Step(s, p) == SetMine(s.(missing := if inside then s.missing + Interval(f, q) else Interval(start, q),
                                     base := if inside then s.base else start, highest := q - 1,
                                     stats := CountGap(s.stats, q - f)), p.feed, q + 1)
  {
  }

  /** When a packet makes the feed group declare numbers lost, and which. */
  lemma ReportCases(s: Arbiter, p: Packet)
    requires Inv(s)
    ensures InSequence(s) ==> ReportOf(s, p) == None
    ensures !InSequence(s) ==>
            var q, least := p.seqNo, Least(s.missing);
            ReportOf(s, p) ==
              if q > s.base + MISSING_RANGE then Some(Report(least, s.highest - least + 1))
              else if q == s.base + MISSING_RANGE && Mine(s, p.feed) != 0 && q > Front(s)
              then Some(Report(least, |s.missing|))
              else None
  {
    hide Least;
  }

  lemma LeastIs(s: set<nat>, m: nat)
    requires m in s && forall n :: n in s ==> m <= n
    ensures Least(s) == m
  {
    hide Least;
  }

  class FeedGroup {
    var primaryExpected: uint32
    var secondaryExpected: uint32
    const words: array<Word>       // missing_sequence
    var missingBase: uint32
    var missingCount: uint32
    var missingLowest: uint32
    var missingHighest: uint32
    var inSequence: bool
    var stats: Stats
    ghost var missing: set<nat>    // the numbers the bitmap stands for

    /** The bitmap, base, count, lowest and highest describe the set of missing numbers. */
    ghost predicate Window()
      reads this, words
    {
      && words.Length == MISSING_SIZE
      && Holds(words, missingBase, missing)
      && Describes(missingBase, missingCount, missingLowest, missingHighest, missing)
    }

    ghost function Abs(): Arbiter
      reads this
    {
      Arbiter(primaryExpected, secondaryExpected, missing, missingBase, missingHighest, stats)
    }

    ghost predicate Valid()
      reads this, words
    {
      && Window()
      && (inSequence <==> missing == {})
      && Inv(Abs())
      && Front(Abs()) <= SEQ_LIMIT
    }

    /** new_feed_group: everything zero, in sequence. */
    constructor ()
      ensures Valid() && Abs() == Initial && fresh(words)
    {
      primaryExpected, secondaryExpected := 0, 0;
      words := new Word[MISSING_SIZE](_ => {});
      missingBase, missingCount, missingLowest, missingHighest := 0, 0, 0, 0;
      inSequence := true;
      stats := Stats(0, 0, 0, 0, 0, 0);
      missing := {};
    }

    /** init_missing */
    method InitMissing()
      requires words.Length == MISSING_SIZE
      modifies words, this`missingBase, this`missingCount, this`missingLowest, this`missingHighest, this`missing
      ensures Window() && missing == {} && missingBase == missingHighest == 0
    {
      forall i | 0 <= i < words.Length { words[i] := {}; }
      missingBase, missingCount, missingLowest, missingHighest := 0, 0, 0, 0;
      missing := {};
    }

    method SetInSequence()
      modifies this`inSequence, this`stats
      ensures inSequence && stats == old(stats).(restored := old(stats.restored) + 1)
    {
      inSequence := true;
      stats := stats.(restored := stats.restored + 1);
    }

    method SetOutOfSequence()
      modifies this`inSequence, this`stats
      ensures !inSequence && stats == old(stats).(outOfSequence := old(stats.outOfSequence) + 1)
    {
      inSequence := false;
      stats := stats.(outOfSequence := stats.outOfSequence + 1);
    }

    /** is_sequence_in_missing. The lower guard uses missingLowest, the word index missingBase, so the
        index can be MISSING_SIZE; the word found there is the next field, feed_time, which nothing
        in the feed handler ever sets. */
    predicate IsSequenceInMissing(n: nat)
      requires words.Length == MISSING_SIZE
      reads this, words
    {
      if inSequence || n >= missingLowest + MISSING_RANGE || n < missingLowest then false
      else if n < missingBase then false
      else
        var k := n - missingBase;
        if k / 64 < MISSING_SIZE then k % 64 in words[k / 64] else false
    }

    /** The word index of is_sequence_in_missing falls outside the bitmap. */
    ghost predicate ReadsPastWindow(n: nat)
      reads this
    {
      && !inSequence && missingLowest <= n < missingLowest + MISSING_RANGE && missingBase <= n
      && (n - missingBase) / 64 >= MISSING_SIZE
    }

    lemma LookupFindsMissing(n: nat)
      requires words.Length == MISSING_SIZE && Holds(words, missingBase, missing)
      ensures IsSequenceInMissing(n) <==>
              !inSequence && missingLowest <= n < missingLowest + MISSING_RANGE && n in missing
    {
      if missingBase <= n < missingBase + MISSING_RANGE {
        assert BitAt(words, n - missingBase) <==> missingBase + (n - missingBase) in missing;
      }
    }

    /** While out of sequence the lookup is membership. */
    lemma LookupDecides(n: nat)
      requires Window() && !inSequence
      ensures IsSequenceInMissing(n) <==> n in missing
    {
      LookupFindsMissing(n);
    }

    /** The index leaves the bitmap for exactly one number of a valid state, and only once the lowest
        missing number has moved off the base. */
    lemma PastWindowExactly(n: nat)
      requires Valid() && n < Front(Abs())
      ensures ReadsPastWindow(n) <==> !inSequence && n == missingBase + MISSING_RANGE && missingBase !in missing
    {
      if !inSequence {
        assert missingLowest in missing;
      }
    }

    /** The branch of add_sequences_2_missing for an empty list. */
    method StartWindow(first: uint32, last: uint32)
      requires words.Length == MISSING_SIZE
      requires (missingCount == 0 <==> missing == {}) && Holds(words, missingBase, missing)
      modifies words, this`missingBase, this`missingLowest, this`missingHighest
      ensures Holds(words, missingBase, missing)
      ensures missingBase == if missing == {} then first else old(missingBase)
      ensures missingLowest == if missing == {} then first else old(missingLowest)
      ensures missingHighest == if missing == {} then last else old(missingHighest)
    {
      if missingCount == 0 {
        missingBase := first;
        forall i | 0 <= i < words.Length { words[i] := {}; }
        missingLowest := first;
        missingHighest := last;
      }
    }

    /** add_sequences_2_missing */
    method AddSequencesToMissing(first: uint32, count: uint32) returns (rc: int)
      requires Window() && count > 0 && first + count <= SEQ_LIMIT
      requires missing == {} ==> count <= MISSING_RANGE
      requires missing != {} ==> missingHighest < first && first + count <= missingBase + MISSING_RANGE
      modifies words, this`missingBase, this`missingCount, this`missingLowest, this`missingHighest, this`missing
      ensures rc == if first == 0 then -1 else 0
      ensures rc == -1 ==> missing == old(missing) && missingBase == old(missingBase) && Window()
      ensures rc == 0 ==> Extended(old(missing), old(missingBase), first, first + count)
    {
      if first <= missingBase { return -1; }
      AddRange(first, count);
      return 0;
    }

    /** [lo, hi) has been added to a window that held the given numbers. */
    ghost predicate Extended(numbers: set<nat>, base: nat, lo: nat, hi: nat)
      reads this, words
    {
      && Window()
      && missing == numbers + Interval(lo, hi) && missing != {}
      && missingBase == (if numbers == {} then lo else base)
      && missingHighest == hi - 1
    }

    /** add_sequences_2_missing past its guard */
    method AddRange(first: uint32, count: uint32)
      requires Window() && count > 0 && missingBase < first && first + count <= SEQ_LIMIT
      requires missing == {} ==> count <= MISSING_RANGE
      requires missing != {} ==> missingHighest < first && first + count <= missingBase + MISSING_RANGE
      modifies words, this`missingBase, this`missingCount, this`missingLowest, this`missingHighest, this`missing
      ensures Extended(old(missing), old(missingBase), first, first + count)
    {
      hide Describes, Holds, BitAt, Interval;
      var nextPktSeq: uint32 := first + count - 1;
      DescribesAdded(missingBase, missingCount, missingLowest, missingHighest, missing, first, first + count);
      StartWindow(first, first + count - 1);
      if nextPktSeq >= missingHighest { missingHighest := nextPktSeq; }
      SetRange(first, nextPktSeq, first + count);
      missingCount := missingCount + count;
    }

    /** The loop of add_sequences_2_missing. */
    method SetRange(first: uint32, last: uint32, ghost end: nat)
      requires words.Length == MISSING_SIZE && Holds(words, missingBase, missing)
      requires missingBase <= first <= last < end <= missingBase + MISSING_RANGE && end == last + 1 <= SEQ_LIMIT
      modifies words, this`missing
      ensures missing == old(missing) + Interval(first, end)
      ensures Holds(words, missingBase, missing)
    {
      var sequ: uint32 := first;
      while sequ <= last
        invariant first <= sequ <= end
        invariant missing == old(missing) + Interval(first, sequ)
        invariant Holds(words, missingBase, missing)
      {
        var modulo := sequ - missingBase;
        var offset, index := modulo / 64, modulo % 64;
        label Before:
        words[offset] := words[offset] + {index};
        missing := missing + {sequ};
        forall k {:trigger BitAt(words, k)} | 0 <= k < MISSING_RANGE
          ensures BitAt(words, k) <==> missingBase + k in missing
        {
          assert old@Before(BitAt(words, k)) <==> missingBase + k in old@Before(missing);
        }
        sequ := sequ + 1;
      }
    }

    /** remove_sequence_from_missing */
    method RemoveSequence(n: uint32) returns (rc: int)
      requires Window() && !inSequence
      requires missingBase <= n < missingBase + MISSING_RANGE ==> n in missing || missing == {}
      modifies words, this`missingCount, this`missingLowest, this`missing
      ensures rc == if n in old(missing) then 0 else -1
      ensures missing == old(missing) - {n} && missingCount == |missing|
      ensures missing != {} ==> Window()
    {
      if missingCount == 0 { return -1; }
      if n < missingBase { return -1; }
      if n >= missingBase + MISSING_RANGE || n < missingBase { return -1; }
      ClearOne(n);
      missingCount := missingCount - 1;
      if n <= missingLowest {
        if missingCount > 0 {
          FindLowest(n);
        } else {
          missingLowest := 0;
        }
      }
      return 0;
    }

    method ClearOne(n: uint32)
      requires words.Length == MISSING_SIZE && Holds(words, missingBase, missing) && n in missing
      modifies words, this`missing
      ensures missing == old(missing) - {n} && |missing| == |old(missing)| - 1
      ensures Holds(words, missingBase, missing)
    {
      var modulo := n - missingBase;
      var offset, index := modulo / 64, modulo % 64;
      words[offset] := words[offset] - {index};
      missing := missing - {n};
      forall k {:trigger BitAt(words, k)} | 0 <= k < MISSING_RANGE
        ensures BitAt(words, k) <==> missingBase + k in missing
      {
        assert old(BitAt(words, k)) <==> missingBase + k in old(missing);
      }
    }

    /** The search loop of remove_sequence_from_missing for the next lowest missing number. */
    method FindLowest(n: uint32)
      requires words.Length == MISSING_SIZE && Holds(words, missingBase, missing) && !inSequence
      requires missing != {} && missingLowest == n && missingBase <= n && missingHighest < missingBase + MISSING_RANGE
      requires forall m :: m in missing ==> n < m <= missingHighest
      modifies this`missingLowest
      ensures missingLowest in missing
      ensures forall m :: m in missing ==> missingLowest <= m
    {
      var ix := n + 1;
      while ix <= missingHighest
        invariant n < ix && missingLowest == n
        invariant forall m :: m in missing ==> ix <= m
      {
        LookupFindsMissing(ix);
        if IsSequenceInMissing(ix) {
          missingLowest := ix;
          return;
        }
        ix := ix + 1;
      }
      ghost var m :| m in missing;
      assert false;
    }

    /** first_gap: a gap while in sequence. The packet-loss branch is never reached, so a gap wider
        than the window only moves the counters. */
    method FirstGap(gapSize: uint32, seqNumber: uint32, mostAdvanced: uint32)
      requires Window() && missing == {} && inSequence
      requires 0 < mostAdvanced < seqNumber < SEQ_LIMIT && gapSize == seqNumber - mostAdvanced
      modifies words, this`missingBase, this`missingCount, this`missingLowest, this`missingHighest, this`missing,
               this`inSequence, this`stats
      ensures Window() && (inSequence <==> gapSize > MISSING_RANGE)
      ensures missing == if inSequence then {} else Interval(mostAdvanced, seqNumber)
      ensures missingBase == if inSequence then 0 else mostAdvanced
      ensures missingHighest == if inSequence then 0 else seqNumber - 1
      ensures !inSequence ==> missing != {}
      ensures stats == var t := CountGap(old(stats), gapSize);
                       if inSequence then t else t.(outOfSequence := t.outOfSequence + 1)
    {
      var newGapStart: int := mostAdvanced;
      var newGapSize: int := gapSize;
      stats := CountGap(stats, gapSize);
      InitMissing();
      if gapSize > MISSING_RANGE {
        newGapStart := seqNumber - MISSING_RANGE / 2;
        if newGapStart < mostAdvanced { newGapStart := mostAdvanced; }
        newGapSize := seqNumber - newGapStart;
        if newGapSize < gapSize { newGapSize := gapSize; }
        if gapSize > newGapSize { assert false; }
        return;
      }
      OpenGap(newGapStart, newGapSize, seqNumber);
      SetOutOfSequence();
    }

    /** add_sequences_2_missing into an empty window. */
    method OpenGap(start: uint32, size: uint32, ghost end: nat)
      requires Window() && missing == {} && start > 0 && 0 < size <= MISSING_RANGE && start + size == end < SEQ_LIMIT
      modifies words, this`missingBase, this`missingCount, this`missingLowest, this`missingHighest, this`missing
      ensures Window() && missing == Interval(start, end) && missingBase == start && missing != {}
      ensures missingHighest == end - 1
    {
      hide Holds, BitAt, Interval, Describes;
      var added := AddSequencesToMissing(start, size);
      assert {} + Interval(start, end) == Interval(start, end);
    }

    /** second_gap: a gap while out of sequence. At the window end it declares as many numbers lost as
        are missing, from the lowest on. */
    method SecondGap(gapSize: uint32, seqNumber: uint32, mostAdvanced: uint32)
        returns (publish: bool, report: Option<Report>)
      requires Window() && missing != {} && missingHighest < mostAdvanced
      requires mostAdvanced < seqNumber < SEQ_LIMIT && gapSize == seqNumber - mostAdvanced
      requires seqNumber <= missingBase + MISSING_RANGE
      modifies words, this`missingBase, this`missingCount, this`missingLowest, this`missingHighest, this`missing,
               this`stats
      ensures Window() && missing != {} && missingHighest == seqNumber - 1 && publish
      ensures report == if seqNumber < old(missingBase) + MISSING_RANGE then None
                        else Some(Report(old(missingLowest), |old(missing)|))
      ensures stats == CountGap(old(stats), gapSize)
      ensures seqNumber < old(missingBase) + MISSING_RANGE ==>
              missing == old(missing) + Interval(mostAdvanced, seqNumber) && missingBase == old(missingBase)
      ensures seqNumber == old(missingBase) + MISSING_RANGE ==>
              var start := seqNumber - MISSING_RANGE / 2; missing == Interval(start, seqNumber) && missingBase == start
    {
      hide Holds, BitAt, Interval, Describes;
      stats := CountGap(stats, gapSize);
      if seqNumber < missingBase + MISSING_RANGE {
        var added := AddSequencesToMissing(mostAdvanced, gapSize);
        return true, None;
      }
      CountIs();
      var newGapStart := seqNumber - MISSING_RANGE / 2;
      report := Some(Report(missingLowest, missingCount));
      var newGapSize := seqNumber - newGapStart;
      InitMissing();
      OpenGap(newGapStart, newGapSize, seqNumber);
      publish := true;
    }

    lemma CountIs()
      requires Window()
      ensures missingCount == |missing| && (missing != {} ==> missingLowest <= missingHighest)
      ensures missing != {} ==> missingLowest == Least(missing)
    {
      hide Holds, Least;
      if missing != {} { LeastIs(missing, missingLowest); }
    }

    method SetExpected(feed: Feed, n: uint32)
      modifies this`primaryExpected, this`secondaryExpected
      ensures primaryExpected == if feed.Primary? then n else old(primaryExpected)
      ensures secondaryExpected == if feed.Primary? then old(secondaryExpected) else n
    {
      if feed.Primary? { primaryExpected := n; } else { secondaryExpected := n; }
    }

    /** A consistent window and flag; s is the arbiter before the packet of the given feed, whose
        counter has been set to the packet's number if the feed had not started. */
    ghost predicate Entered(s: Arbiter, feed: Feed, seqNumber: nat)
      reads this, words
    {
      && Window() && (inSequence <==> missing == {})
      && Inv(s) && Front(s) <= SEQ_LIMIT
      && seqNumber < SEQ_LIMIT
      && Abs() == if Mine(s, feed) == 0 then SetMine(s, feed, seqNumber) else s
    }

    ghost predicate Left(s: Arbiter)
      reads this, words
    {
      && Window() && (inSequence <==> missing == {}) && Abs() == s
    }

    /** need_2_publish while in sequence. */
    method PublishInSequence(feed: Feed, seqNumber: uint32, ghost s: Arbiter) returns (publish: bool)
      requires Entered(s, feed, seqNumber) && inSequence
      modifies this, words
      ensures Left(Step(s, Packet(feed, seqNumber))) && publish == Publishes(s, seqNumber)
    {
      hide Holds, BitAt, Interval, Describes;
      var my := if feed.Primary? then primaryExpected else secondaryExpected;
      var other := if feed.Primary? then secondaryExpected else primaryExpected;
      if seqNumber == my {
        SetExpected(feed, my + 1);
        return !(seqNumber < other);
      } else if seqNumber < my {
        return false;
      } else if seqNumber == other {
        SetExpected(feed, seqNumber + 1);
        return true;
      } else if seqNumber < other {
        SetExpected(feed, seqNumber + 1);
        return false;
      }
      publish := PublishFirstGap(feed, seqNumber, my, other, s);
    }

    /** The last branch of need_2_publish while in sequence. */
    method PublishFirstGap(feed: Feed, seqNumber: uint32, my: uint32, other: uint32, ghost s: Arbiter)
        returns (publish: bool)
      requires Entered(s, feed, seqNumber) && inSequence
      requires my == Mine(Abs(), feed) && other == (if feed.Primary? then secondaryExpected else primaryExpected)
      requires seqNumber > my && seqNumber > other
      modifies this, words
      ensures Left(Step(s, Packet(feed, seqNumber))) && publish && Publishes(s, seqNumber)
    {
      hide Holds, BitAt, Interval, Describes;
      var mostAdvanced := my;
      if other > mostAdvanced { mostAdvanced := other; }
      var range := seqNumber - mostAdvanced;
      FirstGap(range, seqNumber, mostAdvanced);
      SetExpected(feed, seqNumber + 1);
      return true;
    }

    /** The first branch of the out-of-sequence half: the packet is past the window, so what is still
        missing is given up and processing returns to in sequence. Everything from the lowest missing to
        the highest recorded number is declared lost, published numbers between them included. */
    method AbandonWindow(feed: Feed, seqNumber: uint32) returns (report: Report)
      requires Window() && missing != {}
      modifies this, words
      ensures Window() && missing == {} && missingBase == missingHighest == 0 && inSequence
      ensures report == Report(old(missingLowest), old(missingHighest) - old(missingLowest) + 1)
      ensures stats == old(stats).(lostIncidence := old(stats.lostIncidence) + 1,
                                   unrecoverable := old(stats.unrecoverable) + |old(missing)|,
                                   restored := old(stats.restored) + 1)
      ensures primaryExpected == if feed.Primary? then seqNumber else old(primaryExpected)
      ensures secondaryExpected == if feed.Primary? then old(secondaryExpected) else seqNumber
    {
      CountIs();
      var lossGapSize := missingHighest - missingLowest + 1;
      stats := stats.(lostIncidence := stats.lostIncidence + 1,
                      unrecoverable := stats.unrecoverable + missingCount);
      report := Report(missingLowest, lossGapSize);
      InitMissing();
      SetExpected(feed, seqNumber);
      SetInSequence();
    }

    /** The last branch of the out-of-sequence half: a recorded hole is filled. */
    method FillHole(seqNumber: uint32)
      requires Window() && !inSequence && seqNumber in missing
      modifies words, this`missingBase, this`missingCount, this`missingLowest, this`missingHighest, this`missing,
               this`inSequence, this`stats
      ensures Window() && (inSequence <==> missing == {})
      ensures Abs() == Fill(old(Abs()), seqNumber)
    {
      var rc := RemoveSequence(seqNumber);
      if missingCount == 0 {
        InitMissing();
        SetInSequence();
      }
    }

    /** need_2_publish while out of sequence. */
    method PublishOutOfSequence(feed: Feed, seqNumber: uint32, ghost s: Arbiter)
        returns (publish: bool, report: Option<Report>)
      requires Entered(s, feed, seqNumber) && !inSequence
      modifies this, words
      ensures Left(Step(s, Packet(feed, seqNumber))) && publish == Publishes(s, seqNumber)
      ensures report == ReportOf(s, Packet(feed, seqNumber))
    {
      hide Holds, BitAt, Interval, Describes, ReportOf, Least;
      ReportCases(s, Packet(feed, seqNumber));
      CountIs();
      report := None;
      if seqNumber > missingBase + MISSING_RANGE {
        var abandoned := AbandonWindow(feed, seqNumber);
        report := Some(abandoned);
      }
      var my := if feed.Primary? then primaryExpected else secondaryExpected;
      var other := if feed.Primary? then secondaryExpected else primaryExpected;
      if seqNumber == my && !(seqNumber < other) {
        SetExpected(feed, my + 1);
        return true, report;
      }
      if seqNumber >= my && seqNumber == other {
        SetExpected(feed, seqNumber + 1);
        return true, report;
      }
      publish, report := PublishGapOrHole(feed, seqNumber, my, other, s);
    }

    /** The last two branches of need_2_publish while out of sequence. */
    method PublishGapOrHole(feed: Feed, seqNumber: uint32, my: uint32, other: uint32, ghost s: Arbiter)
        returns (publish: bool, report: Option<Report>)
      requires Entered(s, feed, seqNumber) && !inSequence && seqNumber <= missingBase + MISSING_RANGE
      requires my == Mine(Abs(), feed) && other == (if feed.Primary? then secondaryExpected else primaryExpected)
      requires !(seqNumber == my && seqNumber >= other) && !(seqNumber >= my && seqNumber == other)
      modifies this, words
      ensures Left(Step(s, Packet(feed, seqNumber))) && publish == Publishes(s, seqNumber)
      ensures report == ReportOf(s, Packet(feed, seqNumber))
    {
      hide Holds, BitAt, Interval, Describes, IsSequenceInMissing, ReportOf, Least;
      ReportCases(s, Packet(feed, seqNumber));
      if seqNumber > my && seqNumber > other {
        publish, report := PublishSecondGap(feed, seqNumber, my, other, s);
        return;
      }
      LookupDecides(seqNumber);
      if IsSequenceInMissing(seqNumber) {
        FillHole(seqNumber);
        if seqNumber >= my { SetExpected(feed, seqNumber + 1); }
        return true, None;
      }
      return false, None;
    }

    method PublishSecondGap(feed: Feed, seqNumber: uint32, my: uint32, other: uint32, ghost s: Arbiter)
        returns (publish: bool, report: Option<Report>)
      requires Entered(s, feed, seqNumber) && !inSequence && seqNumber <= missingBase + MISSING_RANGE
      requires my == Mine(Abs(), feed) && other == (if feed.Primary? then secondaryExpected else primaryExpected)
      requires seqNumber > my && seqNumber > other
      modifies this, words
      ensures Left(Step(s, Packet(feed, seqNumber))) && publish
      ensures report == ReportOf(s, Packet(feed, seqNumber))
    {
      hide Step, Inv, Holds, BitAt, Interval, Describes, ReportOf, Least;
      ReportCases(s, Packet(feed, seqNumber));
      CountIs();
      StepAcrossGap(s, Packet(feed, seqNumber));
      var mostAdvanced := my;
      if other > mostAdvanced { mostAdvanced := other; }
      publish, report := SecondGap(seqNumber - mostAdvanced, seqNumber, mostAdvanced);
      SetExpected(feed, seqNumber + 1);
    }

    /** need_2_publish: the bitmap implementation takes exactly the step of the set rule, returns 1
        exactly when the rule publishes, and reports as lost what the rule does. */
    method NeedToPublish(feed: Feed, seqNumber: uint32) returns (publish: bool, report: Option<Report>)
      requires Valid() && seqNumber < SEQ_LIMIT
      modifies this, words
      ensures Valid()
      ensures Abs() == Step(old(Abs()), Packet(feed, seqNumber))
      ensures publish == Publishes(old(Abs()), seqNumber)
      ensures report == ReportOf(old(Abs()), Packet(feed, seqNumber))
    {
      hide ReportOf;
      ghost var s := Abs();
      ReportCases(s, Packet(feed, seqNumber));
      if (if feed.Primary? then primaryExpected else secondaryExpected) == 0 {
        SetExpected(feed, seqNumber);
      }
      if inSequence {
        publish := PublishInSequence(feed, seqNumber, s);
        report := None;
      } else {
        publish, report := PublishOutOfSequence(feed, seqNumber, s);
      }
    }
  }
}
