/** Abbreviated commands of the command line (mgmt/cli/fh_cli_cmd.c): each command of a level keeps the
    length from which it may be abbreviated, and a word on the line matches by prefix. */
module CommandPrefix {

  /** A command name; uniq is c_uniq_len. */
  datatype Cmd = Cmd(name: string, uniq: nat)

  const NUL: char := '\0'

  /** The character at i of a string that ends in NUL. */
  function At(s: string, i: nat): char { if i < |s| then s[i] else NUL }

  function Lower(c: char): char { if 'A' <= c <= 'Z' then c - 'A' + 'a' else c }

  /** strncmp(a, b, n) == 0 */
  predicate Same(a: string, b: string, n: nat) { forall i :: 0 <= i < n ==> At(a, i) == At(b, i) }

  /** strncasecmp(a, b, n) == 0 */
  predicate SameNoCase(a: string, b: string, n: nat) { forall i :: 0 <= i < n ==> Lower(At(a, i)) == Lower(At(b, i)) }

  /** A name the table is used with: characters only, in lower case. */
  predicate Plain(s: string) { forall i :: 0 <= i < |s| ==> s[i] != NUL && Lower(s[i]) == s[i] }

  /** The test that fh_cli_cmd_find makes of a command and a word. */
  predicate Matches(c: Cmd, word: string) {
    SameNoCase(c.name, word, c.uniq) && SameNoCase(c.name, word, |word|)
  }

  // ----- what the lengths promise -----

  function Names(cmds: seq<Cmd>): (r: seq<string>)
    ensures |r| == |cmds| && forall i :: 0 <= i < |r| ==> r[i] == cmds[i].name
  {
    if cmds == [] then [] else [cmds[0].name] + Names(cmds[1..])
  }

  /** Some other name agrees with name i in its first n characters. */
  predicate Clashes(names: seq<string>, i: nat, n: nat)
    requires i < |names|
  {
    exists j :: 0 <= j < |names| && j != i && Same(names[j], names[i], n)
  }

  /** No other command agrees with command i up to length uniq; or uniq is past the whole name. */
  predicate Sound(names: seq<string>, i: nat, uniq: nat)
    requires i < |names|
  {
    1 <= uniq <= |names[i]| + 1 && (uniq <= |names[i]| ==> !Clashes(names, i, uniq))
  }

  /** Every shorter abbreviation of command i is another's, too. */
  predicate Shortest(names: seq<string>, i: nat, uniq: nat)
    requires i < |names|
  {
    forall n :: 1 <= n < uniq ==> Clashes(names, i, n)
  }

  predicate AllSound(cmds: seq<Cmd>) { forall i :: 0 <= i < |cmds| ==> Sound(Names(cmds), i, cmds[i].uniq) }

  predicate AllShortest(cmds: seq<Cmd>) { forall i :: 0 <= i < |cmds| ==> Shortest(Names(cmds), i, cmds[i].uniq) }

  predicate AllPlain(cmds: seq<Cmd>) { forall i :: 0 <= i < |cmds| ==> Plain(cmds[i].name) }

  predicate Distinct(cmds: seq<Cmd>) {
    forall i, j :: 0 <= i < j < |cmds| ==> cmds[i].name != cmds[j].name
  }

  // ----- strings -----

  lemma SameThrough(a: string, b: string, word: string, n: nat, m: nat)
    requires Plain(a) && Plain(b) && n <= m && SameNoCase(a, word, n) && SameNoCase(b, word, m)
    ensures Same(b, a, n)
  {
    forall i | 0 <= i < n ensures At(b, i) == At(a, i) {
      assert Lower(At(a, i)) == At(a, i) && Lower(At(b, i)) == At(b, i);
    }
  }

  /** Two names that agree one character past the end of the first are one name. */
  lemma SameIsEqual(a: string, b: string)
    requires Plain(a) && Plain(b) && Same(b, a, |a| + 1)
    ensures a == b
  {
    assert At(b, |a|) == At(a, |a|) == NUL;
    assert |b| < |a| ==> At(b, |b|) == At(a, |b|);
    assert |a| == |b|;
    forall i | 0 <= i < |a| ensures a[i] == b[i] {
      assert At(b, i) == At(a, i);
    }
  }

  // ----- a word means at most one command -----

  /** In a level of distinct plain names, no word matches two commands. */
  lemma MatchesOne(cmds: seq<Cmd>, i: nat, j: nat, word: string)
    requires AllSound(cmds) && AllPlain(cmds) && Distinct(cmds)
    requires i < |cmds| && j < |cmds| && Matches(cmds[i], word) && Matches(cmds[j], word)
    ensures i == j
  {
    if i != j {
      var p, q := if cmds[i].uniq <= cmds[j].uniq then i else j, if cmds[i].uniq <= cmds[j].uniq then j else i;
      SameThrough(cmds[p].name, cmds[q].name, word, cmds[p].uniq, cmds[q].uniq);
      assert Sound(Names(cmds), p, cmds[p].uniq);
      if cmds[p].uniq > |cmds[p].name| { SameIsEqual(cmds[p].name, cmds[q].name); }
    }
  }

  /** A command's own name matches it. So with two commands of one name that name is ambiguous: the
      names must be distinct for every word to mean one command. */
  lemma FullNameMatches(cmds: seq<Cmd>, i: nat, j: nat)
    requires i < |cmds| && j < |cmds| && cmds[i].name == cmds[j].name
    ensures Matches(cmds[i], cmds[j].name)
  {
  }

  /** A string of characters only. */
  predicate Word(s: string) { forall i :: 0 <= i < |s| ==> s[i] != NUL }

  /** The length of the shortest word that matches the command. */
  function Reach(c: Cmd): nat { if c.uniq <= |c.name| then c.uniq else |c.name| }

  /** Exactly the words that begin the name, in either case, and are long enough, or are all of it. */
  lemma MatchesExactly(c: Cmd, word: string)
    requires Word(c.name) && Word(word)
    ensures Matches(c, word) <==>
            |word| <= |c.name| && SameNoCase(c.name, word, |word|) && |word| >= Reach(c)
  {
    if Matches(c, word) {
      assert |c.name| < |word| ==> Lower(At(word, |c.name|)) == Lower(At(c.name, |c.name|));
      assert |word| < c.uniq ==> Lower(At(word, |word|)) == Lower(At(c.name, |word|));
    }
  }

  /** Both names reach as far as both lengths, and agree so far but for the case of letters. */
  predicate Ambiguous(a: Cmd, b: Cmd) {
    var n := if Reach(a) < Reach(b) then Reach(b) else Reach(a);
    n <= |a.name| && n <= |b.name| && SameNoCase(a.name, b.name, n)
  }

  /** Some word matches both commands exactly if they are ambiguous, whatever the case of their names. */
  lemma AmbiguousExactly(a: Cmd, b: Cmd)
    requires Word(a.name) && Word(b.name)
    ensures (exists word :: Word(word) && Matches(a, word) && Matches(b, word)) <==> Ambiguous(a, b)
  {
    hide Matches;
    if Ambiguous(a, b) {
      var word := a.name[..if Reach(a) < Reach(b) then Reach(b) else Reach(a)];
      MatchesExactly(a, word);
      MatchesExactly(b, word);
      assert Word(word) && Matches(a, word) && Matches(b, word);
    }
    if word :| Word(word) && Matches(a, word) && Matches(b, word) {
      MatchesExactly(a, word);
      MatchesExactly(b, word);
      CommonPrefix(a.name, b.name, word, if Reach(a) < Reach(b) then Reach(b) else Reach(a));
    }
  }

  lemma CommonPrefix(a: string, b: string, word: string, n: nat)
    requires n <= |word| && SameNoCase(a, word, |word|) && SameNoCase(b, word, |word|)
    ensures SameNoCase(a, b, n)
  {
    forall i | 0 <= i < n ensures Lower(At(a, i)) == Lower(At(b, i)) {
      assert Lower(At(a, i)) == Lower(At(word, i)) == Lower(At(b, i));
    }
  }

  predicate AllWords(cmds: seq<Cmd>) { forall i :: 0 <= i < |cmds| ==> Word(cmds[i].name) }

  predicate Unambiguous(cmds: seq<Cmd>) {
    forall i, j :: 0 <= i < j < |cmds| ==> !Ambiguous(cmds[i], cmds[j])
  }

  /** In a level of sound lengths and plain names, having distinct names is exactly being unambiguous. */
  lemma PlainUnambiguous(cmds: seq<Cmd>)
    requires AllSound(cmds) && AllPlain(cmds)
    ensures Unambiguous(cmds) <==> Distinct(cmds)
  {
    hide AllSound, Matches, Ambiguous;
    if Distinct(cmds) {
      forall i, j | 0 <= i < j < |cmds| ensures !Ambiguous(cmds[i], cmds[j]) {
        AmbiguousExactly(cmds[i], cmds[j]);
        if word :| Word(word) && Matches(cmds[i], word) && Matches(cmds[j], word) {
          MatchesOne(cmds, i, j, word);
        }
      }
    } else {
      var i, j :| 0 <= i < j < |cmds| && cmds[i].name == cmds[j].name;
      FullNameMatches(cmds, i, j);
      FullNameMatches(cmds, j, j);
      AmbiguousExactly(cmds[i], cmds[j]);
    }
  }

  /** With names in mixed case, distinct names and sound, shortest lengths are not enough. */
  lemma MixedCaseAmbiguous()
    ensures var cmds := [Cmd("Show", 1), Cmd("stop", 1)];
            && AllSound(cmds) && AllShortest(cmds) && Distinct(cmds) && AllWords(cmds)
            && Matches(cmds[0], "s") && Matches(cmds[1], "s") && !Unambiguous(cmds)
  {
    var cmds := [Cmd("Show", 1), Cmd("stop", 1)];
    assert At("Show", 0) == 'S' && At("stop", 0) == 's' && At("s", 0) == 's';
    assert Names(cmds) == ["Show", "stop"];
    assert !Same("Show", "stop", 1) && !Same("stop", "Show", 1) by {
      assert At("Show", 0) != At("stop", 0);
    }
    assert Ambiguous(cmds[0], cmds[1]);
  }

  // ----- the level -----

  class Level {
    var cmds: seq<Cmd>

    ghost predicate Valid()
      reads this
    {
      AllSound(cmds)
    }

    constructor ()
      ensures Valid() && cmds == []
    {
      cmds := [];
    }

    /** The inner loop of cmd_build: the other commands that agree with i in n characters. */
    method Others(i: nat, n: nat) returns (found: nat)
      requires i < |cmds|
      ensures found > 0 <==> Clashes(Names(cmds), i, n)
    {
      hide Same, Names;
      found := 0;
      for j := 0 to |cmds|
        invariant found > 0 <==> exists k :: 0 <= k < j && k != i && Same(Names(cmds)[k], Names(cmds)[i], n)
      {
        assert Names(cmds)[j] == cmds[j].name && Names(cmds)[i] == cmds[i].name;
        if j != i && Same(cmds[j].name, cmds[i].name, n) { found := found + 1; }
      }
    }

    /** The outer loop for one command: from 1 up to the first length without a clash, or past the name. */
    method UniqueLength(i: nat) returns (n: nat)
      requires i < |cmds|
      ensures Sound(Names(cmds), i, n) && Shortest(Names(cmds), i, n)
    {
      hide Clashes;
      n := 1;
      while n <= |cmds[i].name|
        invariant 1 <= n <= |cmds[i].name| + 1
        invariant forall m :: 1 <= m < n ==> Clashes(Names(cmds), i, m)
      {
        var found := Others(i, n);
        if found == 0 { break; }
        n := n + 1;
      }
    }

    /** cmd_build */
    method Build()
      modifies this
      ensures Valid() && AllShortest(cmds) && Names(cmds) == old(Names(cmds))
    {
      hide Sound, Shortest;
      for i := 0 to |cmds|
        invariant Names(cmds) == old(Names(cmds))
        invariant i <= |cmds| && forall k :: 0 <= k < i ==>
                    Sound(Names(cmds), k, cmds[k].uniq) && Shortest(Names(cmds), k, cmds[k].uniq)
      {
        var n := UniqueLength(i);
        NamesKept(cmds, i, n);
        cmds := cmds[i := cmds[i].(uniq := n)];
      }
    }

    /** fh_cli_cmd_register: the new command goes to the head of the level. */
    method Register(name: string)
      modifies this
      ensures Valid() && AllShortest(cmds) && Names(cmds) == [name] + old(Names(cmds))
    {
      assert ([Cmd(name, 0)] + cmds)[1..] == cmds;
      cmds := [Cmd(name, 0)] + cmds;
      Build();
    }

    /** fh_cli_cmd_unregister: the lengths are not computed again. */
    method Unregister(i: nat)
      requires Valid() && i < |cmds|
      modifies this
      ensures Valid() && cmds == old(cmds)[..i] + old(cmds)[i + 1..]
    {
      RemovalKeepsSound(cmds, i);
      cmds := cmds[..i] + cmds[i + 1..];
    }

    /** The search of fh_cli_cmd_find among siblings. */
    method Find(word: string) returns (r: int)
      ensures r < 0 ==> forall i :: 0 <= i < |cmds| ==> !Matches(cmds[i], word)
      ensures r >= 0 ==>
              r < |cmds| && Matches(cmds[r], word) && forall i :: 0 <= i < r ==> !Matches(cmds[i], word)
      ensures r >= 0 && AllWords(cmds) && Word(word) && Unambiguous(cmds) ==>
              forall i :: 0 <= i < |cmds| ==> (Matches(cmds[i], word) <==> i == r)
    {
      hide Matches, Ambiguous, Word;
      for k := 0 to |cmds|
        invariant forall i :: 0 <= i < k ==> !Matches(cmds[i], word)
      {
        if Matches(cmds[k], word) {
          if AllWords(cmds) && Word(word) && Unambiguous(cmds) {
            forall i | k < i < |cmds| ensures !Matches(cmds[i], word) {
              AmbiguousExactly(cmds[k], cmds[i]);
            }
          }
          return k;
        }
      }
      return -1;
    }
  }

  // ----- whole runs -----

  datatype Event = Registered(name: string) | Unregistered(index: nat)

  predicate Unused(cmds: seq<Cmd>, name: string) { forall i :: 0 <= i < |cmds| ==> cmds[i].name != name }

  /** Any sequence of registrations of new plain names and of removals leaves a level in which no word
      is ambiguous, though removals compute nothing again. */
  method Replay(events: seq<Event>) returns (level: Level)
    ensures fresh(level) && level.Valid() && AllPlain(level.cmds) && Distinct(level.cmds)
    ensures Unambiguous(level.cmds)
  {
    level := new Level();
    for k := 0 to |events|
      invariant fresh(level) && level.Valid() && AllPlain(level.cmds) && Distinct(level.cmds)
    {
      hide AllSound, Plain;
      match events[k]
      case Registered(name) =>
        if Plain(name) && Unused(level.cmds, name) {
          var before := level.cmds;
          level.Register(name);
          HeadAdded(before, level.cmds, name);
        }
      case Unregistered(i) =>
        if i < |level.cmds| { level.Unregister(i); }
    }
    PlainUnambiguous(level.cmds);
  }

  lemma HeadAdded(before: seq<Cmd>, after: seq<Cmd>, name: string)
    requires Names(after) == [name] + Names(before) && AllPlain(before) && Distinct(before)
    requires Plain(name) && Unused(before, name)
    ensures AllPlain(after) && Distinct(after)
  {
    hide Plain, Names;
    assert |after| == |before| + 1;
    assert forall i :: 0 <= i < |after| ==> after[i].name == if i == 0 then name else before[i - 1].name;
  }

  lemma {:induction false} NamesKept(cmds: seq<Cmd>, i: nat, n: nat)
    requires i < |cmds|
    ensures Names(cmds[i := cmds[i].(uniq := n)]) == Names(cmds)
  {
    hide Names;
  }

  /** Taking a command away leaves every remaining length sound. */
  lemma {:induction false} RemovalKeepsSound(cmds: seq<Cmd>, k: nat)
    requires AllSound(cmds) && k < |cmds|
    ensures AllSound(cmds[..k] + cmds[k + 1..])
  {
    hide Sound, Clashes, Names;
    var less, names := cmds[..k] + cmds[k + 1..], Names(cmds);
    NamesRemoved(cmds, k);
    forall i | 0 <= i < |less| ensures Sound(Names(less), i, less[i].uniq) {
      var j := if i < k then i else i + 1;
      assert less[i] == cmds[j];
      SoundAfterRemoval(names, k, i, cmds[j].uniq);
    }
  }

  lemma {:induction false} NamesRemoved(cmds: seq<Cmd>, k: nat)
    requires k < |cmds|
    ensures Names(cmds[..k] + cmds[k + 1..]) == Names(cmds)[..k] + Names(cmds)[k + 1..]
  {
    hide Names;
    var a, b := Names(cmds[..k] + cmds[k + 1..]), Names(cmds)[..k] + Names(cmds)[k + 1..];
    assert |a| == |b|;
    forall i | 0 <= i < |a| ensures a[i] == b[i] {
      var j := if i < k then i else i + 1;
      assert (cmds[..k] + cmds[k + 1..])[i] == cmds[j];
      assert b[i] == Names(cmds)[j];
    }
  }

  lemma SoundAfterRemoval(names: seq<string>, k: nat, i: nat, uniq: nat)
    requires k < |names| && i < |names| - 1 && Sound(names, if i < k then i else i + 1, uniq)
    ensures Sound(names[..k] + names[k + 1..], i, uniq)
  {
    hide Same;
    var less, j := names[..k] + names[k + 1..], if i < k then i else i + 1;
    assert forall m :: 0 <= m < |less| ==> less[m] == names[if m < k then m else m + 1];
  }
}
