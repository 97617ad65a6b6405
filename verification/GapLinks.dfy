/** Doubly linked nodes in the memory of a pool, as fh_shr_gap_fill.h relinks them: a list is the
    sequence of its nodes' chunk numbers, and each relinking is proved on that sequence. */
module GapLinks {
  import opened MemoryPool
  import opened GapRanges

  datatype GapNode = GapNode(seqNo: nat, size: nat, stamp: int, next: Ptr, prev: Ptr)

  function RangeOf(g: GapNode): Range { Range(g.seqNo, g.size, g.stamp) }

  function SetNext(mem: seq<GapNode>, i: nat, p: Ptr): seq<GapNode>
    requires i < |mem|
  {
    mem[i := mem[i].(next := p)]
  }

  function SetPrev(mem: seq<GapNode>, i: nat, p: Ptr): seq<GapNode>
    requires i < |mem|
  {
    mem[i := mem[i].(prev := p)]
  }

  predicate InMemory(mem: seq<GapNode>, order: seq<nat>) {
    && (forall i :: 0 <= i < |order| ==> order[i] < |mem|)
    && (forall i, j :: 0 <= i < j < |order| ==> order[i] != order[j])
  }

  /** Between neighbours next and prev are inverse to each other. */
  ghost predicate Chain(mem: seq<GapNode>, order: seq<nat>) {
    && InMemory(mem, order)
    && (forall i, j :: 0 <= i && j == i + 1 < |order| ==> mem[order[i]].next == At(order[j]))
    && (forall i, j :: 0 <= i && j == i + 1 < |order| ==> mem[order[j]].prev == At(order[i]))
  }

  /** The chain runs from head to tail, where it ends; the prev of the head is never read. */
  ghost predicate Linked(mem: seq<GapNode>, order: seq<nat>, head: Ptr, tail: Ptr) {
    && Chain(mem, order) && InMemory(mem, order)
    && head == (if order == [] then Null else At(order[0]))
    && tail == (if order == [] then Null else At(order[|order| - 1]))
    && (order != [] ==> mem[order[|order| - 1]].next == Null)
  }

  lemma ChainInMemory(mem: seq<GapNode>, order: seq<nat>)
    requires Chain(mem, order)
    ensures InMemory(mem, order)
  {
  }

  lemma ChainFrame(mem: seq<GapNode>, mem': seq<GapNode>, order: seq<nat>)
    requires Chain(mem, order) && |mem'| == |mem|
    requires forall i :: 0 <= i < |order| - 1 ==> mem'[order[i]].next == mem[order[i]].next
    requires forall i :: 1 <= i < |order| ==> mem'[order[i]].prev == mem[order[i]].prev
    ensures Chain(mem', order)
  {
  }

  lemma ChainPart(mem: seq<GapNode>, order: seq<nat>, lo: nat, hi: nat)
    requires Chain(mem, order) && lo <= hi <= |order|
    ensures Chain(mem, order[lo..hi])
  {
  }

  /** Two chains whose ends point to each other. */
  ghost predicate Joinable(mem: seq<GapNode>, a: seq<nat>, b: seq<nat>) {
    && Chain(mem, a) && Chain(mem, b)
    && (forall i, j :: 0 <= i < |a| && 0 <= j < |b| ==> a[i] != b[j])
    && (a != [] && b != [] ==> mem[a[|a| - 1]].next == At(b[0]) && mem[b[0]].prev == At(a[|a| - 1]))
  }

  lemma ChainJoin(mem: seq<GapNode>, a: seq<nat>, b: seq<nat>)
    requires Joinable(mem, a, b)
    ensures Chain(mem, a + b)
  {
    hide Joinable;
    var s := a + b;
    JoinInMemory(mem, a, b);
    forall i, j | 0 <= i && j == i + 1 < |s|
      ensures mem[s[i]].next == At(s[j]) && mem[s[j]].prev == At(s[i])
    {
      JoinedLink(mem, a, b, i);
    }
  }

  lemma JoinInMemory(mem: seq<GapNode>, a: seq<nat>, b: seq<nat>)
    requires Joinable(mem, a, b)
    ensures InMemory(mem, a + b)
  {
  }

  /** The link at position i lies in one of the chains, or joins them. */
  lemma JoinedLink(mem: seq<GapNode>, a: seq<nat>, b: seq<nat>, i: nat)
    requires Joinable(mem, a, b) && i + 1 < |a + b|
    ensures var s := a + b;
            s[i] < |mem| && s[i + 1] < |mem| && mem[s[i]].next == At(s[i + 1]) && mem[s[i + 1]].prev == At(s[i])
  {
    hide InMemory;
    var s := a + b;
    ChainInMemory(mem, a);
    ChainInMemory(mem, b);
    if i + 1 < |a| {
      assert s[i] == a[i] && s[i + 1] == a[i + 1];
      LinkAt(mem, a, i);
    } else if i >= |a| {
      assert s[i] == b[i - |a|] && s[i + 1] == b[i - |a| + 1];
      LinkAt(mem, b, i - |a|);
    } else {
      assert s[i] == a[|a| - 1] && s[i + 1] == b[0];
      JoinInMemory(mem, a, b);
      InMemoryAt(mem, s, i);
    }
  }

  lemma LinkAt(mem: seq<GapNode>, order: seq<nat>, i: nat)
    requires Chain(mem, order) && i + 1 < |order|
    ensures order[i] < |mem| && order[i + 1] < |mem|
    ensures mem[order[i]].next == At(order[i + 1]) && mem[order[i + 1]].prev == At(order[i])
  {
  }

  lemma InMemoryAt(mem: seq<GapNode>, order: seq<nat>, i: nat)
    requires InMemory(mem, order) && i + 1 < |order|
    ensures order[i] < |mem| && order[i + 1] < |mem|
  {
  }

  /** The ranges of the list from head to tail. */
  ghost function View(mem: seq<GapNode>, order: seq<nat>): (rs: seq<Range>)
    requires InMemory(mem, order)
    ensures |rs| == |order| && forall i :: 0 <= i < |order| ==> rs[i] == RangeOf(mem[order[i]])
  {
    seq(|order|, i requires 0 <= i < |order| => RangeOf(mem[order[i]]))
  }

  /** What the pointers say about a position of the list. */
  lemma Neighbours(mem: seq<GapNode>, order: seq<nat>, head: Ptr, tail: Ptr, k: nat)
    requires Linked(mem, order, head, tail) && k < |order|
    ensures InMemory(mem, order)
    ensures head == tail <==> |order| == 1
    ensures (At(order[k]) == head <==> k == 0) && (At(order[k]) == tail <==> k == |order| - 1)
    ensures k > 0 ==> mem[order[k]].prev == At(order[k - 1])
    ensures k + 1 < |order| ==> mem[order[k]].next == At(order[k + 1])
  {
  }

  /** Changing ranges but no links keeps the list. */
  lemma SameLinks(mem: seq<GapNode>, mem': seq<GapNode>, order: seq<nat>, head: Ptr, tail: Ptr)
    requires Linked(mem, order, head, tail) && |mem'| == |mem|
    requires forall i :: 0 <= i < |mem| ==> mem'[i].next == mem[i].next && mem'[i].prev == mem[i].prev
    ensures Linked(mem', order, head, tail)
  {
  }

  /** The memory after node c, holding r, is linked in behind the tail. */
  function Appended(mem: seq<GapNode>, tail: Ptr, c: nat, r: Range): seq<GapNode>
    requires c < |mem| && (tail.At? ==> tail.chunk < |mem|)
  {
    var m := mem[c := GapNode(r.seqNo, r.size, r.stamp, Null, tail)];
    if tail.Null? then m else SetNext(m, tail.chunk, At(c))
  }

  lemma AppendLinked(mem: seq<GapNode>, order: seq<nat>, head: Ptr, tail: Ptr, c: nat, r: Range)
    requires Linked(mem, order, head, tail) && c < |mem| && c !in order
    ensures tail.At? ==> tail.chunk < |mem|
    ensures InMemory(mem, order)
    ensures var m := Appended(mem, tail, c, r);
            && InMemory(m, order + [c])
            && Linked(m, order + [c], if tail.Null? then At(c) else head, At(c))
            && View(m, order + [c]) == View(mem, order) + [r]
  {
    var m := Appended(mem, tail, c, r);
    ChainFrame(mem, m, order);
    ChainJoin(m, order, [c]);
  }

  lemma DropHeadLinked(mem: seq<GapNode>, order: seq<nat>, head: Ptr, tail: Ptr)
    requires Linked(mem, order, head, tail) && |order| >= 2
    ensures Linked(mem, order[1..], mem[order[0]].next, tail)
    ensures Linked(SetPrev(mem, order[1], Null), order[1..], mem[order[0]].next, tail)
  {
    ChainPart(mem, order, 1, |order|);
    assert order[1..|order|] == order[1..];
    ChainFrame(mem, SetPrev(mem, order[1], Null), order[1..]);
  }

  /** A list of two or more whose head is taken off and linked in again behind the tail. */
  lemma RotateLinked(mem: seq<GapNode>, order: seq<nat>, head: Ptr, tail: Ptr, r: Range)
    requires Linked(mem, order, head, tail) && |order| >= 2
    ensures var c := order[0]; var m := Appended(mem, tail, c, r);
            && Linked(m, order[1..] + [c], mem[c].next, At(c))
            && View(m, order[1..] + [c]) == View(mem, order)[1..] + [r]
  {
    DropHeadLinked(mem, order, head, tail);
    AppendLinked(mem, order[1..], mem[order[0]].next, tail, order[0], r);
  }

  /** The memory after node c is linked in behind the node at position k. */
  function Inserted(mem: seq<GapNode>, order: seq<nat>, k: nat, c: nat): seq<GapNode>
    requires InMemory(mem, order) && k < |order| && c < |mem|
  {
    var next := if k + 1 < |order| then At(order[k + 1]) else Null;
    var m1 := mem[c := mem[c].(next := next, prev := At(order[k]))];
    var m2 := SetNext(m1, order[k], At(c));
    if k + 1 < |order| then SetPrev(m2, order[k + 1], At(c)) else m2
  }

  /** The links an insertion sets and the links it leaves alone. */
  lemma InsertedLinks(mem: seq<GapNode>, order: seq<nat>, k: nat, c: nat)
    requires InMemory(mem, order) && k < |order| && c < |mem| && c !in order
    ensures var m := Inserted(mem, order, k, c);
            && |m| == |mem|
            && (forall i :: 0 <= i < |order| && i != k ==> m[order[i]].next == mem[order[i]].next)
            && (forall i :: 0 <= i < |order| && i != k + 1 ==> m[order[i]].prev == mem[order[i]].prev)
            && m[order[k]].next == At(c) && m[c].prev == At(order[k])
            && m[c].next == (if k + 1 < |order| then At(order[k + 1]) else Null)
            && (k + 1 < |order| ==> m[order[k + 1]].prev == At(c))
  {
  }

  lemma InsertLinked(mem: seq<GapNode>, order: seq<nat>, head: Ptr, tail: Ptr, k: nat, c: nat)
    requires Linked(mem, order, head, tail) && k < |order| && c < |mem| && c !in order
    ensures Linked(Inserted(mem, order, k, c), order[..k + 1] + [c] + order[k + 1..],
                   head, if k + 1 < |order| then tail else At(c))
  {
    hide Inserted, Chain;
    InsertedLinks(mem, order, k, c);
    InsertedChain(mem, order, k, c);
    ChainInMemory(Inserted(mem, order, k, c), order[..k + 1] + [c] + order[k + 1..]);
  }

  lemma InsertedChain(mem: seq<GapNode>, order: seq<nat>, k: nat, c: nat)
    requires InMemory(mem, order) && Chain(mem, order) && k < |order| && c < |mem| && c !in order
    ensures Chain(Inserted(mem, order, k, c), order[..k + 1] + [c] + order[k + 1..])
  {
    hide Inserted, Chain;
    var m, a, b := Inserted(mem, order, k, c), order[..k + 1], order[k + 1..];
    InsertedLinks(mem, order, k, c);
    ChainPart(mem, order, 0, k + 1);
    ChainPart(mem, order, k + 1, |order|);
    assert order[0..k + 1] == a && order[k + 1..|order|] == b;
    ChainFrame(mem, m, a);
    ChainFrame(mem, m, b);
    JoinAround(m, a, c, b);
  }

  lemma JoinAround(mem: seq<GapNode>, a: seq<nat>, c: nat, b: seq<nat>)
    requires Chain(mem, a) && Chain(mem, b) && a != [] && c < |mem| && c !in a && c !in b
    requires forall i, j :: 0 <= i < |a| && 0 <= j < |b| ==> a[i] != b[j]
    requires mem[a[|a| - 1]].next == At(c) && mem[c].prev == At(a[|a| - 1])
    requires b != [] ==> mem[c].next == At(b[0]) && mem[b[0]].prev == At(c)
    ensures Chain(mem, a + [c] + b)
  {
    ChainJoin(mem, a, [c]);
    ChainJoin(mem, a + [c], b);
  }

  lemma DropTailLinked(mem: seq<GapNode>, order: seq<nat>, head: Ptr, tail: Ptr)
    requires Linked(mem, order, head, tail) && |order| >= 2
    ensures var k := |order| - 1;
            Linked(SetNext(mem, order[k - 1], Null), order[..k], head, At(order[k - 1]))
  {
    var k := |order| - 1;
    ChainPart(mem, order, 0, k);
    assert order[0..k] == order[..k];
    ChainFrame(mem, SetNext(mem, order[k - 1], Null), order[..k]);
  }

  lemma RemoveLinked(mem: seq<GapNode>, order: seq<nat>, head: Ptr, tail: Ptr, k: nat)
    requires Linked(mem, order, head, tail) && 0 < k < |order| - 1
    ensures Linked(SetPrev(SetNext(mem, order[k - 1], At(order[k + 1])), order[k + 1], At(order[k - 1])),
                   order[..k] + order[k + 1..], head, tail)
  {
    hide Chain, Joinable;
    var m := SetPrev(SetNext(mem, order[k - 1], At(order[k + 1])), order[k + 1], At(order[k - 1]));
    RemoveFrames(mem, order, k);
    RemoveJoins(mem, order, k);
    ChainJoin(m, order[..k], order[k + 1..]);
    ChainInMemory(m, order[..k] + order[k + 1..]);
    assert m[order[|order| - 1]].next == mem[order[|order| - 1]].next;
  }

  lemma RemoveFrames(mem: seq<GapNode>, order: seq<nat>, k: nat)
    requires Chain(mem, order) && 0 < k < |order| - 1
    ensures InMemory(mem, order)
    ensures var m := SetPrev(SetNext(mem, order[k - 1], At(order[k + 1])), order[k + 1], At(order[k - 1]));
            Chain(m, order[..k]) && Chain(m, order[k + 1..])
  {
    var m := SetPrev(SetNext(mem, order[k - 1], At(order[k + 1])), order[k + 1], At(order[k - 1]));
    ChainPart(mem, order, 0, k);
    ChainPart(mem, order, k + 1, |order|);
    assert order[0..k] == order[..k] && order[k + 1..|order|] == order[k + 1..];
    ChainFrame(mem, m, order[..k]);
    ChainFrame(mem, m, order[k + 1..]);
  }

  lemma RemoveJoins(mem: seq<GapNode>, order: seq<nat>, k: nat)
    requires Chain(mem, order) && 0 < k < |order| - 1
    ensures InMemory(mem, order)
    ensures var m := SetPrev(SetNext(mem, order[k - 1], At(order[k + 1])), order[k + 1], At(order[k - 1]));
            Joinable(m, order[..k], order[k + 1..])
  {
    hide Chain;
    RemoveFrames(mem, order, k);
  }

  /** Writing the range of the node at position k. */
  function SetRange(mem: seq<GapNode>, i: nat, r: Range): seq<GapNode>
    requires i < |mem|
  {
    mem[i := mem[i].(seqNo := r.seqNo, size := r.size, stamp := r.stamp)]
  }

  lemma SetRangeLinked(mem: seq<GapNode>, order: seq<nat>, head: Ptr, tail: Ptr, k: nat, r: Range)
    requires Linked(mem, order, head, tail) && k < |order|
    ensures InMemory(mem, order) && var m := SetRange(mem, order[k], r);
            Linked(m, order, head, tail) && View(m, order) == View(mem, order)[k := r]
  {
    SameLinks(mem, SetRange(mem, order[k], r), order, head, tail);
  }

  /** The memory after node c is linked in behind position k and the two nodes get the ranges l and r. */
  function Split(mem: seq<GapNode>, order: seq<nat>, k: nat, c: nat, l: Range, r: Range): seq<GapNode>
    requires InMemory(mem, order) && k < |order| && c < |mem|
  {
    SetRange(SetRange(Inserted(mem, order, k, c), c, r), order[k], l)
  }

  lemma SplitLinked(mem: seq<GapNode>, order: seq<nat>, head: Ptr, tail: Ptr, k: nat, c: nat, l: Range, r: Range)
    requires Linked(mem, order, head, tail) && k < |order| && c < |mem| && c !in order
    ensures InMemory(mem, order)
    ensures Linked(Split(mem, order, k, c, l, r), order[..k + 1] + [c] + order[k + 1..],
                   head, if k + 1 < |order| then tail else At(c))
  {
    hide Chain;
    InsertLinked(mem, order, head, tail, k, c);
    SameLinks(Inserted(mem, order, k, c), Split(mem, order, k, c, l, r), order[..k + 1] + [c] + order[k + 1..],
              head, if k + 1 < |order| then tail else At(c));
  }

  lemma SplitView(mem: seq<GapNode>, order: seq<nat>, k: nat, c: nat, l: Range, r: Range)
    requires InMemory(mem, order) && k < |order| && c < |mem| && c !in order
    ensures var m, o := Split(mem, order, k, c, l, r), order[..k + 1] + [c] + order[k + 1..];
            InMemory(m, o) && View(m, o) == Splice(View(mem, order), 0, k, [l, r])
  {
    hide Split, View;
    var m, o := Split(mem, order, k, c, l, r), order[..k + 1] + [c] + order[k + 1..];
    SplitRange(mem, order, k, c, l, r, c);
    InsertInMemory(mem, order, k, c);
    forall p | 0 <= p < |o| ensures RangeOf(m[o[p]]) == Splice(View(mem, order), 0, k, [l, r])[p] {
      SplitRange(mem, order, k, c, l, r, o[p]);
    }
  }

  lemma InsertInMemory(mem: seq<GapNode>, order: seq<nat>, k: nat, c: nat)
    requires InMemory(mem, order) && k < |order| && c < |mem| && c !in order
    ensures InMemory(mem, order[..k + 1] + [c] + order[k + 1..])
  {
  }

  lemma SplitRange(mem: seq<GapNode>, order: seq<nat>, k: nat, c: nat, l: Range, r: Range, j: nat)
    requires InMemory(mem, order) && k < |order| && c < |mem| && c !in order && j < |mem|
    ensures var m := Split(mem, order, k, c, l, r);
            |m| == |mem| && RangeOf(m[j]) == if j == order[k] then l else if j == c then r else RangeOf(mem[j])
  {
    hide Inserted;
    InsertedKeepsRanges(mem, order, k, c, j);
  }

  lemma InsertedKeepsRanges(mem: seq<GapNode>, order: seq<nat>, k: nat, c: nat, i: nat)
    requires InMemory(mem, order) && k < |order| && c < |mem| && i < |mem|
    ensures |Inserted(mem, order, k, c)| == |mem|
    ensures RangeOf(Inserted(mem, order, k, c)[i]) == RangeOf(mem[i])
  {
  }

  /** Position k taken out of the sequence takes the range at k out of the view. */
  lemma RemoveView(mem: seq<GapNode>, m: seq<GapNode>, order: seq<nat>, k: nat)
    requires InMemory(mem, order) && k < |order| && |m| == |mem|
    requires forall i :: 0 <= i < |mem| ==> RangeOf(m[i]) == RangeOf(mem[i])
    ensures InMemory(m, order[..k] + order[k + 1..])
    ensures View(m, order[..k] + order[k + 1..]) == Splice(View(mem, order), 0, k, [])
  {
  }

  /** The memory, head and tail after the node at position k is taken out. */
  function Unlinked(mem: seq<GapNode>, order: seq<nat>, head: Ptr, tail: Ptr, k: nat): (seq<GapNode>, Ptr, Ptr)
    requires InMemory(mem, order) && k < |order|
  {
    var last := |order| - 1;
    if last == 0 then (mem, Null, Null)
    else if k == 0 then (SetPrev(mem, order[1], Null), At(order[1]), tail)
    else if k == last then (SetNext(mem, order[k - 1], Null), head, At(order[k - 1]))
    else (SetPrev(SetNext(mem, order[k - 1], At(order[k + 1])), order[k + 1], At(order[k - 1])), head, tail)
  }

  lemma UnlinkedLinked(mem: seq<GapNode>, order: seq<nat>, head: Ptr, tail: Ptr, k: nat)
    requires Linked(mem, order, head, tail) && k < |order|
    ensures InMemory(mem, order)
    ensures var (m, h, t) := Unlinked(mem, order, head, tail, k); Linked(m, order[..k] + order[k + 1..], h, t)
  {
    hide Linked;
    var o, last := order[..k] + order[k + 1..], |order| - 1;
    Neighbours(mem, order, head, tail, 0);
    if last == 0 {
      assert o == [];
      NothingLinked(mem);
    } else if k == 0 {
      assert o == order[1..];
      DropHeadLinked(mem, order, head, tail);
    } else if k == last {
      assert o == order[..k];
      DropTailLinked(mem, order, head, tail);
    } else {
      RemoveLinked(mem, order, head, tail, k);
    }
  }

  lemma NothingLinked(mem: seq<GapNode>)
    ensures Linked(mem, [], Null, Null)
  {
  }

  lemma UnlinkedView(mem: seq<GapNode>, order: seq<nat>, head: Ptr, tail: Ptr, k: nat)
    requires InMemory(mem, order) && k < |order|
    ensures var m, o := Unlinked(mem, order, head, tail, k).0, order[..k] + order[k + 1..];
            |m| == |mem| && InMemory(m, o) && View(m, o) == Splice(View(mem, order), 0, k, [])
  {
    RemoveView(mem, Unlinked(mem, order, head, tail, k).0, order, k);
  }
}
