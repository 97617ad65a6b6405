/** fh_shr_gap_fill_list: the gap list as linked nodes over a pool of max chunks. Every operation is
    proved to do to the ranges of the list what module GapRanges says. */
module GapLists {
  import opened Basics
  import opened MemoryPool
  import opened GapRanges
  import opened GapLinks
  import opened GapAccounts

  /** The pointer is to the node at that position of the list, or null if there is none. */
  ghost predicate PointsAt(order: seq<nat>, at: Ptr, position: Option<nat>) {
    match position
    case None => at == Null
    case Some(p) => p < |order| && at == At(order[p])
  }

  /** The chunks of the list are the chunks handed out by its pool. */
  ghost predicate Owns(order: seq<nat>, out: set<nat>) { forall c :: c in order <==> c in out }

  lemma OwnsInsert(order: seq<nat>, out: set<nat>, k: nat, c: nat)
    requires Owns(order, out) && k < |order|
    ensures Owns(order[..k + 1] + [c] + order[k + 1..], out + {c})
  {
    assert order == order[..k + 1] + order[k + 1..];
  }

  lemma NonEmptySplit(rs: seq<Range>, k: nat, n: nat)
    requires NonEmpty(rs) && k < |rs| && rs[k].seqNo < n < End(rs[k]) - 1
    ensures NonEmpty(Splice(rs, 0, k, [Left(rs[k], n), Right(rs[k], n)]))
  {
  }

  lemma OwnsRotate(order: seq<nat>, out: set<nat>, k: nat)
    requires Owns(order, out) && 0 < k < |order|
    ensures Owns(order[1..][..k] + [order[0]] + order[1..][k..], out)
  {
    assert order == [order[0]] + order[1..][..k] + order[1..][k..];
  }

  lemma NonEmptySplitTail(rs: seq<Range>, k: nat, n: nat, stamp: int)
    requires NonEmpty(rs) && 0 < k < |rs| && rs[k].seqNo < n < End(rs[k]) - 1
    ensures var mid := [Left(rs[k], n), Right(rs[k], n).(stamp := stamp)];
            Splice(rs[1..], 0, k - 1, mid) == Splice(rs, 1, k, mid) && NonEmpty(Splice(rs, 1, k, mid))
  {
    assert rs[1..][0..k - 1] == rs[1..k] && rs[1..][k..] == rs[k + 1..];
  }

  lemma OwnsMember(order: seq<nat>, out: set<nat>, k: nat)
    requires Owns(order, out) && k < |order|
    ensures order[k] in out
  {
  }

  lemma OwnsRemove(order: seq<nat>, out: set<nat>, k: nat)
    requires Owns(order, out) && k < |order|
    requires forall i, j :: 0 <= i < j < |order| ==> order[i] != order[j]
    ensures Owns(order[..k] + order[k + 1..], out - {order[k]})
  {
    assert order == order[..k] + [order[k]] + order[k + 1..];
  }

  lemma SpliceOne(rs: seq<Range>, k: nat, r: Range)
    requires k < |rs|
    ensures rs[k := r] == Splice(rs, 0, k, [r]) && Splice(rs[k := r], 0, k, []) == Splice(rs, 0, k, [])
    ensures NonEmpty(rs) ==> NonEmpty(Splice(rs, 0, k, [])) && (r.size > 0 ==> NonEmpty(rs[k := r]))
  {
  }

  class GapList {
    const max: nat
    const timeout: int
    const pool: Mpool              // data
    var mem: seq<GapNode>          // the contents of the pool's chunks
    var count: nat
    var head: Ptr
    var tail: Ptr
    ghost var order: seq<nat>      // the chunks of the list from head to tail

    ghost predicate Valid()
      reads this, pool
    {
      Structure() && NonEmpty(View(mem, order))
    }

    ghost predicate Structure()
      reads this, pool
    {
      && PoolReady()
      && Linked(mem, order, head, tail)
      && Owns(order, pool.out) && count == |order| == pool.inuse
    }

    /** The pool is one block of max chunks that cannot grow. */
    ghost predicate PoolReady()
      reads this, pool
    {
      pool.Valid() && pool.nchunks == max == |mem| && !pool.growable && pool.nblocks == 1
    }

    /** The ranges from head to tail. */
    ghost function Ranges(): (rs: seq<Range>)
      requires InMemory(mem, order)
      reads this
    {
      View(mem, order)
    }

    /** fh_shr_gap_fill_new: the pool holds as many nodes as the list may and cannot grow. */
    constructor (max: nat, timeout: int)
      ensures Valid() && fresh(pool) && this.max == max && this.timeout == timeout && Ranges() == []
    {
      this.max, this.timeout := max, timeout;
      pool := new Mpool(max, false);
      mem := seq(max, _ => GapNode(0, 0, 0, Null, Null));
      count, head, tail, order := 0, Null, Null, [];
    }

    /** The number of nodes in use never exceeds max, and a chunk is to be had below it. */
    lemma PoolFollowsList()
      requires Valid()
      ensures count <= max && (pool.free == 0 <==> count == max) && pool.free == |pool.chunks|
      ensures forall c :: c in pool.chunks ==> c < max && c !in order
      ensures InMemory(mem, order)
    {
    }

    /** The common end of fh_shr_gap_fill_push: fill in the node and link it at the tail. */
    method LinkAtTail(node: nat, seqNo: nat, size: nat, now: int)
      requires node < |mem| && (tail.At? ==> tail.chunk < |mem|)
      modifies this`mem, this`head, this`tail
      ensures mem == Appended(old(mem), old(tail), node, Range(seqNo, size, now))
      ensures head == (if old(tail).Null? then At(node) else old(head)) && tail == At(node)
    {
      mem := mem[node := GapNode(seqNo, size, now, Null, tail)];
      if tail.Null? {
        tail := At(node);
        head := At(node);
      } else {
        mem := SetNext(mem, tail.chunk, At(node));
        tail := At(node);
      }
    }

    /** fh_shr_gap_fill_push. A full list gives up its head, whose size is returned. A full list of one
        range is lost: its only node ends up linked to itself with no head. */
    method Push(seqNo: nat, size: nat, now: int) returns (rc: int)
      requires Valid() && max > 0 && size > 0
      modifies this, pool
      ensures Valid() <==> old(count) < max || max >= 2
      ensures Valid() ==> Ranges() == GapRanges.Push(old(Ranges()), max, Range(seqNo, size, now))
      ensures rc == if old(count) == max then old(Ranges())[0].size else 0
      ensures !Valid() ==> head == Null && count == 1
    {
      PoolFollowsList();
      if count + 1 > max {
        rc := PushReusingHead(seqNo, size, now);
      } else {
        PushNewNode(seqNo, size, now);
        rc := 0;
      }
    }

    method PushReusingHead(seqNo: nat, size: nat, now: int) returns (rc: int)
      requires Valid() && count > 0 && size > 0
      modifies this`mem, this`head, this`tail, this`order
      ensures Valid() <==> count >= 2
      ensures rc == old(Ranges())[0].size
      ensures Valid() ==> Ranges() == old(Ranges())[1..] + [Range(seqNo, size, now)]
      ensures !Valid() ==> head == Null
    {
      if |order| >= 2 { RotateLinked(mem, order, head, tail, Range(seqNo, size, now)); }
      var node := head.chunk;
      head := mem[node].next;
      rc := mem[node].size;
      LinkAtTail(node, seqNo, size, now);
      order := order[1..] + [node];
    }

    /** The pool always has a node for a list that is not full. */
    method PushNewNode(seqNo: nat, size: nat, now: int)
      requires Valid() && count < max && size > 0
      modifies this, pool
      ensures Valid() && Ranges() == old(Ranges()) + [Range(seqNo, size, now)]
    {
      hide Linked, InMemory, Balanced;
      PoolFollowsList();
      var p := pool.Get(false);
      if p.Null? { assert false; }
      var node := p.chunk;
      AppendLinked(mem, order, head, tail, node, Range(seqNo, size, now));
      count := count + 1;
      LinkAtTail(node, seqNo, size, now);
      order := order + [node];
    }

    /** fh_shr_gap_fill_find: the node of the first range that holds n, or null. */
    method Find(n: nat) returns (curr: Ptr, ghost k: nat)
      requires Valid()
      ensures k == GapRanges.Find(Ranges(), n)
      ensures var first := GapRanges.Find(Ranges(), n);
              curr == if first < |order| then At(order[first]) else Null
    {
      curr, k := head, 0;
      while curr.At?
        invariant k <= |order| && curr == if k < |order| then At(order[k]) else Null
        invariant forall i :: 0 <= i < k ==> !Contains(Ranges()[i], n)
        decreases |order| - k
      {
        var g := mem[curr.chunk];
        assert Ranges()[k] == RangeOf(g);
        if n >= g.seqNo && n < g.seqNo + g.size { break; }
        assert k + 1 < |order| ==> g.next == At(order[k + 1]);
        curr := g.next;
        k := k + 1;
      }
      FirstIsFind(Ranges(), n, k);
    }

    /** The relinking of fh_shr_gap_fill_del: newNode goes in behind curr. */
    method LinkBehind(curr: nat, newNode: nat, ghost k: nat)
      requires Linked(mem, order, head, tail) && k < |order| && order[k] == curr
      requires newNode < |mem| && newNode !in order
      modifies this`mem, this`tail
      ensures mem == Inserted(old(mem), order, k, newNode)
      ensures tail == if k + 1 < |order| then old(tail) else At(newNode)
    {
      if k + 1 < |order| { assert mem[order[k]].next == At(order[k + 1]); }
      mem := mem[newNode := mem[newNode].(next := mem[curr].next, prev := At(curr))];
      mem := SetNext(mem, curr, At(newNode));
      if At(curr) == tail {
        tail := At(newNode);
      } else {
        mem := SetPrev(mem, mem[newNode].next.chunk, At(newNode));
      }
    }

    /** fh_shr_gap_fill_del when the split list has room: the pool has a node for the right part. */
    method SplitWithNewNode(curr: nat, n: nat, ghost k: nat) returns (at: Ptr)
      requires Valid() && k < |order| && order[k] == curr && count < max
      requires mem[curr].seqNo < n < mem[curr].seqNo + mem[curr].size - 1
      modifies this, pool
      ensures Valid() && k + 1 < |order| && at == At(order[k + 1])
      ensures var rs := old(Ranges()); Ranges() == Splice(rs, 0, k, [Left(rs[k], n), Right(rs[k], n)])
    {
      hide Linked, Owns, NonEmpty, Splice, Balanced;
      PoolFollowsList();
      ghost var rs := Ranges();
      OwnsInsert(order, pool.out, k, pool.chunks[0]);
      NonEmptySplit(rs, k, n);
      assert pool.chunks[0] in pool.chunks;
      var p := pool.Get(false);
      if p.Null? { assert false; }
      var newNode := p.chunk;
      SplitInto(curr, newNode, n, mem[curr].stamp, k);
      count := count + 1;
      at := At(newNode);
    }

    /** Both splits: newNode, not in the list, becomes the right part of curr. */
    method SplitInto(curr: nat, newNode: nat, n: nat, stamp: int, ghost k: nat)
      requires Linked(mem, order, head, tail) && k < |order| && order[k] == curr
      requires newNode < |mem| && newNode !in order
      requires mem[curr].seqNo < n < mem[curr].seqNo + mem[curr].size - 1
      modifies this`mem, this`tail, this`order
      ensures |mem| == |old(mem)| && Linked(mem, order, head, tail)
      ensures order == old(order)[..k + 1] + [newNode] + old(order)[k + 1..]
      ensures var rs := old(Ranges());
              Ranges() == Splice(rs, 0, k, [Left(rs[k], n), Right(rs[k], n).(stamp := stamp)])
    {
      hide Inserted, Chain, Splice;
      ghost var l, r := Left(RangeOf(mem[curr]), n), Right(RangeOf(mem[curr]), n).(stamp := stamp);
      SplitLinked(mem, order, head, tail, k, newNode, l, r);
      SplitView(mem, order, k, newNode, l, r);
      InsertedKeepsRanges(mem, order, k, newNode, curr);
      LinkBehind(curr, newNode, k);
      WriteSplit(curr, newNode, n, stamp);
      order := order[..k + 1] + [newNode] + order[k + 1..];
    }

    /** The values of the two parts of a split. */
    method WriteSplit(curr: nat, newNode: nat, n: nat, stamp: int)
      requires curr < |mem| && newNode < |mem| && curr != newNode
      requires mem[curr].seqNo < n < mem[curr].seqNo + mem[curr].size - 1
      modifies this`mem
      ensures var g := RangeOf(old(mem)[curr]);
              mem == SetRange(SetRange(old(mem), newNode, Right(g, n).(stamp := stamp)), curr, Left(g, n))
    {
      var size := mem[curr].size - (n - mem[curr].seqNo) - 1;
      mem := mem[newNode := mem[newNode].(seqNo := n + 1, size := size, stamp := stamp)];
      mem := mem[curr := mem[curr].(size := mem[curr].size - (size + 1))];
    }

    /** fh_shr_gap_fill_del when the list is full and the split node is not its head: the head node
        leaves the front and becomes the right part, with its time stamp. */
    method SplitReusingHead(curr: nat, n: nat, ghost k: nat) returns (rc: nat, at: Ptr)
      requires Valid() && 0 < k < |order| && order[k] == curr
      requires mem[curr].seqNo < n < mem[curr].seqNo + mem[curr].size - 1
      modifies this`mem, this`head, this`tail, this`order
      ensures Valid() && at == At(order[k]) && rc == old(Ranges())[k].size
      ensures var rs := old(Ranges());
              Ranges() == Splice(rs, 1, k, [Left(rs[k], n), Right(rs[k], n).(stamp := rs[0].stamp)])
    {
      hide Linked, Owns, NonEmpty, Splice, Balanced, View;
      PoolFollowsList();
      Sized(k);
      Sized(0);
      ghost var rs := Ranges();
      OwnsRotate(order, pool.out, k);
      NonEmptySplitTail(rs, k, n, rs[0].stamp);
      rc := mem[curr].size;
      var newNode := TakeHead();
      assert Ranges()[k - 1] == rs[k];
      SplitInto(curr, newNode, n, mem[newNode].stamp, k - 1);
      at := At(newNode);
    }

    method TakeHead() returns (node: nat)
      requires Linked(mem, order, head, tail) && |order| >= 2
      modifies this`mem, this`head, this`order
      ensures Linked(mem, order, head, tail) && order == old(order)[1..] && |mem| == |old(mem)|
      ensures node == old(order)[0] && node !in order
      ensures forall i :: 0 <= i < |mem| ==> RangeOf(mem[i]) == RangeOf(old(mem)[i])
      ensures Ranges() == old(Ranges())[1..]
    {
      DropHeadLinked(mem, order, head, tail);
      assert mem[order[0]].next == At(order[1]);
      node := head.chunk;
      head := mem[node].next;
      mem := SetPrev(mem, head.chunk, Null);
      order := order[1..];
    }

    /** The full list's head itself is split: its left part is given up. */
    method TrimHead(curr: nat, n: nat) returns (rc: nat)
      requires Valid() && |order| > 0 && order[0] == curr
      requires mem[curr].seqNo < n < mem[curr].seqNo + mem[curr].size - 1
      modifies this`mem
      ensures Valid() && rc == n - old(Ranges())[0].seqNo
      ensures Ranges() == old(Ranges())[0 := Right(old(Ranges())[0], n)]
    {
      hide Chain, Owns, Balanced;
      var g := mem[curr];
      rc := n - g.seqNo;
      SetRangeLinked(mem, order, head, tail, 0, Right(RangeOf(g), n));
      mem := mem[curr := g.(size := g.size - (rc + 1), seqNo := n + 1)];
    }

    /** The relinking at the end of fh_shr_gap_fill_del that takes an emptied node out of the list. */
    method Unlink(curr: nat, ghost k: nat)
      requires Linked(mem, order, head, tail) && k < |order| && order[k] == curr
      modifies this`mem, this`head, this`tail
      ensures (mem, head, tail) == Unlinked(old(mem), order, old(head), old(tail), k)
    {
      hide Chain;
      Neighbours(mem, order, head, tail, k);
      if head == tail {
        head := Null;
        tail := Null;
      } else if At(curr) == head {
        head := mem[curr].next;
        mem := SetPrev(mem, head.chunk, Null);
      } else if At(curr) == tail {
        tail := mem[curr].prev;
        mem := SetNext(mem, tail.chunk, Null);
      } else {
        var prev, next := mem[curr].prev, mem[curr].next;
        mem := SetNext(mem, prev.chunk, next);
        mem := SetPrev(mem, next.chunk, prev);
      }
    }

    /** Taking a node out and giving its chunk back to the pool. */
    method Release(curr: nat, ghost k: nat)
      requires Structure() && k < |order| && order[k] == curr
      modifies this, pool
      ensures Structure() && Ranges() == Splice(old(Ranges()), 0, k, []) && count == old(count) - 1
    {
      hide Linked, Owns, Splice, Balanced, Unlinked;
      Neighbours(mem, order, head, tail, k);
      UnlinkedLinked(mem, order, head, tail, k);
      UnlinkedView(mem, order, head, tail, k);
      OwnsRemove(order, pool.out, k);
      OwnsMember(order, pool.out, k);
      Unlink(curr, k);
      order := order[..k] + order[k + 1..];
      pool.Put(curr);
      count := count - 1;
    }

    /** Taking the first or last number off the range of a node. */
    method TrimEdge(curr: nat, n: nat, ghost k: nat)
      requires Valid() && k < |order| && order[k] == curr
      requires mem[curr].seqNo == n || n + 1 == mem[curr].seqNo + mem[curr].size
      modifies this`mem
      ensures Structure() && |Ranges()| == |old(Ranges())|
      ensures var rs := old(Ranges()); Ranges() == rs[k := if rs[k].seqNo == n then Right(rs[k], n) else Left(rs[k], n)]
    {
      hide Chain, Owns, Balanced;
      var g := mem[curr];
      ghost var r := RangeOf(g);
      SetRangeLinked(mem, order, head, tail, k, if r.seqNo == n then Right(r, n) else Left(r, n));
      if g.seqNo == n {
        mem := mem[curr := g.(seqNo := g.seqNo + 1, size := g.size - 1)];
      } else {
        mem := mem[curr := g.(size := g.size - 1)];
      }
    }

    /** A number inside the range of a node: the three ways of splitting it. */
    method SplitNode(curr: nat, n: nat, ghost k: nat) returns (rc: nat, at: Ptr)
      requires Valid() && k < |order| && order[k] == curr
      requires mem[curr].seqNo < n < mem[curr].seqNo + mem[curr].size - 1
      modifies this, pool
      ensures Valid()
      ensures Ranges() == GapRanges.Del(old(Ranges()), max, k, n) && rc == DelResult(old(Ranges()), max, k, n)
      ensures PointsAt(order, at, HandedBack(old(Ranges()), max, k, n))
    {
      hide Linked, Owns, NonEmpty, Splice, Balanced, View, GapRanges.Del, DelResult, HandedBack;
      PoolFollowsList();
      Sized(k);
      HeadIsFirst(k);
      ghost var rs := Ranges();
      DelInside(rs, max, k, n);
      SpliceOne(rs, k, Right(rs[k], n));
      if count >= max {
        if At(curr) == head {
          rc := TrimHead(curr, n);
          at := At(curr);
        } else {
          rc, at := SplitReusingHead(curr, n, k);
        }
      } else {
        at := SplitWithNewNode(curr, n, k);
        rc := 0;
      }
    }

    lemma HeadIsFirst(k: nat)
      requires Valid() && k < |order|
      ensures At(order[k]) == head <==> k == 0
    {
    }

    /** fh_shr_gap_fill_del: n is taken out of the range of the node, what the full list gives up for it
        is returned, and the node of the remaining part, the right one of a split, is handed back, or
        null. A number outside the range changes nothing and returns 0. */
    method Del(node: nat, n: nat, ghost k: nat) returns (rc: nat, at: Ptr)
      requires Valid() && k < |order| && order[k] == node
      modifies this, pool
      ensures Valid()
      ensures Contains(old(Ranges())[k], n) ==>
              Ranges() == GapRanges.Del(old(Ranges()), max, k, n) && rc == DelResult(old(Ranges()), max, k, n) &&
              PointsAt(order, at, HandedBack(old(Ranges()), max, k, n))
      ensures !Contains(old(Ranges())[k], n) ==> Ranges() == old(Ranges()) && rc == 0 && at == At(node)
    {
      hide Linked, Owns, NonEmpty, Splice, Balanced;
      var curr := node;
      Sized(k);
      rc, at := 0, At(node);
      if mem[curr].seqNo == n || mem[curr].seqNo + mem[curr].size - 1 == n {
        rc, at := DelAtEdge(curr, n, k);
      } else if n > mem[curr].seqNo && n < mem[curr].seqNo + mem[curr].size - 1 {
        rc, at := SplitNode(curr, n, k);
      }
    }

    lemma Sized(k: nat)
      requires Valid() && k < |order|
      ensures InMemory(mem, order) && Ranges()[k] == RangeOf(mem[order[k]]) && mem[order[k]].size > 0
    {
    }

    /** The first two branches of fh_shr_gap_fill_del and its end, where a range left empty goes. */
    method DelAtEdge(curr: nat, n: nat, ghost k: nat) returns (rc: nat, at: Ptr)
      requires Valid() && k < |order| && order[k] == curr
      requires mem[curr].seqNo == n || n + 1 == mem[curr].seqNo + mem[curr].size
      modifies this, pool
      ensures Valid() && rc == 0
      ensures Contains(old(Ranges())[k], n) && Ranges() == GapRanges.Del(old(Ranges()), max, k, n)
      ensures PointsAt(order, at, HandedBack(old(Ranges()), max, k, n))
    {
      hide Linked, Owns, NonEmpty, Splice, Balanced;
      Sized(k);
      ghost var rs := Ranges();
      ghost var r := if rs[k].seqNo == n then Right(rs[k], n) else Left(rs[k], n);
      SpliceOne(rs, k, r);
      TrimEdge(curr, n, k);
      assert Ranges()[k] == RangeOf(mem[curr]);
      rc, at := 0, At(curr);
      if mem[curr].size == 0 {
        Release(curr, k);
        at := Null;
      }
    }

    /** The removal inside fh_shr_gap_fill_flush; the node's next is read after its chunk is returned. */
    method DropHead()
      requires Valid() && head.At?
      modifies this, pool
      ensures Valid() && |old(Ranges())| > 0 && Ranges() == old(Ranges())[1..]
    {
      hide Linked, Owns, Balanced, View, Unlinked, Splice, NonEmpty;
      HeadFacts();
      SpliceHead(Ranges());
      UnlinkedLinked(mem, order, head, tail, 0);
      UnlinkedView(mem, order, head, tail, 0);
      OwnsRemove(order, pool.out, 0);
      OwnsMember(order, pool.out, 0);
      assert order[..0] + order[1..] == order[1..];
      pool.Put(head.chunk);
      RelinkHead();
      order := order[1..];
      count := count - 1;
    }

    method RelinkHead()
      requires Linked(mem, order, head, tail) && head.At?
      modifies this`mem, this`head, this`tail
      ensures InMemory(old(mem), order) && |order| > 0
      ensures (mem, head, tail) == Unlinked(old(mem), order, old(head), old(tail), 0)
    {
      hide Linked;
      NonEmptyList(mem, order, head, tail);
      head := mem[head.chunk].next;
      if head.Null? {
        tail := Null;
      } else {
        mem := SetPrev(mem, head.chunk, Null);
      }
    }

    lemma HeadFacts()
      requires Valid()
      ensures head.At? <==> |order| > 0
      ensures InMemory(mem, order) && |Ranges()| == |order|
      ensures head.At? ==> head == At(order[0]) && mem[order[0]].next == if |order| > 1 then At(order[1]) else Null
    {
    }

    /** fh_shr_gap_fill_flush: drop ranges from the head while they are older than the limit and return
        how many numbers they held. */
    method Flush(now: int) returns (lost: nat)
      requires Valid()
      modifies this, pool
      ensures Valid() && Ranges() == GapRanges.Flush(old(Ranges()), now - timeout)
      ensures lost == Total(old(Ranges())[..Expired(old(Ranges()), now - timeout)])
    {
      hide Structure, Linked, Owns, NonEmpty, Total, GapRanges.Flush, Expired, View;
      var limit := now - timeout;
      HeadFacts();
      ghost var rs, k := Ranges(), 0;
      lost := 0;
      TotalNil();
      assert rs[..0] == [] && rs[0..] == rs;
      while head.At?
        invariant Valid() && InMemory(mem, order) && k <= |rs| && Ranges() == rs[k..]
        invariant forall i :: 0 <= i < k ==> rs[i].stamp < limit
        invariant lost == Total(rs[..k])
        decreases |rs| - k
      {
        HeadFacts();
        Sized(0);
        assert Ranges()[0] == rs[k];
        if mem[head.chunk].stamp >= limit { break; }
        TotalNext(rs, k);
        lost := lost + mem[head.chunk].size;
        DropHead();
        HeadFacts();
        k := k + 1;
      }
      HeadFacts();
      ExpiredIs(rs, limit, k);
      FlushIs(rs, limit);
    }
  }

  lemma SpliceHead(rs: seq<Range>)
    requires |rs| > 0
    ensures Splice(rs, 0, 0, []) == rs[1..] && (NonEmpty(rs) ==> NonEmpty(rs[1..]))
  {
  }

  lemma NonEmptyList(mem: seq<GapNode>, order: seq<nat>, head: Ptr, tail: Ptr)
    requires Linked(mem, order, head, tail) && head.At?
    ensures InMemory(mem, order) && |order| > 0 && head == At(order[0])
    ensures mem[order[0]].next == if |order| > 1 then At(order[1]) else Null
  {
  }

  lemma TotalNext(rs: seq<Range>, k: nat)
    requires k < |rs|
    ensures Total(rs[..k + 1]) == Total(rs[..k]) + rs[k].size
  {
    assert rs[..k + 1][..k] == rs[..k];
  }

  lemma FlushIs(rs: seq<Range>, limit: int)
    ensures Expired(rs, limit) <= |rs| && GapRanges.Flush(rs, limit) == rs[Expired(rs, limit)..]
  {
  }

  /** A new list of at least two ranges driven through any run of new gaps, arrivals and sweeps. The
      linked list holds exactly the ranges of the run; with increasing gaps it therefore covers exactly
      the numbers pushed and not filled, evicted or timed out. The calls return what the account of the
      run says. */
  method Replay(max: nat, timeout: int, run: seq<Event>) returns (list: GapList, returned: nat)
    requires max >= 2 && forall i :: 0 <= i < |run| && run[i].NewGap? ==> run[i].r.size > 0
    ensures list.Valid() && list.Ranges() == After(max, run) && returned == AccountOf(max, run).returned
    ensures Increasing(run) ==> forall n :: Covered(list.Ranges(), n) <==> FateOf(max, run, n) == Missing
  {
    hide After, FateOf, Increasing, Step, AccountOf, Covered;
    AfterNone(max);
    list := new GapList(max, timeout);
    returned := 0;
    for k := 0 to |run|
      invariant fresh(list) && fresh(list.pool) && list.max == max && list.timeout == timeout
      invariant list.Valid() && list.Ranges() == After(max, run[..k])
      invariant returned == AccountOf(max, run[..k]).returned
    {
      AfterNext(max, run, k);
      var rc := Apply(list, run[k]);
      returned := returned + rc;
    }
    assert run[..|run|] == run;
    if Increasing(run) {
      forall n ensures Covered(list.Ranges(), n) <==> FateOf(max, run, n) == Missing { RunKeepsList(max, run, n); }
    }
  }

  method Apply(list: GapList, e: Event) returns (rc: nat)
    requires list.Valid() && list.max >= 2 && (e.NewGap? ==> e.r.size > 0)
    modifies list, list.pool
    ensures list.Valid() && list.Ranges() == Step(old(list.Ranges()), list.max, e)
    ensures rc == Returns(old(list.Ranges()), list.max, e)
  {
    hide Linked, Owns, NonEmpty, View, GapRanges.Push, GapRanges.Del, GapRanges.Flush;
    list.PoolFollowsList();
    rc := 0;
    match e {
      case NewGap(r) =>
        rc := list.Push(r.seqNo, r.size, r.stamp);
      case Arrival(n) =>
        var node, k := list.Find(n);
        list.HeadFacts();
        if node.At? {
          var at;
          rc, at := list.Del(node.chunk, n, k);
        }
      case Sweep(limit) =>
        rc := list.Flush(limit + list.timeout);
    }
  }

  /** Two gaps pushed into a list of one: the second push leaves it without a head. */
  method LosesOnlyRange() returns (list: GapList)
    ensures fresh(list) && list.max == 1 && !list.Valid() && list.head == Null && list.count == 1
  {
    list := new GapList(1, 0);
    list.HeadFacts();
    var rc := list.Push(1, 1, 0);
    list.HeadFacts();
    rc := list.Push(10, 5, 1);
  }

  lemma AfterNone(max: nat)
    ensures After(max, []) == [] && AccountOf(max, []) == Account(0, 0, 0)
  {
  }

  lemma AfterNext(max: nat, run: seq<Event>, k: nat)
    requires k < |run|
    ensures After(max, run[..k + 1]) == Step(After(max, run[..k]), max, run[k])
    ensures AccountOf(max, run[..k + 1]).returned ==
            AccountOf(max, run[..k]).returned + Returns(After(max, run[..k]), max, run[k])
  {
    assert run[..k + 1][..k] == run[..k];
  }
}
