/** The free-list allocator of common/fh_mpool.c. A chunk is known by its number: block b holds the
    chunks b * nchunks to (b + 1) * nchunks - 1. */
module MemoryPool {

  datatype Ptr = Null | At(chunk: nat)

  function Carved(nblocks: nat, nchunks: nat): nat { nblocks * nchunks }

  lemma OneMoreBlock(nblocks: nat, nchunks: nat)
    ensures Carved(nblocks + 1, nchunks) == Carved(nblocks, nchunks) + nchunks
  {
  }

  /** The free list and the handed-out chunks share the carved chunks out between them. */
  ghost predicate Balanced(chunks: seq<nat>, out: set<nat>, free: nat, inuse: nat, carved: nat) {
    && free == |chunks| && inuse == |out| && free + inuse == carved
    && (forall i, j :: 0 <= i < j < |chunks| ==> chunks[i] != chunks[j])
    && (forall i :: 0 <= i < |chunks| ==> chunks[i] !in out)
    && (forall c :: c in chunks || c in out <==> 0 <= c < carved)
  }

  class Mpool {
    const nchunks: nat         // chunks in a block
    const growable: bool       // FH_MPOOL_FL_GROW
    var nblocks: nat
    var chunks: seq<nat>       // mp_mchunks, the free list from its head
    var free: nat
    var inuse: nat
    ghost var total: nat       // the chunks of all blocks
    ghost var out: set<nat>    // the chunks handed out and not returned

    /** Every chunk of every block is either free, once, or handed out, never both. */
    ghost predicate Valid()
      reads this
    {
      && total == Carved(nblocks, nchunks)
      && Balanced(chunks, out, free, inuse, total)
    }

    /** fh_mpool_new, its allocations succeeding: one block carved into free chunks. */
    constructor (nchunks: nat, growable: bool)
      ensures Valid() && this.nchunks == nchunks && this.growable == growable
      ensures nblocks == 1 && out == {} && inuse == 0
    {
      this.nchunks, this.growable := nchunks, growable;
      nblocks, chunks, free, inuse, out, total := 0, [], 0, 0, {}, 0;
      new;
      Grow();
    }

    /** mpool_grow with a successful allocation: carve one more block, each chunk going to the head. */
    method Grow()
      requires Valid()
      modifies this`nblocks, this`chunks, this`free, this`total
      ensures Valid() && nblocks == old(nblocks) + 1 && free == old(free) + nchunks
    {
      hide Carved, Balanced;
      var first := Carved(nblocks, nchunks);
      OneMoreBlock(nblocks, nchunks);
      nblocks := nblocks + 1;
      for i := 0 to nchunks
        invariant free == old(free) + i && Balanced(chunks, out, free, inuse, first + i)
        modifies this`chunks, this`free
      {
        Carve(first + i);
      }
      total := total + nchunks;
    }

    method Carve(c: nat)
      requires Balanced(chunks, out, free, inuse, c)
      modifies this`chunks, this`free
      ensures Balanced(chunks, out, free, inuse, c + 1) && free == old(free) + 1
    {
      chunks := [c] + chunks;
      free := free + 1;
    }

    /** fh_mpool_get. An exhausted pool grows if it may and the allocation succeeds. */
    method Get(mallocOk: bool) returns (p: Ptr)
      requires Valid() && (growable ==> nchunks > 0)
      modifies this
      ensures Valid()
      ensures p.Null? <==> old(free) == 0 && !(growable && mallocOk)
      ensures p.Null? ==> out == old(out) && inuse == old(inuse) && nblocks == old(nblocks) && chunks == old(chunks)
      ensures p.At? ==> p.chunk !in old(out) && out == old(out) + {p.chunk} && inuse == old(inuse) + 1
      ensures p.At? && old(free) > 0 ==> p.chunk == old(chunks)[0] && nblocks == old(nblocks)
      ensures p.At? && old(free) == 0 ==> nblocks == old(nblocks) + 1
    {
      if free == 0 {
        if !growable || !mallocOk { return Null; }
        Grow();
      }
      var c := chunks[0];
      assert forall x :: x in chunks <==> x == c || x in chunks[1..];
      chunks := chunks[1..];
      inuse := inuse + 1;
      free := free - 1;
      out := out + {c};
      return At(c);
    }

    /** fh_mpool_put */
    method Put(c: nat)
      requires Valid() && c in out
      modifies this`chunks, this`free, this`inuse, this`out
      ensures Valid() && out == old(out) - {c} && inuse == old(inuse) - 1 && chunks == [c] + old(chunks)
    {
      chunks := [c] + chunks;
      inuse := inuse - 1;
      free := free + 1;
      out := out - {c};
    }
  }
}
