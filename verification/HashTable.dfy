/** The growable chained hash table of common/fh_htable.c, proved to be a finite map for any hash
    function. */
module HashTables {
  import opened Basics
  import opened MemoryPool
  import opened HashBuckets

  ghost predicate PowerOfTwo(n: nat) { exists k :: Pow2(k) == n }

  const MAX_BUCKETS: nat := 0x4000_0000

  /** ht_npower: the least power of two that is at least n, for any n an int can hold a power above. */
  method NPower(n: nat) returns (size: nat)
    requires n <= MAX_BUCKETS
    ensures PowerOfTwo(size) && n <= size <= MAX_BUCKETS && (size == 1 || size < 2 * n)
  {
    size := 1;
    ghost var k := 0;
    while size < n
      invariant size == Pow2(k) && size <= MAX_BUCKETS && (size == 1 || size < 2 * n)
      invariant PowerOfTwo(size) && k <= 30 && size == Pow2(k)
      decreases n - size
    {
      assert size < MAX_BUCKETS;
      PowersBelow(k);
      assert Pow2(k + 1) == 2 * size;
      size := 2 * size;
      k := k + 1;
    }
  }

  /** Twice a power of two is the power of two that NPower finds for it. */
  lemma DoubledPower(size: nat, newsize: nat)
    requires PowerOfTwo(size) && PowerOfTwo(newsize) && 2 * size <= newsize < 4 * size
    ensures newsize == 2 * size
  {
    var i: nat, j: nat :| Pow2(i) == size && Pow2(j) == newsize;
    assert Pow2(i + 1) == 2 * size && Pow2(i + 2) == 4 * size;
    if j <= i { PowMonotone(j, i); }
    if j >= i + 2 { PowMonotone(i + 2, j); }
  }

  /** A power of two below 2^30 is at most 2^29. */
  lemma PowersBelow(k: nat)
    requires Pow2(k) < MAX_BUCKETS
    ensures k < 30 && 2 * Pow2(k) <= MAX_BUCKETS
  {
    assert Pow2(30) == MAX_BUCKETS by { PowerThirty(); }
    if k >= 30 { PowMonotone(30, k); }
    else { PowMonotone(k + 1, 30); }
  }

  lemma {:induction false} PowMonotone(a: nat, b: nat)
    requires a <= b
    ensures Pow2(a) <= Pow2(b)
  {
    if a < b { PowMonotone(a, b - 1); }
  }

  lemma {:induction false} PowAdd(a: nat, b: nat)
    ensures Pow2(a + b) == Pow2(a) * Pow2(b)
  {
    if a > 0 {
      PowAdd(a - 1, b);
      assert Pow2(a + b) == 2 * Pow2(a - 1 + b);
    }
  }

  lemma PowerThirty()
    ensures Pow2(30) == 0x4000_0000
  {
    assert Pow2(2) == 4 && Pow2(4) == 16 && Pow2(5) == 32;
    PowAdd(5, 5);
    PowAdd(10, 10);
    PowAdd(10, 20);
  }

  class HTable<K(==), V(==)> {
    const khash: K -> nat              // kops_khash
    const grow: bool                   // FH_HT_FL_GROW
    const pool: Mpool                  // ht_mpool
    var table: seq<seq<nat>>           // ht_table: the collision lists
    var size: nat
    var mask: nat
    var count: nat
    var elts: map<nat, Elt<K, V>>      // the contents of the pool's chunks
    ghost var index: map<K, nat>       // the element of each key

    ghost predicate Valid()
      reads this, pool
    {
      && pool.Valid() && pool.growable == grow && (grow ==> pool.nchunks > 0)
      && |table| == size == mask + 1 && PowerOfTwo(size) && size <= MAX_BUCKETS
      && count == pool.inuse
      && Buckets(table, elts, pool.out)
      && Heads(elts, pool.out, size)
      && Indexed(khash, elts, pool.out, index)
    }

    /** The map the table refines. */
    ghost function Map(): map<K, V>
      requires Indexed(khash, elts, pool.out, index)
      reads this, pool
    {
      Contents(elts, index)
    }

    /** ht_count is the number of keys. */
    lemma CountsKeys()
      requires Valid()
      ensures |Map()| == count
    {
      hide Buckets, Heads;
      assert Map().Keys == index.Keys;
    }

    /** The pool is exhausted exactly when every chunk of its blocks holds an element. */
    lemma RoomLeft()
      requires Valid()
      ensures pool.free == 0 <==> count == Carved(pool.nblocks, pool.nchunks)
      ensures count <= Carved(pool.nblocks, pool.nchunks)
    {
      hide Buckets, Heads, Indexed, PowerOfTwo, Carved;
    }

    /** fh_ht_new, its allocations succeeding. */
    constructor (psize: nat, grow: bool, khash: K -> nat)
      requires 2 * psize <= MAX_BUCKETS && (grow ==> psize > 0)
      ensures Valid() && Map() == map[] && fresh(pool) && this.grow == grow && this.khash == khash
      ensures pool.nchunks == psize && pool.nblocks == 1 && count == 0 && size >= 2 * psize && size > 0
    {
      var n := NPower(2 * psize);
      this.khash, this.grow := khash, grow;
      pool := new Mpool(psize, grow);
      table, size, mask, count, elts, index := seq(n, _ => []), n, n - 1, 0, map[], map[];
    }

    /** ht_lookup: the element of the key, or null. */
    method Lookup(key: K) returns (p: Ptr)
      requires Valid()
      ensures p == if key in index then At(index[key]) else Null
      ensures key in Map() <==> key in index
      ensures p.At? ==> p.chunk in elts && Map()[key] == elts[p.chunk].value
    {
      hide PowerOfTwo, Balanced, NoDup;
      var hashval := khash(key);
      var bucket := table[Index(hashval, mask + 1)];
      for j := 0 to |bucket|
        invariant forall i :: 0 <= i < j ==> bucket[i] in elts && elts[bucket[i]].key != key
      {
        assert bucket[j] in bucket;
        var he := elts[bucket[j]];
        if he.hashval == hashval && he.key == key { return At(bucket[j]); }
      }
      return Null;
    }

    /** fh_ht_get */
    method Get(key: K) returns (status: Status, value: Option<V>)
      requires Valid()
      ensures if key in Map() then status == Ok && value == Some(Map()[key]) else status == NotFound && value == None
    {
      var p := Lookup(key);
      if p.Null? { return NotFound, None; }
      return Ok, Some(elts[p.chunk].value);
    }

    /** ht_grow with a successful allocation. Each collision list is emptied from its head into the new
        table; s is the set of elements in the table. */
    method Grow(ghost s: set<nat>)
      requires |table| == size && size > 0 && 2 * size <= MAX_BUCKETS && PowerOfTwo(size) && Buckets(table, elts, s)
      modifies this`table, this`size, this`mask, this`elts
      ensures size == 2 * old(size) && PowerOfTwo(size) && |table| == size == mask + 1
      ensures Buckets(table, elts, s) && Heads(elts, s, size) && SameButHeads(old(elts), elts)
    {
      hide PowerOfTwo, Buckets, Heads, Insert, Index;
      var newsize := NPower(2 * size);
      DoubledPower(size, newsize);
      var oldtable := table;
      table, size, mask := seq(newsize, _ => []), newsize, newsize - 1;
      EmptyTable(table, elts);
      NoHeads(elts, newsize);
      ghost var left := s;
      assert s - left == {};
      for i := |oldtable| downto 0
        invariant |table| == size == newsize == mask + 1 && |oldtable| == old(size)
        invariant left <= s && Buckets(oldtable, elts, left) && Buckets(table, elts, s - left)
        invariant Heads(elts, s - left, newsize) && SameButHeads(old(elts), elts)
        invariant forall k :: i <= k < |oldtable| ==> oldtable[k] == []
      {
        oldtable, left := Drain(oldtable, i, s, left);
      }
      NothingLeft(oldtable, elts, left);
      assert s - left == s;
    }

    /** The inner loop of ht_grow. */
    method Drain(from: seq<seq<nat>>, i: nat, ghost s: set<nat>, ghost left: set<nat>)
        returns (oldtable: seq<seq<nat>>, ghost rest: set<nat>)
      requires i < |from| && |table| == size && left <= s
      requires Buckets(from, elts, left) && Buckets(table, elts, s - left) && Heads(elts, s - left, size)
      modifies this`table, this`elts
      ensures |oldtable| == |from| && |table| == size && rest <= s
      ensures Buckets(oldtable, elts, rest) && Buckets(table, elts, s - rest) && Heads(elts, s - rest, size)
      ensures SameButHeads(old(elts), elts)
      ensures oldtable == from[i := []]
    {
      hide Buckets, Heads, Insert, Index;
      oldtable, rest := from, left;
      while oldtable[i] != []
        invariant |oldtable| == |from| && |table| == size && rest <= s
        invariant Buckets(oldtable, elts, rest) && Buckets(table, elts, s - rest) && Heads(elts, s - rest, size)
        invariant SameButHeads(old(elts), elts)
        invariant oldtable == from[i := oldtable[i]]
        decreases |oldtable[i]|
      {
        var he := oldtable[i][0];
        RemoveKeeps(oldtable, elts, rest, i, 0);
        InTable(oldtable, elts, rest, he);
        assert oldtable[i][..0] + oldtable[i][1..] == oldtable[i][1..];
        assert s - (rest - {he}) == s - rest + {he};
        oldtable := oldtable[i := oldtable[i][1..]];
        MoveOne(oldtable, rest - {he}, s - rest, he);
        rest := rest - {he};
      }
    }

    /** Linking one element into its new bucket. */
    method MoveOne(oldtable: seq<seq<nat>>, ghost rest: set<nat>, ghost done: set<nat>, he: nat)
      requires |table| == size && he in elts && he !in done
      requires Buckets(oldtable, elts, rest) && Buckets(table, elts, done) && Heads(elts, done, size)
      modifies this`table, this`elts
      ensures |table| == size && SameButHeads(old(elts), elts)
      ensures Buckets(oldtable, elts, rest) && Buckets(table, elts, done + {he}) && Heads(elts, done + {he}, size)
    {
      var i := Index(elts[he].hashval, size);
      var e := elts[he].(chead := i);
      BucketsInsert(table, elts, done, he, e);
      HeadsInsert(elts, done, size, he, e);
      SameHashes(oldtable, elts, elts[he := e], rest);
      table := Insert(table, i, he);
      elts := elts[he := e];
    }

    /** fh_ht_put. A key already present changes nothing; an exhausted pool is an error; otherwise the
        map gains the key, and the table grows first when it would be more than 80% full. */
    method Put(key: K, value: V, mallocOk: bool, callocOk: bool) returns (status: Status)
      requires Valid() && (callocOk && grow && 5 * (count + 1) > 4 * size ==> 2 * size <= MAX_BUCKETS)
      modifies this, pool
      ensures Valid()
      ensures status == Duplicate <==> key in old(Map())
      ensures status == Error <==> key !in old(Map()) && old(pool.free) == 0 && !(grow && mallocOk)
      ensures status in {Ok, Error, Duplicate}
      ensures Map() == if status == Ok then old(Map())[key := value] else old(Map())
      ensures pool.nblocks == old(pool.nblocks) + (if status == Ok && old(pool.free) == 0 then 1 else 0)
      ensures count == old(count) + (if status == Ok then 1 else 0)
      ensures size == if status == Ok && grow && 5 * count > 4 * old(size) && callocOk then 2 * old(size) else old(size)
    {
      hide Buckets, Heads, Indexed, Balanced, PowerOfTwo, Contents;
      var p := Lookup(key);
      if p.At? { return Duplicate; }
      ghost var s := pool.out;
      var q := pool.Get(mallocOk);
      if q.Null? { return Error; }
      count := count + 1;
      if grow {
        if 5 * count > 4 * size {
          if callocOk { GrowIndexed(s); }
        }
      }
      Place(q.chunk, key, value, s);
      return Ok;
    }

    /** Growing keeps the map. */
    method GrowIndexed(ghost s: set<nat>)
      requires |table| == size && size > 0 && 2 * size <= MAX_BUCKETS && PowerOfTwo(size)
      requires Buckets(table, elts, s) && Indexed(khash, elts, s, index)
      modifies this`table, this`size, this`mask, this`elts
      ensures size == 2 * old(size) && PowerOfTwo(size) && |table| == size == mask + 1
      ensures Buckets(table, elts, s) && Heads(elts, s, size) && Indexed(khash, elts, s, index)
      ensures Contents(elts, index) == old(Contents(elts, index))
    {
      hide Buckets, Heads, Contents;
      Grow(s);
      IndexedSame(khash, old(elts), elts, s, index);
    }

    /** The end of fh_ht_put: the new element goes to the head of its bucket. */
    method Place(he: nat, key: K, value: V, ghost s: set<nat>)
      requires |table| == size > 0 && he !in s && key !in index
      requires Buckets(table, elts, s) && Heads(elts, s, size) && Indexed(khash, elts, s, index)
      modifies this`table, this`elts, this`index
      ensures |table| == size && Buckets(table, elts, s + {he}) && Heads(elts, s + {he}, size)
      ensures Indexed(khash, elts, s + {he}, index)
      ensures Contents(elts, index) == old(Contents(elts, index))[key := value]
    {
      hide Buckets, Heads, Contents;
      var hashval := khash(key);
      var i := Index(hashval, size);
      var e := Elt(key, value, hashval, i);
      BucketsInsert(table, elts, s, he, e);
      HeadsInsert(elts, s, size, he, e);
      IndexedInsert(khash, elts, s, index, he, e);
      ContentsInsert(khash, elts, s, index, he, e);
      table := Insert(table, i, he);
      elts := elts[he := e];
      index := index[key := he];
    }

    /** fh_ht_delete: the element leaves the bucket its back reference names. */
    method Delete(key: K) returns (status: Status, value: Option<V>)
      requires Valid()
      modifies this, pool
      ensures Valid()
      ensures key in old(Map()) ==> status == Ok && value == Some(old(Map())[key]) && Map() == old(Map()) - {key}
      ensures key !in old(Map()) ==> status == NotFound && value == None && Map() == old(Map())
      ensures pool.nblocks == old(pool.nblocks)
      ensures count == old(count) - (if status == Ok then 1 else 0) && size == old(size)
    {
      hide Buckets, Heads, Indexed, Balanced, PowerOfTwo, Contents;
      var p := Lookup(key);
      if p.Null? { return NotFound, None; }
      var he := p.chunk;
      value := Some(elts[he].value);
      RemoveElement(he, key);
      pool.Put(he);
      count := count - 1;
      return Ok, value;
    }

    method RemoveElement(he: nat, ghost key: K)
      requires Valid() && key in index && index[key] == he
      modifies this`table, this`index
      ensures var s := pool.out - {he};
              he in pool.out && |table| == size && Buckets(table, elts, s) && Heads(elts, s, size)
              && Indexed(khash, elts, s, index)
      ensures Contents(elts, index) == old(Contents(elts, index)) - {key}
    {
      hide Buckets, Heads, Indexed, Balanced, PowerOfTwo, Contents;
      FoundByHead(khash, table, elts, pool.out, index, key);
      HeadsLess(elts, pool.out, size, he);
      var i := elts[he].chead;
      var j := Position(table[i], he);
      RemoveKeeps(table, elts, pool.out, i, j);
      IndexedRemove(khash, elts, pool.out, index, key);
      table := Remove(table, i, j);
      index := index - {key};
    }
  }

  /** Where TAILQ_REMOVE finds the element. */
  method Position(bucket: seq<nat>, h: nat) returns (j: nat)
    requires h in bucket
    ensures j < |bucket| && bucket[j] == h
  {
    j := 0;
    while bucket[j] != h
      invariant j < |bucket| && h in bucket[j..]
      decreases |bucket| - j
    {
      j := j + 1;
    }
  }
}
