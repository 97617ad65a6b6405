/** The order table of feeds/shared/lookup_tables/fh_shr_lkp_order.c: order entries from one pool, found
    through a hash table whose elements come from another, both of the configured size. */
module OrderTables {
  import opened Basics
  import opened MemoryPool
  import opened HashBuckets
  import opened HashTables

  /** fh_shr_lkp_ord_key_t and fh_shr_lkp_ord_t. */
  datatype OrderKey = OrderKey(orderNo: nat, orderNoStr: string)
  datatype Order = Order(key: OrderKey, price: nat, shares: nat, side: char, stock: string)

  /** The stored entries and the keys that find them correspond one to one. */
  ghost predicate Paired(found: map<OrderKey, nat>, entries: map<nat, Order>, out: set<nat>) {
    && (forall k :: k in found ==> found[k] in out && found[k] in entries && entries[found[k]].key == k)
    && (forall h :: h in out ==> h in entries && entries[h].key in found && found[entries[h].key] == h)
  }

  ghost function Book(found: map<OrderKey, nat>, entries: map<nat, Order>): map<OrderKey, Order>
    requires forall k :: k in found ==> found[k] in entries
  {
    map k | k in found :: entries[found[k]]
  }

  lemma PairedInsert(found: map<OrderKey, nat>, entries: map<nat, Order>, out: set<nat>, h: nat, o: Order)
    requires Paired(found, entries, out) && h !in out && o.key !in found
    ensures Paired(found[o.key := h], entries[h := o], out + {h})
    ensures Book(found[o.key := h], entries[h := o]) == Book(found, entries)[o.key := o]
  {
  }

  /** Writing an unused chunk changes nothing. */
  lemma PairedUnused(found: map<OrderKey, nat>, entries: map<nat, Order>, out: set<nat>, h: nat, o: Order)
    requires Paired(found, entries, out) && h !in out
    ensures Paired(found, entries[h := o], out) && Book(found, entries[h := o]) == Book(found, entries)
  {
  }

  lemma PairedRemove(found: map<OrderKey, nat>, entries: map<nat, Order>, out: set<nat>, key: OrderKey)
    requires Paired(found, entries, out) && key in found
    ensures Paired(found - {key}, entries, out - {found[key]})
    ensures Book(found - {key}, entries) == Book(found, entries) - {key}
  {
  }

  lemma PairedUpdate(found: map<OrderKey, nat>, entries: map<nat, Order>, out: set<nat>, key: OrderKey, o: Order)
    requires Paired(found, entries, out) && key in found && o.key == key
    ensures Paired(found, entries[found[key] := o], out)
    ensures Book(found, entries[found[key] := o]) == Book(found, entries)[key := o]
  {
  }

  class OrderTable {
    const size: nat
    const pool: Mpool                    // mempool
    const hash: HTable<OrderKey, nat>
    var count: nat
    var entries: map<nat, Order>         // the contents of the pool's chunks

    ghost predicate Valid()
      reads this, pool, hash, hash.pool
    {
      && pool != hash.pool && hash.Valid() && pool.Valid()
      && Sized(pool, size) && Sized(hash.pool, size) && !hash.grow
      && count == hash.count == pool.inuse
      && Paired(hash.Map(), entries, pool.out)
    }

    ghost function Orders(): map<OrderKey, Order>
      requires hash.Valid() && Paired(hash.Map(), entries, pool.out)
      reads this, pool, hash, hash.pool
    {
      Book(hash.Map(), entries)
    }

    /** fh_shr_lkp_ord_init for an enabled table. */
    constructor (size: nat, khash: OrderKey -> nat)
      requires 2 * size <= MAX_BUCKETS
      ensures Valid() && Orders() == map[] && this.size == size
      ensures fresh(pool) && fresh(hash) && fresh(hash.pool)
    {
      hide Buckets, Heads, Indexed, Balanced, PowerOfTwo, Contents;
      this.size := size;
      pool := new Mpool(size, false);
      hash := new HTable<OrderKey, nat>(size, false, khash);
      count, entries := 0, map[];
    }

    /** In every valid table the two pools move in step: an entry is to be had exactly when a hash
        element is. */
    lemma PoolsInStep()
      requires Valid()
      ensures count == hash.count == pool.inuse == hash.pool.inuse <= size
      ensures (pool.free == 0 <==> count == size) && (hash.pool.free == 0 <==> count == size)
    {
      hide Buckets, Heads, Indexed, PowerOfTwo, Contents, Paired;
    }

    /** fh_shr_lkp_ord_get: the entry of the key, or null. */
    method Get(key: OrderKey) returns (status: Status, entry: Ptr)
      requires Valid()
      ensures key in Orders() ==> status == Ok && entry == At(hash.Map()[key]) && entry.chunk in entries
                                  && entries[entry.chunk] == Orders()[key]
      ensures key !in Orders() ==> status == NotFound && entry == Null
    {
      hide Buckets, Heads, Indexed, Balanced, PowerOfTwo, Contents;
      var value;
      status, value := hash.Get(key);
      entry := if value.Some? then At(value.value) else Null;
    }

    /** fh_shr_lkp_ord_add. The status FH_ERROR of fh_ht_put, which is not checked for, cannot occur. */
    method Add(order: Order) returns (status: Status)
      requires Valid()
      modifies this, pool, hash, hash.pool
      ensures Valid()
      ensures status == Error <==> old(count) == size
      ensures status == Duplicate <==> old(count) < size && order.key in old(Orders())
      ensures status in {Ok, Error, Duplicate}
      ensures Orders() == if status == Ok then old(Orders())[order.key := order] else old(Orders())
    {
      hide Buckets, Heads, Indexed, Balanced, PowerOfTwo, Contents, Paired, Book;
      PoolsInStep();
      var p := pool.Get(false);
      if p.Null? { return Error; }
      ghost var found, out := hash.Map(), old(pool.out);
      PairedUnused(found, entries, out, p.chunk, order);
      KeysAgree(found, entries, out, order.key);
      if order.key !in found { PairedInsert(found, entries, out, p.chunk, order); }
      entries := entries[p.chunk := order];
      var put := hash.Put(order.key, p.chunk, false, false);
      if put == Duplicate {
        pool.Put(p.chunk);
        assert pool.out == out;
        return Duplicate;
      }
      assert put != Error;
      count := count + 1;
      return Ok;
    }

    /** fh_shr_lkp_ord_del */
    method Del(key: OrderKey) returns (status: Status, entry: Ptr)
      requires Valid()
      modifies this, pool, hash, hash.pool
      ensures Valid()
      ensures status == (if key in old(Orders()) then Ok else NotFound)
      ensures entry == (if key in old(Orders()) then At(old(hash.Map())[key]) else Null)
      ensures Orders() == old(Orders()) - {key}
    {
      hide Buckets, Heads, Indexed, Balanced, PowerOfTwo, Contents, Paired, Book;
      ghost var found := hash.Map();
      KeysAgree(found, entries, pool.out, key);
      if key in found { PairedRemove(found, entries, pool.out, key); }
      var old_entry;
      status, old_entry := hash.Delete(key);
      if status == Ok {
        pool.Put(old_entry.value);
        count := count - 1;
        entry := At(old_entry.value);
      } else {
        assert old(Orders()) - {key} == old(Orders());
        entry := Null;
      }
    }

    /** The callers' update of an entry in place. */
    method SetShares(entry: nat, shares: nat, ghost key: OrderKey)
      requires Valid() && key in Orders() && hash.Map()[key] == entry
      modifies this`entries
      ensures Valid() && Orders() == old(Orders())[key := old(Orders())[key].(shares := shares)]
    {
      hide Buckets, Heads, Indexed, Balanced, PowerOfTwo, Contents;
      PairedUpdate(hash.Map(), entries, pool.out, key, entries[entry].(shares := shares));
      entries := entries[entry := entries[entry].(shares := shares)];
    }
  }

  lemma KeysAgree(found: map<OrderKey, nat>, entries: map<nat, Order>, out: set<nat>, key: OrderKey)
    requires Paired(found, entries, out)
    ensures forall k :: k in found ==> found[k] in entries
    ensures key in Book(found, entries) <==> key in found
    ensures key in found ==> found[key] in out
  {
  }

  /** A pool of one block of n chunks that cannot grow. */
  ghost predicate Sized(pool: Mpool, n: nat)
    reads pool
  {
    pool.nchunks == n && !pool.growable && pool.nblocks == 1
  }
}
