/** Collision lists of common/fh_htable.c on values: which element lies in which bucket. Elements are
    known by their pool chunk; a table is a sequence of buckets, each listing its chunks from the head. */
module HashBuckets {

  /** fh_ht_elt_t; chead is the index of the bucket the element believes it is in. */
  datatype Elt<K, V> = Elt(key: K, value: V, hashval: nat, chead: nat)

  /** ht_index: and-ing with size - 1, for a size that is a power of two, is the remainder. */
  function Index(hashval: nat, size: nat): (i: nat)
    requires size > 0
    ensures i < size
  {
    hashval % size
  }

  ghost predicate NoDup(b: seq<nat>) { forall i, j :: 0 <= i < j < |b| ==> b[i] != b[j] }

  /** Exactly the elements of s are in the table, each once, in the bucket of its hash value. */
  ghost predicate Buckets<K, V>(table: seq<seq<nat>>, elts: map<nat, Elt<K, V>>, s: set<nat>) {
    && |table| > 0
    && (forall h :: h in s ==> h in elts && h in table[Index(elts[h].hashval, |table|)])
    && (forall i, h {:trigger h in table[i]} :: 0 <= i < |table| && h in table[i] ==>
          h in s && h in elts && Index(elts[h].hashval, |table|) == i)
    && (forall i :: 0 <= i < |table| ==> NoDup(table[i]))
  }

  /** Every element's back reference names the bucket it is in. */
  ghost predicate Heads<K, V>(elts: map<nat, Elt<K, V>>, s: set<nat>, size: nat) {
    size > 0 && forall h :: h in s ==> h in elts && elts[h].chead == Index(elts[h].hashval, size)
  }

  /** Every element carries the hash value of its key, and index finds the one element of each key. */
  ghost predicate Indexed<K, V>(khash: K -> nat, elts: map<nat, Elt<K, V>>, s: set<nat>, index: map<K, nat>) {
    && (forall h :: h in s ==> h in elts && elts[h].hashval == khash(elts[h].key)
                               && elts[h].key in index && index[elts[h].key] == h)
    && (forall k :: k in index ==> index[k] in s && index[k] in elts && elts[index[k]].key == k)
    && |index| == |s|
  }

  /** The finite map the table stands for. */
  ghost function Contents<K, V>(elts: map<nat, Elt<K, V>>, index: map<K, nat>): map<K, V>
    requires forall k :: k in index ==> index[k] in elts
  {
    map k | k in index :: elts[index[k]].value
  }

  function Insert(table: seq<seq<nat>>, i: nat, h: nat): seq<seq<nat>>
    requires i < |table|
  {
    table[i := [h] + table[i]]
  }

  lemma InsertKeeps<K, V>(table: seq<seq<nat>>, elts: map<nat, Elt<K, V>>, s: set<nat>, h: nat)
    requires Buckets(table, elts, s) && h !in s && h in elts
    ensures Buckets(Insert(table, Index(elts[h].hashval, |table|), h), elts, s + {h})
  {
    var i := Index(elts[h].hashval, |table|);
    var t := Insert(table, i, h);
    assert h !in table[i];
    assert forall x :: x in t[i] <==> x == h || x in table[i];
  }

  function Remove(table: seq<seq<nat>>, i: nat, j: nat): seq<seq<nat>>
    requires i < |table| && j < |table[i]|
  {
    table[i := table[i][..j] + table[i][j + 1..]]
  }

  lemma RemoveKeeps<K, V>(table: seq<seq<nat>>, elts: map<nat, Elt<K, V>>, s: set<nat>, i: nat, j: nat)
    requires Buckets(table, elts, s) && i < |table| && j < |table[i]|
    ensures table[i][j] in s && Buckets(Remove(table, i, j), elts, s - {table[i][j]})
  {
    var h, t := table[i][j], Remove(table, i, j);
    assert h in table[i];
    RestOf(table[i], j);
    forall i', x {:trigger x in t[i']} | 0 <= i' < |t| && x in t[i']
      ensures x in s - {h} && x in elts && Index(elts[x].hashval, |t|) == i'
    {
      assert x in table[i'];
    }
  }

  lemma RestOf(b: seq<nat>, j: nat)
    requires NoDup(b) && j < |b|
    ensures NoDup(b[..j] + b[j + 1..])
    ensures forall x :: x in b[..j] + b[j + 1..] <==> x in b && x != b[j]
  {
    assert b == b[..j] + [b[j]] + b[j + 1..];
  }

  /** Changing back references or elements outside s leaves the buckets as they are. */
  lemma SameHashes<K, V>(table: seq<seq<nat>>, elts: map<nat, Elt<K, V>>, elts': map<nat, Elt<K, V>>, s: set<nat>)
    requires Buckets(table, elts, s)
    requires forall h :: h in s ==> h in elts' && elts'[h].hashval == elts[h].hashval
    ensures Buckets(table, elts', s)
  {
  }

  lemma EmptyTable<K, V>(table: seq<seq<nat>>, elts: map<nat, Elt<K, V>>)
    requires |table| > 0 && forall i :: 0 <= i < |table| ==> table[i] == []
    ensures Buckets(table, elts, {})
  {
  }

  lemma NothingLeft<K, V>(table: seq<seq<nat>>, elts: map<nat, Elt<K, V>>, s: set<nat>)
    requires Buckets(table, elts, s) && forall i :: 0 <= i < |table| ==> table[i] == []
    ensures s == {}
  {
  }

  /** The elements are the same but for their back references. */
  ghost predicate SameButHeads<K, V>(elts: map<nat, Elt<K, V>>, elts': map<nat, Elt<K, V>>) {
    && elts'.Keys == elts.Keys
    && forall h :: h in elts ==> elts'[h] == elts[h].(chead := elts'[h].chead)
  }

  lemma IndexedSame<K, V>(khash: K -> nat, elts: map<nat, Elt<K, V>>, elts': map<nat, Elt<K, V>>, s: set<nat>,
                          index: map<K, nat>)
    requires Indexed(khash, elts, s, index) && SameButHeads(elts, elts')
    ensures Indexed(khash, elts', s, index) && Contents(elts', index) == Contents(elts, index)
  {
  }

  lemma IndexedInsert<K, V>(khash: K -> nat, elts: map<nat, Elt<K, V>>, s: set<nat>, index: map<K, nat>,
                            h: nat, e: Elt<K, V>)
    requires Indexed(khash, elts, s, index) && h !in s && e.key !in index && e.hashval == khash(e.key)
    ensures Indexed(khash, elts[h := e], s + {h}, index[e.key := h])
  {
    OneMoreKey(index, e.key, h);
  }

  lemma OneMoreKey<K>(index: map<K, nat>, key: K, h: nat)
    requires key !in index
    ensures |index[key := h]| == |index| + 1
  {
    assert index[key := h].Keys == index.Keys + {key};
  }

  lemma ContentsInsert<K, V>(khash: K -> nat, elts: map<nat, Elt<K, V>>, s: set<nat>, index: map<K, nat>,
                            h: nat, e: Elt<K, V>)
    requires Indexed(khash, elts, s, index) && h !in s && e.key !in index
    ensures Contents(elts[h := e], index[e.key := h]) == Contents(elts, index)[e.key := e.value]
  {
  }

  lemma IndexedRemove<K, V>(khash: K -> nat, elts: map<nat, Elt<K, V>>, s: set<nat>, index: map<K, nat>, key: K)
    requires Indexed(khash, elts, s, index) && key in index
    ensures Indexed(khash, elts, s - {index[key]}, index - {key})
    ensures Contents(elts, index - {key}) == Contents(elts, index) - {key}
  {
    hide Contents;
    OneKeyLess(index, key);
    ContentsRemove(elts, index, key);
    assert |s - {index[key]}| == |s| - 1;
  }

  lemma OneKeyLess<K>(index: map<K, nat>, key: K)
    requires key in index
    ensures |index - {key}| == |index| - 1
  {
    assert (index - {key}).Keys == index.Keys - {key};
    assert |index.Keys - {key}| == |index.Keys| - 1;
  }

  lemma ContentsRemove<K, V>(elts: map<nat, Elt<K, V>>, index: map<K, nat>, key: K)
    requires forall k :: k in index ==> index[k] in elts
    ensures Contents(elts, index - {key}) == Contents(elts, index) - {key}
  {
  }

  lemma HeadsInsert<K, V>(elts: map<nat, Elt<K, V>>, s: set<nat>, size: nat, h: nat, e: Elt<K, V>)
    requires Heads(elts, s, size) && h !in s && e.chead == Index(e.hashval, size)
    ensures Heads(elts[h := e], s + {h}, size)
  {
  }

  lemma BucketsInsert<K, V>(table: seq<seq<nat>>, elts: map<nat, Elt<K, V>>, s: set<nat>, h: nat, e: Elt<K, V>)
    requires Buckets(table, elts, s) && h !in s
    ensures Buckets(Insert(table, Index(e.hashval, |table|), h), elts[h := e], s + {h})
  {
    SameHashes(table, elts, elts[h := e], s);
    InsertKeeps(table, elts[h := e], s, h);
  }

  lemma NoHeads<K, V>(elts: map<nat, Elt<K, V>>, size: nat)
    requires size > 0
    ensures Heads(elts, {}, size)
  {
  }

  lemma InTable<K, V>(table: seq<seq<nat>>, elts: map<nat, Elt<K, V>>, s: set<nat>, h: nat)
    requires Buckets(table, elts, s) && h in s
    ensures h in elts
  {
  }

  lemma HeadsLess<K, V>(elts: map<nat, Elt<K, V>>, s: set<nat>, size: nat, h: nat)
    requires Heads(elts, s, size)
    ensures Heads(elts, s - {h}, size)
  {
  }

  /** The back reference of an element names the bucket that holds it. */
  lemma FoundByHead<K, V>(khash: K -> nat, table: seq<seq<nat>>, elts: map<nat, Elt<K, V>>, s: set<nat>,
                          index: map<K, nat>, key: K)
    requires Buckets(table, elts, s) && Heads(elts, s, |table|) && Indexed(khash, elts, s, index) && key in index
    ensures var h := index[key]; h in s && h in elts && elts[h].chead < |table| && h in table[elts[h].chead]
  {
  }
}
