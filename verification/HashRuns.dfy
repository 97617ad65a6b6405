/** Whole runs of the hash table of common/fh_htable.c: the finite map it stands for, what each call
    answers, and how full the buckets get. */
module HashRuns {
  import opened Basics
  import opened MemoryPool
  import opened HashBuckets
  import opened HashTables

  /** A call, with the outcomes of the allocations it may make. */
  datatype Op<K, V> =
    | PutOp(key: K, value: V, mallocOk: bool, callocOk: bool)
    | GetOp(key: K)
    | DeleteOp(key: K)

  /** The contents, the number of buckets and the number of elements the pool can hold. */
  datatype Model<K, V> = Model(contents: map<K, V>, size: nat, capacity: nat)

  predicate Stores<K, V>(grow: bool, m: Model<K, V>, op: Op<K, V>) {
    op.PutOp? && op.key !in m.contents && (|m.contents| < m.capacity || (grow && op.mallocOk))
  }

  /** One more element fills a growing table by more than 80%. */
  predicate GrowthDue<K, V>(grow: bool, m: Model<K, V>) { grow && 5 * (|m.contents| + 1) > 4 * m.size }

  /** The allocation of twice the buckets succeeds. */
  predicate Grows<K, V>(m: Model<K, V>, op: Op<K, V>) { op.PutOp? && op.callocOk && 2 * m.size <= MAX_BUCKETS }

  function Step<K, V>(grow: bool, chunks: nat, m: Model<K, V>, op: Op<K, V>): Model<K, V> {
    match op
    case GetOp(_) => m
    case DeleteOp(key) => m.(contents := m.contents - {key})
    case PutOp(key, value, _, _) =>
      if !Stores(grow, m, op) then m
      else Model(m.contents[key := value],
                 if GrowthDue(grow, m) && Grows(m, op) then 2 * m.size else m.size,
                 if |m.contents| < m.capacity then m.capacity else m.capacity + chunks)
  }

  /** The status and the value a call returns. */
  function StatusOf<K, V>(grow: bool, m: Model<K, V>, op: Op<K, V>): Status {
    if op.PutOp? then (if op.key in m.contents then Duplicate else if Stores(grow, m, op) then Ok else Error)
    else if op.key in m.contents then Ok else NotFound
  }

  function ValueOf<K, V>(m: Model<K, V>, op: Op<K, V>): Option<V> {
    if !op.PutOp? && op.key in m.contents then Some(m.contents[op.key]) else None
  }

  function After<K, V>(grow: bool, chunks: nat, m: Model<K, V>, ops: seq<Op<K, V>>): Model<K, V> {
    if ops == [] then m else Step(grow, chunks, After(grow, chunks, m, ops[..|ops| - 1]), ops[|ops| - 1])
  }

  // ----- how full the table gets -----

  predicate Loaded<K, V>(m: Model<K, V>) { 5 * |m.contents| <= 4 * m.size }

  /** The call stores an element for which the table would have to grow and cannot. */
  predicate Overloads<K, V>(grow: bool, m: Model<K, V>, op: Op<K, V>) {
    Stores(grow, m, op) && GrowthDue(grow, m) && !Grows(m, op)
  }

  /** A growing table stays at most 80% full over a call exactly if a growth that is due succeeds. */
  lemma StepLoaded<K, V>(chunks: nat, m: Model<K, V>, op: Op<K, V>)
    requires Loaded(m) && m.size > 0
    ensures Loaded(Step(true, chunks, m, op)) <==> !Overloads(true, m, op)
  {
    if op.DeleteOp? { Shrinks(m.contents, op.key); }
    if Stores(true, m, op) { OneMore(m.contents, op.key, op.value); }
  }

  lemma {:induction false} KeepsBuckets<K, V>(grow: bool, chunks: nat, m: Model<K, V>, ops: seq<Op<K, V>>)
    requires m.size > 0
    ensures After(grow, chunks, m, ops).size > 0
  {
    if ops != [] { KeepsBuckets(grow, chunks, m, ops[..|ops| - 1]); }
  }

  lemma Shrinks<K, V>(contents: map<K, V>, key: K)
    ensures |contents - {key}| <= |contents|
  {
    assert (contents - {key}).Keys == contents.Keys - {key};
    if key in contents {
      assert |contents.Keys - {key}| == |contents.Keys| - 1;
    } else {
      assert contents - {key} == contents;
    }
  }

  lemma OneMore<K, V>(contents: map<K, V>, key: K, value: V)
    requires key !in contents
    ensures |contents[key := value]| == |contents| + 1
  {
    assert contents[key := value].Keys == contents.Keys + {key};
  }

  ghost predicate AlwaysLoaded<K(!new), V(!new)>(chunks: nat, m: Model<K, V>, ops: seq<Op<K, V>>) {
    Loaded(After(true, chunks, m, ops)) && (ops != [] ==> AlwaysLoaded(chunks, m, ops[..|ops| - 1]))
  }

  ghost predicate NoOverload<K(!new), V(!new)>(chunks: nat, m: Model<K, V>, ops: seq<Op<K, V>>) {
    ops == [] || (NoOverload(chunks, m, ops[..|ops| - 1]) &&
                  !Overloads(true, After(true, chunks, m, ops[..|ops| - 1]), ops[|ops| - 1]))
  }

  /** Over every run a growing table is at most 80% full after each call exactly if every growth that
      is due succeeds. */
  lemma {:induction false} LoadedExactly<K(!new), V(!new)>(chunks: nat, m: Model<K, V>, ops: seq<Op<K, V>>)
    requires Loaded(m) && m.size > 0
    ensures AlwaysLoaded(chunks, m, ops) <==> NoOverload(chunks, m, ops)
  {
    hide Step, Loaded, Overloads;
    if ops != [] {
      var before, op := ops[..|ops| - 1], ops[|ops| - 1];
      LoadedExactly(chunks, m, before);
      KeepsBuckets(true, chunks, m, before);
      if AlwaysLoaded(chunks, m, before) { StepLoaded(chunks, After(true, chunks, m, before), op); }
    }
  }

  /** A table that may not grow never holds more than its pool, and its buckets are twice as many. */
  lemma {:induction false} FixedStaysLoaded<K, V>(chunks: nat, m: Model<K, V>, ops: seq<Op<K, V>>)
    requires |m.contents| <= m.capacity && 2 * m.capacity <= m.size
    ensures var r := After(false, chunks, m, ops);
            r.capacity == m.capacity && r.size == m.size && |r.contents| <= m.capacity && Loaded(r)
  {
    if ops != [] {
      var before, op := ops[..|ops| - 1], ops[|ops| - 1];
      FixedStaysLoaded(chunks, m, before);
      var r := After(false, chunks, m, before);
      if op.DeleteOp? { Shrinks(r.contents, op.key); }
      if Stores(false, r, op) { OneMore(r.contents, op.key, op.value); }
    }
  }

  // ----- the table itself -----

  /** The table stands for the model. */
  ghost predicate Refines<K(!new), V(!new)>(table: HTable<K, V>, m: Model<K, V>)
    reads table, table.pool
  {
    table.Valid() && table.Map() == m.contents && table.size == m.size
    && m.capacity == Carved(table.pool.nblocks, table.pool.nchunks)
  }

  /** The calls so far were answered as the map of the run before each of them answers. */
  ghost predicate Answered<K, V>(grow: bool, chunks: nat, m: Model<K, V>, ops: seq<Op<K, V>>,
                                 answers: seq<(Status, Option<V>)>) {
    |answers| <= |ops| && forall i :: 0 <= i < |answers| ==>
      var r := After(grow, chunks, m, ops[..i]);
      answers[i] == (StatusOf(grow, r, ops[i]), ValueOf(r, ops[i]))
  }

  /** One call on the table is one step of the model, with its answers. */
  method Apply<K(!new, ==), V(!new)>(table: HTable<K, V>, op: Op<K, V>, ghost m: Model<K, V>)
      returns (status: Status, value: Option<V>)
    requires Refines(table, m)
    modifies table, table.pool
    ensures Refines(table, Step(table.grow, table.pool.nchunks, m, op))
    ensures status == StatusOf(table.grow, m, op) && value == ValueOf(m, op)
  {
    hide Buckets, Heads, Indexed, Balanced, PowerOfTwo, Contents, Carved;
    value := None;
    match op {
      case PutOp(key, v, mallocOk, callocOk) =>
        status := ApplyPut(table, key, v, mallocOk, callocOk, m);
      case GetOp(key) =>
        status, value := table.Get(key);
      case DeleteOp(key) =>
        status, value := table.Delete(key);
    }
  }

  method ApplyPut<K(!new, ==), V(!new)>(table: HTable<K, V>, key: K, v: V, mallocOk: bool, callocOk: bool,
                                        ghost m: Model<K, V>) returns (status: Status)
    requires Refines(table, m)
    modifies table, table.pool
    ensures Refines(table, Step(table.grow, table.pool.nchunks, m, PutOp(key, v, mallocOk, callocOk)))
    ensures status == StatusOf(table.grow, m, PutOp(key, v, mallocOk, callocOk))
  {
    hide Buckets, Heads, Indexed, Balanced, PowerOfTwo, Contents, Carved;
    table.CountsKeys();
    table.RoomLeft();
    OneMoreBlock(table.pool.nblocks, table.pool.nchunks);
    status := table.Put(key, v, mallocOk, callocOk && 2 * table.size <= MAX_BUCKETS);
  }

  /** A new table driven through any run of calls is the finite map of the run: each call answers as the
      map does, and a growing table for which every growth succeeds is at most 80% full at the end. */
  method Replay<K(!new, ==), V(!new)>(psize: nat, grow: bool, khash: K -> nat, ops: seq<Op<K, V>>)
      returns (table: HTable<K, V>, answers: seq<(Status, Option<V>)>, ghost init: Model<K, V>)
    requires 2 * psize <= MAX_BUCKETS && (grow ==> psize > 0)
    ensures init.contents == map[] && init.capacity == psize && init.size >= 2 * psize && init.size > 0
    ensures Refines(table, After(grow, psize, init, ops)) && table.grow == grow
    ensures |answers| == |ops| && Answered(grow, psize, init, ops, answers)
    ensures !grow || NoOverload(psize, init, ops) ==> 5 * table.count <= 4 * table.size
  {
    hide After, Refines, Answered, NoOverload, StatusOf, ValueOf, Step;
    hide Buckets, Heads, Indexed, Balanced, PowerOfTwo, Contents, Carved;
    table := new HTable<K, V>(psize, grow, khash);
    init := Model(map[], table.size, psize);
    NewRefines(table, init);
    AfterNone(grow, psize, init, ops);
    answers := [];
    for k := 0 to |ops|
      invariant fresh(table) && fresh(table.pool) && table.grow == grow && table.pool.nchunks == psize
      invariant Refines(table, After(grow, psize, init, ops[..k]))
      invariant |answers| == k && Answered(grow, psize, init, ops, answers)
    {
      AfterNext(grow, psize, init, ops, k);
      var status, value := Apply(table, ops[k], After(grow, psize, init, ops[..k]));
      AnsweredNext(grow, psize, init, ops, answers, (status, value));
      answers := answers + [(status, value)];
    }
    assert ops[..|ops|] == ops;
    LoadAtEnd(table, grow, psize, init, ops);
  }

  lemma NewRefines<K(!new), V(!new)>(table: HTable<K, V>, m: Model<K, V>)
    requires table.Valid() && table.Map() == m.contents && table.size == m.size
    requires table.pool.nblocks == 1 && table.pool.nchunks == m.capacity
    ensures Refines(table, m)
  {
    assert Carved(1, m.capacity) == m.capacity;
  }

  lemma LoadAtEnd<K(!new), V(!new)>(table: HTable<K, V>, grow: bool, psize: nat, init: Model<K, V>, ops: seq<Op<K, V>>)
    requires Refines(table, After(grow, psize, init, ops))
    requires init.contents == map[] && init.capacity == psize && init.size >= 2 * psize && init.size > 0
    ensures !grow || NoOverload(psize, init, ops) ==> 5 * table.count <= 4 * table.size
  {
    hide After, Buckets, Heads, Indexed, PowerOfTwo, Balanced, Carved;
    table.CountsKeys();
    if grow { LoadedExactly(psize, init, ops); } else { FixedStaysLoaded(psize, init, ops); }
  }

  lemma AnsweredNext<K, V>(grow: bool, chunks: nat, m: Model<K, V>, ops: seq<Op<K, V>>,
                           answers: seq<(Status, Option<V>)>, a: (Status, Option<V>))
    requires Answered(grow, chunks, m, ops, answers) && |answers| < |ops|
    requires var k := |answers|; var r := After(grow, chunks, m, ops[..k]);
             a == (StatusOf(grow, r, ops[k]), ValueOf(r, ops[k]))
    ensures Answered(grow, chunks, m, ops, answers + [a])
  {
    hide After, StatusOf, ValueOf;
  }

  lemma AfterNone<K, V>(grow: bool, chunks: nat, m: Model<K, V>, ops: seq<Op<K, V>>)
    ensures After(grow, chunks, m, []) == m && Answered(grow, chunks, m, ops, [])
  {
  }

  lemma AfterNext<K, V>(grow: bool, chunks: nat, m: Model<K, V>, ops: seq<Op<K, V>>, k: nat)
    requires k < |ops|
    ensures After(grow, chunks, m, ops[..k + 1]) == Step(grow, chunks, After(grow, chunks, m, ops[..k]), ops[k])
  {
    assert ops[..k + 1][..k] == ops[..k];
  }
}
