/** The order-table effects of the DirectEdge add, executed and canceled messages
    (feeds/directedge/common/fh_edge_parse.c) over whole runs. */
module EdgeOrders {
  import opened Basics
  import opened HashTables
  import opened OrderTables
  import opened HashBuckets
  import opened MemoryPool

  /** The messages that touch the table, by their order reference. */
  datatype Message =
    | AddOrder(ref: string, side: char, quantity: nat, stock: string, price: nat)
    | Executed(ref: string, shares: nat)
    | Canceled(ref: string, shares: nat)

  type Orders = map<OrderKey, Order>

  function KeyOf(m: Message): OrderKey { OrderKey(0, m.ref) }

  /** An add is accepted for a new reference while the table has room; an execution or a cancel for a
      stored order of at least that many shares. */
  predicate Accepted(book: Orders, size: nat, m: Message) {
    if m.AddOrder? then KeyOf(m) !in book && |book| < size
    else KeyOf(m) in book && m.shares <= book[KeyOf(m)].shares
  }

  function Apply(book: Orders, size: nat, m: Message): Orders {
    var key := KeyOf(m);
    if !Accepted(book, size, m) then book
    else if m.AddOrder? then book[key := Order(key, m.price, m.quantity, m.side, m.stock)]
    else if book[key].shares == m.shares then book - {key}
    else book[key := book[key].(shares := book[key].shares - m.shares)]
  }

  function After(size: nat, run: seq<Message>): Orders {
    if run == [] then map[] else Apply(After(size, run[..|run| - 1]), size, run[|run| - 1])
  }

  /** The shares of accepted adds to a reference, and of accepted executions and cancels. */
  function Added(size: nat, run: seq<Message>, key: OrderKey): nat {
    if run == [] then 0
    else
      var before, m := run[..|run| - 1], run[|run| - 1];
      Added(size, before, key) +
      if KeyOf(m) == key && m.AddOrder? && Accepted(After(size, before), size, m) then m.quantity else 0
  }

  function Taken(size: nat, run: seq<Message>, key: OrderKey): nat {
    if run == [] then 0
    else
      var before, m := run[..|run| - 1], run[|run| - 1];
      Taken(size, before, key) +
      if KeyOf(m) == key && !m.AddOrder? && Accepted(After(size, before), size, m) then m.shares else 0
  }

  function SharesOf(book: Orders, key: OrderKey): nat { if key in book then book[key].shares else 0 }

  /** Over every run and for every reference, what was added is what is stored plus what was taken. */
  lemma {:induction false} SharesConserved(size: nat, run: seq<Message>, key: OrderKey)
    ensures Added(size, run, key) == SharesOf(After(size, run), key) + Taken(size, run, key)
  {
    if run != [] { SharesConserved(size, run[..|run| - 1], key); }
  }

  /** With positive adds an order is stored exactly while it has shares left. */
  lemma {:induction false} StoredWhileOpen(size: nat, run: seq<Message>, key: OrderKey)
    requires forall i :: 0 <= i < |run| && run[i].AddOrder? ==> run[i].quantity > 0
    ensures key in After(size, run) <==> Taken(size, run, key) < Added(size, run, key)
    ensures key in After(size, run) ==> After(size, run)[key].shares > 0
  {
    if run != [] {
      StoredWhileOpen(size, run[..|run| - 1], key);
      SharesConserved(size, run[..|run| - 1], key);
    }
  }

  /** The table never holds more orders than its size. */
  lemma {:induction false} NeverOverfull(size: nat, run: seq<Message>)
    ensures |After(size, run)| <= size
  {
    if run != [] {
      var book, m := After(size, run[..|run| - 1]), run[|run| - 1];
      NeverOverfull(size, run[..|run| - 1]);
      var key := KeyOf(m);
      if Accepted(book, size, m) {
        if m.AddOrder? { assert After(size, run).Keys == book.Keys + {key}; }
        else if book[key].shares == m.shares {
          assert book.Keys == (book - {key}).Keys + {key};
        } else {
          assert After(size, run).Keys == book.Keys;
        }
      }
    }
  }

  // ----- what a message does -----

  /** An add for a new reference into a table with room stores exactly the order it describes; any other
      add changes nothing. */
  lemma AddStores(book: Orders, size: nat, ref: string, side: char, quantity: nat, stock: string, price: nat)
    ensures var key := OrderKey(0, ref); var after := Apply(book, size, AddOrder(ref, side, quantity, stock, price));
            if key !in book && |book| < size
            then key in after && after[key].price == price && after[key].side == side && after[key].stock == stock &&
                 after[key].shares == quantity && after[key].key == key && after - {key} == book - {key}
            else after == book
  {
  }

  /** An executed or a canceled message for a stored order of at least its shares lowers them by exactly
      that many, and removes the order when none are left; any other changes nothing. */
  lemma ReductionLowers(book: Orders, size: nat, m: Message, shares: nat, ref: string)
    requires m == Executed(ref, shares) || m == Canceled(ref, shares)
    ensures var key := OrderKey(0, ref); var after := Apply(book, size, m);
            if key in book && shares < book[key].shares
            then after == book[key := book[key].(shares := book[key].shares - shares)]
            else if key in book && shares == book[key].shares then after == book - {key}
            else after == book
  {
  }

  // ----- sums over the messages themselves -----

  /** The shares of all adds to a reference. */
  function Ordered(run: seq<Message>, ref: string): nat {
    if run == [] then 0
    else
      Ordered(run[..|run| - 1], ref) +
      match run[|run| - 1]
      case AddOrder(r, _, quantity, _, _) => if r == ref then quantity else 0
      case _ => 0
  }

  /** The shares of all executions and cancels of a reference. */
  function Reduced(run: seq<Message>, ref: string): nat {
    if run == [] then 0
    else
      Reduced(run[..|run| - 1], ref) +
      match run[|run| - 1]
      case AddOrder(_, _, _, _, _) => 0
      case Executed(r, shares) => if r == ref then shares else 0
      case Canceled(r, shares) => if r == ref then shares else 0
  }

  /** No add of the run repeats a stored reference or finds the table full, and no execution or cancel
      exceeds what is stored. */
  predicate Orderly(size: nat, run: seq<Message>) {
    forall k :: 0 <= k < |run| ==>
      var book, key := After(size, run[..k]), OrderKey(0, run[k].ref);
      if run[k].AddOrder? then key !in book && |book| < size else run[k].shares <= SharesOf(book, key)
  }

  /** Over every such run the shares stored are the adds less all executions and cancels. */
  lemma {:induction false} SharesAreNet(size: nat, run: seq<Message>, ref: string)
    requires Orderly(size, run)
    ensures SharesOf(After(size, run), OrderKey(0, ref)) == Ordered(run, ref) - Reduced(run, ref)
  {
    if run != [] {
      var before, m := run[..|run| - 1], run[|run| - 1];
      OrderlyPrefix(size, run);
      SharesAreNet(size, before, ref);
      NetNext(After(size, before), size, m, ref);
    }
  }

  lemma OrderlyPrefix(size: nat, run: seq<Message>)
    requires Orderly(size, run) && run != []
    ensures Orderly(size, run[..|run| - 1])
  {
    hide After;
    var before := run[..|run| - 1];
    forall k | 0 <= k < |before| ensures before[..k] == run[..k] && before[k] == run[k] {
    }
  }

  lemma NetNext(book: Orders, size: nat, m: Message, ref: string)
    requires if m.AddOrder? then KeyOf(m) !in book && |book| < size else m.shares <= SharesOf(book, KeyOf(m))
    ensures var was, now := SharesOf(book, OrderKey(0, ref)), SharesOf(Apply(book, size, m), OrderKey(0, ref));
            if m.ref != ref then now == was
            else if m.AddOrder? then now == was + m.quantity else now == was - m.shares
  {
  }

  // ----- the handlers -----

  method HandleAdd(table: OrderTable, m: Message)
    requires table.Valid() && m.AddOrder?
    modifies table, table.pool, table.hash, table.hash.pool
    ensures table.Valid() && table.Orders() == Apply(old(table.Orders()), table.size, m)
    ensures table.Orders() ==
            if OrderKey(0, m.ref) !in old(table.Orders()) && |old(table.Orders())| < table.size
            then old(table.Orders())[OrderKey(0, m.ref) :=
                   Order(OrderKey(0, m.ref), m.price, m.quantity, m.side, m.stock)]
            else old(table.Orders())
  {
    hide Buckets, Heads, Indexed, Balanced, PowerOfTwo, Contents, Paired, Book;
    Sizes(table);
    var status := table.Add(Order(KeyOf(m), m.price, m.quantity, m.side, m.stock));
  }

  lemma Sizes(table: OrderTable)
    requires table.Valid()
    ensures |table.Orders()| == table.count <= table.size
  {
    hide Buckets, Heads, Indexed, PowerOfTwo, Contents;
    table.PoolsInStep();
    table.hash.CountsKeys();
    assert table.Orders().Keys == table.hash.Map().Keys;
  }

  /** The common effect of executed and canceled messages. */
  method HandleReduction(table: OrderTable, m: Message)
    requires table.Valid() && !m.AddOrder?
    modifies table, table.pool, table.hash, table.hash.pool
    ensures table.Valid() && table.Orders() == Apply(old(table.Orders()), table.size, m)
    ensures var key := OrderKey(0, m.ref); var book := old(table.Orders());
            table.Orders() == if key in book && m.shares < book[key].shares
                              then book[key := book[key].(shares := book[key].shares - m.shares)]
                              else if key in book && m.shares == book[key].shares then book - {key}
                              else book
  {
    hide Buckets, Heads, Indexed, Balanced, PowerOfTwo, Contents, Paired, Book;
    var key := KeyOf(m);
    ghost var book := table.Orders();
    var status, entry := table.Get(key);
    if status == Ok {
      var shares := table.entries[entry.chunk].shares;
      if m.shares <= shares {
        table.SetShares(entry.chunk, shares - m.shares, key);
        if shares - m.shares == 0 {
          var deleted, gone := table.Del(key);
          assert deleted == Ok;
          assert book[key := book[key].(shares := 0)] - {key} == book - {key};
        }
      }
    }
  }

  /** A new table driven through any run of messages. */
  method Replay(size: nat, khash: OrderKey -> nat, run: seq<Message>) returns (table: OrderTable)
    requires 2 * size <= MAX_BUCKETS
    ensures table.Valid() && table.Orders() == After(size, run)
    ensures forall key :: Added(size, run, key) == SharesOf(table.Orders(), key) + Taken(size, run, key)
    ensures Orderly(size, run) ==>
            forall ref :: SharesOf(table.Orders(), OrderKey(0, ref)) == Ordered(run, ref) - Reduced(run, ref)
  {
    table := new OrderTable(size, khash);
    for k := 0 to |run|
      invariant fresh(table) && fresh(table.pool) && fresh(table.hash) && fresh(table.hash.pool)
      invariant table.Valid() && table.size == size && table.Orders() == After(size, run[..k])
    {
      hide After, Apply, Buckets, Heads, Indexed, Balanced, PowerOfTwo, Contents, Paired, Book;
      AfterNext(size, run, k);
      if run[k].AddOrder? { HandleAdd(table, run[k]); } else { HandleReduction(table, run[k]); }
    }
    assert run[..|run|] == run;
    forall key ensures Added(size, run, key) == SharesOf(table.Orders(), key) + Taken(size, run, key) {
      SharesConserved(size, run, key);
    }
    if Orderly(size, run) {
      forall ref ensures SharesOf(table.Orders(), OrderKey(0, ref)) == Ordered(run, ref) - Reduced(run, ref) {
        SharesAreNet(size, run, ref);
      }
    }
  }

  lemma AfterNext(size: nat, run: seq<Message>, k: nat)
    requires k < |run|
    ensures After(size, run[..k + 1]) == Apply(After(size, run[..k]), size, run[k])
  {
    assert run[..k + 1][..k] == run[..k];
  }
}
