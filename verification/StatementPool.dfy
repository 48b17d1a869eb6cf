// The adapter's pool of prepared statements: a bounded cache that owns what it holds.  The states
// and operations are values first; the class refines them; the run theorems are about the values.

module PoolSpec {
  import opened Sequences

  /** A statement text, or the process id that stands for the plain statement. */
  datatype Key = Sql(text: string) | Process(id: int)

  datatype Entry<S> = Entry(key: Key, stmt: S)

  /** `cache` is an ordered hash.  `released` lists the statements passed to dealloc, `handed` those
      given to the pool. */
  datatype State<S> = State(cache: seq<Entry<S>>, released: seq<S>, handed: seq<S>)

  function Empty<S>(): State<S> { State([], [], []) }

  function Keys<S>(cache: seq<Entry<S>>): seq<Key> {
    seq(|cache|, i requires 0 <= i < |cache| => cache[i].key)
  }

  function Stmts<S>(cache: seq<Entry<S>>): seq<S> {
    seq(|cache|, i requires 0 <= i < |cache| => cache[i].stmt)
  }

  /** Position of the key, or the length of the cache. */
  function Find<S>(cache: seq<Entry<S>>, key: Key): (n: nat)
    ensures n <= |cache| && (forall i :: 0 <= i < n ==> cache[i].key != key)
    ensures n < |cache| ==> cache[n].key == key
  {
    if cache == [] || cache[0].key == key then 0 else 1 + Find(cache[1..], key)
  }

  predicate Has<S>(cache: seq<Entry<S>>, key: Key) { Find(cache, key) < |cache| }

  /** Hash assignment: an existing key keeps its place. */
  function Set<S>(cache: seq<Entry<S>>, key: Key, stmt: S): seq<Entry<S>> {
    var n := Find(cache, key);
    if n < |cache| then cache[n := Entry(key, stmt)] else cache + [Entry(key, stmt)]
  }

  /** How many entries make room for one more. */
  function Evictions(size: nat, max: int): (n: nat)
    requires max >= 1
    ensures n <= size
  {
    if max <= size then size - max + 1 else 0
  }

  /** The oldest n entries leave and their statements are passed to dealloc. */
  function Evict<S>(st: State<S>, n: nat): State<S>
    requires n <= |st.cache|
  {
    st.(cache := st.cache[n..], released := st.released + Stmts(st.cache[..n]))
  }

  function Insert<S>(st: State<S>, key: Key, stmt: S): State<S> {
    st.(cache := Set(st.cache, key, stmt), handed := st.handed + [stmt])
  }

  /** The pool's `[]=`. */
  function Put<S>(st: State<S>, max: int, key: Key, stmt: S): State<S>
    requires max >= 1
  {
    Insert(Evict(st, Evictions(|st.cache|, max)), key, stmt)
  }

  /** `statements[key] ||= ...` with the statement that would be prepared. */
  function Fetch<S>(st: State<S>, max: int, key: Key, prepared: S): State<S>
    requires max >= 1
  {
    if Has(st.cache, key) then st else Put(st, max, key, prepared)
  }

  /** Deleting a missing key raises an error and changes nothing. */
  function Delete<S>(st: State<S>, key: Key): State<S> {
    var n := Find(st.cache, key);
    if n == |st.cache| then st
    else st.(cache := st.cache[..n] + st.cache[n + 1..], released := st.released + [st.cache[n].stmt])
  }

  function Clear<S>(st: State<S>): State<S> {
    st.(cache := [], released := st.released + Stmts(st.cache))
  }

  datatype Op<S> = DoFetch(key: Key, stmt: S) | DoDelete(key: Key) | DoClear

  function Apply<S>(st: State<S>, max: int, op: Op<S>): State<S>
    requires max >= 1
  {
    match op
    case DoFetch(key, stmt) => Fetch(st, max, key, stmt)
    case DoDelete(key) => Delete(st, key)
    case DoClear => Clear(st)
  }

  function Run<S>(ops: seq<Op<S>>, max: int): State<S>
    requires max >= 1
  {
    if ops == [] then Empty() else Apply(Run(ops[..|ops| - 1], max), max, ops[|ops| - 1])
  }

  // ---- What every state of a run keeps ------------------------------------------------------------------

  ghost predicate DistinctKeys<S>(cache: seq<Entry<S>>) {
    forall i, j :: 0 <= i < j < |cache| ==> cache[i].key != cache[j].key
  }

  /** Every statement handed over is in the cache or was released, and no statement is lost or doubled. */
  ghost predicate Conserved<S>(st: State<S>) {
    multiset(st.handed) == multiset(Stmts(st.cache)) + multiset(st.released)
  }

  lemma StmtsConcat<S>(a: seq<Entry<S>>, b: seq<Entry<S>>)
    ensures Stmts(a + b) == Stmts(a) + Stmts(b)
  {}

  lemma SetKeepsKeysDistinct<S>(cache: seq<Entry<S>>, key: Key, stmt: S)
    requires DistinctKeys(cache)
    ensures DistinctKeys(Set(cache, key, stmt))
    ensures Has(Set(cache, key, stmt), key)
  {
    var r := Set(cache, key, stmt);
    var n := Find(cache, key);
    assert r[n].key == key;
    assert Find(r, key) <= n;
  }

  lemma EvictConserves<S>(st: State<S>, n: nat)
    requires n <= |st.cache| && Conserved(st)
    ensures Conserved(Evict(st, n))
  {
    assert st.cache == st.cache[..n] + st.cache[n..];
    StmtsConcat(st.cache[..n], st.cache[n..]);
  }

  /** Replacing the statement of a key that is there loses one; adding a key loses none. */
  lemma InsertConservesExactly<S>(st: State<S>, key: Key, stmt: S)
    requires Conserved(st)
    ensures Conserved(Insert(st, key, stmt)) <==> !Has(st.cache, key)
  {
    var next := Insert(st, key, stmt);
    if Has(st.cache, key) {
      assert |next.cache| == |st.cache|;
      assert |multiset(next.handed)| == |multiset(st.handed)| + 1;
      assert |multiset(Stmts(next.cache)) + multiset(next.released)| == |multiset(Stmts(st.cache)) + multiset(st.released)|;
    } else {
      StmtsConcat(st.cache, [Entry(key, stmt)]);
      assert Stmts([Entry(key, stmt)]) == [stmt];
    }
  }

  /** Conservation over one assignment: nothing is lost exactly when the key is not in the part of
      the cache that stays. */
  lemma PutConservesExactly<S>(st: State<S>, max: int, key: Key, stmt: S)
    requires max >= 1 && Conserved(st)
    ensures Conserved(Put(st, max, key, stmt)) <==> !Has(st.cache[Evictions(|st.cache|, max)..], key)
  {
    var n := Evictions(|st.cache|, max);
    EvictConserves(st, n);
    InsertConservesExactly(Evict(st, n), key, stmt);
  }

  /** Assigning to the one key of a pool that has room loses the statement it had. */
  lemma AssigningAgainLosesAStatement<S>(key: Key, first: S, second: S)
    ensures var st := State([Entry(key, first)], [], [first]);
            Conserved(st) && !Conserved(Put(st, 2, key, second))
  {
    var st := State([Entry(key, first)], [], [first]);
    assert Stmts(st.cache) == [first];
    assert st.cache[0..] == st.cache;
    PutConservesExactly(st, 2, key, second);
  }

  lemma SuffixKeys<S>(cache: seq<Entry<S>>, n: nat, key: Key)
    requires n <= |cache| && !Has(cache, key)
    ensures !Has(cache[n..], key)
  {}

  lemma DeleteConserves<S>(st: State<S>, key: Key)
    requires Conserved(st)
    ensures Conserved(Delete(st, key))
  {
    var n := Find(st.cache, key);
    if n < |st.cache| {
      var a, b := st.cache[..n], st.cache[n + 1..];
      assert st.cache == a + [st.cache[n]] + b;
      StmtsConcat(a + [st.cache[n]], b);
      StmtsConcat(a, [st.cache[n]]);
      StmtsConcat(a, b);
      assert Stmts([st.cache[n]]) == [st.cache[n].stmt];
    }
  }

  lemma FindIs<S>(cache: seq<Entry<S>>, key: Key, n: nat)
    requires n < |cache| && cache[n].key == key && DistinctKeys(cache)
    ensures Find(cache, key) == n
  {}

  lemma FindNothing<S>(cache: seq<Entry<S>>, key: Key)
    requires forall i :: 0 <= i < |cache| ==> cache[i].key != key
    ensures !Has(cache, key)
  {}

  /** Deleting takes exactly its own key out. */
  lemma DeleteTakesItsKey<S>(st: State<S>, key: Key)
    requires DistinctKeys(st.cache)
    ensures !Has(Delete(st, key).cache, key) && DistinctKeys(Delete(st, key).cache)
  {
    var n := Find(st.cache, key);
    var next := Delete(st, key);
    if n < |st.cache| {
      assert forall i :: 0 <= i < n ==> next.cache[i] == st.cache[i];
      assert forall i :: n <= i < |next.cache| ==> next.cache[i] == st.cache[i + 1];
      FindNothing(next.cache, key);
    }
  }

  lemma DeleteLeavesOthers<S>(st: State<S>, key: Key, other: Key)
    requires DistinctKeys(st.cache) && other != key && Has(st.cache, other)
    ensures var next := Delete(st, key);
            Has(next.cache, other) &&
            next.cache[Find(next.cache, other)].stmt == st.cache[Find(st.cache, other)].stmt
  {
    var n, m := Find(st.cache, key), Find(st.cache, other);
    DeleteTakesItsKey(st, key);
    if n < |st.cache| { FindIs(Delete(st, key).cache, other, if m < n then m else m - 1); }
  }

  ghost predicate Inv<S>(st: State<S>, max: int) {
    |st.cache| <= max && DistinctKeys(st.cache) && Conserved(st)
  }

  lemma PutKeepsInv<S>(st: State<S>, max: int, key: Key, stmt: S)
    requires max >= 1 && Inv(st, max) && !Has(st.cache, key)
    ensures Inv(Put(st, max, key, stmt), max)
  {
    var n := Evictions(|st.cache|, max);
    SuffixKeys(st.cache, n, key);
    PutConservesExactly(st, max, key, stmt);
    SetKeepsKeysDistinct(st.cache[n..], key, stmt);
  }

  lemma DeleteKeepsInv<S>(st: State<S>, max: int, key: Key)
    requires Inv(st, max)
    ensures Inv(Delete(st, key), max)
  {
    DeleteConserves(st, key);
  }

  lemma ApplyKeepsInv<S>(st: State<S>, max: int, op: Op<S>)
    requires max >= 1 && Inv(st, max)
    ensures Inv(Apply(st, max, op), max)
  {
    match op
    case DoFetch(key, stmt) =>
      if !Has(st.cache, key) { PutKeepsInv(st, max, key, stmt); }
    case DoDelete(key) =>
      DeleteKeepsInv(st, max, key);
    case DoClear =>
  }

  // ---- What was inserted, told by the operations ------------------------------------------------------------

  /** The operation inserts: it fetches a key that is not cached at that point of the run. */
  predicate Inserts<S>(ops: seq<Op<S>>, max: int, i: nat)
    requires max >= 1 && i < |ops|
  {
    ops[i].DoFetch? && forall j :: 0 <= j < |Run(ops[..i], max).cache| ==> Run(ops[..i], max).cache[j].key != ops[i].key
  }

  /** Every statement the operations insert, in order. */
  function Inserted<S>(ops: seq<Op<S>>, max: int): seq<S>
    requires max >= 1
  {
    if ops == [] then []
    else
      var n := |ops| - 1;
      Inserted(ops[..n], max) + if Inserts(ops, max, n) then [ops[n].stmt] else []
  }

  /** The keys they insert behind the last clear, in order. */
  function KeysSinceClear<S>(ops: seq<Op<S>>, max: int): seq<Key>
    requires max >= 1
  {
    if ops == [] || ops[|ops| - 1].DoClear? then []
    else
      var n := |ops| - 1;
      KeysSinceClear(ops[..n], max) + if Inserts(ops, max, n) then [ops[n].key] else []
  }

  lemma InsertsWhenAbsent<S>(ops: seq<Op<S>>, max: int)
    requires max >= 1 && ops != [] && ops[|ops| - 1].DoFetch?
    ensures Inserts(ops, max, |ops| - 1) <==> !Has(Run(ops[..|ops| - 1], max).cache, ops[|ops| - 1].key)
  {
    var cache, key := Run(ops[..|ops| - 1], max).cache, ops[|ops| - 1].key;
    if !Has(cache, key) { AbsentFrom(cache, key); }
    if Has(cache, key) { assert cache[Find(cache, key)].key == key; }
  }

  /** What was handed over is what the operations inserted. */
  lemma {:induction false} RunHandsOverInserted<S>(ops: seq<Op<S>>, max: int)
    requires max >= 1
    ensures Run(ops, max).handed == Inserted(ops, max)
  {
    if ops != [] {
      RunHandsOverInserted(ops[..|ops| - 1], max);
      if ops[|ops| - 1].DoFetch? { InsertsWhenAbsent(ops, max); }
    }
  }

  // ---- Runs --------------------------------------------------------------------------------------------------

  /** The statement a fetch would use is prepared for this fetch alone. */
  ghost predicate EachPreparedOnce<S(!new)>(ops: seq<Op<S>>) {
    forall i, j :: 0 <= i < j < |ops| && ops[i].DoFetch? && ops[j].DoFetch? ==> ops[i].stmt != ops[j].stmt
  }

  /** Every cached pair comes from a fetch of that key with that statement. */
  ghost predicate CachedAsFetched<S>(cache: seq<Entry<S>>, ops: seq<Op<S>>) {
    forall e :: e in cache ==> DoFetch(e.key, e.stmt) in ops
  }

  lemma SetEntries<S>(cache: seq<Entry<S>>, key: Key, stmt: S, e: Entry<S>)
    requires e in Set(cache, key, stmt)
    ensures e in cache || e == Entry(key, stmt)
  {}

  lemma {:induction false} RunCachesFetched<S(!new)>(ops: seq<Op<S>>, max: int)
    requires max >= 1
    ensures CachedAsFetched(Run(ops, max).cache, ops)
    ensures forall s :: s in Run(ops, max).handed ==> exists i :: 0 <= i < |ops| && ops[i].DoFetch? && ops[i].stmt == s
  {
    if ops != [] {
      var before, op := ops[..|ops| - 1], ops[|ops| - 1];
      var st := Run(before, max);
      RunCachesFetched(before, max);
      var next := Run(ops, max);
      forall e | e in next.cache ensures DoFetch(e.key, e.stmt) in ops {
        if op.DoFetch? && !Has(st.cache, op.key) {
          SetEntries(st.cache[Evictions(|st.cache|, max)..], op.key, op.stmt, e);
        }
        if e in st.cache { assert DoFetch(e.key, e.stmt) in before; }
      }
      forall s | s in next.handed ensures exists i :: 0 <= i < |ops| && ops[i].DoFetch? && ops[i].stmt == s {
        if s in st.handed {
          var i :| 0 <= i < |before| && before[i].DoFetch? && before[i].stmt == s;
          assert ops[i].DoFetch? && ops[i].stmt == s;
        } else {
          assert ops[|ops| - 1].DoFetch? && ops[|ops| - 1].stmt == s;
        }
      }
    }
  }

  lemma {:induction false} RunHandsOverOnce<S(!new)>(ops: seq<Op<S>>, max: int)
    requires max >= 1 && EachPreparedOnce(ops)
    ensures NoRepeat(Run(ops, max).handed)
  {
    if ops != [] {
      var before, op := ops[..|ops| - 1], ops[|ops| - 1];
      var st := Run(before, max);
      RunHandsOverOnce(before, max);
      RunCachesFetched(before, max);
      assert op.DoFetch? ==> op.stmt !in st.handed;
    }
  }

  lemma {:induction false} RunKeepsInv<S(!new)>(ops: seq<Op<S>>, max: int)
    requires max >= 1
    ensures Inv(Run(ops, max), max)
  {
    if ops != [] {
      RunKeepsInv(ops[..|ops| - 1], max);
      ApplyKeepsInv(Run(ops[..|ops| - 1], max), max, ops[|ops| - 1]);
    }
  }

  /** Ownership over every run: the limit holds, a cached statement was prepared for its own key, and
      each statement handed to the pool is either cached, once, or was released, exactly once. */
  lemma EveryRunOwnsItsStatements<S(!new)>(ops: seq<Op<S>>, max: int, s: S)
    requires max >= 1 && EachPreparedOnce(ops)
    ensures var st := Run(ops, max);
            && |st.cache| <= max
            && CachedAsFetched(st.cache, ops)
            && multiset(Stmts(st.cache))[s] + multiset(st.released)[s] == (if s in Inserted(ops, max) then 1 else 0)
  {
    RunHandsOverInserted(ops, max);
    RunKeepsInv(ops, max);
    RunCachesFetched(ops, max);
    RunHandsOverOnce(ops, max);
    NoRepeatCounts(Run(ops, max).handed, s);
  }

  /** A clear empties the pool: behind it every statement ever inserted, and no other, has been
      released, exactly once. */
  lemma ClearReleasesEverything<S(!new)>(ops: seq<Op<S>>, max: int, s: S)
    requires max >= 1 && EachPreparedOnce(ops)
    ensures var st := Run(ops + [DoClear], max);
            && st.cache == []
            && multiset(st.released)[s] == if s in Inserted(ops, max) then 1 else 0
  {
    var st := Run(ops + [DoClear], max);
    assert (ops + [DoClear])[..|ops|] == ops;
    EveryRunOwnsItsStatements(ops + [DoClear], max, s);
    assert Inserted(ops + [DoClear], max) == Inserted(ops, max);
    assert Stmts(st.cache) == [];
  }

  /** The last n elements, or all when there are fewer. */
  function Last<T>(s: seq<T>, n: int): seq<T> {
    if n <= 0 then [] else if |s| <= n then s else s[|s| - n..]
  }

  lemma LastSnoc<T>(s: seq<T>, max: int, x: T)
    requires max >= 1
    ensures Last(s + [x], max) == Last(s, max)[Evictions(|Last(s, max)|, max)..] + [x]
  {}

  lemma KeysOfPut<S>(st: State<S>, max: int, key: Key, stmt: S)
    requires max >= 1 && !Has(st.cache, key)
    ensures Keys(Put(st, max, key, stmt).cache) == Keys(st.cache)[Evictions(|st.cache|, max)..] + [key]
  {
    var n := Evictions(|st.cache|, max);
    SuffixKeys(st.cache, n, key);
    assert Put(st, max, key, stmt).cache == st.cache[n..] + [Entry(key, stmt)];
  }

  /** Without deletes the pool holds exactly the newest keys inserted since the last clear, oldest first. */
  lemma {:induction false} PoolHoldsNewestKeys<S(!new)>(ops: seq<Op<S>>, max: int)
    requires max >= 1 && (forall i :: 0 <= i < |ops| ==> !ops[i].DoDelete?)
    ensures Keys(Run(ops, max).cache) == Last(KeysSinceClear(ops, max), max)
  {
    if ops != [] {
      var before, op := ops[..|ops| - 1], ops[|ops| - 1];
      var st := Run(before, max);
      PoolHoldsNewestKeys(before, max);
      if op.DoFetch? {
        InsertsWhenAbsent(ops, max);
        if !Has(st.cache, op.key) {
          KeysOfPut(st, max, op.key, op.stmt);
          LastSnoc(KeysSinceClear(before, max), max, op.key);
          assert |Keys(st.cache)| == |st.cache|;
        } else {
          assert KeysSinceClear(ops, max) == KeysSinceClear(before, max);
        }
      }
    }
  }

  lemma SetShape<S>(cache: seq<Entry<S>>, key: Key, stmt: S)
    ensures var n := Find(cache, key);
            var r := Set(cache, key, stmt);
            && |r| == (if n < |cache| then |cache| else n + 1)
            && r[n] == Entry(key, stmt)
            && forall i :: 0 <= i < |r| && i != n ==> r[i] == cache[i]
  {}

  lemma Without<S>(cache: seq<Entry<S>>, n: nat)
    requires n < |cache|
    ensures var r := cache[..n] + cache[n + 1..];
            && |r| == |cache| - 1
            && (forall i :: 0 <= i < n ==> r[i] == cache[i])
            && (forall i :: n <= i < |r| ==> r[i] == cache[i + 1])
  {}

  lemma AbsentFrom<S>(cache: seq<Entry<S>>, key: Key)
    requires !Has(cache, key)
    ensures forall i :: 0 <= i < |cache| ==> cache[i].key != key
  {}

  /** A fetch leaves its key in the pool, and a key that was there keeps its statement. */
  lemma FetchFindsItsKey<S>(st: State<S>, max: int, key: Key, stmt: S)
    requires max >= 1
    ensures var next := Fetch(st, max, key, stmt);
            && Has(next.cache, key)
            && next.cache[Find(next.cache, key)].stmt ==
                 if Has(st.cache, key) then st.cache[Find(st.cache, key)].stmt else stmt
  {
    if !Has(st.cache, key) {
      var n := Evictions(|st.cache|, max);
      SuffixKeys(st.cache, n, key);
      var next := Fetch(st, max, key, stmt);
      var rest := st.cache[n..];
      assert next.cache == rest + [Entry(key, stmt)];
      assert next.cache[|rest|].key == key;
      assert forall i :: 0 <= i < |rest| ==> next.cache[i].key == rest[i].key;
      AbsentFrom(rest, key);
      assert Find(next.cache, key) == |rest|;
    }
  }
}

module StatementPool {
  import opened PoolSpec

  /** A statement of the client library, prepared for `key`. */
  class Statement {
    const key: Key
    var closed: bool
    constructor (key: Key) ensures this.key == key && !closed { this.key := key; closed := false; }
    method Close() modifies this ensures closed { closed := true; }
  }

  class Connection {
    var up: bool
    constructor () ensures up { up := true; }
    method Ping() returns (r: bool) ensures r == up { r := up; }
    method Prepare(sql: string) returns (s: Statement) ensures fresh(s) && s.key == Sql(sql) && !s.closed {
      s := new Statement(Sql(sql));
    }
    method CreateStatement(pid: int) returns (s: Statement) ensures fresh(s) && s.key == Process(pid) && !s.closed {
      s := new Statement(Process(pid));
    }
  }

  /** The pool of one process. */
  class Pool {
    const max: int
    const connection: Connection
    var cache: seq<Entry<Statement>>
    ghost var released: seq<Statement>
    ghost var handed: seq<Statement>

    ghost function View(): State<Statement>
      reads this
    {
      State(cache, released, handed)
    }

    /** Cached statements are for their own key and have not been closed; no statement is cached
        twice or both cached and released. */
    ghost predicate Valid()
      reads this, Owned()
    {
      && (forall i :: 0 <= i < |cache| ==> cache[i].stmt.key == cache[i].key && !cache[i].stmt.closed)
      && (forall i :: 0 <= i < |cache| ==> cache[i].stmt !in released)
      && (forall i, j :: 0 <= i < j < |cache| ==> cache[i].stmt != cache[j].stmt)
    }

    ghost function Owned(): set<Statement>
      reads this
    {
      set i | 0 <= i < |cache| :: cache[i].stmt
    }

    /** What was released behind the first n statements is closed, if the connection answers. */
    ghost predicate ClosedSince(n: nat)
      reads this, connection, released
    {
      connection.up ==> forall i :: n <= i < |released| ==> released[i].closed
    }

    constructor (connection: Connection, max: int)
      ensures View() == Empty() && Valid() && this.connection == connection && this.max == max
    {
      this.connection, this.max := connection, max;
      cache, released, handed := [], [], [];
    }

    method Dealloc(stmt: Statement)
      modifies stmt, this`released
      ensures released == old(released) + [stmt]
      ensures stmt.closed == (old(stmt.closed) || connection.up)
    {
      var up := connection.Ping();
      if up { stmt.Close(); }
      released := released + [stmt];
    }

    /** The loop that makes room; with no room for any entry the source fails on the empty hash. */
    method MakeRoom(ghost stmt: Statement) returns (ok: bool)
      requires Valid() && stmt !in released && stmt !in Owned()
      modifies this, Owned()
      ensures Valid() && stmt !in released && stmt !in Owned()
      ensures ok == (max >= 1) && Owned() <= old(Owned())
      ensures ok ==> View() == Evict(old(View()), Evictions(|old(cache)|, max))
      ensures !ok ==> View() == Evict(old(View()), |old(cache)|)
      ensures ClosedSince(|old(released)|)
    {
      ghost var was := cache;
      ghost var k := 0;
      while max <= |cache|
        invariant 0 <= k <= |was| && cache == was[k..]
        invariant released == old(released) + Stmts(was[..k])
        invariant handed == old(handed)
        invariant max >= 1 ==> k <= Evictions(|was|, max)
        invariant |released| >= |old(released)| && ClosedSince(|old(released)|)
        invariant Valid() && stmt !in released && stmt !in Owned()
        decreases |cache|
      {
        if |cache| == 0 { assert was[..k] == was; return false; }
        var first := cache[0].stmt;
        assert first == was[k].stmt;
        cache := cache[1..];
        assert Stmts(was[..k + 1]) == Stmts(was[..k]) + [first];
        Dealloc(first);
        k := k + 1;
      }
      ok := true;
    }

    /** The hash assignment. */
    method Assign(key: Key, stmt: Statement)
      requires Valid() && stmt.key == key && !stmt.closed && stmt !in released && stmt !in Owned()
      modifies this
      ensures Valid() && View() == Insert(old(View()), key, stmt)
    {
      SetShape(cache, key, stmt);
      var next := Set(cache, key, stmt);
      assert forall i :: 0 <= i < |cache| ==> cache[i].stmt in Owned();
      cache, handed := next, handed + [stmt];
    }

    /** `[]=` */
    method Put(key: Key, stmt: Statement) returns (ok: bool)
      requires Valid() && stmt.key == key && !stmt.closed && stmt !in released && stmt !in Owned()
      modifies this, Owned()
      ensures Valid() && ok == (max >= 1)
      ensures ok ==> View() == PoolSpec.Put(old(View()), max, key, stmt)
      ensures !ok ==> View() == Evict(old(View()), |old(cache)|)
      ensures !stmt.closed && ClosedSince(|old(released)|)
    {
      ok := MakeRoom(stmt);
      if ok { Assign(key, stmt); }
    }

    /** `delete`; an unknown key is an error. */
    method Remove(key: Key) returns (ok: bool)
      requires Valid()
      modifies this, Owned()
      ensures Valid() && ok == Has(old(cache), key) && View() == Delete(old(View()), key)
      ensures ClosedSince(|old(released)|)
    {
      var n := Find(cache, key);
      if n == |cache| { return false; }
      var stmt := cache[n].stmt;
      assert stmt in Owned();
      Without(cache, n);
      cache := cache[..n] + cache[n + 1..];
      Dealloc(stmt);
      ok := true;
    }

    method ReleaseAll()
      requires Valid()
      modifies this, Owned()
      ensures Valid() && View() == Clear(old(View()))
      ensures cache == [] && |released| == |old(released)| + |old(cache)| && released[..|old(released)|] == old(released)
      ensures forall i :: 0 <= i < |old(cache)| ==> released[|old(released)| + i] == old(cache)[i].stmt
      ensures ClosedSince(|old(released)|)
    {
      ghost var was := cache;
      var i := 0;
      while i < |cache|
        invariant 0 <= i <= |cache| && cache == was
        invariant released == old(released) + Stmts(was[..i])
        invariant handed == old(handed)
        invariant forall j :: 0 <= j < |cache| ==> cache[j].stmt.key == cache[j].key
        invariant |released| == |old(released)| + i && ClosedSince(|old(released)|)
      {
        assert cache[i].stmt in old(Owned());
        Dealloc(cache[i].stmt);
        assert Stmts(was[..i + 1]) == Stmts(was[..i]) + [was[i].stmt];
        i := i + 1;
      }
      assert was[..i] == was;
      cache := [];
    }

    /** The users' `statements[key] ||= { :stmt => ... }` followed by reading the statement. */
    method StatementFor(key: Key) returns (ok: bool, stmt: Statement?)
      requires Valid()
      modifies this, Owned()
      ensures Valid() && ok == (max >= 1 || Has(old(cache), key))
      ensures ok ==> stmt != null && stmt.key == key && !stmt.closed && Has(cache, key) && stmt == cache[Find(cache, key)].stmt
      ensures ok && Has(old(cache), key) ==> View() == old(View())
      ensures ClosedSince(|old(released)|)
      ensures ok && !Has(old(cache), key) ==> fresh(stmt) && View() == Fetch<Statement>(old(View()), max, key, stmt)
    {
      var n := Find(cache, key);
      if n < |cache| {
        return true, cache[n].stmt;
      }
      var prepared: Statement;
      if key.Sql? { prepared := connection.Prepare(key.text); } else { prepared := connection.CreateStatement(key.id); }
      stmt := prepared;
      ok := Put(key, prepared);
      if ok { FetchFindsItsKey(old(View()), max, key, prepared); }
    }
  }
}
