/** Whole runs of the hash table: any sequence of calls behaves as the finite map does. */
module HashRuns {
  import opened CInt
  import opened HashSpec
  import opened HashTable

  datatype Call<K, V> = CSet(key: K, value: V) | CDel(key: K) | CGet(key: K, default: V) | CIsSet(key: K)
  datatype Answer<V> = Done | Value(value: V) | Flag(flag: bool)

  ghost function After<K, V>(ops: KeyOps<K>, m: map<K, V>, c: Call<K, V>): map<K, V> {
    match c
    case CSet(k, v) => Put(ops, m, k, v)
    case CDel(k) => Remove(ops, m, k)
    case _ => m
  }

  ghost function Reply<K, V>(ops: KeyOps<K>, m: map<K, V>, c: Call<K, V>): Answer<V> {
    match c
    case CGet(k, d) => Value(match Get(ops, m, k) { case Some(x) => x case None => d })
    case CIsSet(k) => Flag(Has(ops, m, k))
    case _ => Done
  }

  ghost function AfterAll<K, V>(ops: KeyOps<K>, m: map<K, V>, cs: seq<Call<K, V>>): map<K, V>
    decreases |cs|
  {
    if cs == [] then m else AfterAll(ops, After(ops, m, cs[0]), cs[1..])
  }

  ghost function Replies<K, V>(ops: KeyOps<K>, m: map<K, V>, cs: seq<Call<K, V>>): seq<Answer<V>>
    decreases |cs|
  {
    if cs == [] then [] else [Reply(ops, m, cs[0])] + Replies(ops, After(ops, m, cs[0]), cs[1..])
  }

  /**
   One call. A failure is malloc's, or a doubled size that is not a long; the call has done its work all
   the same, and the next one can be made unless the table is full.
   */
  method Step<K(==,!new), V>(t: Table<K, V>, c: Call<K, V>, alloc: bool) returns (a: Answer<V>, failed: bool)
    requires t.Valid()
    modifies t, t.table
    ensures t.Sound() && (t.table == old(t.table) || fresh(t.table))
    ensures t.Contents == After(t.ops, old(t.Contents), c)
    ensures a == Reply(t.ops, old(t.Contents), c)
    ensures !t.Valid() <==> failed && c.CSet? && old(t.fill + 1 == t.table.Length && t.TakesEmpty(c.key))
    ensures old(t.Loaded()) && !failed ==> t.Loaded()
    ensures failed ==> !alloc || 2 * t.table.Length >= LONG_LIMIT
  {
    var rc := 0;
    match c {
      case CSet(k, v) =>
        rc := t.Set(k, v, alloc);
        a := Done;
      case CDel(k) =>
        rc := t.Del(k, alloc);
        a := Done;
      case CGet(k, d) =>
        var v := t.GetValue(k, d);
        a := Value(v);
      case CIsSet(k) =>
        var b := t.IsSet(k);
        a := Flag(b);
    }
    failed := rc != 0;
  }

  /** The answers are those to the first calls of the run, and m' is what these calls make of m. */
  ghost predicate Played<K, V>(ops: KeyOps<K>, m: map<K, V>, m': map<K, V>, cs: seq<Call<K, V>>, answers: seq<Answer<V>>) {
    && |answers| <= |cs|
    && m' == AfterAll(ops, m, cs[..|answers|])
    && answers == Replies(ops, m, cs[..|answers|])
  }

  /** The n-th call is a set that could not get a bigger table. */
  predicate Blocked<K, V>(cs: seq<Call<K, V>>, alloc: seq<bool>, n: nat, size: nat)
    requires |alloc| == |cs|
  {
    0 < n <= |cs| && cs[n - 1].CSet? && (!alloc[n - 1] || 2 * size >= LONG_LIMIT)
  }

  lemma PlayedFirst<K, V>(ops: KeyOps<K>, m: map<K, V>, m': map<K, V>, cs: seq<Call<K, V>>, rest: seq<Answer<V>>)
    requires cs != [] && Played(ops, After(ops, m, cs[0]), m', cs[1..], rest)
    ensures Played(ops, m, m', cs, [Reply(ops, m, cs[0])] + rest)
  {
    assert cs[..|rest| + 1][1..] == cs[1..][..|rest|];
  }

  /**
   Over every run, with malloc answering as it likes, the answers and the final contents are those of the
   finite map, up to and including the set that leaves the table full, if there is one. A run without
   failures leaves a loaded table loaded.
   */
  method Replay<K(==,!new), V>(t: Table<K, V>, cs: seq<Call<K, V>>, alloc: seq<bool>)
    returns (answers: seq<Answer<V>>, failed: bool)
    requires t.Valid() && |alloc| == |cs|
    modifies t, t.table
    ensures t.Sound() && (t.table == old(t.table) || fresh(t.table))
    ensures Played(t.ops, old(t.Contents), t.Contents, cs, answers)
    ensures t.Valid() ==> |answers| == |cs|
    ensures !t.Valid() ==> failed && Blocked(cs, alloc, |answers|, t.table.Length)
    ensures old(t.Loaded()) && !failed ==> t.Loaded()
    decreases |cs|
  {
    answers, failed := [], false;
    if cs != [] {
      ghost var m := t.Contents;
      var a, rest, more;
      a, failed := Step(t, cs[0], alloc[0]);
      rest, more := [], false;
      if t.fill < t.table.Length {
        rest, more := Replay(t, cs[1..], alloc[1..]);
      }
      PlayedFirst(t.ops, m, t.Contents, cs, rest);
      answers, failed := [a] + rest, failed || more;
    }
  }

  /** Pointers as keys, hashed to themselves (hash_direct_hfunc, hash_direct_cmp). */
  type Pointer = p: nat | p < WORD

  function DirectOps(): KeyOps<Pointer> {
    KeyOps((p: Pointer) => p, (a: Pointer, b: Pointer) => a == b)
  }

  lemma DirectIsLawful()
    ensures Lawful(DirectOps())
  {
  }

  /** Eight keys, with malloc failing whenever the table wants to grow: the search for a ninth key never ends. */
  method FullTableExample() returns (t: Table<Pointer, int>)
    ensures t.Sound() && t.table.Length == 8 && forall n: nat {:trigger t.Stops(8, n)} :: !t.Stops(8, n)
  {
    DirectIsLawful();
    t := new Table(DirectOps());
    var k: Pointer := 0;
    while k < 8
      invariant k <= 8 && fresh(t) && fresh(t.table) && t.ops == DirectOps()
      invariant t.Sound() && t.table.Length == 8 && t.fill == t.count == k
      invariant forall p :: p in t.Contents ==> p < k
    {
      var rc := t.Set(k, 0, false);
      k := k + 1;
    }
    t.SearchEndsIff(8);
  }
}
