/**
 What the hash table is for: a finite map whose keys are compared by the caller's `cmp`.
 Also the well-formedness of a slot array and the three single-slot changes the table makes.
 */
module HashSpec {
  import opened CInt
  import opened HashProbe

  datatype Option<+T> = None | Some(value: T)

  /** An empty or deleted slot carries no key, value or hash (they are NULL and 0 in the source). */
  datatype Entry<+K, +V> = Empty | Deleted | Active(key: K, value: V, hash: nat)

  /** The caller's hash function and comparison. */
  datatype KeyOps<!K> = KeyOps(hfunc: K -> nat, cmp: (K, K) -> bool)

  /** What the table needs of them: cmp is an equivalence, and equal keys have equal 64-bit hashes. */
  ghost predicate Lawful<K(!new)>(ops: KeyOps<K>) {
    && (forall k :: ops.cmp(k, k))
    && (forall a, b :: ops.cmp(a, b) ==> ops.cmp(b, a))
    && (forall a, b, c :: ops.cmp(a, b) && ops.cmp(b, c) ==> ops.cmp(a, c))
    && (forall k :: ops.hfunc(k) < WORD)
    && (forall a, b :: ops.cmp(a, b) ==> ops.hfunc(a) == ops.hfunc(b))
  }

  // ----- the finite map -----

  ghost predicate Has<K, V>(ops: KeyOps<K>, m: map<K, V>, key: K) {
    exists k :: k in m && ops.cmp(k, key)
  }

  ghost predicate DistinctKeys<K, V>(ops: KeyOps<K>, m: map<K, V>) {
    forall a, b :: a in m && b in m && ops.cmp(a, b) ==> a == b
  }

  /** The stored key that is equal to the given one. */
  ghost function KeyOf<K, V>(ops: KeyOps<K>, m: map<K, V>, key: K): (k: K)
    requires Has(ops, m, key)
    ensures k in m && ops.cmp(k, key)
  {
    var k :| k in m && ops.cmp(k, key);
    k
  }

  ghost function Get<K, V>(ops: KeyOps<K>, m: map<K, V>, key: K): Option<V> {
    if Has(ops, m, key) then Some(m[KeyOf(ops, m, key)]) else None
  }

  /** Setting an existing key keeps the key that was stored first. */
  ghost function Put<K, V>(ops: KeyOps<K>, m: map<K, V>, key: K, value: V): map<K, V> {
    if Has(ops, m, key) then m[KeyOf(ops, m, key) := value] else m[key := value]
  }

  ghost function Remove<K, V>(ops: KeyOps<K>, m: map<K, V>, key: K): map<K, V> {
    if Has(ops, m, key) then m - {KeyOf(ops, m, key)} else m
  }

  lemma KeyOfUnique<K(!new), V>(ops: KeyOps<K>, m: map<K, V>, key: K, k: K)
    requires Lawful(ops) && DistinctKeys(ops, m)
    requires k in m && ops.cmp(k, key)
    ensures Has(ops, m, key) && KeyOf(ops, m, key) == k
  {
    var k' := KeyOf(ops, m, key);
    assert ops.cmp(key, k);
    assert ops.cmp(k', k);
  }

  /** Reading back after a set: the new value under every equal key, the old one elsewhere. */
  lemma GetAfterPut<K(!new), V>(ops: KeyOps<K>, m: map<K, V>, key: K, value: V, other: K)
    requires Lawful(ops) && DistinctKeys(ops, m)
    ensures DistinctKeys(ops, Put(ops, m, key, value))
    ensures Get(ops, Put(ops, m, key, value), other)
         == if ops.cmp(key, other) then Some(value) else Get(ops, m, other)
  {
    var k := if Has(ops, m, key) then KeyOf(ops, m, key) else key;
    var m' := Put(ops, m, key, value);
    assert m' == m[k := value];
    assert ops.cmp(k, key) && ops.cmp(key, k);
    PutDistinct(ops, m, k, key, value);
    if ops.cmp(key, other) {
      assert ops.cmp(k, other);
      KeyOfUnique(ops, m', other, k);
    } else {
      assert !ops.cmp(k, other) by { assert ops.cmp(k, other) ==> ops.cmp(key, other); }
      if Has(ops, m', other) {
        var k' := KeyOf(ops, m', other);
        KeyOfUnique(ops, m, other, k');
      }
      if Has(ops, m, other) {
        var k' := KeyOf(ops, m, other);
        KeyOfUnique(ops, m', other, k');
      }
    }
  }

  lemma PutDistinct<K(!new), V>(ops: KeyOps<K>, m: map<K, V>, k: K, key: K, value: V)
    requires Lawful(ops) && DistinctKeys(ops, m)
    requires ops.cmp(k, key) && (k in m || !Has(ops, m, key))
    ensures DistinctKeys(ops, m[k := value])
  {
    // a stored key equal to k is equal to key, so k was stored already
    assert forall c :: c in m && ops.cmp(c, k) ==> ops.cmp(c, key);
    assert forall c :: c in m && ops.cmp(k, c) ==> ops.cmp(c, k);
  }

  /** Reading back after a deletion. */
  lemma GetAfterRemove<K(!new), V>(ops: KeyOps<K>, m: map<K, V>, key: K, other: K)
    requires Lawful(ops) && DistinctKeys(ops, m)
    ensures DistinctKeys(ops, Remove(ops, m, key))
    ensures Get(ops, Remove(ops, m, key), other)
         == if ops.cmp(key, other) then None else Get(ops, m, other)
  {
    var m' := Remove(ops, m, key);
    if Has(ops, m', other) {
      var k' := KeyOf(ops, m', other);
      KeyOfUnique(ops, m, other, k');
      if ops.cmp(key, other) {
        assert ops.cmp(other, key) && ops.cmp(k', key);
        KeyOfUnique(ops, m, key, k');
        assert false;
      }
    } else if Has(ops, m, other) {
      var k' := KeyOf(ops, m, other);
      if k' in m' {
        assert false;
      } else {
        assert ops.cmp(k', key) && ops.cmp(key, k') && ops.cmp(key, other);
      }
    }
  }

  // ----- slot arrays -----

  ghost predicate Matches<K, V>(ops: KeyOps<K>, e: Entry<K, V>, key: K) {
    e.Active? && ops.cmp(e.key, key)
  }

  /** None of the first n probes of this hash meets an empty slot. */
  ghost predicate NoEmptyBefore<K, V>(s: seq<Entry<K, V>>, hash: nat, n: nat)
    requires |s| > 0
  {
    forall j: nat :: j < n ==> !s[Slot(hash, |s|, j)].Empty?
  }

  /** A search for this hash gets as far as slot p. */
  ghost predicate Reaches<K, V>(s: seq<Entry<K, V>>, hash: nat, p: nat)
    requires |s| > 0
  {
    exists n: nat :: Slot(hash, |s|, n) == p && NoEmptyBefore(s, hash, n)
  }

  /** Slot p is where an absent key with this hash goes: the first slot on its path not in use. */
  ghost predicate FirstFree<K, V>(s: seq<Entry<K, V>>, hash: nat, p: nat)
    requires |s| > 0
  {
    p < |s| && !s[p].Active? &&
    exists n: nat :: Slot(hash, |s|, n) == p && forall j: nat :: j < n ==> s[Slot(hash, |s|, j)].Active?
  }

  ghost predicate WellFormed<K, V>(ops: KeyOps<K>, s: seq<Entry<K, V>>)
  {
    && |s| > 0
    && (forall p: nat :: p < |s| && s[p].Active? ==> s[p].hash == ops.hfunc(s[p].key))
    && (forall p: nat {:trigger Reaches(s, s[p].hash, p)} :: p < |s| && s[p].Active? ==> Reaches(s, s[p].hash, p))
    && (forall p: nat, q: nat {:trigger ops.cmp(s[p].key, s[q].key)} :: p < |s| && q < |s| && s[p].Active? && s[q].Active? && ops.cmp(s[p].key, s[q].key) ==> p == q)
  }

  /** The map m holds exactly the active entries of s. */
  ghost predicate Represents<K, V>(s: seq<Entry<K, V>>, m: map<K, V>) {
    && (forall p: nat :: p < |s| && s[p].Active? ==> s[p].key in m && m[s[p].key] == s[p].value)
    && (forall k :: k in m ==> exists p: nat :: p < |s| && s[p].Active? && s[p].key == k)
  }

  /** The slots that are active or deleted: what `fill` counts. */
  ghost function Used<K, V>(s: seq<Entry<K, V>>): set<nat> {
    set p: nat | p < |s| && !s[p].Empty?
  }

  /** The slots left as tombstones. */
  ghost function Tombs<K, V>(s: seq<Entry<K, V>>): set<nat> {
    set p: nat | p < |s| && s[p].Deleted?
  }

  /** s is well formed, holds the map m, and the two counters are exact. */
  ghost predicate State<K, V>(ops: KeyOps<K>, s: seq<Entry<K, V>>, m: map<K, V>, fill: int, count: int) {
    && WellFormed(ops, s)
    && Represents(s, m)
    && fill == |Used(s)|
    && fill == count + |Tombs(s)|
    && count == |m|
  }

  lemma RepresentsDistinct<K(!new), V>(ops: KeyOps<K>, s: seq<Entry<K, V>>, m: map<K, V>)
    requires WellFormed(ops, s) && Represents(s, m)
    ensures DistinctKeys(ops, m)
  {
  }

  /** A table that is not full still has an empty slot. */
  lemma SomeEmpty<K, V>(s: seq<Entry<K, V>>) returns (e: nat)
    requires |Used(s)| < |s|
    ensures e < |s| && s[e].Empty?
  {
    assert (forall p: nat :: p < |s| ==> !s[p].Empty?) ==> Used(s) == Below(|s|);
    e :| e < |s| && s[e].Empty?;
  }

  ghost function Below(n: nat): (r: set<nat>)
    ensures |r| == n
    ensures forall p: nat :: p in r <==> p < n
  {
    if n == 0 then {} else Below(n - 1) + {n - 1}
  }

  /** Filling slots never cuts a probe path. */
  lemma ReachesKept<K, V>(s: seq<Entry<K, V>>, s': seq<Entry<K, V>>, hash: nat, p: nat)
    requires |s| == |s'| > 0
    requires forall i: nat :: i < |s| && !s[i].Empty? ==> !s'[i].Empty?
    requires Reaches(s, hash, p)
    ensures Reaches(s', hash, p)
  {
    var n: nat :| Slot(hash, |s|, n) == p && NoEmptyBefore(s, hash, n);
    assert NoEmptyBefore(s', hash, n);
  }

  /** Storing an absent key in the first free slot of its path. */
  lemma StoreNew<K(!new), V>(ops: KeyOps<K>, s: seq<Entry<K, V>>, m: map<K, V>, fill: int, count: int,
                             p: nat, key: K, value: V)
    requires Lawful(ops) && State(ops, s, m, fill, count)
    requires FirstFree(s, ops.hfunc(key), p)
    requires forall q: nat :: q < |s| ==> !Matches(ops, s[q], key)
    ensures !Has(ops, m, key) && key !in m
    ensures State(ops, s[p := Active(key, value, ops.hfunc(key))], m[key := value],
                  if s[p].Empty? then fill + 1 else fill, count + 1)
  {
    NewEntryFound(ops, s, p, key, value);
    NewEntryMapped(ops, s, m, p, key, value);
    NewEntryCounted(s, p, Active(key, value, ops.hfunc(key)));
  }

  lemma NewEntryCounted<K, V>(s: seq<Entry<K, V>>, p: nat, e: Entry<K, V>)
    requires p < |s| && !s[p].Active? && e.Active?
    ensures |Used(s[p := e])| == if s[p].Empty? then |Used(s)| + 1 else |Used(s)|
    ensures |Tombs(s[p := e])| == if s[p].Empty? then |Tombs(s)| else |Tombs(s)| - 1
  {
    var s' := s[p := e];
    var u, t := Used(s), Tombs(s);
    var u', t' := Used(s'), Tombs(s');
    assert forall q :: q in u' <==> q in u || q == p;
    assert forall q :: q in t' <==> q in t && q != p;
    OneMore(u, u', p);
    OneMore(t', t, p);
  }

  lemma OneMore<T>(a: set<T>, b: set<T>, x: T)
    requires forall q :: q in b ==> q in a || q == x
    requires forall q :: q in a ==> q in b
    ensures |b| == if x in b && x !in a then |a| + 1 else |a|
  {
    if x in b && x !in a {
      assert b == a + {x};
    } else {
      assert b == a;
    }
  }

  lemma NewEntryFound<K(!new), V>(ops: KeyOps<K>, s: seq<Entry<K, V>>, p: nat, key: K, value: V)
    requires Lawful(ops) && WellFormed(ops, s)
    requires FirstFree(s, ops.hfunc(key), p)
    requires forall q: nat :: q < |s| ==> !Matches(ops, s[q], key)
    ensures WellFormed(ops, s[p := Active(key, value, ops.hfunc(key))])
  {
    var h := ops.hfunc(key);
    var s' := s[p := Active(key, value, h)];
    forall q: nat | q < |s'| && s'[q].Active? ensures Reaches(s', s'[q].hash, q) {
      if q == p {
        var n: nat :| Slot(h, |s|, n) == p && forall j: nat :: j < n ==> s[Slot(h, |s|, j)].Active?;
        assert NoEmptyBefore(s', h, n);
      } else {
        ReachesKept(s, s', s[q].hash, q);
      }
    }
    forall q: nat | q < |s| && s[q].Active? ensures !ops.cmp(s[q].key, key) && !ops.cmp(key, s[q].key) {
      assert !Matches(ops, s[q], key);
    }
  }

  lemma NewEntryMapped<K(!new), V>(ops: KeyOps<K>, s: seq<Entry<K, V>>, m: map<K, V>, p: nat, key: K, value: V)
    requires Lawful(ops) && Represents(s, m) && p < |s| && !s[p].Active?
    requires forall q: nat :: q < |s| ==> !Matches(ops, s[q], key)
    ensures !Has(ops, m, key) && key !in m
    ensures Represents(s[p := Active(key, value, ops.hfunc(key))], m[key := value])
  {
    var s' := s[p := Active(key, value, ops.hfunc(key))];
    var m' := m[key := value];
    assert ops.cmp(key, key);
    forall k | k in m ensures !ops.cmp(k, key) {
      var q: nat :| q < |s| && s[q].Active? && s[q].key == k;
      assert !Matches(ops, s[q], key);
    }
    forall k | k in m'
      ensures exists q: nat :: q < |s'| && s'[q].Active? && s'[q].key == k
    {
      if k == key {
        assert s'[p].key == k;
      } else {
        var q: nat :| q < |s| && s[q].Active? && s[q].key == k;
        assert s'[q].key == k;
      }
    }
  }

  /** Replacing the value of an active slot. */
  lemma StoreValue<K(!new), V>(ops: KeyOps<K>, s: seq<Entry<K, V>>, m: map<K, V>, fill: int, count: int, p: nat, key: K, value: V)
    requires Lawful(ops) && State(ops, s, m, fill, count)
    requires p < |s| && Matches(ops, s[p], key)
    ensures Has(ops, m, key)
    ensures State(ops, s[p := s[p].(value := value)], Put(ops, m, key, value), fill, count)
  {
    var s' := s[p := s[p].(value := value)];
    var k := s[p].key;
    RepresentsDistinct(ops, s, m);
    KeyOfUnique(ops, m, key, k);
    forall q: nat | q < |s'| && s'[q].Active? ensures Reaches(s', s'[q].hash, q) {
      ReachesKept(s, s', s[q].hash, q);
    }
    assert WellFormed(ops, s');
    assert Represents(s', m[k := value]) by {
      ValueRepresented(ops, s, m, p, value);
    }
    assert m[k := value].Keys == m.Keys;
    assert Used(s') == Used(s) && Tombs(s') == Tombs(s);
  }

  lemma ValueRepresented<K(!new), V>(ops: KeyOps<K>, s: seq<Entry<K, V>>, m: map<K, V>, p: nat, value: V)
    requires Lawful(ops) && WellFormed(ops, s) && Represents(s, m)
    requires p < |s| && s[p].Active?
    ensures Represents(s[p := s[p].(value := value)], m[s[p].key := value])
  {
    var s' := s[p := s[p].(value := value)];
    var m' := m[s[p].key := value];
    assert ops.cmp(s[p].key, s[p].key);
    forall k | k in m'
      ensures exists q: nat :: q < |s'| && s'[q].Active? && s'[q].key == k
    {
      var q: nat :| q < |s| && s[q].Active? && s[q].key == k;
      assert s'[q].key == k;
    }
  }

  /** Leaving a tombstone in an active slot. */
  lemma StoreTombstone<K(!new), V>(ops: KeyOps<K>, s: seq<Entry<K, V>>, m: map<K, V>, fill: int, count: int, p: nat, key: K)
    requires Lawful(ops) && State(ops, s, m, fill, count)
    requires p < |s| && Matches(ops, s[p], key)
    ensures Has(ops, m, key)
    ensures State(ops, s[p := Deleted], Remove(ops, m, key), fill, count - 1)
  {
    var s' := s[p := Deleted];
    var k := s[p].key;
    RepresentsDistinct(ops, s, m);
    KeyOfUnique(ops, m, key, k);
    forall q: nat | q < |s'| && s'[q].Active? ensures Reaches(s', s'[q].hash, q) {
      ReachesKept(s, s', s[q].hash, q);
    }
    assert ops.cmp(k, k);
    forall k' | k' in m - {k}
      ensures exists q: nat :: q < |s'| && s'[q].Active? && s'[q].key == k'
    {
      var q: nat :| q < |s| && s[q].Active? && s[q].key == k';
      assert s'[q].key == k';
    }
    assert (m - {k}).Keys == m.Keys - {k};
    assert Used(s') == Used(s) && Tombs(s') == Tombs(s) + {p} && p !in Tombs(s);
  }
}
