/**
 The hash table itself (src/lib/hash/hash.c): slots, fill, count, mask and the table pointer are
 updated in place; the abstract value is the finite map Contents.
 */
module HashTable {
  import opened CInt
  import opened SetFacts
  import opened HashProbe
  import opened HashSpec

  const MINSIZE: nat := 8
  const LONG_LIMIT: int := 0x8000_0000_0000_0000

  class Table<K(==,!new), V> {
    const ops: KeyOps<K>
    var fill: int
    var count: int
    var mask: nat
    var table: array<Entry<K, V>>

    ghost var bits: nat
    ghost var Contents: map<K, V>

    /** fill counts the active and deleted slots, count the active ones. */
    ghost predicate Sound()
      reads this, table
    {
      && Lawful(ops)
      && 3 <= bits <= 62
      && table.Length == Pow2(bits)
      && mask == Pow2(bits) - 1
      && State(ops, table[..], Contents, fill, count)
    }

    /** ... and one slot is empty. */
    ghost predicate Valid()
      reads this, table
    {
      Sound() && fill < table.Length
    }

    /** The load that every resizing restores. */
    ghost predicate Loaded()
      reads this, table
    {
      3 * fill < 2 * table.Length
    }

    /** hash_init: an empty table of eight slots. */
    constructor (ops: KeyOps<K>)
      requires Lawful(ops)
      ensures Valid() && Loaded() && fresh(table)
      ensures Contents == map[] && this.ops == ops && table.Length == MINSIZE && fill == count == 0
    {
      this.ops := ops;
      fill, count, mask := 0, 0, MINSIZE - 1;
      table := new Entry<K, V>[MINSIZE](_ => Empty);
      bits, Contents := 3, map[];
      new;
      assert Pow2(3) == 8;
      assert Used(table[..]) == {} && Tombs(table[..]) == {};
    }

    /** hash_initialize: a fresh table of 2^newBits empty slots. */
    method Initialize(ghost newBits: nat, size: nat)
      requires Lawful(ops) && 3 <= newBits <= 62 && size == Pow2(newBits)
      modifies this
      ensures Valid() && fresh(table)
      ensures bits == newBits && Contents == map[] && fill == 0 && count == 0
      ensures forall i :: 0 <= i < table.Length ==> table[i].Empty?
    {
      fill, count, mask := 0, 0, size - 1;
      table := new Entry<K, V>[size](_ => Empty);
      bits, Contents := newBits, map[];
      assert Used(table[..]) == {} && Tombs(table[..]) == {};
    }

    /** The comparison hash_lookup makes on an active slot. */
    predicate SameKey(e: Entry<K, V>, key: K, hash: nat)
      requires e.Active?
    {
      e.key == key || (e.hash == hash && ops.cmp(e.key, key))
    }

    /**
     The probe loop of hash_lookup. It has no exit of its own: it ends because probe number `limit`
     would meet an empty slot. `n` is the number of the last probe.
     */
    method Probe(key: K, hash: nat, ghost limit: nat) returns (slot: nat, ghost n: nat)
      requires table.Length == Pow2(bits) && mask == Pow2(bits) - 1
      requires table[Slot(hash, table.Length, limit)].Empty?
      ensures slot < table.Length && NoEmptyBefore(table[..], hash, n)
      ensures forall j: nat :: j < n ==> var e := table[Slot(hash, table.Length, j)]; e.Active? ==> !SameKey(e, key, hash)
      ensures table[slot].Active? ==> SameKey(table[slot], key, hash)
      ensures !table[slot].Active? ==> table[Slot(hash, table.Length, n)].Empty? && FirstFree(table[..], hash, slot)
    {
      ghost var s := table[..];
      n := 0;
      PathStart(hash, bits);
      var index := BitAnd(hash, mask);
      var perturb := hash;
      slot := index;
      var free: int := -1;
      while true
        invariant n <= limit
        invariant index == Index(hash, |s|, n) && perturb == Perturb(hash, n) && slot == Slot(hash, |s|, n)
        invariant Searched(s, key, hash, n, free)
        decreases limit - n
      {
        assert s[slot] == table[slot];
        if table[slot].Empty? {
          FreeAtEnd(s, key, hash, n, free);
          if free != -1 {
            slot := free;
          }
          return;
        }
        if table[slot].Active? && SameKey(table[slot], key, hash) {
          return;
        }
        SearchOn(s, key, hash, n, free);
        if table[slot].Deleted? && free == -1 {
          free := slot;
        }
        PathStep(hash, bits, n);
        index := (5 * index + perturb + 1) % WORD;
        slot := BitAnd(index, mask);
        perturb := perturb / 32;
        n := n + 1;
      }
    }

    /** The first n probes have met neither an empty slot nor the key; free is the first tombstone among them, or -1. */
    ghost predicate Searched(s: seq<Entry<K, V>>, key: K, hash: nat, n: nat, free: int) {
      && |s| > 0 && NoEmptyBefore(s, hash, n)
      && (forall j: nat :: j < n ==> var e := s[Slot(hash, |s|, j)]; e.Active? ==> !SameKey(e, key, hash))
      && (free == -1 ==> forall j: nat :: j < n ==> s[Slot(hash, |s|, j)].Active?)
      && (free != -1 ==> 0 <= free < |s| && s[free].Deleted? && FirstFree(s, hash, free))
    }

    lemma SearchOn(s: seq<Entry<K, V>>, key: K, hash: nat, n: nat, free: int)
      requires Searched(s, key, hash, n, free)
      requires var e := s[Slot(hash, |s|, n)]; !e.Empty? && (e.Active? ==> !SameKey(e, key, hash))
      ensures var p := Slot(hash, |s|, n); Searched(s, key, hash, n + 1, if s[p].Deleted? && free == -1 then p else free)
    {
    }

    lemma FreeAtEnd(s: seq<Entry<K, V>>, key: K, hash: nat, n: nat, free: int)
      requires Searched(s, key, hash, n, free) && s[Slot(hash, |s|, n)].Empty?
      ensures FirstFree(s, hash, if free != -1 then free else Slot(hash, |s|, n))
    {
    }

    /**
     hash_lookup: the slot of the key if it is set, otherwise the first slot of its probe path that
     is not in use.
     */
    method Lookup(key: K, hash: nat) returns (slot: nat)
      requires Valid() && hash == ops.hfunc(key)
      ensures slot < table.Length
      ensures table[slot].Active? ==> Matches(ops, table[slot], key)
      ensures !table[slot].Active? ==> FirstFree(table[..], hash, slot)
      ensures !table[slot].Active? ==> forall p: nat :: p < table.Length ==> !Matches(ops, table[p], key)
      ensures table[slot].Active? <==> Has(ops, Contents, key)
      ensures table[slot].Active? ==> Get(ops, Contents, key) == Some(table[slot].value)
    {
      ghost var s := table[..];
      ghost var e := SomeEmpty(s);
      ghost var limit := ProbeReachesEverySlot(hash, bits, e);
      ghost var n;
      slot, n := Probe(key, hash, limit);
      if table[slot].Active? {
        Present(key, slot);
      } else {
        Absent(key, hash, n);
      }
    }

    /** The search met an empty slot before any match: the key is not in the table. */
    lemma Absent(key: K, hash: nat, n: nat)
      requires Valid() && hash == ops.hfunc(key)
      requires NoEmptyBefore(table[..], hash, n) && table[Slot(hash, table.Length, n)].Empty?
      requires forall j: nat :: j < n ==> !Matches(ops, table[Slot(hash, table.Length, j)], key)
      ensures forall p: nat :: p < table.Length ==> !Matches(ops, table[p], key)
      ensures !Has(ops, Contents, key)
    {
      var s := table[..];
      forall p: nat | p < |s| && s[p].Active? && s[p].hash == hash ensures !Matches(ops, s[p], key) {
        assert Reaches(s, s[p].hash, p);
        var m: nat :| Slot(hash, |s|, m) == p && NoEmptyBefore(s, hash, m);
        assert m < n;
      }
      forall k | k in Contents ensures !ops.cmp(k, key) {
        var p: nat :| p < |s| && s[p].Active? && s[p].key == k;
        assert !Matches(ops, s[p], key);
      }
    }

    lemma Present(key: K, slot: nat)
      requires Valid() && slot < table.Length
      requires Matches(ops, table[slot], key)
      ensures Has(ops, Contents, key) && Get(ops, Contents, key) == Some(table[slot].value)
    {
      var s := table[..];
      assert s[slot] == table[slot];
      RepresentsDistinct(ops, s, Contents);
      KeyOfUnique(ops, Contents, key, s[slot].key);
    }

    /** Probe number n ends the search for the key. */
    ghost predicate Stops(key: K, n: nat)
      requires table.Length > 0
      reads this, table
    {
      var hash := ops.hfunc(key);
      var e := table[Slot(hash, table.Length, n)];
      e.Empty? || (e.Active? && SameKey(e, key, hash))
    }

    /** The search for a key ends if and only if a slot is empty or the key is there. */
    lemma SearchEndsIff(key: K)
      requires Sound()
      ensures table.Length > 0
      ensures (exists n: nat {:trigger Stops(key, n)} :: Stops(key, n)) <==> fill < table.Length || Has(ops, Contents, key)
    {
      var s, hash := table[..], ops.hfunc(key);
      if fill < table.Length {
        var p := SomeEmpty(s);
        var n := ProbeReachesEverySlot(hash, bits, p);
        assert Stops(key, n);
      } else {
        FullHasNoEmpty(s);
      }
      if Has(ops, Contents, key) {
        var k := KeyOf(ops, Contents, key);
        var p: nat :| p < |s| && s[p].Active? && s[p].key == k;
        assert s[p].hash == hash;
        var n := ProbeReachesEverySlot(hash, bits, p);
        assert Stops(key, n);
      }
      if n: nat :| Stops(key, n) {
        var p := Slot(hash, |s|, n);
        if s[p].Active? {
          assert ops.cmp(key, key) && s[p].key in Contents;
          assert ops.cmp(s[p].key, key);
        }
      }
    }

    /** hash_isset */
    method IsSet(key: K) returns (r: bool)
      requires Valid()
      ensures r == Has(ops, Contents, key)
    {
      var slot := Lookup(key, ops.hfunc(key));
      r := table[slot].Active?;
    }

    /** hash_get */
    method GetValue(key: K, default: V) returns (v: V)
      requires Valid()
      ensures v == match Get(ops, Contents, key) { case Some(x) => x case None => default }
    {
      var slot := Lookup(key, ops.hfunc(key));
      if table[slot].Active? {
        return table[slot].value;
      }
      v := default;
    }

    /** The first i entries of the old table are in this one. */
    ghost predicate Copied(o: seq<Entry<K, V>>, i: nat, old_contents: map<K, V>)
      reads this, table
    {
      && i <= |o| && Valid() && fill == count && Represents(o[..i], Contents)
      && forall k :: k in Contents ==> k in old_contents && Contents[k] == old_contents[k]
    }

    /** One round of hash_copy: an active entry of the old table goes into a table without tombstones. */
    method CopyOne(e: Entry<K, V>, ghost o: seq<Entry<K, V>>, ghost i: nat, ghost old_contents: map<K, V>)
      requires i < |o| && e == o[i] && Copied(o, i, old_contents)
      requires WellFormed(ops, o) && Represents(o, old_contents) && |old_contents| < table.Length
      modifies this`fill, this`count, this`Contents, table
      ensures Copied(o, i + 1, old_contents)
    {
      CopyNext(ops, o, i, Contents, old_contents);
      if e.Active? {
        Reinsert(e);
      }
    }

    method Reinsert(e: Entry<K, V>)
      requires Valid() && fill == count && fill + 1 < table.Length
      requires e.Active? && e.hash == ops.hfunc(e.key) && !Has(ops, Contents, e.key)
      modifies this`fill, this`count, this`Contents, table
      ensures Valid() && fill == count
      ensures e.key !in old(Contents) && Contents == old(Contents)[e.key := e.value]
    {
      var slot := Lookup(e.key, ops.hfunc(e.key));
      ghost var s := table[..];
      NoTombs(s);
      StoreNew(ops, s, Contents, fill, count, slot, e.key, e.value);
      table[slot] := Active(e.key, e.value, e.hash);
      fill := fill + 1;
      count := count + 1;
      Contents := Contents[e.key := e.value];
      assert table[..] == s[slot := Active(e.key, e.value, ops.hfunc(e.key))];
    }

    /** hash_copy: re-inserts every active slot of the old table into this fresh one. */
    method Copy(old_table: array<Entry<K, V>>, ghost old_contents: map<K, V>)
      requires Valid() && Contents == map[] && fill == 0
      requires old_table != table && WellFormed(ops, old_table[..]) && Represents(old_table[..], old_contents)
      requires |old_contents| < table.Length
      modifies this`fill, this`count, this`Contents, table
      ensures Valid() && Contents == old_contents
      ensures fill == count == |old_contents|
    {
      ghost var o := old_table[..];
      var i := 0;
      while i < old_table.Length
        invariant 0 <= i <= old_table.Length && old_table[..] == o && Copied(o, i, old_contents)
      {
        CopyOne(old_table[i], o, i, old_contents);
        i := i + 1;
      }
      assert o[..i] == o;
      assert Contents == old_contents;
    }

    /** What hash_update asks for: a bigger table at two thirds full, a smaller one at a quarter active. */
    predicate Grows()
      reads this
    {
      3 * fill >= 2 * (mask + 1)
    }

    predicate Shrinks()
      reads this
    {
      !Grows() && mask + 1 > MINSIZE && 4 * count <= mask + 1
    }

    /** The doubled size would not be a positive long. */
    predicate TooBig()
      reads this
    {
      Grows() && 2 * (mask + 1) >= LONG_LIMIT
    }

    /**
     hash_update: `alloc` says whether malloc succeeds. Contents never change; on failure nothing does,
     and on success the table is loaded below two thirds again.
     */
    method Update(alloc: bool) returns (rc: int)
      requires Sound()
      modifies this
      ensures Sound() && Contents == old(Contents) && count == old(count)
      ensures rc == 0 || rc == -1
      ensures rc == -1 <==> old(TooBig()) || (old(Grows() || Shrinks()) && !alloc)
      ensures rc == 0 ==> Loaded() && table.Length == NextSize(old(fill), old(count), old(table.Length))
      ensures !alloc ==> (rc == -1 <==> NextSize(old(fill), old(count), old(table.Length)) != old(table.Length))
      ensures rc == -1 || !old(Grows() || Shrinks()) ==>
        table == old(table) && bits == old(bits) && fill == old(fill) && table[..] == old(table[..])
      ensures rc == 0 && old(Grows() || Shrinks()) ==>
        fresh(table) && fill == count && bits == old(if Grows() then bits + 1 else bits - 1)
    {
      var old_size := mask + 1;
      SizeFits(bits);
      CountBound(ops, table[..], Contents, fill, count);
      rc := 0;
      if 3 * fill >= 2 * old_size {
        if old_size * 2 >= LONG_LIMIT {
          rc := -1;
        } else {
          rc := Resize(bits + 1, old_size * 2, alloc);
        }
      } else if old_size > MINSIZE && 4 * count <= old_size {
        HalfSize(bits);
        rc := Resize(bits - 1, old_size / 2, alloc);
      }
    }

    /** The second half of hash_update: a new table, if malloc can provide one. */
    method Resize(ghost new_bits: nat, new_size: nat, alloc: bool) returns (rc: int)
      requires Sound() && 3 <= new_bits <= 62 && new_size == Pow2(new_bits) && count < new_size
      modifies this
      ensures Sound() && Contents == old(Contents) && count == old(count) && rc == if alloc then 0 else -1
      ensures rc == -1 ==> table == old(table) && bits == old(bits) && fill == old(fill) && table[..] == old(table[..])
      ensures rc == 0 ==> fresh(table) && fill == count && bits == new_bits
    {
      if !alloc {
        return -1;
      }
      var old_table := table;
      ghost var old_contents := Contents;
      Initialize(new_bits, new_size);
      assert old_table[..] == old(table[..]);
      Copy(old_table, old_contents);
      rc := 0;
    }

    /** An absent key would go into a slot that has never been used. */
    ghost predicate TakesEmpty(key: K)
      reads this, table
    {
      table.Length > 0 && !Has(ops, Contents, key) && exists p: nat {:trigger FirstFree(table[..], ops.hfunc(key), p)} ::
        FirstFree(table[..], ops.hfunc(key), p) && table[p].Empty?
    }

    /** hash_set. When the last empty slot is taken and the table cannot grow, it is left full. */
    method Set(key: K, value: V, alloc: bool) returns (rc: int)
      requires Valid()
      modifies this, table
      ensures Sound() && Contents == Put(ops, old(Contents), key, value)
      ensures !Valid() <==> rc == -1 && old(fill + 1 == table.Length && TakesEmpty(key))
      ensures !alloc ==> table == old(table)
      ensures !alloc && old(fill == count && !Has(ops, Contents, key)) ==> fill == count == old(fill) + 1
      ensures rc == 0 || rc == -1
      ensures old(Loaded()) && rc == 0 ==> Loaded()
      ensures rc == -1 ==> !alloc || 2 * table.Length >= LONG_LIMIT
      ensures table == old(table) || fresh(table)
      ensures old(Has(ops, Contents, key)) ==> rc == 0 && table == old(table) && fill == old(fill) && count == old(count)
      ensures !old(Has(ops, Contents, key)) ==> count == old(count) + 1
      ensures !old(Has(ops, Contents, key)) && rc == 0 ==>
        table.Length == NextSize(old(fill) + (if old(TakesEmpty(key)) then 1 else 0), old(count) + 1, old(table.Length))
    {
      var hash := ops.hfunc(key);
      var slot := Lookup(key, hash);
      rc := 0;
      if table[slot].Active? {
        Assign(slot, key, value);
      } else {
        Insert(slot, key, value, hash);
        rc := Update(alloc);
      }
    }

    method Assign(slot: nat, ghost key: K, value: V)
      requires Valid() && slot < table.Length && Matches(ops, table[slot], key)
      modifies this`Contents, table
      ensures Valid() && Contents == Put(ops, old(Contents), key, value)
      ensures Has(ops, old(Contents), key)
    {
      ghost var s := table[..];
      StoreValue(ops, s, Contents, fill, count, slot, key, value);
      table[slot] := table[slot].(value := value);
      Contents := Put(ops, Contents, key, value);
      assert table[..] == s[slot := s[slot].(value := value)];
    }

    /** An absent key goes into its slot; this may have been the last empty one. */
    method Insert(slot: nat, key: K, value: V, hash: nat)
      requires Valid() && hash == ops.hfunc(key) && slot < table.Length && FirstFree(table[..], hash, slot)
      requires forall p: nat :: p < table.Length ==> !Matches(ops, table[p], key)
      modifies this`count, this`fill, this`Contents, table
      ensures Sound() && Contents == Put(ops, old(Contents), key, value)
      ensures fill == old(fill) + (if old(TakesEmpty(key)) then 1 else 0) && count == old(count) + 1
      ensures old(fill == count) ==> fill == count == old(fill) + 1
    {
      ghost var s := table[..];
      if fill == count {
        NoTombs(s);
      }
      StoreNew(ops, s, Contents, fill, count, slot, key, value);
      FreeSlotUnique(s, hash, slot);
      count := count + 1;
      if table[slot].Empty? {
        fill := fill + 1;
      }
      table[slot] := Active(key, value, hash);
      Contents := Contents[key := value];
      assert table[..] == s[slot := Active(key, value, hash)];
    }

    /** hash_del */
    method Del(key: K, alloc: bool) returns (rc: int)
      requires Valid()
      modifies this, table
      ensures Valid() && Contents == Remove(ops, old(Contents), key)
      ensures rc == 0 || rc == -1
      ensures old(Loaded()) ==> Loaded()
      ensures rc == -1 ==> !alloc || 2 * table.Length >= LONG_LIMIT
      ensures table == old(table) || fresh(table)
      ensures !old(Has(ops, Contents, key)) ==> rc == 0 && table == old(table) && fill == old(fill) && count == old(count)
      ensures old(Has(ops, Contents, key)) ==> count == old(count) - 1
      ensures old(Has(ops, Contents, key)) && rc == 0 ==> table.Length == NextSize(old(fill), old(count) - 1, old(table.Length))
    {
      var slot := Lookup(key, ops.hfunc(key));
      if !table[slot].Active? {
        return 0;
      }
      ghost var s := table[..];
      StoreTombstone(ops, s, Contents, fill, count, slot, key);
      table[slot] := Deleted;
      assert table[..] == s[slot := Deleted];
      count := count - 1;
      Contents := Remove(ops, Contents, key);
      rc := Update(alloc);
    }
  }

  /** The size that hash_update leaves, with so many slots taken, so many of them active, and so many in all. */
  function NextSize(fill: int, count: int, size: nat): nat {
    if 3 * fill >= 2 * size then 2 * size else if size > MINSIZE && 4 * count <= size then size / 2 else size
  }

  /** The table grows at two thirds full, and shrinks at a quarter active unless it has eight slots; it keeps room for what is in it. */
  lemma NextSizeIs(fill: nat, count: nat, size: nat)
    requires count <= fill <= size && size >= 8
    ensures NextSize(fill, count, size) > size <==> 3 * fill >= 2 * size
    ensures NextSize(fill, count, size) < size <==> 3 * fill < 2 * size && size > 8 && 4 * count <= size
    ensures 3 * count < 2 * NextSize(fill, count, size) && NextSize(fill, count, size) <= 2 * size
  {
  }

  lemma FreeSlotUnique<K, V>(s: seq<Entry<K, V>>, hash: nat, p: nat)
    requires |s| > 0 && FirstFree(s, hash, p)
    ensures forall q: nat {:trigger FirstFree(s, hash, q)} :: FirstFree(s, hash, q) ==> q == p
  {
    forall q: nat | FirstFree(s, hash, q) ensures q == p {
      var m: nat :| Slot(hash, |s|, m) == p && forall j: nat :: j < m ==> s[Slot(hash, |s|, j)].Active?;
      var n: nat :| Slot(hash, |s|, n) == q && forall j: nat :: j < n ==> s[Slot(hash, |s|, j)].Active?;
      assert !(m < n) && !(n < m);
    }
  }

  lemma FullHasNoEmpty<K, V>(s: seq<Entry<K, V>>)
    requires |Used(s)| >= |s|
    ensures forall p: nat :: p < |s| ==> !s[p].Empty?
  {
    forall p: nat | p < |s| ensures !s[p].Empty? {
      if s[p].Empty? {
        assert Used(s) + {p} <= Below(|s|);
        SubsetSize(Used(s) + {p}, Below(|s|));
      }
    }
  }

  lemma HalfSize(bits: nat)
    requires 3 <= bits && Pow2(bits) > MINSIZE
    ensures bits > 3 && Pow2(bits - 1) == Pow2(bits) / 2
  {
    assert Pow2(3) == 8;
  }

  lemma CountBound<K(!new), V>(ops: KeyOps<K>, s: seq<Entry<K, V>>, m: map<K, V>, fill: int, count: int)
    requires State(ops, s, m, fill, count)
    ensures 0 <= count <= fill <= |s|
  {
    assert Used(s) <= Below(|s|);
    SubsetSize(Used(s), Below(|s|));
  }

  lemma SizeFits(bits: nat)
    requires 3 <= bits <= 62
    ensures 2 * Pow2(bits) >= LONG_LIMIT <==> bits == 62
  {
    Pow2Monotone(bits, 62);
    Pow2Word();
    assert Pow2(64) == 2 * Pow2(63) == 4 * Pow2(62);
    if bits < 62 {
      Pow2Monotone(bits, 61);
      assert Pow2(62) == 2 * Pow2(61);
    }
  }

  lemma NoTombs<K, V>(s: seq<Entry<K, V>>)
    requires |Tombs(s)| == 0
    ensures forall p: nat :: p < |s| ==> !s[p].Deleted?
  {
    assert Tombs(s) == {};
    assert forall p: nat :: p < |s| && s[p].Deleted? ==> p in Tombs(s);
  }

  /** What one round of copying needs and gives. */
  lemma CopyNext<K(!new), V>(ops: KeyOps<K>, o: seq<Entry<K, V>>, i: nat, m: map<K, V>, all: map<K, V>)
    requires Lawful(ops) && WellFormed(ops, o) && i < |o| && Represents(o, all) && Represents(o[..i], m)
    requires forall k :: k in m ==> k in all && m[k] == all[k]
    ensures !o[i].Active? ==> Represents(o[..i + 1], m)
    ensures o[i].Active? ==> var m' := m[o[i].key := o[i].value];
      && !Has(ops, m, o[i].key) && o[i].hash == ops.hfunc(o[i].key)
      && Represents(o[..i + 1], m')
      && |m| + 1 <= |all|
      && forall k :: k in m' ==> k in all && m'[k] == all[k]
  {
    if o[i].Active? {
      NotCopiedYet(ops, o, i, m);
      SubmapSize(m[o[i].key := o[i].value], all);
    }
    RepresentsNext(o, i, m);
  }

  lemma NotCopiedYet<K(!new), V>(ops: KeyOps<K>, o: seq<Entry<K, V>>, i: nat, m: map<K, V>)
    requires Lawful(ops) && WellFormed(ops, o) && i < |o| && o[i].Active? && Represents(o[..i], m)
    ensures !Has(ops, m, o[i].key) && o[i].key !in m
  {
    forall k | k in m ensures !ops.cmp(k, o[i].key) {
      var p: nat :| p < |o[..i]| && o[..i][p].Active? && o[..i][p].key == k;
      assert o[p].key == k;
    }
    assert ops.cmp(o[i].key, o[i].key);
  }

  lemma RepresentsNext<K, V>(o: seq<Entry<K, V>>, i: nat, m: map<K, V>)
    requires i < |o| && Represents(o[..i], m)
    ensures !o[i].Active? ==> Represents(o[..i + 1], m)
    ensures o[i].Active? && o[i].key !in m ==> Represents(o[..i + 1], m[o[i].key := o[i].value])
  {
    var m' := if o[i].Active? then m[o[i].key := o[i].value] else m;
    var t, t' := o[..i], o[..i + 1];
    assert t' == t + [o[i]];
    forall k | k in m' ensures exists p: nat :: p < |t'| && t'[p].Active? && t'[p].key == k {
      if k in m {
        var p: nat :| p < |t| && t[p].Active? && t[p].key == k;
        assert t'[p] == t[p];
      } else {
        assert t'[i].key == k;
      }
    }
  }

  lemma SubmapSize<K, V>(m: map<K, V>, big: map<K, V>)
    requires forall k :: k in m ==> k in big
    ensures |m| <= |big|
  {
    assert m.Keys <= big.Keys;
    SubsetSize(m.Keys, big.Keys);
  }
}
