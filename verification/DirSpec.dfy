/**
 The records of a directory's first block (src/kernel/fs/inode.c:591-602, 622-924; the layout is the
 one of the ext2 internal layout document, section "Linked Directory Entry Structure"), as a list.
 */
module DirSpec {
  import opened Marks

  const BLOCK: nat := 2048
  const SIZE_DIR_NO_NAME: nat := 8

  type Byte = n: nat | n < 256

  datatype Rec = Rec(inode: nat, rec_len: nat, name: seq<Byte>, kind: Byte)

  /** The bytes that a record needs for a name of n bytes: header and name, rounded up to a multiple of 4. */
  function Fit(n: nat): nat {
    (SIZE_DIR_NO_NAME + n + 3) / 4 * 4
  }

  /** Header and name fit, with less than four bytes to spare, and the next record is aligned. */
  lemma FitIs(n: nat)
    ensures 8 + n <= Fit(n) < 8 + n + 4 && Fit(n) % 4 == 0
  {
  }

  ghost predicate RecOk(r: Rec) {
    0 < r.inode < 0x1_0000_0000 && 0 < |r.name| <= 255 && Fit(|r.name|) <= r.rec_len <= BLOCK && r.rec_len % 4 == 0
  }

  function Total(recs: seq<Rec>): nat {
    if recs == [] then 0 else Total(recs[..|recs| - 1]) + recs[|recs| - 1].rec_len
  }

  /** The names, headers included: what i_size counts. */
  function Used(recs: seq<Rec>): nat {
    if recs == [] then 0 else Used(recs[..|recs| - 1]) + Fit(|recs[|recs| - 1].name|)
  }

  function Names(recs: seq<Rec>): (n: seq<seq<Byte>>)
    ensures |n| == |recs| && forall i :: 0 <= i < |recs| ==> n[i] == recs[i].name
  {
    seq(|recs|, i requires 0 <= i < |recs| => recs[i].name)
  }

  ghost predicate Distinct(names: seq<seq<Byte>>) {
    forall i, j {:trigger Pair(i, j)} :: Pair(i, j) && 0 <= i < j < |names| ==> names[i] != names[j]
  }

  /** The records tile the block, and no name occurs twice. */
  ghost predicate DirOk(recs: seq<Rec>) {
    && recs != [] && (forall i :: 0 <= i < |recs| ==> RecOk(recs[i]))
    && Total(recs) == BLOCK && Distinct(Names(recs))
  }

  /** What the directory says of a name: its inode and what kind of file it is. */
  datatype Entry = Entry(name: seq<Byte>, inode: nat, kind: Byte)

  function EntryOf(r: Rec): Entry {
    Entry(r.name, r.inode, r.kind)
  }

  /** The directory as a finite map from names to inodes and kinds, given by its entries. */
  ghost function Map(recs: seq<Rec>): set<Entry> {
    set r | r in recs :: EntryOf(r)
  }

  /** The position of a name, or the number of records. */
  function Find(recs: seq<Rec>, name: seq<Byte>): (i: nat)
    ensures i <= |recs|
    ensures i < |recs| ==> recs[i].name == name
    ensures forall k :: 0 <= k < i ==> recs[k].name != name
  {
    if recs == [] || recs[0].name == name then 0 else 1 + Find(recs[1..], name)
  }

  /** The first record with room for another one of size need - and 4 bytes more. */
  function FindRoom(recs: seq<Rec>, need: nat): (i: nat)
    ensures i <= |recs|
    ensures i < |recs| ==> need + Fit(|recs[i].name|) < recs[i].rec_len
    ensures forall k :: 0 <= k < i ==> need + Fit(|recs[k].name|) >= recs[k].rec_len
  {
    if recs == [] || need + Fit(|recs[0].name|) < recs[0].rec_len then 0 else 1 + FindRoom(recs[1..], need)
  }

  /** Record i keeps the bytes it needs; the new record takes the rest. */
  function Split(recs: seq<Rec>, i: nat, inode: nat, name: seq<Byte>, kind: Byte): seq<Rec>
    requires i < |recs| && Fit(|recs[i].name|) <= recs[i].rec_len
  {
    var r := recs[i];
    recs[..i] + [r.(rec_len := Fit(|r.name|)), Rec(inode, r.rec_len - Fit(|r.name|), name, kind)] + recs[i + 1..]
  }

  /** Record i disappears into the one before it. */
  function Merge(recs: seq<Rec>, i: nat): seq<Rec>
    requires 0 < i < |recs|
  {
    var p := recs[i - 1];
    recs[..i - 1] + [p.(rec_len := p.rec_len + recs[i].rec_len)] + recs[i + 1..]
  }

  lemma {:induction false} TotalAppend(a: seq<Rec>, b: seq<Rec>)
    ensures Total(a + b) == Total(a) + Total(b)
    ensures Used(a + b) == Used(a) + Used(b)
  {
    if b == [] {
      assert a + b == a;
    } else {
      var init := b[..|b| - 1];
      assert (a + b)[..|a + b| - 1] == a + init;
      TotalAppend(a, init);
    }
  }

  lemma TotalOf(r: Rec)
    ensures Total([r]) == r.rec_len && Used([r]) == Fit(|r.name|)
  {
    assert [r][..0] == [];
  }

  /** look_for_inode_dir: a name leads to the one entry that has it, if there is one. */
  lemma FindIsLookup(recs: seq<Rec>, name: seq<Byte>)
    requires DirOk(recs)
    ensures var i := Find(recs, name);
      if i < |recs| then recs[i].inode != 0 && forall e :: e in Map(recs) && e.name == name <==> e == EntryOf(recs[i])
      else forall e :: e in Map(recs) ==> e.name != name
  {
    var i := Find(recs, name);
    if i < |recs| {
      assert RecOk(recs[i]);
      assert recs[i] in recs;
      forall r | r in recs && r.name == name ensures r == recs[i] {
        var k :| 0 <= k < |recs| && recs[k] == r;
        FindUnique(recs, name, k);
      }
    }
  }

  lemma FindUnique(recs: seq<Rec>, name: seq<Byte>, i: nat)
    requires Distinct(Names(recs)) && i < |recs| && recs[i].name == name
    ensures Find(recs, name) == i
  {
    var k := Find(recs, name);
    assert Pair(k, i) && Pair(i, k) && Names(recs)[k] == recs[k].name && Names(recs)[i] == name;
  }

  // ----- adding and removing -----

  /** The n records from i on replaced by others. */
  function Replace(recs: seq<Rec>, i: nat, n: nat, mid: seq<Rec>): seq<Rec>
    requires i + n <= |recs|
  {
    recs[..i] + mid + recs[i + n..]
  }

  lemma ThreeTotals(s: seq<Rec>, mid: seq<Rec>, t: seq<Rec>)
    ensures Total(s + mid + t) == Total(s) + Total(mid) + Total(t)
    ensures Used(s + mid + t) == Used(s) + Used(mid) + Used(t)
  {
    TotalAppend(s, mid);
    TotalAppend(s + mid, t);
  }

  lemma ReplaceTotals(recs: seq<Rec>, i: nat, n: nat, mid: seq<Rec>)
    requires i + n <= |recs|
    ensures Total(Replace(recs, i, n, mid)) + Total(recs[i..i + n]) == Total(recs) + Total(mid)
    ensures Used(Replace(recs, i, n, mid)) + Used(recs[i..i + n]) == Used(recs) + Used(mid)
    ensures Total(recs[i..i + n]) <= Total(recs)
  {
    var gone := recs[i..i + n];
    ThreeTotals(recs[..i], mid, recs[i + n..]);
    ThreeTotals(recs[..i], gone, recs[i + n..]);
    assert recs == recs[..i] + gone + recs[i + n..];
  }

  lemma ReplaceMembers(recs: seq<Rec>, i: nat, n: nat, mid: seq<Rec>, gone: seq<Rec>)
    requires i + n <= |recs| && gone == recs[i..i + n]
    ensures forall r :: r in Replace(recs, i, n, mid) ==> r in recs || r in mid
    ensures forall r :: r in recs ==> r in Replace(recs, i, n, mid) || r in gone
    ensures forall r :: r in mid ==> r in Replace(recs, i, n, mid)
    ensures forall r :: r in gone ==> r in recs
  {
    assert recs == recs[..i] + gone + recs[i + n..];
  }

  lemma NameInsert(s: seq<seq<Byte>>, k: nat, x: seq<Byte>)
    requires Distinct(s) && k <= |s| && x !in s
    ensures Distinct(s[..k] + [x] + s[k..])
  {
    var u := s[..k] + [x] + s[k..];
    forall i, j | 0 <= i < j < |u| ensures u[i] != u[j] {
      var i', j' := if i < k then i else i - 1, if j < k then j else j - 1;
      assert i != k ==> u[i] == s[i'];
      assert j != k ==> u[j] == s[j'];
      assert Pair(i', j');
    }
  }

  lemma NameDelete(s: seq<seq<Byte>>, k: nat)
    requires Distinct(s) && k < |s|
    ensures Distinct(s[..k] + s[k + 1..])
  {
    var u := s[..k] + s[k + 1..];
    forall i, j | 0 <= i < j < |u| ensures u[i] != u[j] {
      assert Pair(if i < k then i else i + 1, if j < k then j else j + 1);
    }
  }

  /** The two records that a split leaves. */
  function Halves(r: Rec, inode: nat, name: seq<Byte>, kind: Byte): seq<Rec>
    requires Fit(|r.name|) <= r.rec_len
  {
    [r.(rec_len := Fit(|r.name|)), Rec(inode, r.rec_len - Fit(|r.name|), name, kind)]
  }

  lemma HalvesOk(r: Rec, inode: nat, name: seq<Byte>, kind: Byte)
    requires RecOk(r) && 0 < |name| <= 255 && 0 < inode < 0x1_0000_0000 && Fit(|name|) + Fit(|r.name|) < r.rec_len
    ensures var h := Halves(r, inode, name, kind);
      && RecOk(h[0]) && RecOk(h[1]) && Total(h) == r.rec_len && Used(h) == Fit(|r.name|) + Fit(|name|)
  {
    var h := Halves(r, inode, name, kind);
    assert h == [h[0]] + [h[1]];
    TotalAppend([h[0]], [h[1]]);
    TotalOf(h[0]);
    TotalOf(h[1]);
  }

  lemma SplitNames(recs: seq<Rec>, i: nat, inode: nat, name: seq<Byte>, kind: Byte)
    requires i < |recs| && Fit(|recs[i].name|) <= recs[i].rec_len && Distinct(Names(recs)) && name !in Names(recs)
    ensures Distinct(Names(Split(recs, i, inode, name, kind)))
  {
    NameInsert(Names(recs), i + 1, name);
    assert Names(Split(recs, i, inode, name, kind)) == Names(recs)[..i + 1] + [name] + Names(recs)[i + 1..];
  }

  lemma SplitTotals(recs: seq<Rec>, i: nat, inode: nat, name: seq<Byte>, kind: Byte)
    requires i < |recs| && RecOk(recs[i]) && 0 < |name| <= 255 && 0 < inode < 0x1_0000_0000
    requires Fit(|name|) + Fit(|recs[i].name|) < recs[i].rec_len
    ensures var u := Split(recs, i, inode, name, kind); Total(u) == Total(recs) && Used(u) == Used(recs) + Fit(|name|)
  {
    var h := Halves(recs[i], inode, name, kind);
    HalvesOk(recs[i], inode, name, kind);
    ReplaceTotals(recs, i, 1, h);
    TotalOf(recs[i]);
    assert recs[i..i + 1] == [recs[i]];
    assert Split(recs, i, inode, name, kind) == Replace(recs, i, 1, h);
  }

  lemma SplitMembers(recs: seq<Rec>, i: nat, inode: nat, name: seq<Byte>, kind: Byte)
    requires i < |recs| && Fit(|recs[i].name|) <= recs[i].rec_len
    ensures var u, h := Split(recs, i, inode, name, kind), Halves(recs[i], inode, name, kind);
      && (forall r :: r in u ==> r in recs || r == h[0] || r == h[1])
      && (forall r :: r in recs ==> r in u || r == recs[i])
      && h[0] in u && h[1] in u && recs[i] in recs
  {
    var h := Halves(recs[i], inode, name, kind);
    assert recs[i..i + 1] == [recs[i]] && h == [h[0], h[1]];
    assert Split(recs, i, inode, name, kind) == Replace(recs, i, 1, h);
    ReplaceMembers(recs, i, 1, h, [recs[i]]);
  }

  lemma SplitMap(recs: seq<Rec>, i: nat, inode: nat, name: seq<Byte>, kind: Byte)
    requires i < |recs| && Fit(|recs[i].name|) <= recs[i].rec_len
    ensures Map(Split(recs, i, inode, name, kind)) == Map(recs) + {Entry(name, inode, kind)}
  {
    SplitMembers(recs, i, inode, name, kind);
    var h := Halves(recs[i], inode, name, kind);
    assert EntryOf(h[0]) == EntryOf(recs[i]);
  }

  /** The new record is at i + 1; the others keep their names and inodes. */
  lemma SplitOk(recs: seq<Rec>, i: nat, inode: nat, name: seq<Byte>, kind: Byte)
    requires DirOk(recs) && 0 < |name| <= 255 && 0 < inode < 0x1_0000_0000 && Find(recs, name) == |recs|
    requires i < |recs| && Fit(|name|) + Fit(|recs[i].name|) < recs[i].rec_len
    ensures var u := Split(recs, i, inode, name, kind);
      && DirOk(u) && Map(u) == Map(recs) + {Entry(name, inode, kind)} && Used(u) == Used(recs) + Fit(|name|)
      && Find(u, name) == i + 1
  {
    var u, h := Split(recs, i, inode, name, kind), Halves(recs[i], inode, name, kind);
    assert RecOk(recs[i]);
    HalvesOk(recs[i], inode, name, kind);
    SplitTotals(recs, i, inode, name, kind);
    SplitMap(recs, i, inode, name, kind);
    SplitNames(recs, i, inode, name, kind);
    SplitMembers(recs, i, inode, name, kind);
    AllOk(recs, h, u);
    FindUnique(u, name, i + 1);
  }

  lemma AllOk(recs: seq<Rec>, mid: seq<Rec>, u: seq<Rec>)
    requires (forall k :: 0 <= k < |recs| ==> RecOk(recs[k])) && (forall k :: 0 <= k < |mid| ==> RecOk(mid[k]))
    requires forall r :: r in u ==> r in recs || r in mid
    ensures forall k :: 0 <= k < |u| ==> RecOk(u[k])
  {
    forall k | 0 <= k < |u| ensures RecOk(u[k]) {
      assert u[k] in u;
    }
  }

  lemma MergeNames(recs: seq<Rec>, i: nat)
    requires 0 < i < |recs| && Distinct(Names(recs))
    ensures Distinct(Names(Merge(recs, i))) && recs[i].name !in Names(Merge(recs, i))
  {
    var s := Names(recs);
    NameDelete(s, i);
    assert Names(Merge(recs, i)) == s[..i] + s[i + 1..];
    forall k | 0 <= k < |s| && k != i ensures s[k] != s[i] {
      assert Pair(k, i) && Pair(i, k);
    }
  }

  function Grown(recs: seq<Rec>, i: nat): Rec
    requires 0 < i < |recs|
  {
    recs[i - 1].(rec_len := recs[i - 1].rec_len + recs[i].rec_len)
  }

  lemma MergeTotals(recs: seq<Rec>, i: nat)
    requires 0 < i < |recs|
    ensures var u := Merge(recs, i); Total(u) == Total(recs) && Used(u) + Fit(|recs[i].name|) == Used(recs)
    ensures Grown(recs, i).rec_len <= Total(recs)
  {
    var p, r, m := recs[i - 1], recs[i], Grown(recs, i);
    TotalOf(p);
    TotalOf(r);
    TotalOf(m);
    TotalAppend([p], [r]);
    assert recs[i - 1..i + 1] == [p] + [r];
    ReplaceTotals(recs, i - 1, 2, [m]);
    assert Merge(recs, i) == Replace(recs, i - 1, 2, [m]);
  }

  lemma MergeMembers(recs: seq<Rec>, i: nat)
    requires 0 < i < |recs|
    ensures var u, m := Merge(recs, i), Grown(recs, i);
      && (forall r :: r in u ==> r in recs || r == m) && (forall r :: r in recs ==> r in u || r == recs[i - 1] || r == recs[i])
      && m in u && recs[i - 1] in recs && recs[i] in recs
  {
    var p, r, m := recs[i - 1], recs[i], Grown(recs, i);
    assert recs[i - 1..i + 1] == [p, r];
    assert Merge(recs, i) == Replace(recs, i - 1, 2, [m]);
    ReplaceMembers(recs, i - 1, 2, [m], [p, r]);
  }

  lemma GrownOk(recs: seq<Rec>, i: nat)
    requires 0 < i < |recs| && RecOk(recs[i - 1]) && RecOk(recs[i]) && Total(recs) == BLOCK
    ensures RecOk(Grown(recs, i))
  {
    MergeTotals(recs, i);
    Multiples(recs[i - 1].rec_len, recs[i].rec_len);
  }

  lemma Multiples(a: nat, b: nat)
    requires a % 4 == 0 && b % 4 == 0
    ensures (a + b) % 4 == 0
  {
  }

  /** Record i, and nothing else, disappears from the map. */
  lemma MergeOk(recs: seq<Rec>, i: nat)
    requires DirOk(recs) && 0 < i < |recs|
    ensures var u := Merge(recs, i);
      DirOk(u) && Map(u) == Map(recs) - {EntryOf(recs[i])} && Used(u) + Fit(|recs[i].name|) == Used(recs)
  {
    GrownOk(recs, i);
    MergeTotals(recs, i);
    MergeMembers(recs, i);
    MergeNames(recs, i);
    AllOk(recs, [Grown(recs, i)], Merge(recs, i));
    MergedMap(recs, Merge(recs, i), recs[i - 1], recs[i], Grown(recs, i));
  }

  lemma MergedMap(recs: seq<Rec>, u: seq<Rec>, p: Rec, r: Rec, m: Rec)
    requires m.name == p.name && m.inode == p.inode && m.kind == p.kind && p in recs && r in recs && m in u
    requires (forall x :: x in u ==> x in recs || x == m) && (forall x :: x in recs ==> x in u || x == p || x == r)
    requires r.name !in Names(u)
    ensures Map(u) == Map(recs) - {EntryOf(r)}
  {
    forall x | x in u ensures x.name != r.name {
      var k :| 0 <= k < |u| && u[k] == x;
      assert Names(u)[k] == x.name;
    }
    assert EntryOf(p) in Map(recs);
  }

  /** Removing what was added last gives back the very same records. */
  lemma MergeUndoesSplit(recs: seq<Rec>, i: nat, inode: nat, name: seq<Byte>, kind: Byte)
    requires i < |recs| && Fit(|recs[i].name|) <= recs[i].rec_len
    ensures Merge(Split(recs, i, inode, name, kind), i + 1) == recs
  {
  }
}
