/**
 Freeing the blocks of an inode (src/kernel/fs/inode.c:338-440, 1098-1129). The blocks are counted
 as leaked while they are being freed; at the end exactly the blocks of the inode have left the
 bitmap, each of them once.
 */
module BlockFree {
  import opened Marks
  import opened SetFacts
  import opened BlockTree
  import opened BlockMap

  /** The bitmap with the blocks of l clear. */
  ghost function Cleared(bits: seq<bool>, l: seq<nat>): (c: seq<bool>)
    ensures |c| == |bits| && forall b :: 0 <= b < |bits| ==> (c[b] <==> bits[b] && b !in l)
  {
    seq(|bits|, b requires 0 <= b < |bits| => bits[b] && b !in l)
  }

  /** v after the blocks of l have been freed, one after the other. */
  ghost function Release(v: Volume, l: seq<nat>): Volume {
    Volume(Cleared(v.bits, l), v.free + |l|, (v.free + |l|) % SHORT, v.disk, v.inodes, v.trees, v.owner, v.leaked - ToSet(l))
  }

  /** What freeing a block relies on. */
  ghost predicate Countable(v: Volume, n: nat) {
    && 0 < n <= |v.bits| && v.bg_free == v.free % SHORT
    && forall b :: b in v.leaked ==> 0 < b < n
  }

  lemma ReleaseNothing(v: Volume, n: nat)
    requires Countable(v, n)
    ensures Release(v, []) == v
  {
    assert Cleared(v.bits, []) == v.bits;
  }

  lemma ReleaseBoth(v: Volume, l1: seq<nat>, l2: seq<nat>)
    ensures Release(Release(v, l1), l2) == Release(v, l1 + l2)
  {
    assert Cleared(Cleared(v.bits, l1), l2) == Cleared(v.bits, l1 + l2);
    assert v.leaked - ToSet(l1) - ToSet(l2) == v.leaked - ToSet(l1 + l2);
  }

  lemma ReleaseOne(v: Volume, n: nat, b: nat)
    requires Consistent(v, n) && b in v.leaked
    ensures b < n && Consistent(Release(v, [b]), n)
  {
    ClearSet(v.bits, n, b, false);
    assert Cleared(v.bits, [b]) == v.bits[b := false];
    var v' := Release(v, [b]);
    forall id | id in v'.trees ensures InodeOk(v', id, n) {
      assert InodeOk(v, id, n);
    }
    forall c | c in v'.owner ensures OwnedBySome(v', c) {
      assert OwnedBySome(v, c);
    }
  }

  /** Freeing leaked blocks, each of them once, keeps the volume consistent. */
  lemma {:induction false} ReleaseConsistent(v: Volume, n: nat, l: seq<nat>)
    requires Consistent(v, n) && NoDup(l) && ToSet(l) <= v.leaked
    ensures Consistent(Release(v, l), n)
  {
    if l == [] {
      ReleaseNothing(v, n);
    } else {
      var init, last := l[..|l| - 1], l[|l| - 1];
      forall i | 0 <= i < |init| ensures init[i] != last {
        assert Pair(i, |l| - 1);
      }
      ReleaseConsistent(v, n, init);
      ReleaseOne(Release(v, init), n, last);
      ReleaseBoth(v, init, [last]);
      assert init + [last] == l;
    }
  }

  /** free_data_block */
  method FreeBlock(fs: FileSystem, b: nat) returns (rc: int)
    requires Countable(fs.View(), fs.blocks) && (b in fs.leaked || b == 0 || b > fs.blocks)
    modifies fs`bits, fs`free, fs`bg_free, fs`leaked
    ensures Countable(fs.View(), fs.blocks)
    ensures rc == (if b == 0 || b > fs.blocks then -1 else 0)
    ensures rc == -1 ==> fs.View() == old(fs.View())
    ensures rc == 0 ==> fs.View() == Release(old(fs.View()), [b])
  {
    if b > fs.blocks || b == 0 {
      return -1;
    }
    assert Cleared(fs.bits, [b]) == fs.bits[b := false];
    fs.bits := fs.bits[b := false];
    fs.free := fs.free + 1;
    fs.bg_free := (fs.bg_free + 1) % SHORT;
    fs.leaked := fs.leaked - {b};
    rc := 0;
  }

  /** The blocks of l, which no inode leads to, are all different. */
  ghost predicate Pending(v: Volume, l: seq<nat>) {
    NoDup(l) && ToSet(l) <= v.leaked
  }

  /** The first n entries of an inode or index block are the blocks of l, then zeros. */
  ghost predicate Lists(list: seq<nat>, n: nat, l: seq<nat>) {
    && |l| <= n <= |list|
    && (forall i :: 0 <= i < |l| ==> list[i] == l[i])
    && (forall i :: |l| <= i < n ==> list[i] == 0)
  }

  lemma PendingNext(v: Volume, n: nat, l: seq<nat>, i: nat)
    requires Pending(v, l) && i < |l|
    ensures l[i] in Release(v, l[..i]).leaked
    ensures Release(Release(v, l[..i]), [l[i]]) == Release(v, l[..i + 1])
  {
    assert l[i] in ToSet(l);
    forall j | 0 <= j < i ensures l[j] != l[i] {
      assert Pair(j, i);
    }
    ReleaseBoth(v, l[..i], [l[i]]);
    assert l[..i] + [l[i]] == l[..i + 1];
  }

  /** Frees the first n entries of an inode or index block; a zero entry is passed over if `skip`, and an error if not. */
  method FreeEntries(fs: FileSystem, list: seq<nat>, n: nat, skip: bool, ghost l: seq<nat>) returns (rc: int, freed: nat)
    requires Countable(fs.View(), fs.blocks) && Lists(list, n, l) && Pending(fs.View(), l)
    modifies fs`bits, fs`free, fs`bg_free, fs`leaked
    ensures Countable(fs.View(), fs.blocks)
    ensures rc == if skip || n == |l| then 0 else -1
    ensures fs.View() == Release(old(fs.View()), l) && freed == |l|
  {
    ghost var v0 := fs.View();
    ReleaseNothing(v0, fs.blocks);
    freed := 0;
    var i := 0;
    assert l[..0] == [];
    while i < n
      invariant 0 <= i <= n && Countable(fs.View(), fs.blocks)
      invariant freed == (if i < |l| then i else |l|)
      invariant i > |l| ==> skip
      invariant fs.View() == Release(v0, l[..freed])
    {
      if i < |l| {
        PendingNext(v0, fs.blocks, l, i);
        assert l[i] in ToSet(l);
      }
      if list[i] != 0 || !skip {
        var code := FreeBlock(fs, list[i]);
        if code < 0 {
          assert l[..freed] == l;
          return -1, freed;
        }
        freed := freed + 1;
      }
      i := i + 1;
    }
    assert l[..freed] == l;
    rc := 0;
  }

  /** Frees the blocks that an index block lists, then the index block itself. */
  method FreeIndexBlock(fs: FileSystem, block: nat, n: nat, skip: bool, ghost l: seq<nat>) returns (rc: int, freed: nat)
    requires Countable(fs.View(), fs.blocks) && Pending(fs.View(), l + [block])
    requires block < |fs.disk| && Lists(fs.disk[block], n, l) && (skip || n == |l|)
    modifies fs`bits, fs`free, fs`bg_free, fs`leaked
    ensures Countable(fs.View(), fs.blocks)
    ensures rc == 0 && freed == |l| + 1
    ensures fs.View() == Release(old(fs.View()), l + [block])
  {
    ghost var v0 := fs.View();
    PendingPrefix(v0, l, [block]);
    PendingNext(v0, fs.blocks, l + [block], |l|);
    assert (l + [block])[..|l|] == l && (l + [block])[..|l| + 1] == l + [block];
    rc, freed := FreeEntries(fs, fs.disk[block], n, skip, l);
    rc := FreeBlock(fs, block);
    freed := freed + 1;
  }

  lemma PendingPrefix(v: Volume, l1: seq<nat>, l2: seq<nat>)
    requires Pending(v, l1 + l2)
    ensures Pending(v, l1)
    ensures Pending(Release(v, l1), l2)
  {
    var l := l1 + l2;
    forall i, j | 0 <= i < j < |l1| ensures l1[i] != l1[j] {
      assert Pair(i, j) && l[i] == l1[i] && l[j] == l1[j];
    }
    forall i, j | 0 <= i < j < |l2| ensures l2[i] != l2[j] {
      assert Pair(|l1| + i, |l1| + j) && l[|l1| + i] == l2[i] && l[|l1| + j] == l2[j];
    }
    forall b | b in l2 ensures b in v.leaked && b !in l1 {
      assert b in ToSet(l);
      var j :| 0 <= j < |l2| && l2[j] == b;
      forall i | 0 <= i < |l1| ensures l1[i] != b {
        assert Pair(i, |l1| + j) && l[i] == l1[i] && l[|l1| + j] == b;
      }
    }
    forall b | b in l1 ensures b in v.leaked {
      assert b in ToSet(l);
    }
  }

  // ----- the order in which a tree is freed -----

  function First(data: seq<nat>, n: nat): seq<nat> {
    if |data| <= n then data else data[..n]
  }

  function Rest(data: seq<nat>, n: nat): seq<nat> {
    if |data| <= n then [] else data[n..]
  }

  /** The data blocks that each indirect block lists, followed by the indirect block. */
  function Rows(data: seq<nat>, inds: seq<nat>): seq<nat>
    decreases |inds|
  {
    if inds == [] then [] else First(data, 512) + [inds[0]] + Rows(Rest(data, 512), inds[1..])
  }

  function FreeOrder(t: Tree): seq<nat> {
    var indirect := Rest(t.data, 12);
    First(t.data, 12)
    + (if indirect != [] then First(indirect, 512) + [t.ind] else [])
    + (if t.deep then Rows(Rest(indirect, 512), t.inds) + [t.dbl] else [])
  }

  lemma FirstRest(data: seq<nat>, n: nat)
    ensures First(data, n) + Rest(data, n) == data
  {
  }

  lemma {:induction false} RowsPermute(data: seq<nat>, inds: seq<nat>)
    requires |data| <= 512 * |inds|
    ensures multiset(Rows(data, inds)) == multiset(data) + multiset(inds)
    decreases |inds|
  {
    if inds != [] {
      FirstRest(data, 512);
      RowsPermute(Rest(data, 512), inds[1..]);
      assert inds == [inds[0]] + inds[1..];
    }
  }

  /** Freeing goes through the data and index blocks of the tree, each of them once. */
  lemma FreeOrderPermutes(t: Tree)
    requires Shape(t)
    ensures multiset(FreeOrder(t)) == multiset(Nodes(t))
  {
    var indirect := Rest(t.data, 12);
    FirstRest(t.data, 12);
    FirstRest(indirect, 512);
    if t.deep {
      SplitCount(|t.data| - 524);
      RowsPermute(Rest(indirect, 512), t.inds);
    }
  }

  lemma NoDupIsMultiset(s: seq<nat>)
    ensures NoDup(s) <==> forall b :: multiset(s)[b] <= 1
  {
    NoDupIf(s);
    if NoDup(s) {
      forall b ensures multiset(s)[b] <= 1 {
        OnceAt(s, b);
      }
    }
  }

  lemma NoDupIf(s: seq<nat>)
    ensures (forall b :: multiset(s)[b] <= 1) ==> NoDup(s)
  {
    forall i, j | 0 <= i < j < |s| && s[i] == s[j] ensures multiset(s)[s[i]] > 1 {
      assert s == s[..j] + [s[j]] + s[j + 1..];
      assert s[i] in s[..j];
    }
  }

  lemma {:induction false} OnceAt(s: seq<nat>, b: nat)
    requires NoDup(s)
    ensures multiset(s)[b] <= 1
  {
    if s != [] {
      var init, last := s[..|s| - 1], s[|s| - 1];
      assert s == init + [last];
      forall i, j | 0 <= i < j < |init| ensures init[i] != init[j] {
        assert Pair(i, j);
      }
      OnceAt(init, b);
      forall i | 0 <= i < |init| ensures init[i] != last {
        assert Pair(i, |s| - 1);
      }
      assert last !in init;
    }
  }

  /** The order of freeing is Pending on any volume where all blocks of the tree are. */
  lemma FreeOrderPending(v: Volume, t: Tree)
    requires Shape(t) && Pending(v, Nodes(t))
    ensures Pending(v, FreeOrder(t)) && ToSet(FreeOrder(t)) == ToSet(Nodes(t)) && |FreeOrder(t)| == |Nodes(t)|
  {
    FreeOrderPermutes(t);
    NoDupIsMultiset(Nodes(t));
    NoDupIsMultiset(FreeOrder(t));
    assert forall b :: b in Nodes(t) <==> b in multiset(Nodes(t));
    assert forall b :: b in FreeOrder(t) <==> b in multiset(FreeOrder(t));
    assert |multiset(FreeOrder(t))| == |multiset(Nodes(t))|;
  }

  // ----- the double indirect range -----

  /** The double indirect block lists inds, and they list the blocks of data, 512 each. */
  ghost predicate Doubly(disk: seq<seq<nat>>, dbl: nat, data: seq<nat>, inds: seq<nat>) {
    && dbl < |disk| && |disk[dbl]| == 512 && |inds| < 512
    && (forall e :: 0 <= e < |inds| ==> disk[dbl][e] == inds[e] != 0) && disk[dbl][|inds|] == 0
    && (forall e: nat {:trigger RowLists(disk, data, inds, e)} :: e < |inds| ==> RowLists(disk, data, inds, e))
  }

  ghost predicate RowLists(disk: seq<seq<nat>>, data: seq<nat>, inds: seq<nat>, e: nat)
    requires e < |inds|
  {
    inds[e] < |disk| && Lists(disk[inds[e]], 512, First(Rest(data, 512 * e), 512))
  }

  lemma RowsStep(data: seq<nat>, inds: seq<nat>, e: nat)
    requires e < |inds|
    ensures Rows(Rest(data, 512 * e), inds[e..])
         == First(Rest(data, 512 * e), 512) + [inds[e]] + Rows(Rest(data, 512 * (e + 1)), inds[e + 1..])
  {
    assert inds[e..][1..] == inds[e + 1..];
    assert Rest(Rest(data, 512 * e), 512) == Rest(data, 512 * (e + 1));
  }

  /** The next row may be freed once the rows before it have been. */
  lemma NextRow(v0: Volume, done: seq<nat>, data: seq<nat>, inds: seq<nat>, e: nat, last: seq<nat>, row: seq<nat>)
    requires e < |inds| && row == First(Rest(data, 512 * e), 512) + [inds[e]]
    requires done + Rows(Rest(data, 512 * e), inds[e..]) == Rows(data, inds)
    requires Pending(v0, Rows(data, inds) + last)
    ensures Pending(Release(v0, done), row)
    ensures Release(Release(v0, done), row) == Release(v0, done + row)
    ensures (done + row) + Rows(Rest(data, 512 * (e + 1)), inds[e + 1..]) == Rows(data, inds)
  {
    var rows := Rows(Rest(data, 512 * (e + 1)), inds[e + 1..]);
    RowsOn(done, data, inds, e, row);
    assert done + (row + (rows + last)) == ((done + row) + rows) + last;
    NextPending(v0, done, row, rows + last, Rows(data, inds) + last);
    ReleaseBoth(v0, done, row);
  }

  lemma RowsOn(done: seq<nat>, data: seq<nat>, inds: seq<nat>, e: nat, row: seq<nat>)
    requires e < |inds| && row == First(Rest(data, 512 * e), 512) + [inds[e]]
    requires done + Rows(Rest(data, 512 * e), inds[e..]) == Rows(data, inds)
    ensures (done + row) + Rows(Rest(data, 512 * (e + 1)), inds[e + 1..]) == Rows(data, inds)
  {
    RowsStep(data, inds, e);
    Regrouped(done, row, Rows(Rest(data, 512 * (e + 1)), inds[e + 1..]));
  }

  lemma Regrouped(a: seq<nat>, b: seq<nat>, c: seq<nat>)
    ensures (a + b) + c == a + (b + c)
  {
  }

  lemma NextPending(v0: Volume, done: seq<nat>, row: seq<nat>, more: seq<nat>, all: seq<nat>)
    requires all == done + (row + more) && Pending(v0, all)
    ensures Pending(Release(v0, done), row)
  {
    PendingPrefix(v0, done, row + more);
    PendingPrefix(Release(v0, done), row, more);
  }

  method FreeDouble(fs: FileSystem, dbl: nat, ghost data: seq<nat>, ghost inds: seq<nat>) returns (rc: int, freed: nat)
    requires Countable(fs.View(), fs.blocks) && Pending(fs.View(), Rows(data, inds) + [dbl])
    requires Doubly(fs.disk, dbl, data, inds)
    modifies fs`bits, fs`free, fs`bg_free, fs`leaked
    ensures Countable(fs.View(), fs.blocks)
    ensures rc == 0 && freed == |Rows(data, inds)| + 1
    ensures fs.View() == Release(old(fs.View()), Rows(data, inds) + [dbl])
  {
    ghost var v0 := fs.View();
    ReleaseNothing(v0, fs.blocks);
    var nb := 0;
    while nb < ENTRIES && fs.disk[dbl][nb] != 0
      invariant nb <= |inds|
    {
      nb := nb + 1;
    }
    assert nb == |inds|;
    freed := 0;
    ghost var done: seq<nat> := [];
    assert inds[0..] == inds && Rest(data, 0) == data;
    var e := 0;
    while e < nb
      invariant 0 <= e <= nb && Countable(fs.View(), fs.blocks)
      invariant fs.View() == Release(v0, done) && freed == |done|
      invariant done + Rows(Rest(data, 512 * e), inds[e..]) == Rows(data, inds)
    {
      ghost var row := First(Rest(data, 512 * e), 512);
      NextRow(v0, done, data, inds, e, [dbl], row + [inds[e]]);
      assert RowLists(fs.disk, data, inds, e);
      var code, n := FreeIndexBlock(fs, fs.disk[dbl][e], ENTRIES, true, row);
      done := done + (row + [inds[e]]);
      freed := freed + n;
      e := e + 1;
    }
    assert inds[nb..] == [];
    assert done == Rows(data, inds);
    PendingPrefix(v0, done, [dbl]);
    assert dbl in ToSet([dbl]);
    rc := FreeBlock(fs, dbl);
    ReleaseBoth(v0, done, [dbl]);
    freed := freed + 1;
  }

  // ----- what the inode and the index blocks list -----

  lemma ListsDirect(inode: Inode, disk: seq<seq<nat>>, t: Tree, n: nat)
    requires Good(inode, disk, t, n)
    ensures var direct := if inode.i_blocks > L_DIRECT then L_DIRECT else inode.i_blocks;
      |First(t.data, 12)| == direct && Lists(inode.i_block, direct, First(t.data, 12))
  {
    CountIs(t);
    forall k: nat | k < |First(t.data, 12)| ensures inode.i_block[k] == t.data[k] {
      assert Recorded(inode, disk, t, k);
    }
  }

  lemma ListsIndirect(inode: Inode, disk: seq<seq<nat>>, t: Tree, n: nat)
    requires Good(inode, disk, t, n) && inode.i_blocks > L_DIRECT
    requires forall b :: 0 <= b < n ==> |disk[b]| == 512
    ensures |t.data| > 12 && inode.i_block[INDIRECT_BLOCKS_INDEX] == t.ind && t.ind < n
    ensures var l := First(Rest(t.data, 12), 512);
      |l| == (if inode.i_blocks >= L_ONE_INDIRECT then REL_NB_INDIRECT else inode.i_blocks - L_DIRECT - 1)
      && Lists(disk[t.ind], |l|, l)
  {
    CountIs(t);
    assert Nodes(t)[|t.data|] == t.ind;
    var l := First(Rest(t.data, 12), 512);
    forall i: nat | i < |l| ensures disk[t.ind][i] == l[i] {
      assert Recorded(inode, disk, t, i + 12);
    }
  }

  lemma ListsDouble(inode: Inode, disk: seq<seq<nat>>, t: Tree, n: nat)
    requires Good(inode, disk, t, n)
    requires forall b :: 0 <= b < n ==> |disk[b]| == 512
    ensures t.deep <==> inode.i_blocks > L_ONE_INDIRECT
    ensures t.deep ==> inode.i_block[DOUBLE_DIRECT_BLOCKS_INDEX] == t.dbl != 0
    ensures t.deep ==> Doubly(disk, t.dbl, Rest(Rest(t.data, 12), 512), t.inds)
  {
    CountIs(t);
    if t.deep {
      DeepFacts(inode, disk, t, n, 0);
      var data := Rest(Rest(t.data, 12), 512);
      assert data == t.data[524..];
      forall e: nat | e < |t.inds| ensures RowLists(disk, data, t.inds, e) {
        DeepFacts(inode, disk, t, n, e);
        ListsRow(inode, disk, t, data, e);
      }
      forall e: nat | e < |t.inds| ensures disk[t.dbl][e] == t.inds[e] != 0 {
        DeepFacts(inode, disk, t, n, e);
      }
    }
  }

  lemma ListsRow(inode: Inode, disk: seq<seq<nat>>, t: Tree, data: seq<nat>, e: nat)
    requires |inode.i_block| == 15 && DataRecorded(inode, disk, t) && DoubleRecorded(inode, disk, t)
    requires |t.data| >= 524 && data == t.data[524..] && e < |t.inds|
    ensures RowLists(disk, data, t.inds, e)
  {
    var l := First(Rest(data, 512 * e), 512);
    forall i: nat | i < |l| ensures disk[t.inds[e]][i] == l[i] {
      var k := 524 + 512 * e + i;
      assert Recorded(inode, disk, t, k);
      Locate(e, i);
    }
  }

  // ----- the inode being freed -----

  /** The inode id has lost its blocks but not yet let go of them. */
  ghost function Detached(v: Volume, id: nat): Volume
    requires id in v.trees
  {
    var s := NodeSet(v.trees[id]);
    Volume(v.bits, v.free, v.bg_free, v.disk, v.inodes, v.trees - {id}, v.owner - s, v.leaked + s)
  }

  lemma DetachedConsistent(v: Volume, n: nat, id: nat)
    requires Consistent(v, n) && id in v.trees
    ensures Consistent(Detached(v, id), n) && Pending(Detached(v, id), Nodes(v.trees[id]))
  {
    var v' := Detached(v, id);
    assert InodeOk(v, id, n);
    var t := v.trees[id];
    assert forall b :: b in Nodes(t) <==> b in NodeSet(t);
    forall other | other in v'.trees ensures InodeOk(v', other, n) {
      assert InodeOk(v, other, n);
    }
    forall b | b in v'.owner ensures OwnedBySome(v', b) {
      assert OwnedBySome(v, b);
    }
    assert ToSet(Nodes(t)) == NodeSet(t);
  }

  ghost function Emptied(v: Volume, id: nat): Volume {
    Volume(v.bits, v.free, v.bg_free, v.disk, v.inodes[id := EMPTY_INODE], v.trees[id := EMPTY_TREE], v.owner, v.leaked)
  }

  lemma EmptiedConsistent(v: Volume, n: nat, id: nat)
    requires Consistent(v, n) && id !in v.trees
    ensures Consistent(Emptied(v, id), n)
  {
    var v' := Emptied(v, id);
    forall other | other in v'.trees ensures InodeOk(v', other, n) {
      if other != id {
        assert InodeOk(v, other, n);
      }
    }
    forall b | b in v'.owner ensures OwnedBySome(v', b) {
      assert OwnedBySome(v, b);
    }
  }

  /** v' is v without the file id: its blocks, and only they, have become free. */
  ghost predicate Freed(v: Volume, v': Volume, id: nat)
    requires id in v.trees
  {
    && |v'.bits| == |v.bits|
    && (forall b :: 0 <= b < |v.bits| ==> (v'.bits[b] <==> v.bits[b] && b !in Nodes(v.trees[id])))
    && v'.free == v.free + |Nodes(v.trees[id])|
    && v'.disk == v.disk && v'.leaked == v.leaked
    && v'.inodes == v.inodes[id := EMPTY_INODE] && v'.trees == v.trees[id := EMPTY_TREE]
  }

  lemma FreedAll(v: Volume, n: nat, id: nat)
    requires Consistent(v, n) && id in v.trees
    ensures Pending(Detached(v, id), FreeOrder(v.trees[id])) && |FreeOrder(v.trees[id])| == |Nodes(v.trees[id])|
    ensures var v' := Emptied(Release(Detached(v, id), FreeOrder(v.trees[id])), id); Consistent(v', n) && Freed(v, v', id)
  {
    assert InodeOk(v, id, n);
    var t := v.trees[id];
    DetachedConsistent(v, n, id);
    FreeOrderPending(Detached(v, id), t);
    ReleaseConsistent(Detached(v, id), n, FreeOrder(t));
    EmptiedConsistent(Release(Detached(v, id), FreeOrder(t)), n, id);
    assert ToSet(FreeOrder(t)) == NodeSet(t);
    assert forall b :: b in Nodes(t) <==> b in NodeSet(t);
    assert forall b :: b in FreeOrder(t) <==> b in ToSet(FreeOrder(t));
    assert v.leaked !! NodeSet(t);
  }

  /** free_inode_data */
  method FreeData(fs: FileSystem, id: nat) returns (rc: int)
    requires fs.Valid() && id in fs.trees && id in fs.inodes
    modifies fs
    ensures fs.Valid() && rc == 0
    ensures Freed(old(fs.View()), fs.View(), id)
  {
    var inode := fs.inodes[id];
    ghost var v0, t := fs.View(), fs.trees[id];
    assert InodeOk(v0, id, fs.blocks);
    FreedAll(v0, fs.blocks, id);
    DetachedConsistent(v0, fs.blocks, id);
    fs.trees, fs.owner, fs.leaked := fs.trees - {id}, fs.owner - NodeSet(t), fs.leaked + NodeSet(t);
    ghost var v1 := fs.View();
    assert v1 == Detached(v0, id);
    var freed := FreeTree(fs, inode, t);
    if freed != inode.i_blocks {
      return -1;
    }
    fs.inodes := fs.inodes[id := EMPTY_INODE];
    fs.trees := fs.trees[id := EMPTY_TREE];
    assert fs.View() == Emptied(Release(v1, FreeOrder(t)), id);
    rc := 0;
  }

  /** The three ranges of the inode, one after the other. */
  method FreeTree(fs: FileSystem, inode: Inode, ghost t: Tree) returns (freed: nat)
    requires Countable(fs.View(), fs.blocks) && Good(inode, fs.disk, t, fs.blocks)
    requires forall b :: 0 <= b < fs.blocks ==> |fs.disk[b]| == 512
    requires Pending(fs.View(), FreeOrder(t))
    modifies fs`bits, fs`free, fs`bg_free, fs`leaked
    ensures freed == |FreeOrder(t)|
    ensures fs.View() == Release(old(fs.View()), FreeOrder(t))
  {
    ghost var v0 := fs.View();
    var rc: int;
    ghost var indirect := Rest(t.data, 12);
    ghost var l0 := First(t.data, 12);
    ghost var l1 := if indirect != [] then First(indirect, 512) + [t.ind] else [];
    ghost var l2 := if t.deep then Rows(Rest(indirect, 512), t.inds) + [t.dbl] else [];
    PendingPrefix(v0, l0 + l1, l2);
    PendingPrefix(v0, l0, l1);
    ListsDirect(inode, fs.disk, t, fs.blocks);
    ListsDouble(inode, fs.disk, t, fs.blocks);
    CountIs(t);
    rc, freed := FreeEntries(fs, inode.i_block, if inode.i_blocks > L_DIRECT then L_DIRECT else inode.i_blocks, false, l0);
    var more: nat;
    if inode.i_blocks > L_DIRECT {
      ListsIndirect(inode, fs.disk, t, fs.blocks);
      var n := if inode.i_blocks >= L_ONE_INDIRECT then REL_NB_INDIRECT else inode.i_blocks - L_DIRECT - 1;
      rc, more := FreeIndexBlock(fs, inode.i_block[INDIRECT_BLOCKS_INDEX], n, false, First(indirect, 512));
      freed := freed + more;
    }
    ReleaseBoth(v0, l0, l1);
    if inode.i_blocks > L_ONE_INDIRECT {
      rc, more := FreeDouble(fs, inode.i_block[DOUBLE_DIRECT_BLOCKS_INDEX], Rest(indirect, 512), t.inds);
      freed := freed + more;
    }
    ReleaseBoth(v0, l0 + l1, l2);
  }
}
