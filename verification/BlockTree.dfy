/**
 The shape of an inode's block tree (src/kernel/fs/inode.c:442-589, 986-1095; constants
 src/kernel/fs/inode.h:92-109): 12 direct blocks, one indirect block of 512 entries, and a double
 indirect block of up to 512 indirect blocks. The source records growth only in i_blocks, which
 counts data and index blocks together.
 */
module BlockTree {
  import opened Marks
  import opened SetFacts

  const L_DIRECT: nat := 12
  const INDIRECT_BLOCKS_INDEX: nat := 12
  const DOUBLE_DIRECT_BLOCKS_INDEX: nat := 13
  const DIRECT_AND_INDEX_INDIRECT: nat := 13
  const L_ONE_INDIRECT: nat := 525
  const BASIC_DOUBLE_INDIRECT: nat := 526
  const MAX_BLOCKS_FILE: nat := 262668
  const REL_NB_DIRECT: nat := 12
  const REL_NB_INDIRECT: nat := 512
  const REL_NB_DOUB_INDIRECT: nat := 262144
  const ENTRIES: nat := 512

  datatype Inode = Inode(i_blocks: nat, i_block: seq<nat>)

  /** The blocks of a file: its data in order, and the index blocks that lead to them. */
  datatype Tree = Tree(data: seq<nat>, ind: nat, deep: bool, dbl: nat, inds: seq<nat>)

  const EMPTY_TREE: Tree := Tree([], 0, false, 0, [])
  const EMPTY_INODE: Inode := Inode(0, [0, 0, 0, 0, 0, 0, 0, 0, 0, 0, 0, 0, 0, 0, 0])

  function Ceil512(m: nat): nat {
    (m + 511) / 512
  }

  ghost predicate Shape(t: Tree) {
    && (t.deep ==> |t.data| >= 524 && |t.inds| == Ceil512(|t.data| - 524))
    && (!t.deep ==> |t.data| <= 524 && t.inds == [])
    && |t.inds| <= 511
  }

  function Index(t: Tree): seq<nat> {
    (if |t.data| > 12 then [t.ind] else []) + (if t.deep then [t.dbl] + t.inds else [])
  }

  function Nodes(t: Tree): seq<nat> {
    t.data + Index(t)
  }

  ghost predicate InRange(s: seq<nat>, n: nat) {
    forall i :: 0 <= i < |s| ==> 0 < s[i] < n
  }

  /** Where data block number k of a file is recorded. */
  ghost predicate Recorded(inode: Inode, disk: seq<seq<nat>>, t: Tree, k: nat)
    requires k < |t.data| && |inode.i_block| == 15
  {
    if k < 12 then inode.i_block[k] == t.data[k]
    else if k < 524 then t.ind < |disk| && k - 12 < |disk[t.ind]| && disk[t.ind][k - 12] == t.data[k]
    else
      (k - 524) / 512 < |t.inds| && t.inds[(k - 524) / 512] < |disk| &&
      var b := disk[t.inds[(k - 524) / 512]];
      |b| == 512 && b[(k - 524) % 512] == t.data[k]
  }

  /** The index blocks are recorded, and every entry not yet used in them is 0. */
  ghost predicate IndexRecorded(inode: Inode, disk: seq<seq<nat>>, t: Tree)
    requires |inode.i_block| == 15
  {
    && (|t.data| > 12 ==> inode.i_block[12] == t.ind)
    && (t.deep ==> DoubleRecorded(inode, disk, t))
  }

  ghost predicate DoubleRecorded(inode: Inode, disk: seq<seq<nat>>, t: Tree)
    requires |inode.i_block| == 15
  {
    && inode.i_block[13] == t.dbl
    && t.dbl < |disk| && |disk[t.dbl]| == 512 && |t.inds| <= 512
    && (forall e :: 0 <= e < |t.inds| ==> disk[t.dbl][e] == t.inds[e])
    && (forall e :: |t.inds| <= e < 512 ==> disk[t.dbl][e] == 0)
    && (forall e :: 0 <= e < |t.inds| ==> t.inds[e] < |disk| && |disk[t.inds[e]]| == 512)
    && (forall e, x :: 0 <= e < |t.inds| && 0 <= x < 512 && 524 + 512 * e + x >= |t.data| ==> disk[t.inds[e]][x] == 0)
  }

  /** What the file does not use of the inode and of its indirect block is 0. */
  ghost predicate RestIsZero(inode: Inode, disk: seq<seq<nat>>, t: Tree)
    requires |inode.i_block| == 15
  {
    && (forall k :: |t.data| <= k < 12 ==> inode.i_block[k] == 0)
    && (|t.data| <= 12 ==> inode.i_block[12] == 0) && (!t.deep ==> inode.i_block[13] == 0)
    && (|t.data| > 12 ==> t.ind < |disk| && ZerosFrom(disk[t.ind], |t.data| - 12))
  }

  ghost predicate ZerosFrom(row: seq<nat>, i: nat) {
    |row| == 512 && forall k :: i <= k < 512 ==> row[k] == 0
  }

  ghost predicate DataRecorded(inode: Inode, disk: seq<seq<nat>>, t: Tree)
    requires |inode.i_block| == 15
  {
    forall k: nat :: k < |t.data| ==> Recorded(inode, disk, t, k)
  }

  /** The tree has a possible shape, i_blocks counts its blocks, and they are distinct blocks of the volume. */
  ghost predicate Sized(inode: Inode, t: Tree, n: nat) {
    && Shape(t)
    && |inode.i_block| == 15
    && inode.i_blocks == |Nodes(t)|
    && inode.i_blocks <= MAX_BLOCKS_FILE
    && NoDup(Nodes(t))
    && InRange(Nodes(t), n)
  }

  /** The inode and the index blocks on disk represent the tree t, inside a volume of n blocks. */
  ghost predicate Good(inode: Inode, disk: seq<seq<nat>>, t: Tree, n: nat) {
    && Sized(inode, t, n)
    && n == |disk|
    && DataRecorded(inode, disk, t)
    && IndexRecorded(inode, disk, t)
    && RestIsZero(inode, disk, t)
  }

  // ----- the arithmetic of i_blocks -----

  /** The value of i_blocks after n successful additions to an empty inode. */
  function BlocksAfter(n: nat): nat {
    if n <= 12 then n
    else if n <= 524 then n + 1
    else n + 2 + Ceil512(n - 524)
  }

  /** i_blocks is a function of the number of data blocks, once the double index block holds anything. */
  lemma CountIs(t: Tree)
    requires Shape(t)
    ensures t.deep && |t.data| == 524 ==> |Nodes(t)| == 526
    ensures !(t.deep && |t.data| == 524) ==> |Nodes(t)| == BlocksAfter(|t.data|)
  {
  }

  /**
   Growth lands exactly on MAX_BLOCKS_FILE, with 262155 data blocks: the equality test that stops it
   is never stepped over.
   */
  lemma GrowthHitsMaximum(n: nat)
    ensures BlocksAfter(262155) == MAX_BLOCKS_FILE
    ensures BlocksAfter(n) < MAX_BLOCKS_FILE <==> n < 262155
    ensures BlocksAfter(n) < MAX_BLOCKS_FILE ==> BlocksAfter(n + 1) <= MAX_BLOCKS_FILE
  {
  }

  // ----- growing a tree -----

  /** Only the index blocks of a tree matter to it. */
  lemma GoodFrame(inode: Inode, disk: seq<seq<nat>>, disk': seq<seq<nat>>, t: Tree, n: nat)
    requires Good(inode, disk, t, n) && |disk'| == |disk|
    requires forall i :: 0 <= i < |Index(t)| ==> Index(t)[i] < n && disk'[Index(t)[i]] == disk[Index(t)[i]]
    ensures Good(inode, disk', t, n)
  {
    if |t.data| > 12 {
      assert Index(t)[0] == t.ind;
    }
    if t.deep {
      assert Index(t)[1] == t.dbl;
      forall e | 0 <= e < |t.inds| ensures t.inds[e] < n && disk'[t.inds[e]] == disk[t.inds[e]] {
        assert Index(t)[2 + e] == t.inds[e];
      }
    }
    forall k: nat | k < |t.data| ensures Recorded(inode, disk', t, k) {
      assert Recorded(inode, disk, t, k);
    }
  }

  lemma NoDupInsert(s: seq<nat>, u: seq<nat>, a: seq<nat>, x: nat, b: seq<nat>, n: nat)
    requires s == a + b && u == a + [x] + b
    requires NoDup(s) && InRange(s, n) && x !in s && 0 < x < n
    ensures NoDup(u) && InRange(u, n)
    ensures forall y :: y in u <==> y in s || y == x
  {
    forall i | 0 <= i < |u| ensures 0 < u[i] < n {
      assert i != |a| ==> u[i] == s[if i < |a| then i else i - 1];
    }
    forall i, j | 0 <= i < j < |u| ensures u[i] != u[j] {
      var i' := if i < |a| then i else i - 1;
      var j' := if j < |a| then j else j - 1;
      assert Pair(i', j');
      assert i != |a| ==> u[i] == s[i'];
      assert j != |a| ==> u[j] == s[j'];
    }
  }

  ghost predicate FreshBlock(t: Tree, n: nat, x: nat) {
    0 < x < n && x !in Nodes(t)
  }

  /** The disk with entry i of index block b set to v. */
  function Write(disk: seq<seq<nat>>, b: nat, i: nat, v: nat): (d: seq<seq<nat>>)
    requires b < |disk| && i < |disk[b]|
    ensures |d| == |disk|
    ensures forall c: nat :: c < |disk| ==> d[c] == if c == b then disk[b][i := v] else disk[c]
  {
    var row: seq<nat> := disk[b][i := v];
    disk[b := row]
  }

  lemma GrowDirect(inode: Inode, disk: seq<seq<nat>>, t: Tree, n: nat, blk: nat)
    requires Good(inode, disk, t, n) && inode.i_blocks < 12 && FreshBlock(t, n, blk)
    ensures Good(Inode(inode.i_blocks + 1, inode.i_block[inode.i_blocks := blk]), disk, t.(data := t.data + [blk]), n)
  {
    CountIs(t);
    var t' := t.(data := t.data + [blk]);
    var inode' := Inode(inode.i_blocks + 1, inode.i_block[inode.i_blocks := blk]);
    NoDupInsert(Nodes(t), Nodes(t'), t.data, blk, [], n);
    forall k: nat | k < |t'.data| ensures Recorded(inode', disk, t', k) {
      if k < |t.data| {
        assert Recorded(inode, disk, t, k);
      }
    }
  }

  /** The 13th block: the indirect block comes with it. */
  lemma GrowIndirectFirst(inode: Inode, disk: seq<seq<nat>>, t: Tree, n: nat, blk: nat, ind: nat)
    requires Good(inode, disk, t, n) && inode.i_blocks == 12
    requires FreshBlock(t, n, blk) && FreshBlock(t, n, ind) && blk != ind
    requires ZerosFrom(disk[ind], 0)
    ensures Good(Inode(14, inode.i_block[12 := ind]), Write(disk, ind, 0, blk),
                 t.(data := t.data + [blk], ind := ind), n)
  {
    CountIs(t);
    var t' := t.(data := t.data + [blk], ind := ind);
    var inode', disk' := Inode(14, inode.i_block[12 := ind]), Write(disk, ind, 0, blk);
    NoDupInsert(Nodes(t), t.data + [blk], t.data, blk, [], n);
    NoDupInsert(t.data + [blk], Nodes(t'), t.data + [blk], ind, [], n);
    forall k: nat | k < |t'.data| ensures Recorded(inode', disk', t', k) {
      if k < |t.data| {
        assert Recorded(inode, disk, t, k);
      }
    }
  }

  lemma GrowIndirect(inode: Inode, disk: seq<seq<nat>>, t: Tree, n: nat, blk: nat)
    requires Good(inode, disk, t, n) && 13 < inode.i_blocks < 525 && FreshBlock(t, n, blk)
    requires t.ind < n && |disk[t.ind]| == 512
    ensures Good(inode.(i_blocks := inode.i_blocks + 1),
                 Write(disk, t.ind, inode.i_blocks - 13, blk),
                 t.(data := t.data + [blk]), n)
  {
    CountIs(t);
    var t' := t.(data := t.data + [blk]);
    var inode' := inode.(i_blocks := inode.i_blocks + 1);
    var disk' := Write(disk, t.ind, inode.i_blocks - 13, blk);
    NoDupInsert(Nodes(t), Nodes(t'), t.data, blk, [t.ind], n);
    forall k: nat | k < |t'.data| ensures Recorded(inode', disk', t', k) {
      if k < |t.data| {
        assert Recorded(inode, disk, t, k);
      }
    }
  }

  /** The double indirect block, still empty. */
  lemma GrowDouble(inode: Inode, disk: seq<seq<nat>>, t: Tree, n: nat, dbl: nat)
    requires Good(inode, disk, t, n) && inode.i_blocks == 525 && FreshBlock(t, n, dbl)
    requires ZerosFrom(disk[dbl], 0)
    ensures Good(Inode(526, inode.i_block[13 := dbl]), disk, t.(deep := true, dbl := dbl), n)
  {
    CountIs(t);
    assert !t.deep;
    var t' := t.(deep := true, dbl := dbl);
    var inode' := Inode(526, inode.i_block[13 := dbl]);
    NoDupInsert(Nodes(t), Nodes(t'), t.data + [t.ind], dbl, [], n);
    forall k: nat | k < |t'.data| ensures Recorded(inode', disk, t', k) {
      assert Recorded(inode, disk, t, k);
    }
  }

  /** A block at entry x of the last indirect block, which has room left. */
  lemma GrowDeep(inode: Inode, disk: seq<seq<nat>>, t: Tree, n: nat, blk: nat, e: nat, x: nat)
    requires Good(inode, disk, t, n) && inode.i_blocks < MAX_BLOCKS_FILE && FreshBlock(t, n, blk)
    requires t.deep && |t.inds| == e + 1 && 0 < x < 512 && |t.data| == 524 + 512 * e + x
    requires t.inds[e] < n && |disk[t.inds[e]]| == 512
    ensures Good(inode.(i_blocks := inode.i_blocks + 1), Write(disk, t.inds[e], x, blk), t.(data := t.data + [blk]), n)
  {
    GrowDeepNodes(inode, t, n, blk, e, x);
    var t' := t.(data := t.data + [blk]);
    var inode' := inode.(i_blocks := inode.i_blocks + 1);
    var disk' := Write(disk, t.inds[e], x, blk);
    DeepDistinct(t);
    DeepEntries(inode, disk, inode', disk', t, t', e, x, blk);
    DeepIndex(inode, disk, inode', disk', t, t', e, x);
  }

  lemma GrowDeepNodes(inode: Inode, t: Tree, n: nat, blk: nat, e: nat, x: nat)
    requires Sized(inode, t, n) && inode.i_blocks < MAX_BLOCKS_FILE && FreshBlock(t, n, blk)
    requires t.deep && |t.inds| == e + 1 && 0 < x < 512 && |t.data| == 524 + 512 * e + x
    ensures Sized(inode.(i_blocks := inode.i_blocks + 1), t.(data := t.data + [blk]), n)
  {
    NodesWith(t, blk);
    NoDupInsert(Nodes(t), Nodes(t.(data := t.data + [blk])), t.data, blk, Index(t), n);
  }

  lemma GrowDeepFirstNodes(inode: Inode, t: Tree, n: nat, blk: nat, x: nat)
    requires Sized(inode, t, n) && inode.i_blocks + 2 <= MAX_BLOCKS_FILE
    requires FreshBlock(t, n, blk) && FreshBlock(t, n, x) && blk != x
    requires t.deep && |t.data| == 524 + 512 * |t.inds| && |t.inds| < 511
    ensures Sized(RowInode(inode), WithRow(t, blk, x), n)
  {
    var t1 := t.(data := t.data + [blk]);
    var t' := WithRow(t, blk, x);
    NodesWith(t, blk);
    NoDupInsert(Nodes(t), Nodes(t1), t.data, blk, Index(t), n);
    NodesWithIndex(t1, x);
    NoDupInsert(Nodes(t1), Nodes(t'), Nodes(t1), x, [], n);
  }

  lemma NodesWith(t: Tree, blk: nat)
    requires |t.data| > 12
    ensures Nodes(t.(data := t.data + [blk])) == t.data + [blk] + Index(t)
  {
  }

  lemma NodesWithIndex(t: Tree, x: nat)
    requires t.deep
    ensures Nodes(t.(inds := t.inds + [x])) == Nodes(t) + [x]
  {
  }

  /** A count of blocks in indirect blocks of 512, the last of them filled up to m % 512. */
  lemma SplitCount(m: nat)
    ensures m % 512 != 0 ==> Ceil512(m) >= 1 && m == 512 * (Ceil512(m) - 1) + m % 512 && Ceil512(m + 1) == Ceil512(m)
    ensures m % 512 == 0 ==> m == 512 * Ceil512(m) && Ceil512(m + 1) == Ceil512(m) + 1
  {
  }

  /** The index entries after data has gone into entry x of the old indirect block e. */
  lemma DeepIndex(inode: Inode, disk: seq<seq<nat>>, inode': Inode, disk': seq<seq<nat>>, t: Tree, t': Tree, e: nat, x: nat)
    requires |inode.i_block| == 15 && inode'.i_block == inode.i_block && |disk'| == |disk|
    requires t.deep && DoubleRecorded(inode, disk, t) && t' == t.(data := t'.data) && |t'.data| == |t.data| + 1
    requires x < 512 && |t.data| == 524 + 512 * e + x && e < |t.inds|
    requires disk'[t.dbl] == disk[t.dbl] && |disk'[t.inds[e]]| == 512
    requires forall f :: 0 <= f < |t.inds| && f != e ==> disk'[t.inds[f]] == disk[t.inds[f]]
    requires forall y :: 0 <= y < 512 && y != x ==> disk'[t.inds[e]][y] == disk[t.inds[e]][y]
    ensures DoubleRecorded(inode', disk', t')
  {
    forall f, y | 0 <= f < |t'.inds| && 0 <= y < 512 && 524 + 512 * f + y >= |t'.data|
      ensures disk'[t'.inds[f]][y] == 0
    {
      assert disk[t.inds[f]][y] == 0;
      assert f != e || y != x;
    }
  }

  /** ... or into the first entry of a new one. */
  lemma DeepIndexNew(inode: Inode, disk: seq<seq<nat>>, inode': Inode, disk': seq<seq<nat>>, t: Tree, t': Tree)
    requires |inode.i_block| == 15 && inode'.i_block == inode.i_block && |disk'| == |disk|
    requires t.deep && DoubleRecorded(inode, disk, t) && |t.inds| < 512 && |t'.inds| == |t.inds| + 1
    requires t' == t.(data := t'.data, inds := t'.inds) && t.inds <= t'.inds && |t'.data| == |t.data| + 1
    requires |t.data| == 524 + 512 * |t.inds|
    requires var x := t'.inds[|t.inds|];
      x < |disk| && disk'[t.dbl] == disk[t.dbl][|t.inds| := x] && ZerosFrom(disk'[x], 1)
    requires forall f :: 0 <= f < |t.inds| ==> disk'[t.inds[f]] == disk[t.inds[f]]
    ensures DoubleRecorded(inode', disk', t')
  {
  }

  /** The data entries after entry x of indirect block e has been filled in. */
  lemma DeepEntries(inode: Inode, disk: seq<seq<nat>>, inode': Inode, disk': seq<seq<nat>>, t: Tree, t': Tree, e: nat, x: nat, blk: nat)
    requires |inode.i_block| == 15 && inode'.i_block == inode.i_block && |disk'| == |disk|
    requires DataRecorded(inode, disk, t)
    requires t'.data == t.data + [blk] && t'.ind == t.ind && t.inds <= t'.inds && x < 512
    requires |t.data| == 524 + 512 * e + x && e < |t'.inds| && t'.inds[e] < |disk| && |disk'[t'.inds[e]]| == 512
    requires disk'[t'.inds[e]][x] == blk && t.ind < |disk| && disk'[t.ind] == disk[t.ind]
    requires forall f :: 0 <= f < |t.inds| && f != e && t.inds[f] < |disk| ==> disk'[t.inds[f]] == disk[t.inds[f]]
    requires e < |t.inds| ==> |disk[t.inds[e]]| == 512 && forall y :: 0 <= y < 512 && y != x ==> disk'[t.inds[e]][y] == disk[t.inds[e]][y]
    ensures DataRecorded(inode', disk', t')
  {
    forall k: nat | k < |t'.data| ensures Recorded(inode', disk', t', k) {
      if k < |t.data| {
        assert Recorded(inode, disk, t, k);
        if k >= 524 {
          var f, y := (k - 524) / 512, (k - 524) % 512;
          assert k == 524 + 512 * f + y;
          assert f != e || y != x;
        }
      } else {
        Locate(e, x);
      }
    }
  }

  lemma Locate(e: nat, x: nat)
    requires x < 512
    ensures (512 * e + x) / 512 == e && (512 * e + x) % 512 == x
  {
  }

  /** d is disk with block x as entry e of the double indirect block and blk as the first entry of x. */
  ghost predicate LinksTwo(disk: seq<seq<nat>>, d: seq<seq<nat>>, dbl: nat, e: nat, x: nat, blk: nat)
  {
    && |d| == |disk| && dbl < |disk| && x < |disk| && x != dbl && |disk[dbl]| == 512 && |disk[x]| == 512 && e < 512
    && d[dbl] == disk[dbl][e := x] && d[x] == disk[x][0 := blk]
    && forall b: nat {:trigger d[b]} :: b < |disk| && b != dbl && b != x ==> d[b] == disk[b]
  }

  /** A tree with a new indirect block x, whose first entry is blk. */
  function WithRow(t: Tree, blk: nat, x: nat): Tree {
    t.(data := t.data + [blk], inds := t.inds + [x])
  }

  function RowInode(inode: Inode): Inode {
    inode.(i_blocks := inode.i_blocks + 2)
  }

  /** The first block of a new indirect block. */
  lemma GrowDeepFirst(inode: Inode, disk: seq<seq<nat>>, d: seq<seq<nat>>, t: Tree, n: nat, blk: nat, x: nat)
    requires Good(inode, disk, t, n) && inode.i_blocks + 2 <= MAX_BLOCKS_FILE
    requires FreshBlock(t, n, blk) && FreshBlock(t, n, x) && blk != x
    requires t.deep && |t.data| == 524 + 512 * |t.inds| && |t.inds| < 511
    requires LinksTwo(disk, d, t.dbl, |t.inds|, x, blk) && ZerosFrom(disk[x], 0)
    ensures Good(RowInode(inode), d, WithRow(t, blk, x), n)
  {
    GrowDeepFirstNodes(inode, t, n, blk, x);
    var t' := WithRow(t, blk, x);
    var inode' := RowInode(inode);
    DeepDistinct(t);
    assert t.ind < n by { assert Nodes(t)[|t.data|] == t.ind; }
    DeepEntries(inode, disk, inode', d, t, t', |t.inds|, 0, blk);
    DeepIndexNew(inode, disk, inode', d, t, t');
  }

  /** The index blocks of a deep tree are distinct from one another. */
  lemma DeepDistinct(t: Tree)
    requires Shape(t) && NoDup(Nodes(t)) && t.deep
    ensures t.dbl != t.ind && t.ind in Nodes(t) && t.dbl in Nodes(t)
    ensures forall e :: 0 <= e < |t.inds| ==> t.inds[e] != t.dbl && t.inds[e] != t.ind && t.inds[e] in Nodes(t)
    ensures forall e, f :: 0 <= e < f < |t.inds| ==> t.inds[e] != t.inds[f]
  {
    var d := |t.data|;
    assert Nodes(t)[d] == t.ind && Nodes(t)[d + 1] == t.dbl;
    assert Pair(d, d + 1);
    forall e | 0 <= e < |t.inds| ensures t.inds[e] != t.dbl && t.inds[e] != t.ind && t.inds[e] in Nodes(t) {
      assert Nodes(t)[d + 2 + e] == t.inds[e];
      assert Pair(d, d + 2 + e) && Pair(d + 1, d + 2 + e);
    }
    forall e, f | 0 <= e < f < |t.inds| ensures t.inds[e] != t.inds[f] {
      assert Nodes(t)[d + 2 + e] == t.inds[e] && Nodes(t)[d + 2 + f] == t.inds[f];
      assert Pair(d + 2 + e, d + 2 + f);
    }
  }
}
