/**
 The block bitmap and the block maps of all inodes of a volume (src/kernel/fs/inode.c:189-212,
 338-589, 926-1129). The disk never fails; a file system block of 2048 bytes is 512 words.
 */
module BlockMap {
  import opened Marks
  import opened SetFacts
  import opened BlockTree

  const BITMAP_BITS: nat := 16384
  const SHORT: nat := 65536

  /** The clear bits among the first n: what the free block counters count. */
  function Clear(bits: seq<bool>, n: nat): nat
    requires n <= |bits|
  {
    if n == 0 then 0 else Clear(bits, n - 1) + if bits[n - 1] then 0 else 1
  }

  lemma {:induction false} ClearSet(bits: seq<bool>, n: nat, b: nat, v: bool)
    requires b < n <= |bits| && bits[b] != v
    ensures Clear(bits[b := v], n) == Clear(bits, n) + if v then -1 else 1
  {
    if b == n - 1 {
      ClearSame(bits, bits[b := v], n - 1);
    } else {
      ClearSet(bits, n - 1, b, v);
    }
  }

  lemma {:induction false} ClearSame(bits: seq<bool>, bits': seq<bool>, n: nat)
    requires n <= |bits| && n <= |bits'| && forall k :: 0 <= k < n ==> bits[k] == bits'[k]
    ensures Clear(bits, n) == Clear(bits', n)
  {
    if n != 0 {
      ClearSame(bits, bits', n - 1);
    }
  }

  /** A positive free count means some block is free. */
  lemma {:induction false} ClearWitness(bits: seq<bool>, n: nat) returns (b: nat)
    requires n <= |bits| && Clear(bits, n) > 0
    ensures b < n && !bits[b]
  {
    if bits[n - 1] {
      b := ClearWitness(bits, n - 1);
    } else {
      b := n - 1;
    }
  }

  lemma {:induction false} ClearBound(bits: seq<bool>, n: nat)
    requires n <= |bits|
    ensures Clear(bits, n) <= n
    ensures n > 0 && bits[0] ==> Clear(bits, n) < n
  {
    if n != 0 {
      ClearBound(bits, n - 1);
    }
  }

  /** alloc_bit_bitmap on one block of the bitmap: the first clear bit, looked for word by word. */
  method AllocBit(bits: seq<bool>) returns (r: int)
    requires |bits| % 64 == 0
    ensures r == -1 ==> forall k :: 0 <= k < |bits| ==> bits[k]
    ensures r != -1 ==> 0 <= r < |bits| && !bits[r] && forall k :: 0 <= k < r ==> bits[k]
  {
    var i := 0;
    while i < |bits| / 64
      invariant 0 <= i <= |bits| / 64
      invariant forall k :: 0 <= k < 64 * i ==> bits[k]
    {
      var word := bits[64 * i..64 * i + 64];
      if exists j :: 0 <= j < 64 && !word[j] {
        var j := 0;
        while word[j]
          invariant 0 <= j < 64
          invariant forall k :: 0 <= k < j ==> word[k]
          decreases 64 - j
        {
          j := j + 1;
        }
        assert forall k :: 64 * i <= k < 64 * i + j ==> bits[k] == word[k - 64 * i];
        return j + i * 64;
      }
      assert forall k :: 64 * i <= k < 64 * i + 64 ==> bits[k] == word[k - 64 * i];
      i := i + 1;
    }
    r := -1;
  }

  /** The loop of get_data_block over the blocks of the bitmap: the first clear bit of all. */
  method FindFree(bits: seq<bool>) returns (r: int)
    requires |bits| % BITMAP_BITS == 0
    ensures r == -1 ==> forall k :: 0 <= k < |bits| ==> bits[k]
    ensures r != -1 ==> 0 <= r < |bits| && !bits[r] && forall k :: 0 <= k < r ==> bits[k]
  {
    var blk_iter := 0;
    while blk_iter < |bits| / BITMAP_BITS
      invariant 0 <= blk_iter <= |bits| / BITMAP_BITS
      invariant forall k :: 0 <= k < blk_iter * BITMAP_BITS ==> bits[k]
    {
      var from := blk_iter * BITMAP_BITS;
      var group := bits[from..from + BITMAP_BITS];
      var free_block := AllocBit(group);
      assert forall k :: from <= k < from + BITMAP_BITS ==> bits[k] == group[k - from];
      if free_block != -1 {
        return from + free_block;
      }
      blk_iter := blk_iter + 1;
    }
    r := -1;
  }

  // ----- the state of a volume -----

  /**
   The bitmap, the two counters, the data blocks as 32-bit words, and the inodes; then, for the
   proof, the tree of each inode, the owner of each block in use, and the blocks marked in use
   that no inode leads to.
   */
  datatype Volume = Volume(bits: seq<bool>, free: nat, bg_free: nat, disk: seq<seq<nat>>, inodes: map<nat, Inode>,
                           trees: map<nat, Tree>, owner: map<nat, nat>, leaked: set<nat>)

  /** A block of zeros. */
  function Zeros(): (z: seq<nat>)
    ensures |z| == 512 && forall i :: 0 <= i < 512 ==> z[i] == 0
  {
    seq(512, _ => 0)
  }

  /**
   Every inode represents its tree, every block belongs to at most one of them, the bitmap marks
   exactly the reserved block 0, the blocks of the inodes and the leaked ones, and both free
   counters are right - the 16-bit one modulo 65536. They never sink below the last multiple of 65536.
   */
  ghost predicate Consistent(v: Volume, n: nat) {
    && 0 < n <= |v.bits| && |v.bits| % BITMAP_BITS == 0
    && |v.disk| == n && (forall b :: 0 <= b < n ==> |v.disk[b]| == 512)
    && Counts(v, n)
    && Marked(v, n)
    && v.trees.Keys <= v.inodes.Keys
    && (forall id {:trigger InodeOk(v, id, n)} :: id in v.trees ==> InodeOk(v, id, n))
    && (forall b {:trigger OwnedBySome(v, b)} :: b in v.owner ==> OwnedBySome(v, b))
  }

  /** The free count and its 16-bit copy. */
  ghost predicate Counts(v: Volume, n: nat)
    requires n <= |v.bits|
  {
    v.free == Clear(v.bits, n) && v.bg_free == v.free % SHORT && AboveMultiple(v.free, n)
  }

  /** The free count is not below the greatest multiple of 65536 that the formatted volume starts above. */
  ghost predicate AboveMultiple(free: nat, n: nat) {
    n > 0 && free >= (n - 1) / SHORT * SHORT
  }

  lemma StaysAbove(free: nat, n: nat)
    requires AboveMultiple(free, n) && free % SHORT != 0
    ensures AboveMultiple(free - 1, n)
  {
    NotAtMultiple(free, (n - 1) / SHORT);
  }

  lemma NotAtMultiple(f: nat, q: nat)
    requires f >= q * SHORT && f % SHORT != 0
    ensures f - 1 >= q * SHORT
  {
  }

  ghost predicate InodeOk(v: Volume, id: nat, n: nat)
    requires id in v.trees && id in v.inodes
  {
    Good(v.inodes[id], v.disk, v.trees[id], n) && Owned(id, v.trees[id], v.owner)
  }

  ghost predicate Marked(v: Volume, n: nat)
    requires n <= |v.bits|
  {
    && 0 !in v.owner && 0 !in v.leaked
    && (forall b :: b in v.leaked ==> b !in v.owner && b < n)
    && (forall b :: 0 <= b < n ==> (v.bits[b] <==> b == 0 || b in v.owner || b in v.leaked))
  }

  /** Every block of the tree belongs to the inode. */
  ghost predicate Owned(id: nat, t: Tree, owner: map<nat, nat>) {
    forall b :: b in Nodes(t) ==> b in owner && owner[b] == id
  }

  ghost predicate OwnedBySome(v: Volume, b: nat)
    requires b in v.owner
  {
    v.owner[b] in v.trees && b in Nodes(v.trees[v.owner[b]])
  }

  /** No block belongs to two inodes, and none of them is the reserved block 0. */
  lemma NoSharing(v: Volume, n: nat, id1: nat, id2: nat, b: nat)
    requires Consistent(v, n) && id1 in v.trees && id2 in v.trees
    requires b in Nodes(v.trees[id1]) && b in Nodes(v.trees[id2])
    ensures id1 == id2 && 0 < b < n && v.bits[b]
  {
    assert InodeOk(v, id1, n) && InodeOk(v, id2, n);
  }

  /** Marking and zeroing a free block. */
  function Taken(v: Volume, r: nat): Volume
    requires r < |v.bits| && r < |v.disk| && v.free > 0
  {
    Volume(v.bits[r := true], v.free - 1, (v.bg_free + SHORT - 1) % SHORT, v.disk[r := Zeros()],
           v.inodes, v.trees, v.owner, v.leaked + {r})
  }

  lemma TakenConsistent(v: Volume, n: nat, r: nat)
    requires Consistent(v, n) && r < n && !v.bits[r] && v.bg_free != 0
    ensures v.free > 0 && Consistent(Taken(v, r), n)
  {
    TakenCounts(v, n, r);
    TakenMarked(v, n, r);
    var v' := Taken(v, r);
    forall id | id in v'.trees ensures InodeOk(v', id, n) {
      TakenInode(v, n, r, id);
    }
    forall b | b in v'.owner ensures OwnedBySome(v', b) {
      assert OwnedBySome(v, b);
    }
  }

  lemma TakenCounts(v: Volume, n: nat, r: nat)
    requires 0 < n <= |v.bits| && n <= |v.disk| && r < n && !v.bits[r] && Counts(v, n) && v.bg_free != 0
    ensures v.free > 0 && Counts(Taken(v, r), n)
  {
    StaysAbove(v.free, n);
    ClearSet(v.bits, n, r, true);
    CountsDown(v.free);
  }

  lemma CountsDown(free: nat)
    requires free % SHORT != 0
    ensures free > 0 && (free % SHORT + SHORT - 1) % SHORT == (free - 1) % SHORT
  {
    assert free == SHORT * (free / SHORT) + free % SHORT;
    assert free - 1 == SHORT * (free / SHORT) + (free % SHORT - 1);
  }

  lemma TakenInode(v: Volume, n: nat, r: nat, id: nat)
    requires Consistent(v, n) && r < n && !v.bits[r] && v.free > 0 && id in v.trees
    ensures InodeOk(Taken(v, r), id, n)
  {
    assert InodeOk(v, id, n) && Marked(v, n);
    NotInIndex(v, n, id, r);
    GoodFrame(v.inodes[id], v.disk, v.disk[r := Zeros()], v.trees[id], n);
  }

  lemma TakenMarked(v: Volume, n: nat, r: nat)
    requires n <= |v.bits| && n <= |v.disk| && Marked(v, n) && r < n && !v.bits[r] && v.free > 0
    ensures Marked(Taken(v, r), n)
  {
  }

  lemma NotInIndex(v: Volume, n: nat, id: nat, r: nat)
    requires Consistent(v, n) && id in v.trees
    requires r !in v.owner || v.owner[r] != id
    ensures r !in Nodes(v.trees[id])
    ensures forall i :: 0 <= i < |Index(v.trees[id])| ==> Index(v.trees[id])[i] != r && Index(v.trees[id])[i] < n
  {
    var t := v.trees[id];
    assert InodeOk(v, id, n);
    forall i | 0 <= i < |Index(t)| ensures Index(t)[i] != r && Index(t)[i] < n {
      assert Nodes(t)[|t.data| + i] == Index(t)[i];
    }
  }

  /** The inode id gets a new tree, made of its old blocks and of leaked ones, and writes its own blocks. */
  function Committed(v: Volume, id: nat, inode: Inode, disk: seq<seq<nat>>, t: Tree): Volume {
    Volume(v.bits, v.free, v.bg_free, disk, v.inodes[id := inode], v.trees[id := t],
           Adopt(v.owner, id, NodeSet(t)), v.leaked - NodeSet(t))
  }

  function NodeSet(t: Tree): set<nat> {
    set x | x in Nodes(t)
  }

  function Adopt(owner: map<nat, nat>, id: nat, s: set<nat>): map<nat, nat> {
    map b | b in owner.Keys + s :: if b in owner then owner[b] else id
  }

  /** Every block of t is one that id owns or one that is leaked. */
  ghost predicate Mine(v: Volume, id: nat, t: Tree) {
    forall b :: b in Nodes(t) ==> b in v.leaked || (b in v.owner && v.owner[b] == id)
  }

  lemma CommittedConsistent(v: Volume, n: nat, id: nat, inode: Inode, disk: seq<seq<nat>>, t: Tree)
    requires Consistent(v, n) && id in v.trees && Good(inode, disk, t, n) && Mine(v, id, t)
    requires forall b :: b in Nodes(v.trees[id]) ==> b in Nodes(t)
    requires forall b :: 0 <= b < n ==> |disk[b]| == 512
    requires forall b :: 0 <= b < n && b !in Nodes(t) ==> disk[b] == v.disk[b]
    ensures Consistent(Committed(v, id, inode, disk, t), n)
  {
    var v' := Committed(v, id, inode, disk, t);
    CommittedGood(v, n, id, inode, disk, t, v');
    CommittedOwners(v, n, id, t, v');
    CommittedMarked(v, n, id, t, v');
  }

  lemma CommittedGood(v: Volume, n: nat, id: nat, inode: Inode, disk: seq<seq<nat>>, t: Tree, v': Volume)
    requires Consistent(v, n) && id in v.trees && Good(inode, disk, t, n) && Mine(v, id, t)
    requires forall b :: 0 <= b < n && b !in Nodes(t) ==> disk[b] == v.disk[b]
    requires v'.disk == disk && v'.inodes == v.inodes[id := inode] && v'.trees == v.trees[id := t]
    requires v'.owner == Adopt(v.owner, id, NodeSet(t))
    ensures forall other {:trigger InodeOk(v', other, n)} :: other in v'.trees ==> other in v'.inodes && InodeOk(v', other, n)
  {
    forall other | other in v'.trees ensures InodeOk(v', other, n) {
      if other != id {
        assert InodeOk(v, other, n);
        OthersUntouched(v, n, id, other, v.inodes[other], v.trees[other], disk, t);
        OwnedGrows(v.trees[other], other, v.owner, id, NodeSet(t));
      } else {
        CommittedOwned(v, id, t);
      }
    }
  }

  lemma CommittedOwners(v: Volume, n: nat, id: nat, t: Tree, v': Volume)
    requires Consistent(v, n) && id in v.trees
    requires forall b :: b in Nodes(v.trees[id]) ==> b in Nodes(t)
    requires v'.trees == v.trees[id := t] && v'.owner == Adopt(v.owner, id, NodeSet(t))
    ensures forall b {:trigger OwnedBySome(v', b)} :: b in v'.owner ==> OwnedBySome(v', b)
  {
    forall b | b in v'.owner ensures OwnedBySome(v', b) {
      if b in v.owner {
        assert OwnedBySome(v, b);
      }
    }
  }

  lemma OwnedGrows(u: Tree, other: nat, owner: map<nat, nat>, id: nat, s: set<nat>)
    requires Owned(other, u, owner)
    ensures Owned(other, u, Adopt(owner, id, s))
  {
  }

  lemma CommittedOwned(v: Volume, id: nat, t: Tree)
    requires Mine(v, id, t) && forall b :: b in v.leaked ==> b !in v.owner
    ensures Owned(id, t, Adopt(v.owner, id, NodeSet(t)))
  {
    forall b | b in Nodes(t) ensures b in NodeSet(t) && (b in v.owner ==> v.owner[b] == id) {
    }
  }

  lemma CommittedMarked(v: Volume, n: nat, id: nat, t: Tree, v': Volume)
    requires n <= |v.bits| && Marked(v, n) && Mine(v, id, t)
    requires v'.bits == v.bits && v'.owner == Adopt(v.owner, id, NodeSet(t)) && v'.leaked == v.leaked - NodeSet(t)
    ensures Marked(v', n)
  {
    var s := NodeSet(t);
    assert forall b :: b in s ==> b in v.leaked || b in v.owner;
  }

  lemma OthersUntouched(v: Volume, n: nat, id: nat, other: nat, inode: Inode, u: Tree, disk: seq<seq<nat>>, t: Tree)
    requires Owned(other, u, v.owner) && Good(inode, v.disk, u, n) && forall b :: b in v.leaked ==> b !in v.owner
    requires other != id && |disk| == n && Mine(v, id, t)
    requires forall b :: 0 <= b < n && b !in Nodes(t) ==> disk[b] == v.disk[b]
    ensures Good(inode, disk, u, n)
  {
    forall i | 0 <= i < |Index(u)| ensures Index(u)[i] < n && disk[Index(u)[i]] == v.disk[Index(u)[i]] {
      var b := Index(u)[i];
      assert Nodes(u)[|u.data| + i] == b;
      assert v.owner[b] == other && b !in v.leaked;
      assert b !in Nodes(t);
    }
    GoodFrame(inode, v.disk, disk, u, n);
  }

  /** The volume that the format writes. */
  lemma FormattedConsistent(v: Volume, n: nat)
    requires 0 < n <= |v.bits| && |v.bits| % BITMAP_BITS == 0 && v.bits[0] && forall k :: 0 < k < |v.bits| ==> !v.bits[k]
    requires v.free == n - 1 && v.bg_free == (n - 1) % SHORT && |v.disk| == n && forall b :: 0 <= b < n ==> |v.disk[b]| == 512
    requires v.owner == map[] && v.leaked == {} && v.trees.Keys <= v.inodes.Keys
    requires forall id :: id in v.trees ==> v.trees[id] == EMPTY_TREE && v.inodes[id] == EMPTY_INODE
    ensures Consistent(v, n)
  {
    FormatClear(v.bits, n);
    FreeAtFirst(n);
    forall id | id in v.trees ensures InodeOk(v, id, n) {
    }
  }

  lemma FreeAtFirst(n: nat)
    requires n > 0
    ensures AboveMultiple(n - 1, n)
  {
  }

  lemma {:induction false} FormatClear(bits: seq<bool>, n: nat)
    requires 0 < n <= |bits| && bits[0] && forall k :: 0 < k < |bits| ==> !bits[k]
    ensures Clear(bits, n) == n - 1
  {
    if n > 1 {
      FormatClear(bits, n - 1);
    }
  }

  // ----- the operations -----

  class FileSystem {
    const blocks: nat                 // s_blocks_count
    var bits: seq<bool>               // the data block bitmap
    var free: nat                     // s_free_blocks_count
    var bg_free: nat                  // bg_free_blocks_count, a 16-bit field
    var disk: seq<seq<nat>>
    var inodes: map<nat, Inode>
    ghost var trees: map<nat, Tree>
    ghost var owner: map<nat, nat>
    ghost var leaked: set<nat>

    ghost function View(): Volume
      reads this
    {
      Volume(bits, free, bg_free, disk, inodes, trees, owner, leaked)
    }

    ghost predicate Valid()
      reads this
    {
      Consistent(View(), blocks)
    }

    /** A formatted volume: block 0 is reserved, and the given inodes are empty. The data blocks hold what they held. */
    constructor (n: nat, bitmap_blocks: nat, ids: set<nat>, content: seq<seq<nat>>)
      requires 0 < n <= bitmap_blocks * BITMAP_BITS && |content| == n && forall b :: 0 <= b < n ==> |content[b]| == 512
      ensures Valid() && blocks == n && free == n - 1 && leaked == {} && disk == content
      ensures trees.Keys == ids && forall id :: id in ids ==> trees[id] == EMPTY_TREE
    {
      blocks := n;
      bits := [true] + seq(bitmap_blocks * BITMAP_BITS - 1, _ => false);
      free, bg_free := n - 1, (n - 1) % SHORT;
      disk := content;
      inodes := map id | id in ids :: EMPTY_INODE;
      trees := map id | id in ids :: EMPTY_TREE;
      owner, leaked := map[], {};
      new;
      FormattedConsistent(View(), n);
    }

    /** get_data_block: marks the first free block and zeroes it, or returns 0. */
    method Alloc() returns (r: nat)
      requires Valid()
      modifies this`bits, this`free, this`bg_free, this`disk, this`leaked
      ensures Valid()
      ensures r == 0 <==> old(free) % SHORT == 0
      ensures r == 0 ==> View() == old(View())
      ensures r != 0 ==> r < blocks && !old(bits[r]) && (forall b :: 0 <= b < r ==> old(bits[b]))
      ensures r != 0 ==> old(free) > 0 && View() == Taken(old(View()), r)
    {
      if free == 0 || bg_free == 0 {
        return 0;
      }
      ghost var w := ClearWitness(bits, blocks);
      var found := FindFree(bits);
      r := found;
      TakenConsistent(View(), blocks, r);
      bits := bits[r := true];
      disk := disk[r := Zeros()];
      free := free - 1;
      bg_free := (bg_free + SHORT - 1) % SHORT;
      leaked := leaked + {r};
    }

    /** The inode's new tree goes in place; `d` is the disk with its index blocks written. */
    method Commit(id: nat, inode: Inode, d: seq<seq<nat>>, ghost t: Tree)
      requires Valid() && id in trees && Good(inode, d, t, blocks) && Takes(View(), blocks, id, d, t)
      modifies this`inodes, this`disk, this`trees, this`owner, this`leaked
      ensures Valid() && View() == Committed(old(View()), id, inode, d, t)
    {
      ghost var v' := Committed(View(), id, inode, d, t);
      CommittedConsistent(View(), blocks, id, inode, d, t);
      inodes, disk := inodes[id := inode], d;
      trees, owner, leaked := trees[id := t], Adopt(owner, id, NodeSet(t)), leaked - NodeSet(t);
      assert View() == v';
    }

    /** A leaked block can join any tree. */
    lemma LeakedFresh(id: nat, b: nat)
      requires Valid() && id in trees && b in leaked
      ensures FreshBlock(trees[id], blocks, b)
    {
      LeakedIsFresh(View(), blocks, id, b);
    }

    /** add_data_block_inode, the direct range: blk is already marked. */
    method AddDirect(id: nat, blk: nat)
      requires Valid() && id in trees && blk in leaked
      requires id in inodes && inodes[id].i_blocks < L_DIRECT
      modifies this`inodes, this`disk, this`trees, this`owner, this`leaked
      ensures Valid() && Grown(old(View()), View(), id, blk)
      ensures leaked == old(leaked) - {blk}
    {
      var inode := inodes[id];
      ghost var t := trees[id];
      LeakedFresh(id, blk);
      assert InodeOk(View(), id, blocks);
      GrowDirect(inode, disk, t, blocks, blk);
      ghost var t' := t.(data := t.data + [blk]);
      DirectNodes(inode, t, blocks, blk);
      GrownMine(View(), blocks, id, t', {blk});
      Commit(id, Inode(inode.i_blocks + 1, inode.i_block[inode.i_blocks := blk]), disk, t');
    }

    /** The single indirect range. Its first block brings the indirect block with it. */
    method AddIndirect(id: nat, blk: nat) returns (rc: int)
      requires Valid() && id in trees && blk in leaked
      requires id in inodes && L_DIRECT <= inodes[id].i_blocks < L_ONE_INDIRECT
      modifies this
      ensures Valid() && (rc == 0 || rc == -1)
      ensures rc == 0 <==> old(inodes[id]).i_blocks != L_DIRECT || old(free) % SHORT != 0
      ensures rc == -1 ==> View() == old(View())
      ensures rc == 0 ==> Grown(old(View()), View(), id, blk) && leaked == old(leaked) - {blk}
      ensures rc == 0 ==> free == old(free) - if old(inodes[id]).i_blocks == L_DIRECT then 1 else 0
    {
      if inodes[id].i_blocks == L_DIRECT {
        rc := AddIndirectFirst(id, blk);
        return;
      }
      OnlyRow(View(), blocks, id);
      var inode := inodes[id];
      ghost var t := trees[id];
      var at := (inode.i_blocks - DIRECT_AND_INDEX_INDIRECT) % ENTRIES;
      var d := Write(disk, inode.i_block[INDIRECT_BLOCKS_INDEX], at, blk);
      IndirectReady(View(), blocks, id, blk, inode, t, d);
      Commit(id, inode.(i_blocks := inode.i_blocks + 1), d, t.(data := t.data + [blk]));
      rc := 0;
    }

    method AddIndirectFirst(id: nat, blk: nat) returns (rc: int)
      requires Valid() && id in trees && blk in leaked
      requires id in inodes && inodes[id].i_blocks == L_DIRECT
      modifies this
      ensures Valid() && (rc == 0 || rc == -1)
      ensures rc == 0 <==> old(free) % SHORT != 0
      ensures rc == -1 ==> View() == old(View())
      ensures rc == 0 ==> Grown(old(View()), View(), id, blk) && leaked == old(leaked) - {blk}
      ensures rc == 0 ==> free == old(free) - 1
    {
      var inode := inodes[id];
      ghost var t, v := trees[id], View();
      var ind := Alloc();
      if ind == 0 {
        return -1;
      }
      assert InodeOk(View(), id, blocks);
      IndirectNodes(inode, t, blocks, blk);
      LeakedFresh(id, blk);
      LeakedFresh(id, ind);
      GrowIndirectFirst(inode, disk, t, blocks, blk, ind);
      ghost var t' := t.(data := t.data + [blk], ind := ind);
      GrownMine(View(), blocks, id, t', {blk, ind});
      var inode', d := Inode(14, inode.i_block[INDIRECT_BLOCKS_INDEX := ind]), Write(disk, ind, 0, blk);
      WriteStays(View(), blocks, id, ind, 0, blk);
      CommittedGrown(View(), id, inode', d, t', blk);
      Commit(id, inode', d, t');
      TakenGrown(v, blocks, ind, View(), id, blk);
      rc := 0;
    }

    /** The double indirect block, when the single indirect range is full. */
    method OpenDouble(id: nat) returns (rc: int)
      requires Valid() && id in trees
      requires id in inodes && inodes[id].i_blocks == L_ONE_INDIRECT
      modifies this
      ensures Valid() && (rc == 0 || rc == -1)
      ensures rc == 0 <==> old(free) % SHORT != 0
      ensures rc == -1 ==> View() == old(View())
      ensures rc == 0 ==> Kept(old(View()), View(), id) && leaked == old(leaked) && free == old(free) - 1
      ensures rc == 0 ==> inodes[id].i_blocks == BASIC_DOUBLE_INDIRECT
    {
      var inode := inodes[id];
      ghost var t, v := trees[id], View();
      var dbl := Alloc();
      if dbl == 0 {
        return -1;
      }
      assert InodeOk(View(), id, blocks);
      LeakedFresh(id, dbl);
      DoubleNodes(inode, t, blocks, dbl);
      GrowDouble(inode, disk, t, blocks, dbl);
      ghost var t' := t.(deep := true, dbl := dbl);
      GrownMine(View(), blocks, id, t', {dbl});
      WrittenStays(v, blocks, id, {dbl}, disk);
      Commit(id, Inode(inode.i_blocks + 1, inode.i_block[DOUBLE_DIRECT_BLOCKS_INDEX := dbl]), disk, t');
      rc := 0;
    }

    /** A block in the last indirect block, which has room at entry x. */
    method AddDeep(id: nat, blk: nat, e: nat, x: nat)
      requires Valid() && id in trees && blk in leaked && id in inodes
      requires inodes[id].i_blocks < MAX_BLOCKS_FILE && trees[id].deep
      requires |trees[id].inds| == e + 1 && 0 < x < 512 && |trees[id].data| == 524 + 512 * e + x
      modifies this`inodes, this`disk, this`trees, this`owner, this`leaked
      ensures Valid() && Grown(old(View()), View(), id, blk) && leaked == old(leaked) - {blk}
    {
      var inode := inodes[id];
      ghost var t := trees[id];
      LastRow(View(), blocks, id, e);
      var ind := disk[inode.i_block[DOUBLE_DIRECT_BLOCKS_INDEX]][e];
      var d := Write(disk, ind, x, blk);
      DeepReady(View(), blocks, id, blk, inode, t, d, e, x);
      Commit(id, inode.(i_blocks := inode.i_blocks + 1), d, t.(data := t.data + [blk]));
    }

    /** A block in a new indirect block, number e. */
    method AddDeepFirst(id: nat, blk: nat, e: nat) returns (rc: int)
      requires Valid() && id in trees && blk in leaked && id in inodes
      requires inodes[id].i_blocks + 2 <= MAX_BLOCKS_FILE && trees[id].deep
      requires |trees[id].inds| == e < 511 && |trees[id].data| == 524 + 512 * e
      modifies this
      ensures Valid() && (rc == 0 || rc == -1)
      ensures rc == 0 <==> old(free) % SHORT != 0
      ensures rc == -1 ==> View() == old(View())
      ensures rc == 0 ==> Grown(old(View()), View(), id, blk) && leaked == old(leaked) - {blk}
      ensures rc == 0 ==> free == old(free) - 1
    {
      ghost var v := View();
      var x := Alloc();
      if x == 0 {
        return -1;
      }
      LinkDeep(id, blk, e, x);
      TakenGrown(v, blocks, x, View(), id, blk);
      rc := 0;
    }

    /** The new indirect block x is linked, with blk as its first entry. */
    method LinkDeep(id: nat, blk: nat, e: nat, x: nat)
      requires Valid() && id in trees && id in inodes && HasRow(View(), id, blk, x) && e == |trees[id].inds|
      modifies this`inodes, this`disk, this`trees, this`owner, this`leaked
      ensures Valid() && Grown(old(View()), View(), id, blk) && leaked == old(leaked) - {blk, x}
    {
      RowLinked(View(), blocks, id, blk, x);
      var inode := inodes[id];
      var d := Write(Write(disk, inode.i_block[DOUBLE_DIRECT_BLOCKS_INDEX], e, x), x, 0, blk);
      ghost var t' := WithRow(trees[id], blk, x);
      inodes, disk := inodes[id := RowInode(inode)], d;
      trees, owner, leaked := trees[id := t'], Adopt(owner, id, NodeSet(t')), leaked - NodeSet(t');
    }

    /** The loop that counts the indirect blocks: the entries of the double indirect block before the first 0. */
    method CountEntries(id: nat) returns (e: nat)
      requires Valid() && id in trees && id in inodes && trees[id].deep
      ensures e == |trees[id].inds|
    {
      assert InodeOk(View(), id, blocks);
      var dbl := inodes[id].i_block[DOUBLE_DIRECT_BLOCKS_INDEX];
      ghost var t := trees[id];
      e := 0;
      while e < ENTRIES && disk[dbl][e] != 0
        invariant e <= |t.inds|
      {
        e := e + 1;
      }
      DeepFacts(inodes[id], disk, t, blocks, e);
    }

    /** The number of indirect blocks, and how full the last of them is (0 when it is full). */
    method NextEntry(id: nat) returns (nb: nat, can_use: nat)
      requires Valid() && id in trees && trees[id].deep
      requires id in inodes && L_ONE_INDIRECT < inodes[id].i_blocks < MAX_BLOCKS_FILE
      ensures nb == |trees[id].inds| && can_use < 512
      ensures IndexCost(trees[id]) == if can_use == 0 then 1 else 0
      ensures can_use == 0 ==> |trees[id].data| == 524 + 512 * nb && nb < 511
      ensures can_use == 0 ==> inodes[id].i_blocks + 2 <= MAX_BLOCKS_FILE
      ensures can_use != 0 ==> nb >= 1 && |trees[id].data| == 524 + 512 * (nb - 1) + can_use
    {
      assert InodeOk(View(), id, blocks);
      DeepSize(inodes[id], trees[id], blocks);
      nb := CountEntries(id);
      can_use := EntryAt(inodes[id].i_blocks, nb);
      Room(inodes[id], trees[id], blocks, nb, can_use);
    }

    /** The double indirect range, once the double indirect block is there. */
    method AddInDouble(id: nat, blk: nat) returns (rc: int)
      requires Valid() && id in trees && blk in leaked
      requires id in inodes && L_ONE_INDIRECT < inodes[id].i_blocks < MAX_BLOCKS_FILE && trees[id].deep
      modifies this
      ensures Valid() && (rc == 0 || rc == -1)
      ensures rc == 0 <==> old(free) % SHORT >= IndexCost(old(trees[id]))
      ensures rc == -1 ==> View() == old(View())
      ensures rc == 0 ==> Grown(old(View()), View(), id, blk) && leaked == old(leaked) - {blk}
      ensures rc == 0 ==> free == old(free) - IndexCost(old(trees[id]))
    {
      var nb, can_use := NextEntry(id);
      if can_use == 0 {
        rc := AddDeepFirst(id, blk, nb);
      } else {
        AddDeep(id, blk, nb - 1, can_use);
        rc := 0;
      }
    }

    /** The double indirect range. */
    method AddDouble(id: nat, blk: nat) returns (rc: int)
      requires Valid() && id in trees && blk in leaked
      requires id in inodes && L_ONE_INDIRECT <= inodes[id].i_blocks < MAX_BLOCKS_FILE
      modifies this
      ensures Valid() && (rc == 0 || rc == -1)
      ensures rc == 0 <==> old(free) % SHORT >= IndexCost(old(trees[id]))
      ensures rc == -1 ==> Kept(old(View()), View(), id) && leaked == old(leaked)
      ensures rc == -1 ==> SameShort(old(free), free)
      ensures rc == 0 ==> Grown(old(View()), View(), id, blk) && leaked == old(leaked) - {blk}
      ensures rc == 0 ==> free == old(free) - IndexCost(old(trees[id]))
    {
      assert InodeOk(View(), id, blocks);
      DeepSize(inodes[id], trees[id], blocks);
      if inodes[id].i_blocks == L_ONE_INDIRECT {
        rc := AddInNewDouble(id, blk);
      } else {
        rc := AddInDouble(id, blk);
      }
    }

    /** The double indirect block, and then a block there. */
    method AddInNewDouble(id: nat, blk: nat) returns (rc: int)
      requires Valid() && id in trees && blk in leaked
      requires id in inodes && inodes[id].i_blocks == L_ONE_INDIRECT && IndexCost(trees[id]) == 2
      modifies this
      ensures Valid() && (rc == 0 || rc == -1) && (rc == 0 <==> old(free) % SHORT >= 2)
      ensures rc == -1 ==> Kept(old(View()), View(), id) && leaked == old(leaked) && SameShort(old(free), free)
      ensures rc == 0 ==> Grown(old(View()), View(), id, blk) && leaked == old(leaked) - {blk} && free == old(free) - 2
    {
      ghost var v := View();
      rc := OpenDouble(id);
      if rc == 0 {
        TakeShort(old(free), 1);
        assert InodeOk(View(), id, blocks);
        DeepSize(inodes[id], trees[id], blocks);
        ghost var v1 := View();
        rc := AddInDouble(id, blk);
        if rc == 0 {
          KeptGrown(v, v1, View(), id, blk);
        }
      }
    }

    /**
     add_data_block_inode: appends a new block to the file, or fails. It succeeds exactly when the file
     is not of maximal size and the 16-bit free counter covers the data block and the index blocks that
     come with it. A failure after the data block was marked leaves that block leaked.
     */
    method AddDataBlock(id: nat) returns (rc: int, ghost blk: nat)
      requires Valid() && id in trees && id in inodes
      modifies this
      ensures Valid() && (rc == 0 || rc == -1)
      ensures rc == 0 <==>
        old(inodes[id]).i_blocks != MAX_BLOCKS_FILE && old(free) % SHORT >= 1 + IndexCost(old(trees[id]))
      ensures rc == 0 ==> Grown(old(View()), View(), id, blk) && leaked == old(leaked)
      ensures rc == 0 ==> blk < blocks && !old(bits[blk]) && (forall b :: 0 <= b < blk ==> old(bits[b]))
      ensures rc == 0 ==> disk[blk] == Zeros()
      ensures rc == 0 ==> free == old(free) - (1 + IndexCost(old(trees[id])))
      ensures rc == -1 ==> Kept(old(View()), View(), id) && old(leaked) <= leaked
      ensures SameShort(old(free), free)
    {
      ghost var v := View();
      if inodes[id].i_blocks == MAX_BLOCKS_FILE {
        return -1, 0;
      }
      var b := Alloc();
      blk := b;
      if b == 0 {
        return -1, 0;
      }
      TakeShort(old(free), 1);
      rc := Place(id, b);
      if rc == 0 {
        TakenGrown(v, blocks, b, View(), id, b);
      } else {
        TakenKept(v, blocks, b, View(), id);
      }
    }

    /** The marked block joins the file, wherever there is room. */
    method Place(id: nat, blk: nat) returns (rc: int)
      requires Valid() && id in trees && id in inodes && blk in leaked
      requires inodes[id].i_blocks != MAX_BLOCKS_FILE
      modifies this
      ensures Valid() && (rc == 0 || rc == -1)
      ensures rc == 0 <==> old(free) % SHORT >= IndexCost(old(trees[id]))
      ensures rc == -1 ==> Kept(old(View()), View(), id) && leaked == old(leaked)
      ensures rc == 0 ==> Grown(old(View()), View(), id, blk) && leaked == old(leaked) - {blk}
      ensures rc == 0 ==> free == old(free) - IndexCost(old(trees[id]))
      ensures SameShort(old(free), free)
    {
      assert InodeOk(View(), id, blocks);
      CostOf(inodes[id], trees[id], blocks);
      if inodes[id].i_blocks < L_DIRECT {
        AddDirect(id, blk);
        rc := 0;
      } else if inodes[id].i_blocks < L_ONE_INDIRECT {
        rc := AddIndirect(id, blk);
      } else {
        rc := AddDouble(id, blk);
      }
      if rc == 0 {
        TakeShort(old(free), IndexCost(old(trees[id])));
      }
    }

    /**
     get_inode_relative_block: the block that holds the file's data block number k, or 0 behind the end of
     the file - unless the way there goes through an index block that the file does not have: then the
     reserved block 0 is read as one.
     */
    method RelativeBlock(id: nat, k: nat) returns (b: nat)
      requires Valid() && id in trees && id in inodes
      ensures k < |Data(id)| ==> b == Data(id)[k]
      ensures k >= |Data(id)| && (Indexed(trees[id], k) || disk[0] == Zeros()) ==> b == 0
      ensures |Data(id)| <= 12 <= k < 524 ==> b == disk[0][k - 12]
    {
      var inode := inodes[id];
      LocateBlock(View(), blocks, id, k);
      if k < REL_NB_DIRECT {
        b := inode.i_block[k];
      } else if k < REL_NB_INDIRECT + REL_NB_DIRECT {
        var rel_indirect := k - REL_NB_DIRECT;
        b := disk[inode.i_block[INDIRECT_BLOCKS_INDEX]][rel_indirect];
      } else if k < REL_NB_DOUB_INDIRECT + REL_NB_INDIRECT + REL_NB_DIRECT {
        var double_indirect := k - (REL_NB_INDIRECT + REL_NB_DIRECT);
        var indirect_block := double_indirect / ENTRIES;
        var indirect_index := double_indirect % ENTRIES;
        var double_data := disk[inode.i_block[DOUBLE_DIRECT_BLOCKS_INDEX]];
        if double_data[indirect_block] >= blocks {
          return 0;
        }
        b := disk[double_data[indirect_block]][indirect_index];
      } else {
        b := 0;
      }
    }

    /** get_actual_blocks: the number of data blocks, from i_blocks. */
    method ActualBlocks(id: nat) returns (n: nat)
      requires Valid() && id in trees && id in inodes
      ensures n == |Data(id)|
    {
      var i_blocks := inodes[id].i_blocks;
      assert InodeOk(View(), id, blocks);
      CountIs(trees[id]);
      if i_blocks <= L_DIRECT {
        return i_blocks;
      } else if i_blocks <= L_ONE_INDIRECT {
        return i_blocks - 1;
      } else {
        var double_ind_blk_nb := CountEntries(id);
        return i_blocks - double_ind_blk_nb - 1 - 1;
      }
    }

    /** The file's data: its blocks in the order in which they were added. */
    ghost function Data(id: nat): seq<nat>
      requires id in trees
      reads this
    {
      trees[id].data
    }
  }

  /** The way to data block k, in each of the three ranges. */
  lemma LocateBlock(v: Volume, n: nat, id: nat, k: nat)
    requires Consistent(v, n) && id in v.trees && id in v.inodes
    ensures |v.inodes[id].i_block| == 15 && |v.trees[id].data| < 12 + 512 + 262144
    ensures k < |v.trees[id].data| ==>
      if k < 12 then v.inodes[id].i_block[k] == v.trees[id].data[k]
      else if k < 524 then EntryIs(v.disk, v.inodes[id].i_block[12], k - 12, v.trees[id].data[k])
      else Located(v.disk, v.inodes[id].i_block[13], (k - 524) / 512, (k - 524) % 512, v.trees[id].data[k])
    ensures k >= |v.trees[id].data| ==> WayBehind(v.inodes[id], v.disk, v.trees[id], k)
  {
    assert InodeOk(v, id, n);
    CountIs(v.trees[id]);
    if k >= 524 && k < 262668 && v.trees[id].deep {
      DeepFacts(v.inodes[id], v.disk, v.trees[id], n, (k - 524) / 512);
      assert 524 + 512 * ((k - 524) / 512) + (k - 524) % 512 == k;
    }
    if k < |v.trees[id].data| {
      assert Recorded(v.inodes[id], v.disk, v.trees[id], k);
    }
  }

  /** Does the file have the index blocks that lead to data block number k, or can no file have it? */
  ghost predicate Indexed(t: Tree, k: nat) {
    k < 12 || (k < 524 && |t.data| > 12) || (t.deep && 524 <= k < 524 + 512 * |t.inds|) || k >= 262668
  }

  /** The way to a number behind the end of the file. */
  ghost predicate WayBehind(inode: Inode, disk: seq<seq<nat>>, t: Tree, k: nat)
    requires |inode.i_block| == 15
  {
    if k < 12 then inode.i_block[k] == 0
    else if k < 524 then if |t.data| > 12 then EntryIs(disk, inode.i_block[12], k - 12, 0) else inode.i_block[12] == 0
    else if !t.deep then inode.i_block[13] == 0
    else if k < 524 + 512 * |t.inds| then Located(disk, inode.i_block[13], (k - 524) / 512, (k - 524) % 512, 0)
    else k < 262668 ==> EntryIs(disk, inode.i_block[13], (k - 524) / 512, 0)
  }

  ghost predicate EntryIs(disk: seq<seq<nat>>, block: nat, i: nat, b: nat) {
    block < |disk| && i < |disk[block]| && disk[block][i] == b
  }

  ghost predicate Located(disk: seq<seq<nat>>, dbl: nat, e: nat, x: nat, b: nat) {
    dbl < |disk| && e < |disk[dbl]| && EntryIs(disk, disk[dbl][e], x, b)
  }

  /** No multiple of 65536 lies between the two counts: going down from f to f' never had to cross one. */
  ghost predicate SameShort(f: nat, f': nat) {
    f / SHORT == f' / SHORT
  }

  lemma TakeShort(f: nat, k: nat)
    requires f % SHORT >= k
    ensures f >= k && (f - k) % SHORT == f % SHORT - k && SameShort(f, f - k)
  {
  }

  /** The index blocks that the next data block needs. */
  function IndexCost(t: Tree): nat {
    if |t.data| == 12 then 1
    else if |t.data| == 524 then if t.deep then 1 else 2
    else if |t.data| > 524 && (|t.data| - 524) % 512 == 0 then 1
    else 0
  }

  /** Reading the shape of a deep tree off i_blocks. */
  lemma DeepSize(inode: Inode, t: Tree, n: nat)
    requires Sized(inode, t, n) && 525 <= inode.i_blocks < MAX_BLOCKS_FILE
    ensures inode.i_blocks == 525 <==> !t.deep
    ensures |t.data| >= 524 && (!t.deep ==> |t.data| == 524 && IndexCost(t) == 2)
    ensures t.deep ==> inode.i_blocks >= 526 + |t.inds|
  {
    CountIs(t);
  }

  /** The source's can_use_blocks. */
  function EntryAt(i_blocks: nat, nb: nat): nat
    requires i_blocks >= BASIC_DOUBLE_INDIRECT + nb
  {
    (i_blocks - BASIC_DOUBLE_INDIRECT - nb) % ENTRIES
  }

  /** How full the last indirect block is, as the source works it out. */
  lemma Room(inode: Inode, t: Tree, n: nat, nb: nat, x: nat)
    requires Sized(inode, t, n) && 525 < inode.i_blocks < MAX_BLOCKS_FILE && nb == |t.inds|
    requires t.deep && inode.i_blocks >= 526 + nb && x == EntryAt(inode.i_blocks, nb)
    ensures IndexCost(t) == if x == 0 then 1 else 0
    ensures x == 0 ==> |t.data| == 524 + 512 * nb && nb < 511 && inode.i_blocks + 2 <= MAX_BLOCKS_FILE
    ensures x != 0 ==> nb >= 1 && |t.data| == 524 + 512 * (nb - 1) + x
  {
    CountIs(t);
    SplitCount(|t.data| - 524);
  }

  lemma CostOf(inode: Inode, t: Tree, n: nat)
    requires Sized(inode, t, n)
    ensures inode.i_blocks < 525 ==> IndexCost(t) == if inode.i_blocks == 12 then 1 else 0
    ensures IndexCost(t) <= 2
  {
    CountIs(t);
  }

  /** v' is v with the same data in every file. */
  ghost predicate Kept(v: Volume, v': Volume, id: nat) {
    && id in v.trees && id in v.inodes && id in v'.trees && id in v'.inodes
    && v'.trees == v.trees[id := v'.trees[id]] && v'.inodes == v.inodes[id := v'.inodes[id]]
    && v'.trees[id].data == v.trees[id].data && DataStays(v, v'.disk) && LeakedStays(v, v'.disk)
    && |v'.bits| == |v.bits| && (forall b :: 0 <= b < |v.bits| && v.bits[b] ==> v'.bits[b])
  }

  lemma KeptGrown(v: Volume, v1: Volume, v': Volume, id: nat, blk: nat)
    requires (v1 == v || Kept(v, v1, id)) && v1.leaked == v.leaked && Grown(v1, v', id, blk)
    ensures Grown(v, v', id, blk)
  {
    StaysTwice(v, v1, v'.disk);
  }

  lemma DoubleNodes(inode: Inode, t: Tree, n: nat, dbl: nat)
    requires Sized(inode, t, n) && inode.i_blocks == 525
    ensures !t.deep && NodeSet(t.(deep := true, dbl := dbl)) == NodeSet(t) + {dbl}
  {
    CountIs(t);
  }

  lemma DeepNodes(t: Tree, blk: nat)
    requires |t.data| > 12
    ensures NodeSet(t.(data := t.data + [blk])) == NodeSet(t) + {blk}
  {
    NodesWith(t, blk);
  }

  lemma DeepNodesNew(t: Tree, blk: nat, x: nat)
    requires |t.data| > 12 && t.deep
    ensures NodeSet(t.(data := t.data + [blk], inds := t.inds + [x])) == NodeSet(t) + {blk, x}
  {
    var t1 := t.(data := t.data + [blk]);
    NodesWith(t, blk);
    NodesWithIndex(t1, x);
    assert t1.(inds := t.inds + [x]) == t.(data := t.data + [blk], inds := t.inds + [x]);
  }

  /** The tree keeps its blocks, can have the new ones, and only its own blocks are rewritten. */
  ghost predicate Takes(v: Volume, n: nat, id: nat, d: seq<seq<nat>>, t: Tree)
    requires id in v.trees
  {
    && |v.disk| == |d| == n && Mine(v, id, t)
    && (forall b :: b in Nodes(v.trees[id]) ==> b in Nodes(t))
    && (forall b :: 0 <= b < n ==> |d[b]| == 512)
    && (forall b :: 0 <= b < n && b !in Nodes(t) ==> d[b] == v.disk[b])
  }

  /** Committing the tree adds blk to the file. */
  ghost predicate Ready(v: Volume, n: nat, id: nat, inode: Inode, d: seq<seq<nat>>, t: Tree, blk: nat)
    requires id in v.trees
  {
    && Good(inode, d, t, n) && Takes(v, n, id, d, t)
    && Grown(v, Committed(v, id, inode, d, t), id, blk) && v.leaked - NodeSet(t) == v.leaked - {blk}
  }

  lemma GoodAndFresh(v: Volume, n: nat, id: nat, inode: Inode, t: Tree, blk: nat)
    requires Consistent(v, n) && id in v.trees && id in v.inodes && blk in v.leaked && inode == v.inodes[id] && t == v.trees[id]
    ensures Good(inode, v.disk, t, n) && FreshBlock(t, n, blk)
  {
    assert InodeOk(v, id, n);
    LeakedIsFresh(v, n, id, blk);
  }

  /** A block that is written to an entry of an index block of the file. */
  lemma ReadyToWrite(v: Volume, n: nat, id: nat, ind: nat, at: nat, blk: nat, inode: Inode, d: seq<seq<nat>>, t: Tree)
    requires Consistent(v, n) && id in v.trees && id in v.inodes && blk in v.leaked && at < 512 && ind < n && ind in Index(v.trees[id])
    requires t == v.trees[id].(data := v.trees[id].data + [blk]) && d == Write(v.disk, ind, at, blk) && Good(inode, d, t, n)
    requires NodeSet(t) == NodeSet(v.trees[id]) + {blk} && (t.deep ==> |t.data| > 524)
    ensures Ready(v, n, id, inode, d, t, blk)
  {
    GrownMine(v, n, id, t, {blk});
    WriteStays(v, n, id, ind, at, blk);
    CommittedGrown(v, id, inode, d, t, blk);
    IndexInNodes(t, ind);
  }

  lemma IndexInNodes(t: Tree, b: nat)
    ensures b in Index(t) ==> b in Nodes(t)
  {
  }

  /** The indirect block of a file. */
  lemma OnlyRow(v: Volume, n: nat, id: nat)
    requires Consistent(v, n) && id in v.trees && id in v.inodes && 12 < v.inodes[id].i_blocks < 525
    ensures |v.inodes[id].i_block| == 15 && v.inodes[id].i_block[12] == v.trees[id].ind < n
    ensures |v.disk[v.trees[id].ind]| == 512 && v.trees[id].ind in Index(v.trees[id])
  {
    assert InodeOk(v, id, n);
    IndirectNodes(v.inodes[id], v.trees[id], n, 0);
    assert Index(v.trees[id])[0] == v.trees[id].ind;
  }

  lemma IndirectReady(v: Volume, n: nat, id: nat, blk: nat, inode: Inode, t: Tree, d: seq<seq<nat>>)
    requires Consistent(v, n) && id in v.trees && id in v.inodes && blk in v.leaked && inode == v.inodes[id] && t == v.trees[id]
    requires 12 < inode.i_blocks < 525 && t.ind < n && |v.disk[t.ind]| == 512 && t.ind in Index(t)
    requires d == Write(v.disk, t.ind, inode.i_blocks - 13, blk)
    ensures Ready(v, n, id, inode.(i_blocks := inode.i_blocks + 1), d, t.(data := t.data + [blk]), blk)
  {
    GoodAndFresh(v, n, id, inode, t, blk);
    if inode.i_blocks > 13 {
      GrowIndirect(inode, v.disk, t, n, blk);
    }
    IndirectNodes(inode, t, n, blk);
    ReadyToWrite(v, n, id, t.ind, inode.i_blocks - 13, blk, inode.(i_blocks := inode.i_blocks + 1), d, t.(data := t.data + [blk]));
  }

  /** The last indirect block of a deep tree. */
  lemma LastRow(v: Volume, n: nat, id: nat, e: nat)
    requires Consistent(v, n) && id in v.trees && id in v.inodes && v.trees[id].deep && e < |v.trees[id].inds|
    ensures |v.inodes[id].i_block| == 15 && v.inodes[id].i_block[13] < n && e < |v.disk[v.inodes[id].i_block[13]]|
    ensures var ind := v.trees[id].inds[e];
      v.disk[v.inodes[id].i_block[13]][e] == ind && ind < n && |v.disk[ind]| == 512 && ind in Index(v.trees[id])
  {
    assert InodeOk(v, id, n);
    DeepFacts(v.inodes[id], v.disk, v.trees[id], n, e);
    assert Index(v.trees[id])[2 + e] == v.trees[id].inds[e];
  }

  lemma DeepReady(v: Volume, n: nat, id: nat, blk: nat, inode: Inode, t: Tree, d: seq<seq<nat>>, e: nat, x: nat)
    requires Consistent(v, n) && id in v.trees && id in v.inodes && blk in v.leaked && inode == v.inodes[id] && t == v.trees[id]
    requires inode.i_blocks < MAX_BLOCKS_FILE && t.deep
    requires |t.inds| == e + 1 && 0 < x < 512 && |t.data| == 524 + 512 * e + x
    requires t.inds[e] < n && |v.disk[t.inds[e]]| == 512 && t.inds[e] in Index(t) && d == Write(v.disk, t.inds[e], x, blk)
    ensures Ready(v, n, id, inode.(i_blocks := inode.i_blocks + 1), d, t.(data := t.data + [blk]), blk)
  {
    GoodAndFresh(v, n, id, inode, t, blk);
    GrowDeep(inode, v.disk, t, n, blk, e, x);
    DeepNodes(t, blk);
    ReadyToWrite(v, n, id, t.inds[e], x, blk, inode.(i_blocks := inode.i_blocks + 1), d, t.(data := t.data + [blk]));
  }

  lemma LeakedIsFresh(v: Volume, n: nat, id: nat, b: nat)
    requires Consistent(v, n) && id in v.trees && b in v.leaked
    ensures FreshBlock(v.trees[id], n, b)
  {
    assert InodeOk(v, id, n);
  }

  /** There is room for one more indirect block in the tree of the inode, and blk and x are to be had. */
  ghost predicate HasRow(v: Volume, id: nat, blk: nat, x: nat)
    requires id in v.trees && id in v.inodes
  {
    var t := v.trees[id];
    && {blk, x} <= v.leaked && blk != x && x < |v.disk| && v.disk[x] == Zeros()
    && v.inodes[id].i_blocks + 2 <= MAX_BLOCKS_FILE
    && t.deep && |t.inds| < 511 && |t.data| == 524 + 512 * |t.inds|
  }

  ghost predicate CanLink(v: Volume, n: nat, id: nat, d: seq<seq<nat>>, blk: nat, x: nat)
    requires id in v.trees && id in v.inodes
  {
    HasRow(v, id, blk, x) && LinksTwo(v.disk, d, v.trees[id].dbl, |v.trees[id].inds|, x, blk)
  }

  lemma RowsToLink(v: Volume, n: nat, id: nat, blk: nat, x: nat)
    requires Consistent(v, n) && id in v.trees && id in v.inodes && HasRow(v, id, blk, x)
    ensures |v.inodes[id].i_block| > DOUBLE_DIRECT_BLOCKS_INDEX
    ensures var dbl, e := v.inodes[id].i_block[DOUBLE_DIRECT_BLOCKS_INDEX], |v.trees[id].inds|;
      && dbl < |v.disk| && e < |v.disk[dbl]| && x < |v.disk| && 0 < |Write(v.disk, dbl, e, x)[x]|
      && CanLink(v, n, id, Write(Write(v.disk, dbl, e, x), x, 0, blk), blk, x)
  {
    assert InodeOk(v, id, n);
    DeepFacts(v.inodes[id], v.disk, v.trees[id], n, 0);
    LeakedIsFresh(v, n, id, x);
  }

  lemma DeepTaken(v: Volume, n: nat, id: nat, d: seq<seq<nat>>, blk: nat, x: nat)
    requires Consistent(v, n) && id in v.trees && id in v.inodes && CanLink(v, n, id, d, blk, x)
    ensures Takes(v, n, id, d, WithRow(v.trees[id], blk, x))
    ensures v.leaked - NodeSet(WithRow(v.trees[id], blk, x)) == v.leaked - {blk, x}
  {
    var t, t' := v.trees[id], WithRow(v.trees[id], blk, x);
    TwoMoreNodes(v, n, id, t, t', blk, x);
    LinkRows(v.disk, d, n, t', |t.inds|, x, blk);
  }

  lemma RowLinked(v: Volume, n: nat, id: nat, blk: nat, x: nat)
    requires Consistent(v, n) && id in v.trees && id in v.inodes && HasRow(v, id, blk, x)
    ensures |v.inodes[id].i_block| > DOUBLE_DIRECT_BLOCKS_INDEX
    ensures var inode, t' := v.inodes[id], WithRow(v.trees[id], blk, x);
      var dbl, e := inode.i_block[DOUBLE_DIRECT_BLOCKS_INDEX], |v.trees[id].inds|;
      && dbl < |v.disk| && e < |v.disk[dbl]| && x < |v.disk| && 0 < |Write(v.disk, dbl, e, x)[x]|
      && var v' := Committed(v, id, RowInode(inode), Write(Write(v.disk, dbl, e, x), x, 0, blk), t');
      && Consistent(v', n) && Grown(v, v', id, blk) && v'.leaked == v.leaked - {blk, x}
  {
    RowsToLink(v, n, id, blk, x);
    var inode, t' := v.inodes[id], WithRow(v.trees[id], blk, x);
    var dbl, e := inode.i_block[DOUBLE_DIRECT_BLOCKS_INDEX], |v.trees[id].inds|;
    var d := Write(Write(v.disk, dbl, e, x), x, 0, blk);
    assert InodeOk(v, id, n);
    LeakedIsFresh(v, n, id, x);
    LeakedIsFresh(v, n, id, blk);
    GrowDeepFirst(inode, v.disk, d, v.trees[id], n, blk, x);
    DeepTaken(v, n, id, d, blk, x);
    CommittedConsistent(v, n, id, RowInode(inode), d, t');
    RowStays(v, n, id, d, blk, x);
    CommittedGrown(v, id, RowInode(inode), d, t', blk);
  }

  lemma RowStays(v: Volume, n: nat, id: nat, d: seq<seq<nat>>, blk: nat, x: nat)
    requires Consistent(v, n) && id in v.trees && id in v.inodes && CanLink(v, n, id, d, blk, x)
    ensures DataStays(v, d) && blk < |d| == |v.disk| && d[blk] == v.disk[blk]
  {
    var t := v.trees[id];
    LeakedIsFresh(v, n, id, blk);
    assert Index(t)[1] == t.dbl && Nodes(t)[|t.data| + 1] == t.dbl;
    WrittenStays(v, n, id, {t.dbl, x}, d);
  }

  lemma CommittedGrown(v: Volume, id: nat, inode: Inode, d: seq<seq<nat>>, t: Tree, blk: nat)
    requires id in v.trees && id in v.inodes && t.data == v.trees[id].data + [blk] && (t.deep ==> |t.data| > 524)
    requires DataStays(v, d) && blk < |d| == |v.disk| && d[blk] == v.disk[blk]
    ensures Grown(v, Committed(v, id, inode, d, t), id, blk)
  {
  }

  lemma LinkRows(disk: seq<seq<nat>>, d: seq<seq<nat>>, n: nat, t': Tree, e: nat, x: nat, blk: nat)
    requires |disk| == n && (forall b :: 0 <= b < n ==> |disk[b]| == 512)
    requires LinksTwo(disk, d, t'.dbl, e, x, blk) && t'.dbl in Nodes(t') && x in Nodes(t')
    ensures forall b :: 0 <= b < n ==> |d[b]| == 512
    ensures forall b :: 0 <= b < n && b !in Nodes(t') ==> d[b] == disk[b]
  {
  }

  lemma TwoMoreNodes(v: Volume, n: nat, id: nat, t: Tree, t': Tree, blk: nat, x: nat)
    requires Consistent(v, n) && id in v.trees && t == v.trees[id] && {blk, x} <= v.leaked
    requires |t.data| > 12 && t.deep && t' == WithRow(t, blk, x)
    ensures Mine(v, id, t')
    ensures forall b :: b in Nodes(t) ==> b in Nodes(t')
    ensures v.leaked - NodeSet(t') == v.leaked - {blk, x}
    ensures x in Nodes(t') && t'.dbl in Nodes(t')
  {
    DeepNodesNew(t, blk, x);
    GrownMine(v, n, id, t', {blk, x});
    assert Nodes(t')[|t'.data| + 1] == t.dbl;
    assert Nodes(t')[|t'.data| + 2 + |t.inds|] == x;
  }

  /** Where the e-th indirect block of a deep tree is. */
  lemma DeepFacts(inode: Inode, disk: seq<seq<nat>>, t: Tree, n: nat, e: nat)
    requires Good(inode, disk, t, n) && t.deep
    ensures inode.i_block[13] == t.dbl && 0 < t.dbl < n && |disk[t.dbl]| == 512 && t.dbl in Nodes(t)
    ensures e < |t.inds| ==> disk[t.dbl][e] == t.inds[e] && 0 < t.inds[e] < n && |disk[t.inds[e]]| == 512 && t.inds[e] in Nodes(t)
    ensures |t.inds| < 512 && disk[t.dbl][|t.inds|] == 0
  {
    assert Nodes(t)[|t.data| + 1] == t.dbl;
    if e < |t.inds| {
      assert Nodes(t)[|t.data| + 2 + e] == t.inds[e];
    }
  }

  /** What the files of v have in their data blocks is on disk d. */
  ghost predicate DataStays(v: Volume, d: seq<seq<nat>>) {
    |d| == |v.disk| && forall id, i {:trigger v.trees[id].data[i]} :: id in v.trees && 0 <= i < |v.trees[id].data| ==>
      v.trees[id].data[i] < |d| ==> d[v.trees[id].data[i]] == v.disk[v.trees[id].data[i]]
  }

  ghost predicate LeakedStays(v: Volume, d: seq<seq<nat>>) {
    |d| == |v.disk| && forall b :: b in v.leaked && b < |d| ==> d[b] == v.disk[b]
  }

  /** Writing index blocks of the file and blocks of nobody leaves all data as they are. */
  lemma WrittenStays(v: Volume, n: nat, id: nat, changed: set<nat>, d: seq<seq<nat>>)
    requires Consistent(v, n) && id in v.trees && |d| == n
    requires forall b :: 0 <= b < n && b !in changed ==> d[b] == v.disk[b]
    requires forall b :: b in changed ==> b < n && (!v.bits[b] || b in v.leaked || b in Index(v.trees[id]))
    ensures DataStays(v, d)
  {
    forall other, i | other in v.trees && 0 <= i < |v.trees[other].data|
      ensures v.trees[other].data[i] !in changed
    {
      DataApart(v, n, id, other, i);
    }
  }

  /** A data block is marked, not leaked, and no index block of any file. */
  lemma DataApart(v: Volume, n: nat, id: nat, other: nat, i: nat)
    requires Consistent(v, n) && id in v.trees && other in v.trees && i < |v.trees[other].data|
    ensures var b := v.trees[other].data[i]; b < n && v.bits[b] && b !in v.leaked && b !in Index(v.trees[id])
  {
    var t, b := v.trees[other], v.trees[other].data[i];
    assert InodeOk(v, other, n) && InodeOk(v, id, n);
    assert Nodes(t)[i] == b;
    if b in Index(v.trees[id]) {
      var u := v.trees[id];
      var j :| 0 <= j < |Index(u)| && Index(u)[j] == b;
      assert Nodes(u)[|u.data| + j] == b;
      assert Pair(i, |t.data| + j);
    }
  }

  lemma WriteStays(v: Volume, n: nat, id: nat, b: nat, i: nat, blk: nat)
    requires Consistent(v, n) && id in v.trees && b < n && i < 512 && blk in v.leaked
    requires b in Index(v.trees[id]) || (b in v.leaked && b != blk)
    ensures blk < n && DataStays(v, Write(v.disk, b, i, blk)) && Write(v.disk, b, i, blk)[blk] == v.disk[blk]
  {
    var t := v.trees[id];
    LeakedIsFresh(v, n, id, blk);
    if b in Index(t) {
      var j :| 0 <= j < |Index(t)| && Index(t)[j] == b;
      assert Nodes(t)[|t.data| + j] == b;
    }
    WrittenStays(v, n, id, {b}, Write(v.disk, b, i, blk));
  }

  lemma TakenStays(v: Volume, n: nat, r: nat)
    requires Consistent(v, n) && r < n && !v.bits[r] && v.free > 0
    ensures DataStays(v, Taken(v, r).disk) && LeakedStays(v, Taken(v, r).disk)
  {
    forall id | id in v.trees ensures forall i :: 0 <= i < |v.trees[id].data| ==> v.trees[id].data[i] != r {
      forall i | 0 <= i < |v.trees[id].data| ensures v.trees[id].data[i] != r {
        DataApart(v, n, id, id, i);
      }
    }
  }

  /** A file that has grown since a block was taken has grown since before it was taken. */
  lemma TakenGrown(v: Volume, n: nat, r: nat, v': Volume, id: nat, blk: nat)
    requires Consistent(v, n) && r < n && !v.bits[r] && v.free > 0 && Grown(Taken(v, r), v', id, blk)
    ensures Grown(v, v', id, blk)
  {
    TakenStays(v, n, r);
    StaysTwice(v, Taken(v, r), v'.disk);
  }

  lemma TakenKept(v: Volume, n: nat, r: nat, v': Volume, id: nat)
    requires Consistent(v, n) && r < n && !v.bits[r] && v.free > 0 && Kept(Taken(v, r), v', id)
    ensures Kept(v, v', id)
  {
    TakenStays(v, n, r);
    StaysTwice(v, Taken(v, r), v'.disk);
  }

  lemma StaysTwice(v: Volume, v1: Volume, d: seq<seq<nat>>)
    requires DataStays(v, v1.disk) && DataStays(v1, d)
    requires forall id {:trigger id in v.trees} :: id in v.trees ==> id in v1.trees && v.trees[id].data <= v1.trees[id].data
    ensures DataStays(v, d)
  {
    forall id, i | id in v.trees && 0 <= i < |v.trees[id].data| && v.trees[id].data[i] < |d|
      ensures d[v.trees[id].data[i]] == v.disk[v.trees[id].data[i]]
    {
      assert v1.trees[id].data[i] == v.trees[id].data[i];
    }
  }

  /** v' is v with blk appended to the data of inode id; nothing changes for the other inodes. All data stay as they are. */
  ghost predicate Grown(v: Volume, v': Volume, id: nat, blk: nat) {
    && id in v.trees && id in v.inodes && id in v'.trees && id in v'.inodes
    && v'.trees == v.trees[id := v'.trees[id]] && v'.inodes == v.inodes[id := v'.inodes[id]]
    && v'.trees[id].data == v.trees[id].data + [blk]
    && (v'.trees[id].deep ==> |v'.trees[id].data| > 524) && DataStays(v, v'.disk)
    && (blk in v.leaked && blk < |v.disk| ==> v'.disk[blk] == v.disk[blk])
    && |v'.bits| == |v.bits| && (forall b :: 0 <= b < |v.bits| && v.bits[b] ==> v'.bits[b])
  }

  lemma DirectNodes(inode: Inode, t: Tree, n: nat, blk: nat)
    requires Sized(inode, t, n) && inode.i_blocks < 12
    ensures NodeSet(t.(data := t.data + [blk])) == NodeSet(t) + {blk}
  {
    CountIs(t);
  }

  lemma IndirectNodes(inode: Inode, t: Tree, n: nat, blk: nat)
    requires Sized(inode, t, n) && 12 <= inode.i_blocks < 525
    ensures !t.deep && |t.data| == if inode.i_blocks == 12 then 12 else inode.i_blocks - 1
    ensures inode.i_blocks == 12 ==> forall ind ::
      NodeSet(t.(data := t.data + [blk], ind := ind)) == NodeSet(t) + {blk, ind}
    ensures inode.i_blocks != 12 ==> NodeSet(t.(data := t.data + [blk])) == NodeSet(t) + {blk} && t.ind in Nodes(t)
  {
    CountIs(t);
    if inode.i_blocks != 12 {
      assert Nodes(t)[|t.data|] == t.ind;
    }
  }

  /** A tree grown by leaked blocks can be committed, and takes exactly those blocks out of the leaked ones. */
  lemma GrownMine(v: Volume, n: nat, id: nat, t: Tree, more: set<nat>)
    requires Consistent(v, n) && id in v.trees && more <= v.leaked
    requires NodeSet(t) == NodeSet(v.trees[id]) + more
    ensures Mine(v, id, t)
    ensures forall b :: b in Nodes(v.trees[id]) ==> b in Nodes(t)
    ensures v.leaked - NodeSet(t) == v.leaked - more
  {
    assert InodeOk(v, id, n);
    assert forall b :: b in Nodes(t) <==> b in NodeSet(t);
    assert forall b :: b in Nodes(v.trees[id]) <==> b in NodeSet(v.trees[id]);
  }
}
