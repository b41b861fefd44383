/**
 What a run of additions and deletions leaves behind (src/kernel/fs/inode.c:189-212, 338-589,
 926-984, 1098-1129; the freshly formatted volume is that of src/kernel/fs/ext2.c:113-130).
 */
module BlockRuns {
  import opened Marks
  import opened SetFacts
  import opened BlockTree
  import opened BlockMap
  import opened BlockFree

  /** The set bits among the first n. */
  ghost function SetBits(bits: seq<bool>, n: nat): set<nat>
    requires n <= |bits|
  {
    set b: nat | b < n && bits[b]
  }

  lemma {:induction false} ClearCount(bits: seq<bool>, n: nat)
    requires n <= |bits|
    ensures Clear(bits, n) + |SetBits(bits, n)| == n
  {
    if n == 0 {
      assert SetBits(bits, n) == {};
    } else {
      ClearCount(bits, n - 1);
      assert SetBits(bits, n) == SetBits(bits, n - 1) + if bits[n - 1] then {n - 1} else {};
    }
  }

  /** Every block but the reserved one is free, in a file, or leaked - and in one of these only. */
  lemma Conservation(v: Volume, n: nat)
    requires Consistent(v, n)
    ensures v.free + |v.owner.Keys| + |v.leaked| == n - 1
  {
    ClearCount(v.bits, n);
    forall b | b in v.owner ensures 0 < b < n {
      assert OwnedBySome(v, b);
      assert InodeOk(v, v.owner[b], n);
    }
    ThreeParts(SetBits(v.bits, n), v.owner.Keys, v.leaked);
  }

  lemma ThreeParts(s: set<nat>, a: set<nat>, b: set<nat>)
    requires a !! b && 0 !in a && 0 !in b && forall x :: x in s <==> x == 0 || x in a || x in b
    ensures |s| == 1 + |a| + |b|
  {
    assert s == {0} + a + b;
  }

  /** The bitmap is a function of the files and the leaked blocks. */
  lemma BitmapDetermined(v: Volume, v': Volume, n: nat)
    requires Consistent(v, n) && Consistent(v', n) && v.trees == v'.trees && v.leaked == v'.leaked
    ensures v'.owner == v.owner && v'.free == v.free
    ensures forall b :: 0 <= b < n ==> v'.bits[b] == v.bits[b]
  {
    SameOwner(v, v', n);
    SameOwner(v', v, n);
    ClearSame(v.bits, v'.bits, n);
  }

  lemma SameOwner(v: Volume, v': Volume, n: nat)
    requires Consistent(v, n) && Consistent(v', n) && v.trees == v'.trees
    ensures forall b :: b in v.owner ==> b in v'.owner && v'.owner[b] == v.owner[b]
  {
    forall b | b in v.owner ensures b in v'.owner && v'.owner[b] == v.owner[b] {
      assert OwnedBySome(v, b);
      assert InodeOk(v', v.owner[b], n);
    }
  }

  /** Between consecutive volumes of the trace, one block is added to file id. */
  ghost predicate Additions(trace: seq<Volume>, n: nat, id: nat, blks: seq<nat>) {
    && |trace| == |blks| + 1
    && (forall i :: 0 <= i < |trace| ==> Consistent(trace[i], n))
    && (forall i :: 0 <= i < |blks| ==> Grown(trace[i], trace[i + 1], id, blks[i]) && trace[i + 1].leaked == trace[i].leaked)
  }

  /** After a run of successful additions the file is made of the new blocks, in order; nothing else has changed. */
  lemma {:induction false} AdditionsAppend(trace: seq<Volume>, n: nat, id: nat, blks: seq<nat>)
    requires Additions(trace, n, id, blks) && id in trace[0].trees && id in trace[0].inodes
    ensures var v, v' := trace[0], trace[|blks|];
      && id in v'.trees && id in v'.inodes && v'.trees[id].data == v.trees[id].data + blks
      && v'.trees == v.trees[id := v'.trees[id]] && v'.inodes == v.inodes[id := v'.inodes[id]] && v'.leaked == v.leaked
    decreases |blks|
  {
    if blks == [] {
      assert trace[0].trees[id].data + blks == trace[0].trees[id].data;
    } else {
      var k := |blks| - 1;
      assert forall i :: 0 <= i < k ==> blks[..k][i] == blks[i];
      AdditionsAppend(trace[..k + 1], n, id, blks[..k]);
      assert blks == blks[..k] + [blks[k]];
      assert Grown(trace[k], trace[k + 1], id, blks[k]);
    }
  }

  /** ... and all that the files held before, this one and the others, is still there. */
  lemma {:induction false} AdditionsKeep(trace: seq<Volume>, n: nat, id: nat, blks: seq<nat>)
    requires Additions(trace, n, id, blks) && id in trace[0].trees && id in trace[0].inodes
    ensures DataStays(trace[0], trace[|blks|].disk)
    decreases |blks|
  {
    if blks != [] {
      var k := |blks| - 1;
      assert forall i :: 0 <= i < k ==> blks[..k][i] == blks[i];
      AdditionsKeep(trace[..k + 1], n, id, blks[..k]);
      AdditionsAppend(trace[..k + 1], n, id, blks[..k]);
      assert Grown(trace[k], trace[k + 1], id, blks[k]);
      StaysTwice(trace[0], trace[k], trace[k + 1].disk);
    }
  }

  /** A file of consecutive additions has the i_blocks that the number of them calls for. */
  lemma SizeAfterAdditions(trace: seq<Volume>, n: nat, id: nat, blks: seq<nat>)
    requires Additions(trace, n, id, blks) && id in trace[0].trees && id in trace[0].inodes
    requires trace[0].trees[id] == EMPTY_TREE
    ensures var v := trace[|blks|];
      && id in v.trees && id in v.inodes && v.trees[id].data == blks
      && v.inodes[id].i_blocks == |Nodes(v.trees[id])| == BlocksAfter(|blks|)
  {
    AdditionsAppend(trace, n, id, blks);
    var v := trace[|blks|];
    assert InodeOk(v, id, n);
    CountIs(v.trees[id]);
    if blks != [] {
      assert Grown(trace[|blks| - 1], trace[|blks|], id, blks[|blks| - 1]);
    }
  }

  /**
   Additions to an empty file, then free_inode_data: the bitmap, the free count and every file are
   back to what they were, with all their data, and as many blocks were freed as i_blocks said.
   */
  lemma RoundTrip(trace: seq<Volume>, n: nat, id: nat, blks: seq<nat>, last: Volume)
    requires Additions(trace, n, id, blks) && id in trace[0].trees && id in trace[0].inodes
    requires trace[0].trees[id] == EMPTY_TREE && trace[0].inodes[id] == EMPTY_INODE
    requires id in trace[|blks|].trees && Consistent(last, n) && Freed(trace[|blks|], last, id)
    ensures last.trees == trace[0].trees && last.inodes == trace[0].inodes && last.free == trace[0].free
    ensures forall b :: 0 <= b < n ==> last.bits[b] == trace[0].bits[b]
    ensures last.free == trace[|blks|].free + BlocksAfter(|blks|) && DataStays(trace[0], last.disk)
  {
    AdditionsKeep(trace, n, id, blks);
    AdditionsAppend(trace, n, id, blks);
    SizeAfterAdditions(trace, n, id, blks);
    EmptiedAgain(trace[0], trace[|blks|], last, id);
    BitmapDetermined(trace[0], last, n);
  }

  lemma EmptiedAgain(v: Volume, v': Volume, last: Volume, id: nat)
    requires id in v.trees && id in v.inodes && v.trees[id] == EMPTY_TREE && v.inodes[id] == EMPTY_INODE
    requires id in v'.trees && id in v'.inodes && v'.trees == v.trees[id := v'.trees[id]]
    requires v'.inodes == v.inodes[id := v'.inodes[id]] && v'.leaked == v.leaked && Freed(v', last, id)
    ensures last.trees == v.trees && last.inodes == v.inodes && last.leaked == v.leaked
  {
  }

  // ----- the 16-bit counter -----

  /**
   All files and leaked blocks together never take more than (n - 1) mod 65536 blocks, whatever the
   size of the volume and whatever has been done to it: a file never comes near MAX_BLOCKS_FILE.
   */
  lemma FilesStayShort(v: Volume, n: nat, id: nat)
    requires Consistent(v, n) && id in v.trees && id in v.inodes
    ensures |v.owner.Keys| + |v.leaked| <= (n - 1) % SHORT
    ensures v.inodes[id].i_blocks <= (n - 1) % SHORT < MAX_BLOCKS_FILE
  {
    Conservation(v, n);
    assert InodeOk(v, id, n);
    var t := v.trees[id];
    assert n - 1 == (n - 1) / SHORT * SHORT + (n - 1) % SHORT;
    SetSize(Nodes(t));
    SubsetSize(ToSet(Nodes(t)), v.owner.Keys);
  }
}
