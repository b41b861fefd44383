/**
 The block cache (src/kernel/fs/disk_buffer.c:17-293): a doubly linked list of blocks in front of the
 disk. Whatever is fetched, evicted or synchronised, a reader sees the same contents. The disk may
 refuse any write of a sector.
 */
module BlockCache {
  import opened Marks

  const BLOCK_SIZE: nat := 2048     // of the file system
  const SECTOR: nat := 512          // of the disk
  const RATIO: nat := 4
  const MAX_CACHE_SIZE: nat := 60
  const WORD32: nat := 0x1_0000_0000

  type U32 = n: nat | n < 0x1_0000_0000

  /** c_elt. Its fields dirty and usage are not set when a block is fetched. */
  class Elt {
    const blockNumber: U32
    var dirty: bool
    var usage: nat
    var data: seq<nat>
    var next_c: Elt?
    var before_c: Elt?

    constructor (b: U32, bytes: seq<nat>)
      ensures blockNumber == b && data == bytes && next_c == null && before_c == null
    {
      blockNumber, data, next_c, before_c := b, bytes, null, null;
    }
  }

  /** The four sectors of block b. */
  function OnDisk(sectors: seq<seq<nat>>, start: nat, b: nat): (d: seq<nat>)
    requires start + RATIO * b + RATIO <= |sectors|
  {
    var s := start + RATIO * b;
    sectors[s] + sectors[s + 1] + sectors[s + 2] + sectors[s + 3]
  }

  /** Byte j of a block is byte j mod 512 of its sector number j / 512. */
  lemma DiskByte(sectors: seq<seq<nat>>, start: nat, b: nat, j: nat)
    requires start + RATIO * b + RATIO <= |sectors| && SectorSized(sectors) && j < BLOCK_SIZE
    ensures |OnDisk(sectors, start, b)| == BLOCK_SIZE
    ensures OnDisk(sectors, start, b)[j] == sectors[start + 4 * b + j / 512][j % 512]
  {
    var s := start + RATIO * b;
    assert j == 512 * (j / 512) + j % 512;
    assert |sectors[s]| == |sectors[s + 1]| == |sectors[s + 2]| == |sectors[s + 3]| == SECTOR;
  }

  /** The first n sectors from s on. */
  function Joined(sectors: seq<seq<nat>>, s: nat, n: nat): (d: seq<nat>)
    requires s + n <= |sectors|
  {
    if n == 0 then [] else Joined(sectors, s, n - 1) + sectors[s + n - 1]
  }

  lemma JoinedIsBlock(sectors: seq<seq<nat>>, start: nat, b: nat)
    requires start + RATIO * b + RATIO <= |sectors|
    ensures Joined(sectors, start + RATIO * b, RATIO) == OnDisk(sectors, start, b)
  {
    var s := start + RATIO * b;
    assert Joined(sectors, s, 1) == sectors[s];
    assert Joined(sectors, s, 2) == sectors[s] + sectors[s + 1];
    assert Joined(sectors, s, 3) == sectors[s] + sectors[s + 1] + sectors[s + 2];
  }

  /** Sector number i of a block. */
  function Piece(data: seq<nat>, i: nat): (p: seq<nat>)
    requires |data| == BLOCK_SIZE && i < RATIO
    ensures |p| == SECTOR
  {
    data[SECTOR * i..SECTOR * i + SECTOR]
  }

  ghost predicate SectorSized(sectors: seq<seq<nat>>) {
    forall s :: 0 <= s < |sectors| ==> |sectors[s]| == SECTOR
  }

  /** Element i of the list, its neighbours, and what it caches. */
  ghost predicate Linked(list: seq<Elt>, i: nat)
    requires i < |list|
    reads list`next_c, list`before_c
  {
    && list[i].next_c == (if i + 1 < |list| then list[i + 1] else null)
    && list[i].before_c == (if i > 0 then list[i - 1] else null)
  }

  ghost predicate Chain(list: seq<Elt>)
    reads list`next_c, list`before_c
  {
    && (forall i: nat {:trigger Linked(list, i)} :: i < |list| ==> Linked(list, i))
    && forall i, j {:trigger Pair(i, j)} :: Pair(i, j) && 0 <= i < j < |list| ==>
      list[i] != list[j] && list[i].blockNumber != list[j].blockNumber
  }

  ghost predicate Shows(e: Elt, sectors: seq<seq<nat>>, start: nat, view: seq<seq<nat>>)
    requires start + RATIO * |view| <= |sectors|
    reads e`data, e`dirty
  {
    && e.blockNumber < |view| && e.data == view[e.blockNumber] && |e.data| == BLOCK_SIZE
    && (!e.dirty ==> OnDisk(sectors, start, e.blockNumber) == e.data)
  }

  ghost predicate Caches(list: seq<Elt>, b: nat) {
    exists i :: 0 <= i < |list| && list[i].blockNumber == b
  }

  /** The contents that users see: the cached block if there is one, the disk's otherwise. */
  ghost predicate Transparent(list: seq<Elt>, sectors: seq<seq<nat>>, start: nat, view: seq<seq<nat>>)
    reads list`data, list`dirty
  {
    && start + RATIO * |view| <= |sectors|
    && (forall i :: 0 <= i < |list| ==> Shows(list[i], sectors, start, view))
    && (forall b {:trigger view[b]} :: 0 <= b < |view| && !Caches(list, b) ==> view[b] == OnDisk(sectors, start, b))
  }

  class Cache {
    const start: U32                     // startLBA of the partition
    const partition_size: U32            // in sectors
    var sectors: seq<seq<nat>>           // the disk
    var global_cache_buf: Elt?
    var nb_elements_cache: nat
    var locked_files: int
    ghost var list: seq<Elt>
    ghost var view: seq<seq<nat>>

    ghost predicate Valid()
      reads this`sectors, this`global_cache_buf, this`nb_elements_cache, this`list, this`view
      reads list`data, list`dirty, list`next_c, list`before_c
    {
      && SectorSized(sectors) && |sectors| <= WORD32 && |view| == partition_size / RATIO + 1
      && global_cache_buf == (if list == [] then null else list[0])
      && nb_elements_cache == |list|
      && Chain(list)
      && Transparent(list, sectors, start, view)
    }

    /** An empty cache in front of a disk that covers the partition. */
    constructor (disk: seq<seq<nat>>, first: U32, size: U32)
      requires SectorSized(disk) && first + RATIO * (size / RATIO + 1) <= |disk| <= WORD32
      ensures Valid() && list == [] && sectors == disk && partition_size == size
    {
      start, partition_size, sectors := first, size, disk;
      global_cache_buf, nb_elements_cache, locked_files := null, 0, 0;
      list := [];
      view := seq(size / RATIO + 1, b requires 0 <= b < size / RATIO + 1 => OnDisk(disk, first, b));
    }

    /** look_up_c_elt */
    method LookUp(b: nat) returns (e: Elt?, ghost k: nat)
      requires Valid()
      ensures e == null ==> !Caches(list, b)
      ensures e != null ==> k < |list| && list[k] == e && e.blockNumber == b
    {
      e, k := global_cache_buf, 0;
      while e != null
        invariant k <= |list| && e == (if k < |list| then list[k] else null)
        invariant forall i :: 0 <= i < k ==> list[i].blockNumber != b
        decreases |list| - k
      {
        if e.blockNumber == b {
          return;
        }
        assert Linked(list, k);
        e := e.next_c;
        k := k + 1;
      }
    }

    /** The disk driver: a sector is written, or the write is refused. Outside the disk there is nothing to write. */
    method WriteSector(n: nat, bytes: seq<nat>) returns (rc: int)
      modifies this`sectors
      ensures rc == 0 || rc == -1
      ensures sectors == if rc == 0 && n < |old(sectors)| then old(sectors)[n := bytes] else old(sectors)
    {
      var refused: bool := *;
      if refused {
        return -1;
      }
      if n < |sectors| {
        sectors := sectors[n := bytes];
      }
      rc := 0;
    }

    /** ... or read; outside the disk the buffer keeps what was in it. */
    method ReadSector(n: nat) returns (bytes: seq<nat>)
      requires SectorSized(sectors)
      ensures |bytes| == SECTOR && (n < |sectors| ==> bytes == sectors[n])
    {
      var junk: seq<nat> := *;
      bytes := if n < |sectors| then sectors[n] else if |junk| == SECTOR then junk else seq(SECTOR, _ => 0);
    }

    /** The loop of fetch_block: the sectors of block b, whose numbers are cut to 32 bits. */
    method ReadBlockSectors(b: U32) returns (data: seq<nat>)
      requires SectorSized(sectors) && |sectors| <= WORD32
      ensures |data| == BLOCK_SIZE
      ensures start + RATIO * b + RATIO <= |sectors| ==> data == OnDisk(sectors, start, b)
    {
      ghost var inside := start + RATIO * b + RATIO <= |sectors|;
      data := [];
      var i := 0;
      while i < RATIO
        invariant 0 <= i <= RATIO && |data| == SECTOR * i
        invariant inside ==> data == Joined(sectors, start + RATIO * b, i)
      {
        var bytes := ReadSector(SectorNumber(start, b, i));
        data := data + bytes;
        i := i + 1;
      }
      if inside {
        JoinedIsBlock(sectors, start, b);
      }
    }

    /** sync_elt: writes the four sectors of the block, and gives up at the first one that is refused. */
    method SyncElt(e: Elt) returns (rc: int)
      requires SectorSized(sectors) && |sectors| <= WORD32 && |e.data| == BLOCK_SIZE
      modifies this`sectors, e`dirty
      ensures rc == 0 || rc == -1
      ensures SectorSized(sectors) && |sectors| == |old(sectors)|
      ensures e.dirty == (rc == -1 && old(e.dirty))
      ensures start + RATIO * e.blockNumber + RATIO <= |sectors| ==>
        SameElsewhere(old(sectors), sectors, start, e.blockNumber) && (rc == 0 ==> OnDisk(sectors, start, e.blockNumber) == e.data)
    {
      ghost var first, inside := start + RATIO * e.blockNumber, start + RATIO * e.blockNumber + RATIO <= |sectors|;
      var blk := 0;
      rc := 0;
      while blk < RATIO && rc == 0
        invariant 0 <= blk <= RATIO && (rc == 0 || rc == -1) && e.dirty == old(e.dirty)
        invariant SectorSized(sectors) && |sectors| == |old(sectors)|
        invariant inside ==> SameElsewhere(old(sectors), sectors, start, e.blockNumber)
        invariant inside && rc == 0 ==>
          forall i: nat {:trigger Piece(e.data, i)} :: 0 <= i < blk ==> sectors[first + i] == Piece(e.data, i)
      {
        rc := WriteSector(SectorNumber(start, e.blockNumber, blk), Piece(e.data, blk));
        blk := blk + 1;
      }
      if rc == 0 {
        if inside {
          FourSectors(sectors, start, e.blockNumber, e.data);
        }
        e.dirty := false;
      }
    }

    /** sync_elt on element k of the list, which is dirty; if the cache was valid, it still is. */
    method WriteThrough(ghost k: nat, e: Elt) returns (rc: int)
      requires k < |list| && list[k] == e && e.dirty && |e.data| == BLOCK_SIZE && SectorSized(sectors) && |sectors| <= WORD32
      modifies this`sectors, e`dirty
      ensures (rc == 0 || rc == -1) && (e.dirty <==> rc == -1)
      ensures old(Valid()) ==> Valid() && e.blockNumber < |view|
      ensures old(Valid()) && rc == 0 ==> OnDisk(sectors, start, e.blockNumber) == view[e.blockNumber]
    {
      ghost var was := sectors;
      rc := SyncElt(e);
      if old(Valid()) {
        assert old(Shows(e, sectors, start, view));
        assert TransparentBut(list, was, start, view, k) by {
          forall i | 0 <= i < |list| && i != k ensures list[i] != e && Shows(list[i], was, start, view) {
            assert Pair(i, k) && Pair(k, i);
            assert old(Shows(list[i], sectors, start, view));
          }
        }
        forall i: nat | i < |list| ensures Linked(list, i) {
          assert old(Linked(list, i));
        }
        SyncTransparent(list, was, sectors, start, view, k);
        assert Shows(e, sectors, start, view);
      }
    }

    method SyncListed(ghost k: nat, e: Elt) returns (rc: int)
      requires Valid() && k < |list| && list[k] == e && e.dirty
      modifies this`sectors, e`dirty
      ensures Valid() && (rc == 0 || rc == -1)
      ensures e.dirty <==> rc == -1
    {
      assert Shows(e, sectors, start, view);
      rc := WriteThrough(k, e);
    }

    /** The pointers around element k are redirected past it. */
    method Bypass(ghost l: seq<Elt>, ghost k: nat, e: Elt)
      requires Chain(l) && k < |l| && l[k] == e && global_cache_buf == l[0]
      modifies this`global_cache_buf, l`next_c, l`before_c
      ensures Chain(l[..k] + l[k + 1..])
      ensures global_cache_buf == if |l| == 1 then null else if k == 0 then l[1] else l[0]
    {
      assert Linked(l, k);
      assert k > 0 ==> Linked(l, k - 1);
      assert k + 1 < |l| ==> Linked(l, k + 1);
      assert Pair(0, k);
      var before, next := e.before_c, e.next_c;
      if e == global_cache_buf && next == null && before == null {
        global_cache_buf := null;
      } else {
        if next != null {
          next.before_c := before;
        }
        if before != null {
          before.next_c := next;
        }
        if e == global_cache_buf {
          global_cache_buf := next;
        }
      }
      ghost var l' := l[..k] + l[k + 1..];
      forall i: nat | i < |l'| ensures Linked(l', i) {
        var j := if i < k then i else i + 1;
        assert old(Linked(l, j));
        assert Pair(j, k - 1) && Pair(k - 1, j) && Pair(j, k + 1) && Pair(k + 1, j);
      }
      forall i, j | 0 <= i < j < |l'| ensures l'[i] != l'[j] && l'[i].blockNumber != l'[j].blockNumber {
        assert Pair(if i < k then i else i + 1, if j < k then j else j + 1);
      }
    }

    /** The part of free_cache_list that takes the element at position k out of the list. */
    method Unlink(ghost k: nat, e: Elt)
      requires Valid() && k < |list| && list[k] == e && !e.dirty
      modifies this`global_cache_buf, this`nb_elements_cache, this`list, list`next_c, list`before_c
      ensures Valid() && list == old(list)[..k] + old(list)[k + 1..]
    {
      ghost var l := list;
      Bypass(l, k, e);
      nb_elements_cache := nb_elements_cache - 1;
      list := l[..k] + l[k + 1..];
      forall i | 0 <= i < |l| ensures Shows(l[i], sectors, start, view) {
        assert old(Shows(l[i], sectors, start, view));
      }
      UncachedFromDisk(l, list, k, sectors, start, view);
    }

    /** Writes an unlocked element back if it is dirty, and drops it. */
    method Evict(ghost k: nat, e: Elt) returns (rc: int)
      requires Valid() && k < |list| && list[k] == e
      modifies this`sectors, this`global_cache_buf, this`nb_elements_cache, this`list, list`next_c, list`before_c, list`dirty
      ensures Valid() && (rc == 0 || rc == -1)
      ensures list == if rc == 0 then old(list)[..k] + old(list)[k + 1..] else old(list)
      ensures rc == -1 ==> e.dirty
    {
      assert list[k] in list;
      rc := 0;
      if e.dirty {
        rc := SyncListed(k, e);
        if rc < 0 {
          return;
        }
      }
      Unlink(k, e);
    }

    /**
     free_cache_list: writes back what is dirty and drops what nobody has locked; it stops at the first
     block that the disk refuses. Locked blocks stay.
     */
    method FreeCacheList() returns (rc: int)
      requires Valid()
      modifies this`sectors, this`global_cache_buf, this`nb_elements_cache, this`list, list`next_c, list`before_c, list`dirty
      ensures Valid() && (rc == 0 || rc == -1)
      ensures LockedStay(old(list), list) && Fewer(old(list), list)
      ensures rc == 0 ==> FirstLocked(list, |list|)
      ensures rc == -1 ==> SomeDirty(list)
    {
      ghost var l0 := list;
      var buf_iter := global_cache_buf;
      ghost var k: nat := 0;
      rc := 0;
      while buf_iter != null && rc == 0
        invariant Valid() && k <= |list| && (rc == 0 || rc == -1)
        invariant rc == 0 ==> buf_iter == (if k < |list| then list[k] else null) && FirstLocked(list, k)
        invariant LockedStay(l0, list) && Fewer(l0, list) && (rc == -1 ==> SomeDirty(list))
        decreases |list| - k, rc + 1
      {
        OldOnes(l0, list);
        rc, buf_iter, k := FreeNext(l0, k, buf_iter);
      }
    }

    /** One round of free_cache_list: evicts e, unless it is locked, and moves on to the next element. */
    method FreeNext(ghost l0: seq<Elt>, ghost k: nat, e: Elt) returns (rc: int, next: Elt?, ghost k': nat)
      requires Valid() && k < |list| && list[k] == e && FirstLocked(list, k) && LockedStay(l0, list) && Fewer(l0, list)
      modifies this`sectors, this`global_cache_buf, this`nb_elements_cache, this`list, list`next_c, list`before_c, list`dirty
      ensures Valid() && LockedStay(l0, list) && Fewer(l0, list) && (rc == 0 || rc == -1)
      ensures rc == -1 ==> SomeDirty(list)
      ensures k' <= |list| && |list| - k' <= |old(list)| - k
      ensures rc == 0 ==> |list| - k' < |old(list)| - k && FirstLocked(list, k')
      ensures rc == 0 ==> next == if k' < |list| then list[k'] else null
    {
      ghost var l := list;
      assert Linked(list, k);
      next, k', rc := e.next_c, k, 0;
      if e.usage == 0 {
        rc := Evict(k, e);
        if rc == 0 {
          UnlockedLeaves(l0, l, k);
        }
      } else {
        k' := k + 1;
      }
    }

    /** sync: writes back every dirty block, going on past the ones that the disk refuses. */
    method Sync() returns (rc: int)
      requires Valid()
      modifies this`sectors, list`dirty
      ensures Valid() && (rc == 0 || rc == -1)
      ensures rc == 0 ==> forall b :: 0 <= b < |view| ==> OnDisk(sectors, start, b) == view[b]
    {
      rc := 0;
      var buf_iter := global_cache_buf;
      ghost var k: nat := 0;
      while buf_iter != null
        invariant Valid() && k <= |list| && (rc == 0 || rc == -1)
        invariant buf_iter == if k < |list| then list[k] else null
        invariant rc == 0 ==> FirstClean(list, k)
        decreases |list| - k
      {
        var code;
        code, buf_iter := SyncNext(k, buf_iter);
        if code < 0 {
          rc := -1;
        }
        k := k + 1;
      }
      if rc == 0 {
        AllOnDisk(list, sectors, start, view);
      }
    }

    /** One round of sync. */
    method SyncNext(ghost k: nat, e: Elt) returns (rc: int, next: Elt?)
      requires Valid() && k < |list| && list[k] == e
      modifies this`sectors, list`dirty
      ensures Valid() && (rc == 0 || rc == -1)
      ensures rc == 0 && old(FirstClean(list, k)) ==> FirstClean(list, k + 1)
      ensures next == if k + 1 < |list| then list[k + 1] else null
    {
      assert Linked(list, k);
      next := e.next_c;
      assert list[k] in list;
      forall i | 0 <= i < k ensures list[i] != e {
        assert Pair(i, k);
      }
      rc := 0;
      if e.dirty {
        rc := SyncListed(k, e);
      }
    }

    /** check_if_cache_is_full */
    method MakeRoom()
      requires Valid()
      modifies this`sectors, this`global_cache_buf, this`nb_elements_cache, this`list, list`next_c, list`before_c, list`dirty
      ensures Valid() && Trimmed(old(list), list)
    {
      if nb_elements_cache == MAX_CACHE_SIZE {
        var none := FreeCacheList();
      }
    }

    /** The test that fetch_block makes of a block number. */
    predicate InRange(b: U32) {
      Passes(b, partition_size)
    }

    /** A block that passes the test, but is not in the partition: no cache with such a block is valid. */
    predicate Stray(b: U32) {
      InRange(b) && b > partition_size / RATIO
    }

    /**
     fetch_block, of a block that is not in the cache; its element goes to the front. The cache outgrows its
     limit when it is full and nothing can be dropped, and from then on nothing is.
     */
    method Fetch(b: U32) returns (e: Elt?)
      requires Valid() && !Caches(list, b)
      modifies this`sectors, this`global_cache_buf, this`nb_elements_cache, this`list, list`next_c, list`before_c, list`dirty
      ensures Valid() <==> !Stray(b)
      ensures e != null <==> InRange(b)
      ensures e != null ==> fresh(e) && list != [] && list[0] == e && e.blockNumber == b && |e.data| == BLOCK_SIZE
      ensures SectorSized(sectors) && |sectors| <= WORD32
      ensures Trimmed(old(list), if e == null then list else list[1..])
      ensures e != null ==> |list| == SizeAfter(|old(list)|, |old(list)| + 1 - |list|)
    {
      MakeRoom();
      OldOnes(old(list), list);
      assert !Caches(list, b);
      e := null;
      if b * BLOCK_SIZE % WORD32 / SECTOR <= partition_size {
        ghost var l := list;
        e := Load(b);
        assert list[1..] == l;
      }
    }

    /** The rest of fetch_block, for a block that has passed the test. */
    method Load(b: U32) returns (e: Elt)
      requires Valid() && !Caches(list, b)
      modifies this`global_cache_buf, this`nb_elements_cache, this`list, list`before_c
      ensures fresh(e) && e.blockNumber == b && |e.data| == BLOCK_SIZE && list == [e] + old(list)
      ensures Valid() <==> b <= partition_size / RATIO
    {
      var data := ReadBlockSectors(b);
      e := new Elt(b, data);
      PushFront(e);
    }

    /** The new element goes to the front of the list. */
    method PushFront(e: Elt)
      requires Valid() && e !in list && !Caches(list, e.blockNumber) && e.next_c == null && e.before_c == null
      requires e.blockNumber < |view| ==> e.data == OnDisk(sectors, start, e.blockNumber)
      modifies this`global_cache_buf, this`nb_elements_cache, this`list, e`next_c, list`before_c
      ensures list == [e] + old(list) && (Valid() <==> e.blockNumber < |view|)
    {
      ghost var l := list;
      Prepend(l, e);
      list := [e] + l;
      nb_elements_cache := nb_elements_cache + 1;
      forall i | 0 <= i < |l| ensures Shows(l[i], sectors, start, view) {
        assert old(Shows(l[i], sectors, start, view));
      }
      if e.blockNumber < |view| {
        CachedFromDisk(l, e, sectors, start, view);
      } else {
        assert !Shows(list[0], sectors, start, view);
      }
    }

    method Prepend(ghost l: seq<Elt>, e: Elt)
      requires Chain(l) && e !in l && !Caches(l, e.blockNumber) && e.next_c == null && e.before_c == null
      requires global_cache_buf == if l == [] then null else l[0]
      modifies this`global_cache_buf, e`next_c, l`before_c
      ensures Chain([e] + l) && global_cache_buf == e
    {
      if global_cache_buf == null {
        global_cache_buf := e;
      } else {
        e.next_c := global_cache_buf;
        assert l[0] in l;
        global_cache_buf.before_c := e;
        global_cache_buf := e;
      }
      ghost var l' := [e] + l;
      forall i: nat | i < |l'| ensures Linked(l', i) {
        assert i > 0 ==> old(Linked(l, i - 1));
        assert i > 1 ==> Pair(0, i - 1);
      }
      forall i, j | 0 <= i < j < |l'| ensures l'[i] != l'[j] && l'[i].blockNumber != l'[j].blockNumber {
        assert l'[j] == l[j - 1] && (i > 0 ==> l'[i] == l[i - 1]);
        assert Pair(i - 1, j - 1);
      }
    }

    /** The list has a block that users have no view of. */
    lemma NotValid(b: nat)
      requires Caches(list, b) && b >= |view|
      ensures !Valid()
    {
      var i :| 0 <= i < |list| && list[i].blockNumber == b;
      if start + RATIO * |view| <= |sectors| {
        assert !Shows(list[i], sectors, start, view);
      }
    }

    /** The cached element of block b, fetched if need be. */
    method Obtain(b: U32) returns (e: Elt?, ghost k: nat)
      requires Valid()
      modifies this`sectors, this`global_cache_buf, this`nb_elements_cache, this`list, list`next_c, list`before_c, list`dirty
      ensures Valid() <==> !Stray(b)
      ensures e != null <==> InRange(b)
      ensures e != null ==> (e in old(list) || fresh(e)) && k < |list| && list[k] == e && e.blockNumber == b && |e.data| == BLOCK_SIZE
      ensures e != null && !Stray(b) ==> b < |view| && e.data == view[b]
      ensures SectorSized(sectors) && |sectors| <= WORD32
      ensures forall x :: x in list ==> x in old(list) || fresh(x)
      ensures forall x :: x in old(list) && x.blockNumber == b ==> x == e
    {
      PassesIff(b, partition_size);
      e, k := LookUp(b);
      if e != null {
        forall i | 0 <= i < |list| && list[i].blockNumber == b ensures list[i] == e {
          assert Pair(i, k) && Pair(k, i);
        }
      }
      if e == null {
        e := Fetch(b);
        k := 0;
        if e != null {
          assert list == [e] + list[1..];
        }
      } else {
        assert list[k] in list && Shows(e, sectors, start, view);
      }
      if e != null && !Stray(b) {
        assert Shows(e, sectors, start, view);
      }
    }

    /** read_block_c: the contents of block b, and nothing changes for anybody. */
    method ReadBlock(b: U32, lock: bool) returns (ok: bool, data: seq<nat>)
      requires Valid()
      modifies this, list
      ensures view == old(view) && (Valid() <==> !Stray(b))
      ensures ok <==> InRange(b)
      ensures ok && !Stray(b) ==> b < |view| && data == view[b]
      ensures forall x :: x in old(list) ==>
        x.usage == (if ok && lock && x.blockNumber == b then (old(x.usage) + 1) % WORD32 else old(x.usage))
    {
      var e;
      ghost var k;
      e, k := Obtain(b);
      if e == null {
        return false, [];
      }
      if lock {
        Lock(e);
      }
      if Stray(b) {
        NotValid(b);
      }
      return true, e.data;
    }

    /** A user locks the element ... */
    method Lock(e: Elt)
      modifies e`usage, this`locked_files
      ensures (old(Valid()) ==> Valid()) && e.usage == (old(e.usage) + 1) % WORD32
    {
      e.usage := (e.usage + 1) % WORD32;
      if e.usage == 1 {
        locked_files := locked_files + 1;
      }
    }

    /** ... or lets go of it. */
    method Unlock(e: Elt)
      modifies e`usage, this`locked_files
      ensures (old(Valid()) ==> Valid()) && e.usage == (old(e.usage) + WORD32 - 1) % WORD32
    {
      e.usage := (e.usage + WORD32 - 1) % WORD32;
      if e.usage == 0 {
        locked_files := locked_files - 1;
      }
    }

    /** The write itself: the bytes replace the beginning of the cached block, which becomes dirty. */
    method Overwrite(ghost k: nat, e: Elt, bytes: seq<nat>)
      requires k < |list| && list[k] == e && |bytes| <= BLOCK_SIZE == |e.data|
      modifies e`data, e`dirty, this`view
      ensures e.dirty && |e.data| == BLOCK_SIZE
      ensures old(Valid()) ==> Valid() && e.blockNumber < |old(view)|
      ensures old(Valid()) ==> view == old(view)[e.blockNumber := bytes + old(view)[e.blockNumber][|bytes|..]]
      ensures e.blockNumber >= |old(view)| ==> view == old(view)
    {
      e.data := bytes + e.data[|bytes|..];
      e.dirty := true;
      if e.blockNumber < |view| {
        view := view[e.blockNumber := e.data];
      }
      if old(Valid()) {
        assert old(Shows(e, sectors, start, view));
        forall i | 0 <= i < |list| && i != k ensures list[i] != e && Shows(list[i], sectors, start, old(view)) {
          assert Pair(i, k) && Pair(k, i);
          assert old(Shows(list[i], sectors, start, view));
        }
        OverwrittenTransparent(list, k, sectors, start, old(view), view);
      }
    }

    /**
     write_block. It changes what is seen of block b and nothing else. Success means that the bytes have
     been written - except for a block out of range, for which it also returns 0.
     */
    method WriteBlock(b: U32, bytes: seq<nat>, through: bool, unlock: bool) returns (rc: int)
      requires Valid()
      modifies this, list
      ensures (rc == 0 || rc == -1) && (Valid() <==> |bytes| > BLOCK_SIZE || !Stray(b))
      ensures |bytes| > BLOCK_SIZE || !InRange(b) || Stray(b) ==> view == old(view)
      ensures |bytes| > BLOCK_SIZE ==> rc == -1
      ensures |bytes| <= BLOCK_SIZE && !InRange(b) ==> rc == 0
      ensures |bytes| <= BLOCK_SIZE && InRange(b) && !Stray(b) ==>
        b < |old(view)| && view == old(view)[b := bytes + old(view)[b][|bytes|..]]
      ensures |bytes| <= BLOCK_SIZE && InRange(b) && !Stray(b) && through && rc == 0 ==> OnDisk(sectors, start, b) == view[b]
      ensures !through && |bytes| <= BLOCK_SIZE ==> rc == 0
      ensures forall x :: x in old(list) ==>
        x.usage == (if |bytes| <= BLOCK_SIZE && unlock && x.blockNumber == b then (old(x.usage) + WORD32 - 1) % WORD32 else old(x.usage))
    {
      if |bytes| > BLOCK_SIZE {
        return -1;
      }
      var e;
      ghost var k;
      e, k := Obtain(b);
      if e == null {
        return 0;
      }
      Overwrite(k, e, bytes);
      if unlock {
        Unlock(e);
      }
      rc := 0;
      if through {
        rc := WriteThrough(k, e);
      }
      if Stray(b) {
        NotValid(b);
      }
    }

    /** unlock_cache */
    method UnlockCache(b: U32) returns (rc: int)
      requires Valid()
      modifies this`locked_files, list`usage
      ensures Valid() && rc == if Caches(list, b) then 0 else -1
      ensures forall x :: x in list ==>
        x.usage == (if x.blockNumber == b && old(x.usage) > 0 then (old(x.usage) - 1) % WORD32 else old(x.usage))
    {
      var e;
      ghost var k;
      e, k := LookUp(b);
      if e == null {
        return -1;
      }
      assert list[k] in list;
      forall i | 0 <= i < |list| && list[i].blockNumber == b ensures list[i] == e {
        assert Pair(i, k) && Pair(k, i);
      }
      if e.usage > 0 {
        Unlock(e);
      }
      rc := 0;
    }
  }

  lemma OverwrittenTransparent(list: seq<Elt>, k: nat, sectors: seq<seq<nat>>, start: nat, view: seq<seq<nat>>, view': seq<seq<nat>>)
    requires Chain(list) && k < |list| && start + RATIO * |view| <= |sectors|
    requires forall i :: 0 <= i < |list| && i != k ==> Shows(list[i], sectors, start, view)
    requires forall b {:trigger view[b]} :: 0 <= b < |view| && !Caches(list, b) ==> view[b] == OnDisk(sectors, start, b)
    requires list[k].blockNumber < |view| && list[k].dirty && |list[k].data| == BLOCK_SIZE
    requires view' == view[list[k].blockNumber := list[k].data]
    ensures Transparent(list, sectors, start, view')
  {
    forall i | 0 <= i < |list| ensures Shows(list[i], sectors, start, view') {
      assert i != k ==> Shows(list[i], sectors, start, view);
      assert Pair(i, k) && Pair(k, i);
    }
  }

  /** Sector number i of block b, cut to 32 bits. */
  function SectorNumber(start: U32, b: U32, i: nat): (s: U32) {
    (start + RATIO * b + i) % 0x1_0000_0000
  }

  /** disk_block_number * block_size / BLOCK_SIZE > get_partition_size() fails; the product is cut to 32 bits. */
  predicate Passes(b: U32, size: U32) {
    b * BLOCK_SIZE % WORD32 / SECTOR <= size
  }

  /** The test compares the block number modulo 2^21. */
  lemma PassesIff(b: U32, size: U32)
    ensures Passes(b, size) <==> b % 0x20_0000 <= size / RATIO
    ensures b <= size / RATIO ==> Passes(b, size)
  {
    CutProduct(b, b / 0x20_0000, b % 0x20_0000);
    InSectors(b % 0x20_0000, size);
  }

  lemma CutProduct(b: nat, q: nat, r: nat)
    requires b == 0x20_0000 * q + r && r < 0x20_0000
    ensures b * 2048 % 0x1_0000_0000 == 2048 * r
  {
    assert b * 2048 == 0x1_0000_0000 * q + 2048 * r;
  }

  lemma InSectors(r: nat, size: nat)
    ensures 2048 * r / 512 <= size <==> r <= size / 4
  {
    assert 2048 * r / 512 == 4 * r;
  }

  /** On a partition of 4096 sectors the test stops block 1025, and lets block 2^21 pass. */
  lemma StrayExample()
    ensures !Passes(1025, 4096) && Passes(0x20_0000, 4096)
  {
    PassesIff(1025, 4096);
    PassesIff(0x20_0000, 4096);
  }

  /** The size of the cache after a fetch for which free_cache_list, if it was called, has dropped some blocks. */
  function SizeAfter(n: nat, dropped: nat): nat {
    if n == MAX_CACHE_SIZE && dropped <= n then n - dropped + 1 else n + 1
  }

  /** ... and after a run of fetches, from the empty cache. */
  function Size(drops: seq<nat>): nat {
    if drops == [] then 0 else SizeAfter(Size(drops[..|drops| - 1]), drops[|drops| - 1])
  }

  /** The cache stays within its limit if and only if no fetch finds it full without being able to drop a block. */
  lemma SizeBoundedIff(drops: seq<nat>)
    ensures (forall j {:trigger drops[..j]} :: 0 <= j <= |drops| ==> Size(drops[..j]) <= MAX_CACHE_SIZE)
       <==> (forall i {:trigger drops[i]} :: 0 <= i < |drops| && Size(drops[..i]) == MAX_CACHE_SIZE ==> 0 < drops[i] <= MAX_CACHE_SIZE)
  {
    if i: nat :| i < |drops| && Size(drops[..i]) == MAX_CACHE_SIZE && !(0 < drops[i] <= MAX_CACHE_SIZE) {
      assert drops[..i + 1][..i] == drops[..i];
      assert Size(drops[..i + 1]) > MAX_CACHE_SIZE;
    } else {
      forall j | 0 <= j <= |drops| ensures Size(drops[..j]) <= MAX_CACHE_SIZE {
        SizeBounded(drops, j);
      }
    }
  }

  lemma {:induction false} SizeBounded(drops: seq<nat>, j: nat)
    requires j <= |drops|
    requires forall i: nat {:trigger drops[i]} :: i < |drops| && Size(drops[..i]) == MAX_CACHE_SIZE ==> 0 < drops[i] <= MAX_CACHE_SIZE
    ensures Size(drops[..j]) <= MAX_CACHE_SIZE
  {
    if j > 0 {
      SizeBounded(drops, j - 1);
      assert drops[..j][..j - 1] == drops[..j - 1];
      assert drops[..j][j - 1] == drops[j - 1];
    }
  }

  /** Once the limit is exceeded nothing is dropped any more. */
  lemma SizeGrowsOn(drops: seq<nat>, dropped: nat)
    requires Size(drops) > MAX_CACHE_SIZE
    ensures Size(drops + [dropped]) == Size(drops) + 1
  {
    assert (drops + [dropped])[..|drops|] == drops;
  }

  /** l is l0 or shorter. */
  ghost predicate Fewer(l0: seq<Elt>, l: seq<Elt>) {
    |l| <= |l0| && (|l| == |l0| ==> l == l0)
  }

  /** There is an unlocked block that differs from the disk. */
  ghost predicate SomeDirty(l: seq<Elt>)
    reads l`usage, l`dirty
  {
    exists i :: 0 <= i < |l| && l[i].usage == 0 && l[i].dirty
  }

  /** What check_if_cache_is_full leaves of l0: nothing is dropped unless l0 is full, and something is if it can be. */
  ghost predicate Trimmed(l0: seq<Elt>, l: seq<Elt>)
    reads l0`usage, l`usage, l`dirty
  {
    && LockedStay(l0, l) && Fewer(l0, l) && (|l0| != MAX_CACHE_SIZE ==> l == l0)
    && (|l0| == MAX_CACHE_SIZE && l == l0 ==> FirstLocked(l, |l|) || SomeDirty(l))
  }

  lemma AllOnDisk(list: seq<Elt>, sectors: seq<seq<nat>>, start: nat, view: seq<seq<nat>>)
    requires Transparent(list, sectors, start, view) && forall i :: 0 <= i < |list| ==> !list[i].dirty
    ensures forall b :: 0 <= b < |view| ==> OnDisk(sectors, start, b) == view[b]
  {
    forall b | 0 <= b < |view| ensures OnDisk(sectors, start, b) == view[b] {
      if Caches(list, b) {
        var i :| 0 <= i < |list| && list[i].blockNumber == b;
        assert Shows(list[i], sectors, start, view);
      }
    }
  }

  /** Caching what the disk holds shows nobody anything. */
  lemma CachedFromDisk(l: seq<Elt>, e: Elt, sectors: seq<seq<nat>>, start: nat, view: seq<seq<nat>>)
    requires Transparent(l, sectors, start, view) && SectorSized(sectors) && !Caches(l, e.blockNumber)
    requires e.blockNumber < |view| && e.data == OnDisk(sectors, start, e.blockNumber)
    ensures Transparent([e] + l, sectors, start, view)
  {
    assert view[e.blockNumber] == e.data;
    forall b | 0 <= b < |view| && !Caches([e] + l, b) ensures view[b] == OnDisk(sectors, start, b) {
      forall i | 0 <= i < |l| ensures l[i].blockNumber != b {
        assert ([e] + l)[i + 1] == l[i];
      }
      assert !Caches(l, b);
    }
  }

  /** Once it agrees with the disk a block need not be cached. */
  lemma UncachedFromDisk(l: seq<Elt>, l': seq<Elt>, k: nat, sectors: seq<seq<nat>>, start: nat, view: seq<seq<nat>>)
    requires k < |l| && l' == l[..k] + l[k + 1..] && Transparent(l, sectors, start, view) && !l[k].dirty
    ensures Transparent(l', sectors, start, view)
  {
    forall i | 0 <= i < |l'| ensures Shows(l'[i], sectors, start, view) {
      assert l'[i] == l[if i < k then i else i + 1];
    }
    forall b | 0 <= b < |view| && !Caches(l', b) ensures view[b] == OnDisk(sectors, start, b) {
      assert Shows(l[k], sectors, start, view);
      if b != l[k].blockNumber {
        forall i | 0 <= i < |l| ensures l[i].blockNumber != b {
          assert i != k ==> l'[if i < k then i else i - 1] == l[i];
        }
        assert !Caches(l, b);
      }
    }
  }

  /** l is a part of l0, with all its locked elements. */
  ghost predicate LockedStay(l0: seq<Elt>, l: seq<Elt>)
    reads l0`usage
  {
    && (forall x :: x in l ==> x in l0)
    && forall x :: x in l0 && x.usage > 0 ==> x in l
  }

  lemma OldOnes(l0: seq<Elt>, l: seq<Elt>)
    requires LockedStay(l0, l)
    ensures forall i :: 0 <= i < |l| ==> l[i] in l0
    ensures forall x :: x in l ==> x in l0
  {
  }

  /** The first k elements are locked. */
  ghost predicate FirstLocked(l: seq<Elt>, k: nat)
    requires k <= |l|
    reads l`usage
  {
    forall i :: 0 <= i < k ==> l[i].usage > 0
  }

  /** The first k elements agree with the disk. */
  ghost predicate FirstClean(l: seq<Elt>, k: nat)
    requires k <= |l|
    reads l
  {
    forall i :: 0 <= i < k ==> !l[i].dirty
  }

  lemma UnlockedLeaves(l0: seq<Elt>, l: seq<Elt>, k: nat)
    requires LockedStay(l0, l) && k < |l| && l[k].usage == 0 && FirstLocked(l, k)
    ensures LockedStay(l0, l[..k] + l[k + 1..]) && FirstLocked(l[..k] + l[k + 1..], k)
  {
    var l' := l[..k] + l[k + 1..];
    forall x | x in l0 && x.usage > 0 ensures x in l' {
      var i :| 0 <= i < |l| && l[i] == x;
      assert l'[if i < k then i else i - 1] == x;
    }
  }

  /** Only the sectors of block b may differ. */
  ghost predicate SameElsewhere(sectors: seq<seq<nat>>, sectors': seq<seq<nat>>, start: nat, b: nat) {
    && |sectors'| == |sectors|
    && forall s :: 0 <= s < |sectors| && !(start + RATIO * b <= s < start + RATIO * b + RATIO) ==> sectors'[s] == sectors[s]
  }

  lemma FourSectors(sectors: seq<seq<nat>>, start: nat, b: nat, data: seq<nat>)
    requires start + RATIO * b + RATIO <= |sectors| && |data| == BLOCK_SIZE
    requires forall i: nat {:trigger Piece(data, i)} :: 0 <= i < RATIO ==> sectors[start + RATIO * b + i] == Piece(data, i)
    ensures OnDisk(sectors, start, b) == data
  {
    var s := start + RATIO * b;
    assert sectors[s] == Piece(data, 0) && sectors[s + 1] == Piece(data, 1);
    assert sectors[s + 2] == Piece(data, 2) && sectors[s + 3] == Piece(data, 3);
  }

  lemma OtherBlocks(sectors: seq<seq<nat>>, sectors': seq<seq<nat>>, start: nat, b: nat, c: nat)
    requires SameElsewhere(sectors, sectors', start, b) && c != b && start + RATIO * c + RATIO <= |sectors|
    ensures OnDisk(sectors', start, c) == OnDisk(sectors, start, c)
  {
  }

  /** Transparency, but for the claim that element k agrees with the disk if it is not dirty. */
  ghost predicate TransparentBut(list: seq<Elt>, sectors: seq<seq<nat>>, start: nat, view: seq<seq<nat>>, k: nat)
    requires k < |list|
    reads list
  {
    && start + RATIO * |view| <= |sectors|
    && (forall i :: 0 <= i < |list| && i != k ==> Shows(list[i], sectors, start, view))
    && list[k].blockNumber < |view| && list[k].data == view[list[k].blockNumber] && |list[k].data| == BLOCK_SIZE
    && (forall b {:trigger view[b]} :: 0 <= b < |view| && !Caches(list, b) ==> view[b] == OnDisk(sectors, start, b))
  }

  /** Writing a cached block to the disk, completely or in part, shows nobody anything. */
  lemma SyncTransparent(list: seq<Elt>, sectors: seq<seq<nat>>, sectors': seq<seq<nat>>, start: nat, view: seq<seq<nat>>, k: nat)
    requires k < |list| && Chain(list) && TransparentBut(list, sectors, start, view, k)
    requires SameElsewhere(sectors, sectors', start, list[k].blockNumber)
    requires list[k].dirty || OnDisk(sectors', start, list[k].blockNumber) == list[k].data
    ensures Transparent(list, sectors', start, view)
  {
    forall i | 0 <= i < |list| ensures Shows(list[i], sectors', start, view) {
      if i != k {
        assert Shows(list[i], sectors, start, view);
        assert Pair(i, k) && Pair(k, i);
        OtherBlocks(sectors, sectors', start, list[k].blockNumber, list[i].blockNumber);
      }
    }
    forall b | 0 <= b < |view| && !Caches(list, b) ensures view[b] == OnDisk(sectors', start, b) {
      OtherBlocks(sectors, sectors', start, list[k].blockNumber, b);
    }
  }
}
