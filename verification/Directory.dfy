/**
 A directory's block as bytes (src/kernel/fs/inode.c:591-602, 622-924). The chain of rec_len fields
 always tiles the block, and the three operations do to the bytes what DirSpec does to the records.
 */
module Directory {
  import opened DirSpec

  const EXT2_FT_FREE: Byte := 8
  const DOT: seq<Byte> := [46]

  function U16(b: seq<Byte>, p: nat): (v: nat)
    requires p + 1 < |b|
    ensures v < 0x1_0000
  {
    (b[p] as nat) + 256 * (b[p + 1] as nat)
  }

  function U32(b: seq<Byte>, p: nat): (v: nat)
    requires p + 3 < |b|
    ensures v < 0x1_0000_0000
  {
    (b[p] as nat) + 256 * (b[p + 1] as nat) + 65536 * (b[p + 2] as nat) + 16777216 * (b[p + 3] as nat)
  }

  /** The bytes from p on are the header and the name of r. */
  ghost predicate RecAt(b: seq<Byte>, p: nat, r: Rec) {
    && p + SIZE_DIR_NO_NAME + |r.name| <= |b|
    && U32(b, p) == r.inode && U16(b, p + 4) == r.rec_len && b[p + 6] == |r.name| && b[p + 7] == r.kind
    && b[p + SIZE_DIR_NO_NAME..p + SIZE_DIR_NO_NAME + |r.name|] == r.name
  }

  /** Where record i starts. */
  function Start(recs: seq<Rec>, i: nat): nat
    requires i <= |recs|
  {
    Total(recs[..i])
  }

  ghost predicate Tiles(b: seq<Byte>, recs: seq<Rec>) {
    |b| == BLOCK && forall i: nat {:trigger recs[i]} :: i < |recs| ==> RecAt(b, Start(recs, i), recs[i])
  }

  lemma StartNext(recs: seq<Rec>, i: nat)
    requires i < |recs|
    ensures Start(recs, i + 1) == Start(recs, i) + recs[i].rec_len
  {
    assert recs[..i + 1][..i] == recs[..i];
  }

  lemma {:induction false} StartAscends(recs: seq<Rec>, i: nat, j: nat)
    requires i < j <= |recs|
    ensures Start(recs, i) + recs[i].rec_len <= Start(recs, j)
  {
    StartNext(recs, j - 1);
    if i < j - 1 {
      StartAscends(recs, i, j - 1);
    }
  }

  lemma {:induction false} StartAligned(recs: seq<Rec>, i: nat)
    requires i <= |recs| && forall k :: 0 <= k < |recs| ==> RecOk(recs[k])
    ensures Start(recs, i) % 4 == 0
  {
    if i > 0 {
      StartAligned(recs, i - 1);
      StartNext(recs, i - 1);
      assert RecOk(recs[i - 1]);
      Multiples(Start(recs, i - 1), recs[i - 1].rec_len);
    }
  }

  lemma StartEnd(recs: seq<Rec>)
    ensures Start(recs, |recs|) == Total(recs)
  {
    assert recs[..|recs|] == recs;
  }

  /** The loops over the records stop behind the last one. */
  lemma AtEnd(recs: seq<Rec>, i: nat)
    requires DirOk(recs) && i <= |recs|
    ensures Start(recs, i) < BLOCK <==> i < |recs|
  {
    StartEnd(recs);
    if i < |recs| {
      StartAscends(recs, i, |recs|);
      RecPositive(recs[i]);
    }
  }

  /** The walk has come to record i, and has not met the name before. */
  ghost predicate WalkAt(recs: seq<Rec>, name: seq<Byte>, pos: nat, previous: nat, i: nat) {
    && i <= |recs| && pos == Start(recs, i) && (pos < BLOCK <==> i < |recs|)
    && (i > 0 ==> previous == Start(recs, i - 1)) && Find(recs, name) >= i
  }

  /** The walk has ended: at the record with the name, or behind the last one. */
  ghost predicate Scanned(recs: seq<Rec>, name: seq<Byte>, found: bool, pos: nat, previous: nat, i: nat) {
    && i == Find(recs, name) && (found <==> i < |recs|)
    && pos == Start(recs, i) && (i > 0 ==> previous == Start(recs, i - 1))
  }

  lemma WalkEnd(recs: seq<Rec>, name: seq<Byte>, pos: nat, previous: nat, i: nat)
    requires WalkAt(recs, name, pos, previous, i) && pos >= BLOCK
    ensures Scanned(recs, name, false, pos, previous, i)
  {
  }

  lemma WalkRecord(b: seq<Byte>, recs: seq<Rec>, name: seq<Byte>, pos: nat, previous: nat, i: nat)
    requires DirOk(recs) && Tiles(b, recs) && WalkAt(recs, name, pos, previous, i) && pos < BLOCK
    ensures i < |recs| && RecAt(b, pos, recs[i])
    ensures recs[i].name == name ==> Find(recs, name) == i
    ensures recs[i].name != name ==> WalkAt(recs, name, pos + recs[i].rec_len, pos, i + 1)
  {
    FindStep(recs, name, i);
    StartNext(recs, i);
    AtEnd(recs, i + 1);
  }

  lemma FindStep(recs: seq<Rec>, name: seq<Byte>, i: nat)
    requires i < |recs| && Find(recs, name) >= i
    ensures recs[i].name == name <==> Find(recs, name) == i
  {
  }

  lemma RecPositive(r: Rec)
    requires RecOk(r)
    ensures r.rec_len > 0
  {
  }

  /** Only the bytes of the record matter to it. */
  lemma RecFrame(b: seq<Byte>, b': seq<Byte>, p: nat, r: Rec)
    requires RecAt(b, p, r) && |b'| == |b|
    requires forall k :: p <= k < p + SIZE_DIR_NO_NAME + |r.name| ==> b'[k] == b[k]
    ensures RecAt(b', p, r)
  {
    assert b'[p + SIZE_DIR_NO_NAME..p + SIZE_DIR_NO_NAME + |r.name|] == b[p + SIZE_DIR_NO_NAME..p + SIZE_DIR_NO_NAME + |r.name|];
  }

  lemma FitHolds(n: nat)
    ensures SIZE_DIR_NO_NAME + n <= Fit(n) && Fit(n) % 4 == 0 && Fit(n) < SIZE_DIR_NO_NAME + n + 4
  {
  }

  // ----- bytes and numbers -----

  function Byte0(v: nat): Byte { v % 256 }
  function Byte1(v: nat): Byte { v / 256 % 256 }
  function Byte2(v: nat): Byte { v / 65536 % 256 }
  function Byte3(v: nat): Byte { v / 16777216 % 256 }

  lemma BytesOf(v: nat)
    requires v < 0x1_0000_0000
    ensures (Byte0(v) as nat) + 256 * (Byte1(v) as nat) + 65536 * (Byte2(v) as nat) + 16777216 * (Byte3(v) as nat) == v
    ensures v < 0x1_0000 ==> (Byte0(v) as nat) + 256 * (Byte1(v) as nat) == v
  {
    var h := v / 65536;
    assert v == 65536 * h + v % 65536;
    LowBytes(v % 65536);
    LowBytes(h);
    Shifted(v);
  }

  lemma LowBytes(w: nat)
    requires w < 65536
    ensures w == w % 256 + 256 * (w / 256) && w / 256 < 256
  {
  }

  lemma Shifted(v: nat)
    requires v < 0x1_0000_0000
    ensures v / 256 % 256 == v % 65536 / 256 && v % 256 == v % 65536 % 256
    ensures v / 16777216 == v / 65536 / 256
  {
    var high, low := v / 65536, v % 65536;
    var mid, least := low / 256, low % 256;
    assert v == 256 * (256 * high + mid) + least;
    assert v / 256 == 256 * high + mid && v % 256 == least;
  }

  /** b' is b with the 16-bit number at p replaced. */
  ghost predicate Put16(b: seq<Byte>, b': seq<Byte>, p: nat, v: nat) {
    && |b'| == |b| && p + 1 < |b| && v < 0x1_0000
    && b'[p] == Byte0(v) && b'[p + 1] == Byte1(v)
    && forall k :: 0 <= k < |b| && k != p && k != p + 1 ==> b'[k] == b[k]
  }

  lemma Put16Reads(b: seq<Byte>, b': seq<Byte>, p: nat, v: nat)
    requires Put16(b, b', p, v)
    ensures U16(b', p) == v
  {
    BytesOf(v);
  }

  /** A record whose length field alone is written. */
  lemma Resized(b: seq<Byte>, b': seq<Byte>, p: nat, r: Rec, v: nat)
    requires RecAt(b, p, r) && Put16(b, b', p + 4, v)
    ensures RecAt(b', p, r.(rec_len := v))
  {
    Put16Reads(b, b', p + 4, v);
    var from, to := p + SIZE_DIR_NO_NAME, p + SIZE_DIR_NO_NAME + |r.name|;
    assert b'[from..to] == b[from..to];
  }

  /** Record j ends where a later one starts, or before. */
  lemma Before(b: seq<Byte>, recs: seq<Rec>, j: nat, k: nat)
    requires j < k <= |recs| && RecOk(recs[j])
    ensures Start(recs, j) + SIZE_DIR_NO_NAME + |recs[j].name| <= Start(recs, k)
  {
    StartAscends(recs, j, k);
    FitHolds(|recs[j].name|);
  }

  lemma StartMerged(recs: seq<Rec>, i: nat, j: nat)
    requires 0 < i < |recs| && j < |recs|
    ensures Start(Merge(recs, i), j) == if j < i then Start(recs, j) else Start(recs, j + 1)
  {
    var u := Merge(recs, i);
    if j < i {
      assert u[..j] == recs[..j];
    } else {
      var m := Grown(recs, i);
      assert u[..j] == Replace(recs[..j + 1], i - 1, 2, [m]);
      MergeTotals(recs[..j + 1], i);
      assert u[..j] == Merge(recs[..j + 1], i);
    }
  }

  lemma TileAt(b: seq<Byte>, recs: seq<Rec>, j: nat)
    requires DirOk(recs) && Tiles(b, recs) && j < |recs|
    ensures RecOk(recs[j]) && RecAt(b, Start(recs, j), recs[j])
  {
  }

  /** Writing the length of record k leaves the other records alone. */
  lemma OthersKept(b: seq<Byte>, b': seq<Byte>, recs: seq<Rec>, k: nat, v: nat, j: nat, p: nat, r: Rec)
    requires k < |recs| && j < |recs| && j != k && RecOk(recs[k]) && RecOk(recs[j]) && Put16(b, b', Start(recs, k) + 4, v)
    requires p == Start(recs, j) && r == recs[j] && RecAt(b, p, r)
    ensures RecAt(b', p, r)
  {
    if j < k {
      Before(b, recs, j, k);
    } else {
      Before(b, recs, k, j);
    }
    RecFrame(b, b', p, r);
  }

  lemma SumOfLengths(b: seq<Byte>, recs: seq<Rec>, i: nat)
    requires DirOk(recs) && Tiles(b, recs) && 0 < i < |recs|
    ensures Start(recs, i) + 5 < |b| && Start(recs, i - 1) + 5 < |b|
    ensures U16(b, Start(recs, i - 1) + 4) + U16(b, Start(recs, i) + 4) == Grown(recs, i).rec_len < 0x1_0000
  {
    assert RecAt(b, Start(recs, i), recs[i]) && RecAt(b, Start(recs, i - 1), recs[i - 1]);
    MergeTotals(recs, i);
  }

  lemma MergedIs(recs: seq<Rec>, i: nat, j: nat)
    requires 0 < i < |recs| && j < |Merge(recs, i)|
    ensures Merge(recs, i)[j] == if j == i - 1 then Grown(recs, i) else recs[if j < i then j else j + 1]
  {
  }

  lemma MergedAt(b: seq<Byte>, b': seq<Byte>, recs: seq<Rec>, i: nat, j: nat, p: nat, r: Rec)
    requires 0 < i < |recs| && j < |recs| - 1
    requires var o := if j < i then j else j + 1; RecOk(recs[i - 1]) && RecOk(recs[o]) && p == Start(recs, o) && RecAt(b, p, recs[o])
    requires Put16(b, b', Start(recs, i - 1) + 4, Grown(recs, i).rec_len)
    requires r == if j == i - 1 then Grown(recs, i) else recs[if j < i then j else j + 1]
    ensures RecAt(b', p, r)
  {
    if j == i - 1 {
      Resized(b, b', p, recs[j], Grown(recs, i).rec_len);
    } else {
      OthersKept(b, b', recs, i - 1, Grown(recs, i).rec_len, if j < i then j else j + 1, p, r);
    }
  }

  lemma MergeTiles(b: seq<Byte>, b': seq<Byte>, recs: seq<Rec>, i: nat)
    requires DirOk(recs) && Tiles(b, recs) && 0 < i < |recs|
    requires Put16(b, b', Start(recs, i - 1) + 4, Grown(recs, i).rec_len)
    ensures Tiles(b', Merge(recs, i))
  {
    var u := Merge(recs, i);
    forall j: nat | j < |u| ensures RecAt(b', Start(u, j), u[j]) {
      StartMerged(recs, i, j);
      MergedIs(recs, i, j);
      TileAt(b, recs, if j < i then j else j + 1);
      MergedAt(b, b', recs, i, j, Start(u, j), u[j]);
    }
  }

  // ----- splitting a record, in bytes -----

  /** b' is b after the split of record i: its length field and the new record are written, and nothing else. */
  ghost predicate Carved(b: seq<Byte>, b': seq<Byte>, p: nat, fit: nat, r: Rec) {
    && |b'| == |b| && p + 6 <= p + fit && p + fit + SIZE_DIR_NO_NAME + |r.name| <= |b|
    && b'[p + 4] == Byte0(fit) && b'[p + 5] == Byte1(fit) && fit < 0x1_0000
    && RecAt(b', p + fit, r)
    && forall k :: 0 <= k < |b| && k != p + 4 && k != p + 5 && !(p + fit <= k < p + fit + SIZE_DIR_NO_NAME + |r.name|) ==> b'[k] == b[k]
  }

  lemma StartSplit(recs: seq<Rec>, i: nat, inode: nat, name: seq<Byte>, kind: Byte, j: nat)
    requires i < |recs| && RecOk(recs[i]) && 0 < |name| <= 255 && 0 < inode < 0x1_0000_0000 && j <= |recs| + 1
    requires Fit(|name|) + Fit(|recs[i].name|) < recs[i].rec_len
    ensures Start(Split(recs, i, inode, name, kind), j) ==
            if j <= i then Start(recs, j) else if j == i + 1 then Start(recs, i) + Fit(|recs[i].name|) else Start(recs, j - 1)
  {
    var u := Split(recs, i, inode, name, kind);
    if j <= i {
      assert u[..j] == recs[..j];
    } else if j == i + 1 {
      StartNext(u, i);
      assert u[..i] == recs[..i];
    } else {
      assert u[..j] == Split(recs[..j - 1], i, inode, name, kind);
      SplitTotals(recs[..j - 1], i, inode, name, kind);
    }
  }

  lemma SplitIs(recs: seq<Rec>, i: nat, inode: nat, name: seq<Byte>, kind: Byte, j: nat)
    requires i < |recs| && Fit(|recs[i].name|) <= recs[i].rec_len && j < |recs| + 1
    ensures |Split(recs, i, inode, name, kind)| == |recs| + 1
    ensures Split(recs, i, inode, name, kind)[j] ==
            if j == i || j == i + 1 then Halves(recs[i], inode, name, kind)[j - i] else recs[if j < i then j else j - 1]
  {
  }

  /** A record that is not carved up is where it was. */
  lemma CarvedOther(b: seq<Byte>, b': seq<Byte>, recs: seq<Rec>, i: nat, new1: Rec, j: nat, p: nat, r: Rec)
    requires i < |recs| && j < |recs| && j != i && RecOk(recs[i]) && RecOk(recs[j])
    requires p == Start(recs, j) && r == recs[j] && RecAt(b, p, r)
    requires Carved(b, b', Start(recs, i), Fit(|recs[i].name|), new1)
    requires Fit(|recs[i].name|) + SIZE_DIR_NO_NAME + |new1.name| <= recs[i].rec_len
    ensures RecAt(b', p, r)
  {
    FitHolds(|recs[i].name|);
    if j < i {
      Before(b, recs, j, i);
    } else {
      StartAscends(recs, i, j);
    }
    CarvedApart(b, b', Start(recs, i), Fit(|recs[i].name|), new1, p, r);
  }

  lemma CarvedNew(b: seq<Byte>, b': seq<Byte>, q: nat, fit: nat, new1: Rec, p: nat)
    requires Carved(b, b', q, fit, new1) && p == q + fit
    ensures RecAt(b', p, new1)
  {
  }

  lemma CarvedApart(b: seq<Byte>, b': seq<Byte>, p: nat, fit: nat, new1: Rec, q: nat, r: Rec)
    requires Carved(b, b', p, fit, new1) && RecAt(b, q, r)
    requires q + SIZE_DIR_NO_NAME + |r.name| <= p || q >= p + fit + SIZE_DIR_NO_NAME + |new1.name|
    ensures RecAt(b', q, r)
  {
    RecFrame(b, b', q, r);
  }

  lemma CarvedHead(b: seq<Byte>, b': seq<Byte>, p: nat, r: Rec, new1: Rec)
    requires RecAt(b, p, r) && Carved(b, b', p, Fit(|r.name|), new1)
    ensures RecAt(b', p, r.(rec_len := Fit(|r.name|)))
  {
    FitHolds(|r.name|);
    BytesOf(Fit(|r.name|));
    var from, to := p + SIZE_DIR_NO_NAME, p + SIZE_DIR_NO_NAME + |r.name|;
    assert b'[from..to] == b[from..to];
  }

  lemma SplitTiles(b: seq<Byte>, b': seq<Byte>, recs: seq<Rec>, i: nat, inode: nat, name: seq<Byte>, kind: Byte)
    requires DirOk(recs) && Tiles(b, recs) && i < |recs| && 0 < |name| <= 255 && 0 < inode < 0x1_0000_0000
    requires Fit(|name|) + Fit(|recs[i].name|) < recs[i].rec_len
    requires Carved(b, b', Start(recs, i), Fit(|recs[i].name|), Halves(recs[i], inode, name, kind)[1])
    ensures Tiles(b', Split(recs, i, inode, name, kind))
  {
    var u, h := Split(recs, i, inode, name, kind), Halves(recs[i], inode, name, kind);
    FitHolds(|name|);
    assert RecOk(recs[i]);
    forall j: nat | j < |u| ensures RecAt(b', Start(u, j), u[j]) {
      SplitIs(recs, i, inode, name, kind, j);
      StartSplit(recs, i, inode, name, kind, j);
      TileAt(b, recs, if j <= i then j else j - 1);
      SplitAt(b, b', recs, i, h, j, Start(u, j), u[j]);
    }
  }

  lemma SplitAt(b: seq<Byte>, b': seq<Byte>, recs: seq<Rec>, i: nat, h: seq<Rec>, j: nat, p: nat, r: Rec)
    requires i < |recs| && j <= |recs| && |h| == 2 && h[0] == recs[i].(rec_len := Fit(|recs[i].name|))
    requires var o := if j <= i then j else j - 1; RecOk(recs[i]) && RecOk(recs[o]) && RecAt(b, Start(recs, o), recs[o])
    requires Carved(b, b', Start(recs, i), Fit(|recs[i].name|), h[1])
    requires Fit(|recs[i].name|) + SIZE_DIR_NO_NAME + |h[1].name| <= recs[i].rec_len
    requires p == if j <= i then Start(recs, j) else if j == i + 1 then Start(recs, i) + Fit(|recs[i].name|) else Start(recs, j - 1)
    requires r == if j == i || j == i + 1 then h[j - i] else recs[if j < i then j else j - 1]
    ensures RecAt(b', p, r)
  {
    if j == i {
      CarvedHead(b, b', p, recs[i], h[1]);
    } else if j == i + 1 {
      CarvedNew(b, b', Start(recs, i), Fit(|recs[i].name|), r, p);
    } else {
      CarvedOther(b, b', recs, i, h[1], if j < i then j else j - 1, p, r);
    }
  }

  /** No record is marked as free. */
  ghost predicate NoneFree(recs: seq<Rec>) {
    forall i :: 0 <= i < |recs| ==> recs[i].kind != EXT2_FT_FREE
  }

  lemma MergeNoneFree(recs: seq<Rec>, i: nat)
    requires NoneFree(recs) && 0 < i < |recs|
    ensures NoneFree(Merge(recs, i)) && Merge(recs, i)[0].name == recs[0].name
  {
    var u := Merge(recs, i);
    forall k | 0 <= k < |u| ensures u[k].kind != EXT2_FT_FREE {
      assert k != i - 1 ==> u[k] == recs[if k < i then k else k + 1];
    }
  }

  lemma SplitNoneFree(recs: seq<Rec>, i: nat, inode: nat, name: seq<Byte>, kind: Byte)
    requires NoneFree(recs) && i < |recs| && Fit(|recs[i].name|) <= recs[i].rec_len && kind != EXT2_FT_FREE
    ensures NoneFree(Split(recs, i, inode, name, kind)) && Split(recs, i, inode, name, kind)[0].name == recs[0].name
  {
    var u := Split(recs, i, inode, name, kind);
    forall k | 0 <= k < |u| ensures u[k].kind != EXT2_FT_FREE {
      SplitIs(recs, i, inode, name, kind, k);
    }
    SplitIs(recs, i, inode, name, kind, 0);
  }

  /** The first record is marked as free. */
  function Freed(recs: seq<Rec>): seq<Rec>
    requires recs != []
  {
    recs[0 := recs[0].(kind := EXT2_FT_FREE)]
  }

  /** The first record is free, nameless, and takes the whole block. */
  function Emptied(recs: seq<Rec>): seq<Rec>
    requires recs != []
  {
    [Rec(recs[0].inode, BLOCK, [], EXT2_FT_FREE)]
  }

  lemma {:induction false} FreedStart(recs: seq<Rec>, i: nat)
    requires recs != [] && i <= |recs|
    ensures Start(Freed(recs), i) == Start(recs, i)
  {
    if i > 0 {
      FreedStart(recs, i - 1);
      StartNext(recs, i - 1);
      StartNext(Freed(recs), i - 1);
    }
  }

  lemma FreedTiles(b: seq<Byte>, b': seq<Byte>, recs: seq<Rec>)
    requires DirOk(recs) && Tiles(b, recs) && b' == b[7 := EXT2_FT_FREE]
    ensures Tiles(b', Freed(recs))
  {
    var u := Freed(recs);
    forall i: nat | i < |u| ensures RecAt(b', Start(u, i), u[i]) {
      FreedStart(recs, i);
      assert RecAt(b, Start(recs, i), recs[i]);
      if i > 0 {
        StartAscends(recs, 0, i);
        assert RecOk(recs[0]);
        BehindKept(b, b', Start(recs, i), recs[i]);
      } else {
        assert recs[..0] == [];
        FreedHead(b, b', recs[0]);
      }
    }
  }

  lemma FreedHead(b: seq<Byte>, b': seq<Byte>, r: Rec)
    requires RecAt(b, 0, r) && b' == b[7 := EXT2_FT_FREE]
    ensures RecAt(b', 0, r.(kind := EXT2_FT_FREE))
  {
    assert b'[8..8 + |r.name|] == b[8..8 + |r.name|];
  }

  lemma EmptiedTiles(b: seq<Byte>, recs: seq<Rec>)
    requires recs != [] && |b| == BLOCK && U32(b, 0) == recs[0].inode && U16(b, 4) == BLOCK && b[6] == 0 && b[7] == EXT2_FT_FREE
    ensures Tiles(b, Emptied(recs))
  {
    assert Emptied(recs)[..0] == [] && b[8..8] == [];
  }

  /** A record behind the bytes that have changed. */
  lemma BehindKept(b: seq<Byte>, b': seq<Byte>, p: nat, r: Rec)
    requires RecAt(b, p, r) && |b'| == |b| && forall k :: p <= k < |b| ==> b'[k] == b[k]
    ensures RecAt(b', p, r)
  {
    assert b'[p + SIZE_DIR_NO_NAME..p + SIZE_DIR_NO_NAME + |r.name|] == b[p + SIZE_DIR_NO_NAME..p + SIZE_DIR_NO_NAME + |r.name|];
  }

  /** Where the search for room has come to. */
  ghost predicate RoomAt(recs: seq<Rec>, need: nat, pos: nat, i: nat) {
    i <= |recs| && pos == Start(recs, i) && (pos < BLOCK <==> i < |recs|) && FindRoom(recs, need) >= i
  }

  lemma RoomStep(b: seq<Byte>, recs: seq<Rec>, need: nat, pos: nat, i: nat)
    requires DirOk(recs) && Tiles(b, recs) && RoomAt(recs, need, pos, i) && pos < BLOCK
    ensures i < |recs| && RecAt(b, pos, recs[i]) && RecOk(recs[i])
    ensures need + Fit(|recs[i].name|) < recs[i].rec_len ==> FindRoom(recs, need) == i
    ensures need + Fit(|recs[i].name|) >= recs[i].rec_len ==> RoomAt(recs, need, pos + recs[i].rec_len, i + 1)
  {
    StartNext(recs, i);
    AtEnd(recs, i + 1);
  }

  lemma RoomFacts(b: seq<Byte>, recs: seq<Rec>, i: nat, n: nat)
    requires DirOk(recs) && Tiles(b, recs) && i < |recs| && Fit(n) + Fit(|recs[i].name|) < recs[i].rec_len
    ensures var p, fit := Start(recs, i), Fit(|recs[i].name|);
      && RecOk(recs[i]) && RecAt(b, p, recs[i]) && p + 6 <= p + fit && p + fit + SIZE_DIR_NO_NAME + n <= BLOCK && p % 4 == 0
  {
    assert RecOk(recs[i]) && RecAt(b, Start(recs, i), recs[i]);
    EndsInside(recs, i);
    StartAligned(recs, i);
    RoomNumbers(Start(recs, i), |recs[i].name|, n, recs[i].rec_len);
  }

  lemma EndsInside(recs: seq<Rec>, i: nat)
    requires DirOk(recs) && i < |recs|
    ensures Start(recs, i) + recs[i].rec_len <= BLOCK
  {
    StartAscends(recs, i, |recs|);
    StartEnd(recs);
  }

  lemma RoomNumbers(p: nat, len: nat, n: nat, rec_len: nat)
    requires Fit(n) + Fit(len) < rec_len && p + rec_len <= BLOCK
    ensures p + 6 <= p + Fit(len) && p + Fit(len) + SIZE_DIR_NO_NAME + n <= BLOCK
  {
    FitHolds(n);
    FitHolds(len);
  }

  lemma EntryAligned(p: nat, fit: nat, len: nat)
    requires p % 4 == 0 && fit == Fit(len)
    ensures (p + fit) % 4 == 0
  {
    FitHolds(len);
    Multiples(p, fit);
  }

  /**
   Removing a name right after it was added brings back the same records, and so the same map and the
   same i_size.
   */
  lemma RemoveUndoesAdd(recs: seq<Rec>, inode: nat, name: seq<Byte>, kind: Byte)
    requires DirOk(recs) && 0 < |name| <= 255 && 0 < inode < 0x1_0000_0000 && Find(recs, name) == |recs|
    requires FindRoom(recs, Fit(|name|)) < |recs|
    ensures var u := Split(recs, FindRoom(recs, Fit(|name|)), inode, name, kind);
      && 0 < Find(u, name) < |u| && Merge(u, Find(u, name)) == recs
      && Used(u) - Fit(|name|) == Used(recs) && Entry(name, inode, kind) in Map(u)
  {
    var i := FindRoom(recs, Fit(|name|));
    SplitOk(recs, i, inode, name, kind);
    MergeUndoesSplit(recs, i, inode, name, kind);
    SplitIs(recs, i, inode, name, kind, 0);
  }

  lemma AddedRecords(recs: seq<Rec>, i: nat, inode: nat, name: seq<Byte>, kind: Byte)
    requires DirOk(recs) && NoneFree(recs) && i < |recs| && 0 < inode < 0x1_0000_0000 && kind != EXT2_FT_FREE && 0 < |name| <= 255
    requires Find(recs, name) == |recs| && Fit(|name|) + Fit(|recs[i].name|) < recs[i].rec_len
    ensures RecOk(recs[i])
    ensures var u := Split(recs, i, inode, name, kind);
      DirOk(u) && NoneFree(u) && Used(u) == Used(recs) + Fit(|name|) && Map(u) == Map(recs) + {Entry(name, inode, kind)}
  {
    assert RecOk(recs[i]);
    SplitOk(recs, i, inode, name, kind);
    SplitNoneFree(recs, i, inode, name, kind);
  }

  /** Is the name, up to its first NUL, "." or ".."? */
  predicate IsDots(name: seq<Byte>) {
    0 < |name| <= 2 && name[0] == 46 && (|name| == 1 || name[1] == 46 || name[1] == 0)
  }

  /** One block of a directory. */
  class DirBlock {
    const block: array<Byte>
    ghost var recs: seq<Rec>

    ghost predicate Valid()
      reads this, block
    {
      DirOk(recs) && NoneFree(recs) && Tiles(block[..], recs)
    }

    /** Does the record at pos have the name? */
    method Matches(pos: nat, name: seq<Byte>, ghost i: nat) returns (found: bool)
      requires block.Length == BLOCK && i < |recs| && RecAt(block[..], pos, recs[i]) && recs[i].kind != EXT2_FT_FREE
      ensures found <==> recs[i].name == name
    {
      var len := block[pos + 6];
      found := block[pos + 7] != EXT2_FT_FREE && |name| == len
        && name == block[pos + SIZE_DIR_NO_NAME..pos + SIZE_DIR_NO_NAME + len];
    }

    /** The jump to the next record. */
    method JumpBy(pos: nat, ghost r: Rec) returns (jump_by: nat)
      requires block.Length == BLOCK && RecAt(block[..], pos, r)
      ensures jump_by == r.rec_len
    {
      jump_by := U16(block[..], pos + 4);
    }

    /** The walk over the records that the three operations make. */
    method Scan(name: seq<Byte>) returns (found: bool, pos: nat, previous: nat, ghost i: nat)
      requires Valid()
      ensures Scanned(recs, name, found, pos, previous, i)
    {
      found, pos, previous, i := false, 0, 0, 0;
      AtEnd(recs, 0);
      while pos < BLOCK
        invariant WalkAt(recs, name, pos, previous, i) && !found
        decreases |recs| - i
      {
        var next;
        found, next := Visit(pos, name, previous, i);
        if found {
          return;
        }
        previous, pos, i := pos, next, i + 1;
      }
      WalkEnd(recs, name, pos, previous, i);
    }

    /** One round of the walk. */
    method Visit(pos: nat, name: seq<Byte>, ghost previous: nat, ghost i: nat) returns (found: bool, next: nat)
      requires Valid() && WalkAt(recs, name, pos, previous, i) && pos < BLOCK
      ensures i < |recs|
      ensures found ==> Scanned(recs, name, true, pos, previous, i)
      ensures !found ==> WalkAt(recs, name, next, pos, i + 1)
    {
      WalkRecord(block[..], recs, name, pos, previous, i);
      found := Matches(pos, name, i);
      next := JumpBy(pos, recs[i]);
      next := pos + next;
    }

    /** The inode that the block has for a name, or 0. */
    method Lookup(name: seq<Byte>) returns (inode: nat)
      requires Valid()
      ensures inode == if Find(recs, name) < |recs| then recs[Find(recs, name)].inode else 0
    {
      var found, pos, previous;
      ghost var i;
      found, pos, previous, i := Scan(name);
      if found {
        assert RecAt(block[..], pos, recs[i]);
        return U32(block[..], pos);
      }
      inode := 0;
    }

    /** Writes a 16-bit field. */
    method Write16(p: nat, v: nat)
      requires p + 1 < block.Length && v < 0x1_0000
      modifies block
      ensures Put16(old(block[..]), block[..], p, v)
    {
      block[p] := Byte0(v);
      block[p + 1] := Byte1(v);
    }

    /** The record before it swallows the one that is removed. */
    method RemoveFrom(name: seq<Byte>) returns (found: bool)
      requires Valid() && Find(recs, name) != 0
      modifies this, block
      ensures Valid() && (found <==> Find(old(recs), name) < |old(recs)|)
      ensures recs == if found then Merge(old(recs), Find(old(recs), name)) else old(recs)
    {
      var pos, previous;
      ghost var i;
      found, pos, previous, i := Scan(name);
      if found {
        RemoveFound(pos, previous, i);
      }
    }

    method RemoveFound(pos: nat, previous: nat, ghost i: nat)
      requires Valid() && 0 < i < |recs| && pos == Start(recs, i) && previous == Start(recs, i - 1)
      modifies this, block
      ensures Valid() && recs == Merge(old(recs), i)
    {
      MergeOk(recs, i);
      MergeNoneFree(recs, i);
      Swallow(pos, previous, i);
    }

    /** Record i - 1 takes the room of record i. */
    method Swallow(pos: nat, previous: nat, ghost i: nat)
      requires DirOk(recs) && Tiles(block[..], recs) && 0 < i < |recs|
      requires pos == Start(recs, i) && previous == Start(recs, i - 1)
      modifies block, this`recs
      ensures recs == Merge(old(recs), i) && Tiles(block[..], recs)
    {
      ghost var b := block[..];
      SumOfLengths(b, recs, i);
      Write16(previous + 4, U16(block[..], previous + 4) + U16(block[..], pos + 4));
      MergeTiles(b, block[..], recs, i);
      recs := Merge(recs, i);
    }

    /** The first record is marked as free; the others stay where they are. */
    method FreeFirst()
      requires Valid()
      modifies this`recs, block
      ensures recs == Freed(old(recs)) && Tiles(block[..], recs)
    {
      ghost var b := block[..];
      block[7] := EXT2_FT_FREE;
      FreedTiles(b, block[..], recs);
      recs := Freed(recs);
    }

    /** The first record is marked as free, and swallows all the others. */
    method EmptyFirst()
      requires Valid()
      modifies this`recs, block
      ensures recs == Emptied(old(recs)) && Tiles(block[..], recs)
    {
      assert recs[..0] == [] && RecAt(block[..], Start(recs, 0), recs[0]);
      block[7] := EXT2_FT_FREE;
      block[6] := 0;
      ghost var b := block[..];
      Write16(4, BLOCK);
      Put16Reads(b, block[..], 4, BLOCK);
      EmptiedTiles(block[..], recs);
      recs := Emptied(recs);
    }

    /** The length field of the first record. */
    method FirstLength() returns (rec_len: nat)
      requires Valid()
      ensures rec_len == recs[0].rec_len
    {
      assert recs[..0] == [] && RecAt(block[..], Start(recs, 0), recs[0]);
      rec_len := JumpBy(0, recs[0]);
    }

    /** write_dir_entry: header and name, at a multiple of 4. */
    method WriteEntry(location: nat, r: Rec) returns (rc: int)
      requires location + SIZE_DIR_NO_NAME + |r.name| <= block.Length == BLOCK
      requires r.inode < 0x1_0000_0000 && r.rec_len < 0x1_0000 && |r.name| <= 255
      modifies block
      ensures rc == if location % 4 == 0 then 0 else -1
      ensures rc == 0 ==> RecAt(block[..], location, r)
      ensures forall k :: 0 <= k < BLOCK && !(location <= k < location + SIZE_DIR_NO_NAME + |r.name|) ==> block[k] == old(block[k])
    {
      if location % 4 != 0 {
        return -1;
      }
      block[location], block[location + 1] := Byte0(r.inode), Byte1(r.inode);
      block[location + 2], block[location + 3] := Byte2(r.inode), Byte3(r.inode);
      block[location + 4], block[location + 5] := Byte0(r.rec_len), Byte1(r.rec_len);
      block[location + 6], block[location + 7] := |r.name|, r.kind;
      BytesOf(r.inode);
      BytesOf(r.rec_len);
      WriteName(location, r);
      rc := 0;
    }

    method WriteName(location: nat, r: Rec)
      requires location + SIZE_DIR_NO_NAME + |r.name| <= block.Length == BLOCK && |r.name| <= 255
      requires U32(block[..], location) == r.inode && U16(block[..], location + 4) == r.rec_len
      requires block[location + 6] == |r.name| && block[location + 7] == r.kind
      modifies block
      ensures RecAt(block[..], location, r)
      ensures forall k :: 0 <= k < BLOCK && !(location + SIZE_DIR_NO_NAME <= k < location + SIZE_DIR_NO_NAME + |r.name|) ==>
        block[k] == old(block[k])
    {
      var from := location + SIZE_DIR_NO_NAME;
      for k := 0 to |r.name|
        invariant forall j :: 0 <= j < k ==> block[from + j] == r.name[j]
        invariant forall j :: 0 <= j < BLOCK && !(from <= j < from + k) ==> block[j] == old(block[j])
      {
        block[from + k] := r.name[k];
      }
      assert block[..][from..from + |r.name|] == r.name;
    }

    /** The search for room of add_inode_directory. */
    method ScanRoom(need: nat) returns (found: bool, pos: nat, ghost i: nat)
      requires Valid()
      ensures i == FindRoom(recs, need) && (found <==> i < |recs|) && pos == Start(recs, i)
    {
      found, pos, i := false, 0, 0;
      AtEnd(recs, 0);
      while pos < BLOCK
        invariant RoomAt(recs, need, pos, i) && !found
        decreases |recs| - i
      {
        var next;
        found, next := VisitRoom(need, pos, i);
        if found {
          return;
        }
        pos, i := next, i + 1;
      }
    }

    method VisitRoom(need: nat, pos: nat, ghost i: nat) returns (found: bool, next: nat)
      requires Valid() && RoomAt(recs, need, pos, i) && pos < BLOCK
      ensures i < |recs|
      ensures found ==> FindRoom(recs, need) == i
      ensures !found ==> RoomAt(recs, need, next, i + 1)
    {
      RoomStep(block[..], recs, need, pos, i);
      var list_elt_size := Fit(block[pos + 6]);
      var rec_len := JumpBy(pos, recs[i]);
      found := need < rec_len - list_elt_size;
      next := pos + rec_len;
    }

    /** The record at pos keeps what it needs, and the new entry is written behind it. */
    method Carve(pos: nat, fit: nat, r: Rec) returns (rc: int)
      requires block.Length == BLOCK && pos + 6 <= pos + fit && pos + fit + SIZE_DIR_NO_NAME + |r.name| <= BLOCK
      requires r.inode < 0x1_0000_0000 && r.rec_len < 0x1_0000 && |r.name| <= 255 && (pos + fit) % 4 == 0
      modifies block
      ensures rc == 0 && Carved(old(block[..]), block[..], pos, fit, r)
    {
      Write16(pos + 4, fit);
      rc := WriteEntry(pos + fit, r);
    }

    /** disk_read_block: a block with these bytes. */
    constructor Read(bytes: seq<Byte>, ghost rs: seq<Rec>)
      requires DirOk(rs) && NoneFree(rs) && Tiles(bytes, rs)
      ensures Valid() && fresh(block) && recs == rs
    {
      block := new Byte[BLOCK](i requires 0 <= i < BLOCK => bytes[i]);
      recs := rs;
      new;
      assert block[..] == bytes;
    }

    /** A block of one entry, which takes it all. */
    constructor (inode: nat, kind: Byte, name: seq<Byte>)
      requires 0 < inode < 0x1_0000_0000 && kind != EXT2_FT_FREE && 0 < |name| <= 255
      ensures Valid() && fresh(block) && recs == [Rec(inode, BLOCK, name, kind)]
    {
      block := new Byte[BLOCK](_ => 0);
      var r := Rec(inode, BLOCK, name, kind);
      recs := [r];
      new;
      var rc := WriteEntry(0, r);
      TotalOf(r);
      FitHolds(|name|);
      assert recs[..0] == [] && Start(recs, 0) == 0;
    }

    /** Adds an entry, if some record has room for it. */
    method AddTo(inode: nat, kind: Byte, name: seq<Byte>) returns (found: bool)
      requires Valid() && 0 < inode < 0x1_0000_0000 && kind != EXT2_FT_FREE && 0 < |name| <= 255 && Find(recs, name) == |recs|
      modifies this, block
      ensures Valid() && (found <==> FindRoom(old(recs), Fit(|name|)) < |old(recs)|)
      ensures recs == if found then Split(old(recs), FindRoom(old(recs), Fit(|name|)), inode, name, kind) else old(recs)
    {
      var need := Fit(|name|);
      var pos;
      ghost var i;
      found, pos, i := ScanRoom(need);
      if found {
        AddAt(pos, i, inode, kind, name);
      }
    }

    method AddAt(pos: nat, ghost i: nat, inode: nat, kind: Byte, name: seq<Byte>)
      requires Valid() && i < |recs| && pos == Start(recs, i)
      requires 0 < inode < 0x1_0000_0000 && kind != EXT2_FT_FREE && 0 < |name| <= 255
      requires Find(recs, name) == |recs| && Fit(|name|) + Fit(|recs[i].name|) < recs[i].rec_len
      modifies this, block
      ensures Valid() && recs == Split(old(recs), i, inode, name, kind)
    {
      ghost var u := Split(recs, i, inode, name, kind);
      AddedRecords(recs, i, inode, name, kind);
      CarveAt(pos, i, inode, kind, name);
      Keep(u);
    }

    ghost method Keep(u: seq<Rec>)
      requires DirOk(u) && NoneFree(u) && Tiles(block[..], u)
      modifies this`recs
      ensures Valid() && recs == u
    {
      recs := u;
    }

    method CarveAt(pos: nat, ghost i: nat, inode: nat, kind: Byte, name: seq<Byte>)
      requires DirOk(recs) && Tiles(block[..], recs) && i < |recs| && pos == Start(recs, i) && RecOk(recs[i])
      requires 0 < inode < 0x1_0000_0000 && 0 < |name| <= 255 && Fit(|name|) + Fit(|recs[i].name|) < recs[i].rec_len
      modifies block
      ensures Tiles(block[..], Split(recs, i, inode, name, kind))
    {
      ghost var b := block[..];
      var fit, r := NewEntry(pos, i, inode, kind, name);
      var rc := Carve(pos, fit, r);
      SplitTiles(b, block[..], recs, i, inode, name, kind);
    }

    /** The size that the old entry keeps, and the new entry. */
    method NewEntry(pos: nat, ghost i: nat, inode: nat, kind: Byte, name: seq<Byte>) returns (fit: nat, r: Rec)
      requires DirOk(recs) && Tiles(block[..], recs) && i < |recs| && pos == Start(recs, i) && RecOk(recs[i])
      requires 0 < inode < 0x1_0000_0000 && 0 < |name| <= 255 && Fit(|name|) + Fit(|recs[i].name|) < recs[i].rec_len
      ensures fit == Fit(|recs[i].name|) && r == Halves(recs[i], inode, name, kind)[1]
      ensures block.Length == BLOCK && pos + 6 <= pos + fit && pos + fit + SIZE_DIR_NO_NAME + |r.name| <= BLOCK
      ensures r.inode < 0x1_0000_0000 && r.rec_len < 0x1_0000 && |r.name| <= 255 && (pos + fit) % 4 == 0
    {
      RoomFacts(block[..], recs, i, |name|);
      var rec_len := JumpBy(pos, recs[i]);
      fit := Fit(block[pos + 6]);
      assert fit == Fit(|recs[i].name|);
      EntryAligned(pos, fit, |recs[i].name|);
      r := Rec(inode, rec_len - fit, name, kind);
    }
  }
}
