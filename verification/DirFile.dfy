/**
 A directory of up to twelve blocks (src/kernel/fs/inode.c:622-924): the searches go through the blocks
 in order, and a name for which no block has room gets a new block from the volume.
 */
module DirFile {
  import opened Marks
  import opened DirSpec
  import opened Directory
  import opened BlockTree
  import opened BlockMap

  // ----- the records of all blocks -----

  predicate Has(recs: seq<Rec>, name: seq<Byte>) {
    Find(recs, name) < |recs|
  }

  /** The first block that has the name, or the number of blocks. */
  function FirstWith(rs: seq<seq<Rec>>, name: seq<Byte>): (i: nat)
    ensures i <= |rs|
    ensures i < |rs| ==> Has(rs[i], name)
    ensures forall k {:trigger rs[k]} :: 0 <= k < i ==> !Has(rs[k], name)
  {
    if rs == [] || Has(rs[0], name) then 0 else 1 + FirstWith(rs[1..], name)
  }

  predicate HasRoom(recs: seq<Rec>, need: nat) {
    FindRoom(recs, need) < |recs|
  }

  /** The first block with room, or the number of blocks. */
  function FirstRoom(rs: seq<seq<Rec>>, need: nat): (i: nat)
    ensures i <= |rs|
    ensures i < |rs| ==> HasRoom(rs[i], need)
    ensures forall k {:trigger rs[k]} :: 0 <= k < i ==> !HasRoom(rs[k], need)
  {
    if rs == [] || HasRoom(rs[0], need) then 0 else 1 + FirstRoom(rs[1..], need)
  }

  lemma FirstWithIs(rs: seq<seq<Rec>>, name: seq<Byte>, i: nat)
    requires i <= |rs| && (i < |rs| ==> Has(rs[i], name)) && forall k {:trigger rs[k]} :: 0 <= k < i ==> !Has(rs[k], name)
    ensures FirstWith(rs, name) == i
  {
    var j := FirstWith(rs, name);
    assert j < |rs| ==> Has(rs[j], name);
  }

  lemma FirstRoomIs(rs: seq<seq<Rec>>, need: nat, i: nat)
    requires i <= |rs| && (i < |rs| ==> HasRoom(rs[i], need)) && forall k {:trigger rs[k]} :: 0 <= k < i ==> !HasRoom(rs[k], need)
    ensures FirstRoom(rs, need) == i
  {
    var j := FirstRoom(rs, need);
    assert j < |rs| ==> HasRoom(rs[j], need);
  }

  lemma FirstRoomStep(rs: seq<seq<Rec>>, need: nat, k: nat)
    requires k < |rs| && FirstRoom(rs, need) >= k
    ensures FirstRoom(rs, need) == k <==> HasRoom(rs[k], need)
  {
  }

  /** The two blocks have no name in common. */
  ghost predicate Separate(a: seq<Rec>, b: seq<Rec>) {
    forall x, y :: x in a && y in b ==> x.name != y.name
  }

  ghost predicate BlocksOk(rs: seq<seq<Rec>>) {
    && (forall i {:trigger rs[i]} :: 0 <= i < |rs| ==> DirOk(rs[i]) && NoneFree(rs[i]))
    && forall i, j {:trigger Pair(i, j)} :: Pair(i, j) && 0 <= i < j < |rs| ==> Separate(rs[i], rs[j])
  }

  /** The directory as a finite map from names to inodes, given by its pairs. */
  ghost function MapOf(rs: seq<seq<Rec>>): set<Entry> {
    if rs == [] then {} else MapOf(rs[..|rs| - 1]) + Map(rs[|rs| - 1])
  }

  /** What i_size counts. */
  function UsedOf(rs: seq<seq<Rec>>): nat {
    if rs == [] then 0 else UsedOf(rs[..|rs| - 1]) + Used(rs[|rs| - 1])
  }

  lemma {:induction false} InMapOf(rs: seq<seq<Rec>>, p: Entry)
    ensures p in MapOf(rs) <==> exists i {:trigger rs[i]} :: 0 <= i < |rs| && p in Map(rs[i])
  {
    if rs != [] {
      var init := rs[..|rs| - 1];
      InMapOf(init, p);
      assert forall i :: 0 <= i < |init| ==> init[i] == rs[i];
      if p in MapOf(init) {
        var i :| 0 <= i < |init| && p in Map(init[i]);
        assert p in Map(rs[i]);
      }
    }
  }

  lemma {:induction false} UsedOfUpdate(rs: seq<seq<Rec>>, i: nat, u: seq<Rec>)
    requires i < |rs|
    ensures UsedOf(rs[i := u]) + Used(rs[i]) == UsedOf(rs) + Used(u)
  {
    var init := rs[..|rs| - 1];
    if i == |rs| - 1 {
      assert rs[i := u][..|rs| - 1] == init;
    } else {
      UsedOfUpdate(init, i, u);
      assert rs[i := u][..|rs| - 1] == init[i := u];
    }
  }

  /** look_for_inode_dir over all blocks is lookup in the map. */
  lemma LookupIs(rs: seq<seq<Rec>>, name: seq<Byte>)
    requires BlocksOk(rs)
    ensures var i := FirstWith(rs, name);
      if i < |rs| then var r := rs[i][Find(rs[i], name)]; r.inode != 0 && forall e :: e in MapOf(rs) && e.name == name <==> e == EntryOf(r)
      else forall e :: e in MapOf(rs) ==> e.name != name
  {
    var i := FirstWith(rs, name);
    if i < |rs| {
      FindIsLookup(rs[i], name);
    }
    forall e | e in MapOf(rs) && e.name == name ensures i < |rs| && e in Map(rs[i]) {
      InMapOf(rs, e);
      var j :| 0 <= j < |rs| && e in Map(rs[j]);
      FindIsLookup(rs[j], name);
      OnlyIn(rs, i, j, name);
    }
    if i < |rs| {
      var e := EntryOf(rs[i][Find(rs[i], name)]);
      InMapOf(rs, e);
    }
  }

  lemma NotInBoth(a: seq<Rec>, b: seq<Rec>, name: seq<Byte>)
    requires Separate(a, b)
    ensures !(Has(a, name) && Has(b, name))
  {
    assert Has(a, name) ==> a[Find(a, name)] in a;
    assert Has(b, name) ==> b[Find(b, name)] in b;
  }

  lemma OnlyIn(rs: seq<seq<Rec>>, i: nat, j: nat, name: seq<Byte>)
    requires BlocksOk(rs) && j < |rs| && Has(rs[j], name) && i == FirstWith(rs, name)
    ensures i == j
  {
    assert Pair(i, j);
    if i < j {
      NotInBoth(rs[i], rs[j], name);
    }
  }

  /** The names of u are those of recs, and perhaps one more, which b does not have. */
  lemma StaysSeparate(recs: seq<Rec>, u: seq<Rec>, b: seq<Rec>, name: seq<Byte>)
    requires Separate(recs, b) && (forall p :: p in Map(u) ==> p in Map(recs) || p.name == name) && DirOk(b)
    requires !Has(b, name) || forall p :: p in Map(u) ==> p in Map(recs)
    ensures Separate(u, b) && Separate(b, u)
  {
    forall x, y | x in u && y in b ensures x.name != y.name {
      assert EntryOf(x) in Map(u) && EntryOf(y) in Map(b);
      FindIsLookup(b, name);
      if EntryOf(x) in Map(recs) {
        var z :| z in recs && z.name == x.name;
      }
    }
  }

  /** Another list of records for block i, with the old names and perhaps one that no block has. */
  lemma BlockReplaced(rs: seq<seq<Rec>>, i: nat, u: seq<Rec>, name: seq<Byte>)
    requires BlocksOk(rs) && i < |rs| && DirOk(u) && NoneFree(u) && forall p :: p in Map(u) ==> p in Map(rs[i]) || p.name == name
    requires (forall j {:trigger rs[j]} :: 0 <= j < |rs| ==> !Has(rs[j], name)) || forall p :: p in Map(u) ==> p in Map(rs[i])
    ensures BlocksOk(rs[i := u])
  {
    var rs' := rs[i := u];
    forall j, k | 0 <= j < k < |rs'| ensures Separate(rs'[j], rs'[k]) {
      assert Pair(j, k);
      if j == i {
        StaysSeparate(rs[i], u, rs[k], name);
      } else if k == i {
        assert Separate(rs[i], rs[j]);
        StaysSeparate(rs[i], u, rs[j], name);
      }
    }
  }

  lemma MapReplaced(rs: seq<seq<Rec>>, i: nat, u: seq<Rec>, p: Entry)
    requires i < |rs| && Map(u) == Map(rs[i]) + {p}
    ensures MapOf(rs[i := u]) == MapOf(rs) + {p}
  {
    var rs' := rs[i := u];
    forall q ensures q in MapOf(rs') <==> q in MapOf(rs) + {p} {
      InMapOf(rs, q);
      InMapOf(rs', q);
      if q in MapOf(rs) {
        var j :| 0 <= j < |rs| && q in Map(rs[j]);
        assert q in Map(rs'[j]);
      }
      if q in MapOf(rs') {
        var j :| 0 <= j < |rs'| && q in Map(rs'[j]);
        assert q == p || q in Map(rs[j]);
      }
      assert p in Map(rs'[i]);
    }
  }

  /** A name goes into a block with room. */
  lemma AddedToBlock(rs: seq<seq<Rec>>, i: nat, inode: nat, name: seq<Byte>, kind: Byte)
    requires BlocksOk(rs) && 0 < inode < 0x1_0000_0000 && kind != EXT2_FT_FREE && 0 < |name| <= 255
    requires FirstWith(rs, name) == |rs| && i == FirstRoom(rs, Fit(|name|)) < |rs|
    ensures var rs' := rs[i := Split(rs[i], FindRoom(rs[i], Fit(|name|)), inode, name, kind)];
      BlocksOk(rs') && MapOf(rs') == MapOf(rs) + {Entry(name, inode, kind)} && UsedOf(rs') == UsedOf(rs) + Fit(|name|)
  {
    var k := FindRoom(rs[i], Fit(|name|));
    AddedRecords(rs[i], k, inode, name, kind);
    var u := Split(rs[i], k, inode, name, kind);
    BlockReplaced(rs, i, u, name);
    MapReplaced(rs, i, u, Entry(name, inode, kind));
    UsedOfUpdate(rs, i, u);
  }

  /** A name gets a block of its own. */
  lemma AddedBlock(rs: seq<seq<Rec>>, inode: nat, name: seq<Byte>, kind: Byte)
    requires BlocksOk(rs) && 0 < inode < 0x1_0000_0000 && kind != EXT2_FT_FREE && 0 < |name| <= 255 && FirstWith(rs, name) == |rs|
    requires DirOk([Rec(inode, BLOCK, name, kind)])
    ensures var rs' := rs + [[Rec(inode, BLOCK, name, kind)]];
      BlocksOk(rs') && MapOf(rs') == MapOf(rs) + {Entry(name, inode, kind)} && UsedOf(rs') == UsedOf(rs) + Fit(|name|)
  {
    var r := Rec(inode, BLOCK, name, kind);
    OneMoreBlock(rs, [r]);
    TotalOf(r);
    assert Map([r]) == {EntryOf(r)};
    BlocksWith(rs, r);
  }

  lemma OneMoreBlock(rs: seq<seq<Rec>>, u: seq<Rec>)
    ensures MapOf(rs + [u]) == MapOf(rs) + Map(u) && UsedOf(rs + [u]) == UsedOf(rs) + Used(u)
  {
    assert (rs + [u])[..|rs|] == rs;
  }

  lemma BlocksWith(rs: seq<seq<Rec>>, r: Rec)
    requires BlocksOk(rs) && DirOk([r]) && NoneFree([r]) && FirstWith(rs, r.name) == |rs|
    ensures BlocksOk(rs + [[r]])
  {
    var rs' := rs + [[r]];
    forall j, k | 0 <= j < k < |rs'| ensures Separate(rs'[j], rs'[k]) {
      assert Pair(j, k);
      if k == |rs| {
        NotThere(rs[j], r);
      }
    }
  }

  lemma NotThere(recs: seq<Rec>, r: Rec)
    requires DirOk(recs) && !Has(recs, r.name)
    ensures Separate(recs, [r])
  {
    FindIsLookup(recs, r.name);
    forall x | x in recs ensures x.name != r.name {
      assert EntryOf(x) in Map(recs);
    }
  }

  /** A pair leaves block i, and no other block has the name. */
  lemma MapRemoved(rs: seq<seq<Rec>>, i: nat, u: seq<Rec>, p: Entry)
    requires i < |rs| && Map(u) == Map(rs[i]) - {p}
    requires forall j {:trigger rs[j]} :: 0 <= j < |rs| && j != i ==> p !in Map(rs[j])
    ensures MapOf(rs[i := u]) == MapOf(rs) - {p}
  {
    var rs' := rs[i := u];
    forall q ensures q in MapOf(rs') <==> q in MapOf(rs) - {p} {
      InMapOf(rs, q);
      InMapOf(rs', q);
      if q in MapOf(rs) && q != p {
        var j :| 0 <= j < |rs| && q in Map(rs[j]);
        assert q in Map(rs'[j]);
      }
      if q in MapOf(rs') {
        var j :| 0 <= j < |rs'| && q in Map(rs'[j]);
        assert q in Map(rs[j]);
      }
    }
  }

  /** A name leaves a block, of which it is not the first record. */
  lemma RemovedFromBlock(rs: seq<seq<Rec>>, name: seq<Byte>)
    requires BlocksOk(rs) && FirstWith(rs, name) < |rs| && Find(rs[FirstWith(rs, name)], name) > 0
    ensures var i := FirstWith(rs, name);
      var k := Find(rs[i], name);
      var rs' := rs[i := Merge(rs[i], k)];
      BlocksOk(rs') && MapOf(rs') == MapOf(rs) - {EntryOf(rs[i][k])} && UsedOf(rs') + Fit(|name|) == UsedOf(rs)
  {
    var i := FirstWith(rs, name);
    var k := Find(rs[i], name);
    var u := Merge(rs[i], k);
    MergeOk(rs[i], k);
    MergeNoneFree(rs[i], k);
    BlockReplaced(rs, i, u, name);
    UsedOfUpdate(rs, i, u);
    forall j | 0 <= j < |rs| && j != i ensures EntryOf(rs[i][k]) !in Map(rs[j]) {
      FindIsLookup(rs[j], name);
      if Has(rs[j], name) {
        OnlyIn(rs, i, j, name);
      }
    }
    MapRemoved(rs, i, u, EntryOf(rs[i][k]));
  }

  /** Removing a name that has just gone into a block brings all records back. */
  lemma RemoveUndoesAdd(rs: seq<seq<Rec>>, inode: nat, name: seq<Byte>, kind: Byte)
    requires BlocksOk(rs) && 0 < inode < 0x1_0000_0000 && kind != EXT2_FT_FREE && 0 < |name| <= 255
    requires FirstWith(rs, name) == |rs| && FirstRoom(rs, Fit(|name|)) < |rs|
    ensures var k := FirstRoom(rs, Fit(|name|));
      var u := Split(rs[k], FindRoom(rs[k], Fit(|name|)), inode, name, kind);
      && FirstWith(rs[k := u], name) == k && Find(u, name) > 0
      && rs[k := u][k := Merge(u, Find(u, name))] == rs
  {
    var k := FirstRoom(rs, Fit(|name|));
    var u := Split(rs[k], FindRoom(rs[k], Fit(|name|)), inode, name, kind);
    UndoneInBlock(rs[k], inode, name, kind);
    Restored(rs, k, u, name);
  }

  lemma Restored(rs: seq<seq<Rec>>, k: nat, u: seq<Rec>, name: seq<Byte>)
    requires FirstWith(rs, name) == |rs| && k < |rs| && Has(u, name) && Find(u, name) > 0 && Merge(u, Find(u, name)) == rs[k]
    ensures FirstWith(rs[k := u], name) == k && rs[k := u][k := Merge(u, Find(u, name))] == rs
  {
    FirstWithIs(rs[k := u], name, k);
  }

  lemma UndoneInBlock(recs: seq<Rec>, inode: nat, name: seq<Byte>, kind: Byte)
    requires DirOk(recs) && NoneFree(recs) && 0 < inode < 0x1_0000_0000 && kind != EXT2_FT_FREE && 0 < |name| <= 255
    requires !Has(recs, name) && HasRoom(recs, Fit(|name|))
    ensures var u := Split(recs, FindRoom(recs, Fit(|name|)), inode, name, kind);
      Has(u, name) && Find(u, name) > 0 && Merge(u, Find(u, name)) == recs
  {
    Directory.RemoveUndoesAdd(recs, inode, name, kind);
  }

  // ----- removing, whatever the record -----

  /** Is the name's record the first of its block? */
  predicate IsFirst(rs: seq<seq<Rec>>, name: seq<Byte>) {
    FirstWith(rs, name) < |rs| && Find(rs[FirstWith(rs, name)], name) == 0
  }

  /** The record is the first of its block, and its length is what a whole block has without it. */
  predicate Spills(rs: seq<seq<Rec>>, name: seq<Byte>) {
    IsFirst(rs, name) && rs[FirstWith(rs, name)][0].rec_len == BLOCK - Fit(|name|)
  }

  /** The records that remove_inode_dir leaves. */
  function Removed(rs: seq<seq<Rec>>, name: seq<Byte>): seq<seq<Rec>>
    requires FirstWith(rs, name) < |rs|
  {
    var k := FirstWith(rs, name);
    var i := Find(rs[k], name);
    if i > 0 then rs[k := Merge(rs[k], i)]
    else if !Spills(rs, name) then rs[k := Freed(rs[k])]
    else if k < |rs| - 1 then rs[k := Emptied(rs[k])]
    else rs[..k]
  }

  /** A record that is not marked as free has the pair. */
  ghost predicate LiveIn(recs: seq<Rec>, p: Entry) {
    exists r :: r in recs && r.kind != EXT2_FT_FREE && p == EntryOf(r)
  }

  ghost predicate IsLive(rs: seq<seq<Rec>>, p: Entry) {
    exists i {:trigger rs[i]} :: 0 <= i < |rs| && LiveIn(rs[i], p)
  }

  lemma LiveIsMap(recs: seq<Rec>, p: Entry)
    requires NoneFree(recs)
    ensures LiveIn(recs, p) <==> p in Map(recs)
  {
    if r :| r in recs && p == EntryOf(r) {
      assert r.kind != EXT2_FT_FREE;
    }
  }

  lemma FreedLives(recs: seq<Rec>, p: Entry)
    requires DirOk(recs) && NoneFree(recs)
    ensures LiveIn(Freed(recs), p) <==> p in Map(recs) && p != EntryOf(recs[0])
  {
    var u := Freed(recs);
    forall i | 0 < i < |recs| ensures recs[i].name != recs[0].name && u[i] == recs[i] && u[i] in u && recs[i] in recs {
      assert Pair(0, i) && Names(recs)[0] == recs[0].name && Names(recs)[i] == recs[i].name;
    }
    if r :| r in u && r.kind != EXT2_FT_FREE && p == EntryOf(r) {
      var i :| 0 <= i < |u| && u[i] == r;
      assert i > 0;
    }
    if p in Map(recs) && p != EntryOf(recs[0]) {
      var r :| r in recs && p == EntryOf(r);
      var i :| 0 <= i < |recs| && recs[i] == r;
      assert i > 0;
    }
  }

  /** A pair is in one block only. */
  lemma InOneBlock(rs: seq<seq<Rec>>, j: nat, k: nat, p: Entry)
    requires BlocksOk(rs) && j < |rs| && k < |rs| && p in Map(rs[j]) && p in Map(rs[k])
    ensures j == k
  {
    var x :| x in rs[j] && p == EntryOf(x);
    var y :| y in rs[k] && p == EntryOf(y);
    assert Pair(j, k) && Pair(k, j);
  }

  /** Block k now has the pair exactly if it had it before and keeps it. */
  lemma BlockLives(rs: seq<seq<Rec>>, k: nat, u: seq<Rec>, p: Entry, keeps: bool)
    requires BlocksOk(rs) && k < |rs| && (LiveIn(u, p) <==> p in Map(rs[k]) && keeps)
    ensures IsLive(rs[k := u], p) <==> p in MapOf(rs) && (p in Map(rs[k]) ==> keeps)
  {
    InMapOf(rs, p);
    forall i: nat | i < |rs| ensures LiveIn(rs[k := u][i], p) <==> p in Map(rs[i]) && (i == k ==> keeps) {
      if i != k {
        LiveIsMap(rs[i], p);
      }
    }
    if p in Map(rs[k]) {
      forall i: nat | i < |rs| && p in Map(rs[i]) ensures i == k {
        InOneBlock(rs, i, k, p);
      }
      assert rs[k := u][k] == u;
    } else {
      SameLive(rs, rs[k := u], p);
    }
  }

  lemma SameLive(rs: seq<seq<Rec>>, rs': seq<seq<Rec>>, p: Entry)
    requires |rs| == |rs'| && forall i: nat {:trigger rs'[i]} :: i < |rs| ==> (LiveIn(rs'[i], p) <==> p in Map(rs[i]))
    ensures IsLive(rs', p) <==> p in MapOf(rs)
  {
    InMapOf(rs, p);
    if i: nat :| i < |rs| && p in Map(rs[i]) {
      assert LiveIn(rs'[i], p);
    }
    if i: nat :| i < |rs'| && LiveIn(rs'[i], p) {
      assert p in Map(rs[i]);
    }
  }

  /** The last block goes. */
  lemma LastGoes(rs: seq<seq<Rec>>, p: Entry)
    requires BlocksOk(rs) && rs != []
    ensures IsLive(rs[..|rs| - 1], p) <==> p in MapOf(rs) && p !in Map(rs[|rs| - 1])
  {
    BlockLives(rs, |rs| - 1, [], p, false);
    var init, rs' := rs[..|rs| - 1], rs[|rs| - 1 := []];
    if i: nat :| i < |rs'| && LiveIn(rs'[i], p) {
      assert init[i] == rs'[i];
    }
    if i: nat :| i < |init| && LiveIn(init[i], p) {
      assert rs'[i] == init[i];
    }
  }

  lemma MergedLives(recs: seq<Rec>, i: nat, p: Entry)
    requires DirOk(recs) && NoneFree(recs) && 0 < i < |recs|
    ensures LiveIn(Merge(recs, i), p) <==> p in Map(recs) && p != EntryOf(recs[i])
  {
    MergeOk(recs, i);
    MergeNoneFree(recs, i);
    LiveIsMap(Merge(recs, i), p);
  }

  /** What remains of the directory: all but the name - or all but the names of its block. */
  lemma RemovedLives(rs: seq<seq<Rec>>, name: seq<Byte>, p: Entry)
    requires BlocksOk(rs) && FirstWith(rs, name) < |rs|
    ensures var k := FirstWith(rs, name);
      IsLive(Removed(rs, name), p) <==> p in MapOf(rs) && if Spills(rs, name) then p !in Map(rs[k]) else p != EntryOf(rs[k][Find(rs[k], name)])
  {
    var k := FirstWith(rs, name);
    var i := Find(rs[k], name);
    var q := EntryOf(rs[k][i]);
    assert rs[k][i] in rs[k] && q in Map(rs[k]);
    InMapOf(rs, q);
    if i > 0 {
      MergedLives(rs[k], i, p);
      BlockLives(rs, k, Merge(rs[k], i), p, p != q);
    } else if !Spills(rs, name) {
      FreedLives(rs[k], p);
      BlockLives(rs, k, Freed(rs[k]), p, p != q);
    } else if k < |rs| - 1 {
      BlockLives(rs, k, Emptied(rs[k]), p, false);
    } else {
      LastGoes(rs, p);
    }
    if p == q {
      InMapOf(rs, p);
    }
  }

  /** What is there afterwards: all entries but the name's - or, if its record spills, but those of its block. */
  ghost predicate Loses(rs: seq<seq<Rec>>, name: seq<Byte>, rs': seq<seq<Rec>>)
    requires FirstWith(rs, name) < |rs|
  {
    var recs := rs[FirstWith(rs, name)];
    forall e {:trigger e in MapOf(rs)} ::
      IsLive(rs', e) <==> e in MapOf(rs) && if Spills(rs, name) then e !in Map(recs) else e != EntryOf(recs[Find(recs, name)])
  }

  lemma RemovedLoses(rs: seq<seq<Rec>>, name: seq<Byte>)
    requires BlocksOk(rs) && FirstWith(rs, name) < |rs|
    ensures Loses(rs, name, Removed(rs, name))
  {
    forall e ensures var recs := rs[FirstWith(rs, name)];
      IsLive(Removed(rs, name), e) <==> e in MapOf(rs) && if Spills(rs, name) then e !in Map(recs) else e != EntryOf(recs[Find(recs, name)])
    {
      RemovedLives(rs, name, e);
    }
  }

  /** remove_inode_dir takes out the name and nothing else, if and only if the record does not spill. */
  lemma RemovedIff(rs: seq<seq<Rec>>, name: seq<Byte>)
    requires BlocksOk(rs) && FirstWith(rs, name) < |rs|
    ensures var k := FirstWith(rs, name);
      (forall p :: IsLive(Removed(rs, name), p) <==> p in MapOf(rs) && p != EntryOf(rs[k][Find(rs[k], name)])) <==> !Spills(rs, name)
  {
    var k := FirstWith(rs, name);
    if Spills(rs, name) {
      Another(rs[k]);
      var p := EntryOf(rs[k][1]);
      assert rs[k][1] in rs[k] && p in Map(rs[k]);
      InMapOf(rs, p);
      RemovedLives(rs, name, p);
    } else {
      forall p ensures IsLive(Removed(rs, name), p) <==> p in MapOf(rs) && p != EntryOf(rs[k][Find(rs[k], name)]) {
        RemovedLives(rs, name, p);
      }
    }
  }

  /** A record that leaves room in its block is not alone. */
  lemma Another(recs: seq<Rec>)
    requires DirOk(recs) && recs[0].rec_len < BLOCK
    ensures |recs| > 1 && recs[1].name != recs[0].name
  {
    TotalOf(recs[0]);
    TotalAppend([recs[0]], recs[1..]);
    assert recs == [recs[0]] + recs[1..];
    assert Total(recs[1..]) > 0;
    assert Pair(0, 1) && Names(recs)[0] == recs[0].name && Names(recs)[1] == recs[1].name;
  }

  /** i_size counts the first record of every block. */
  lemma UsedAtLeast(rs: seq<seq<Rec>>, k: nat)
    requires k < |rs| && rs[k] != []
    ensures UsedOf(rs) >= Fit(|rs[k][0].name|)
  {
    UsedOfUpdate(rs, k, []);
    TotalAppend([rs[k][0]], rs[k][1..]);
    TotalOf(rs[k][0]);
    assert rs[k] == [rs[k][0]] + rs[k][1..];
  }

  lemma AtStart(recs: seq<Rec>, i: nat)
    requires DirOk(recs) && i < |recs|
    ensures Start(recs, i) == 0 <==> i == 0
  {
    if i > 0 {
      StartAscends(recs, 0, i);
      assert RecOk(recs[0]);
    } else {
      assert recs[..0] == [];
    }
  }

  /** Two records, the first of which has all the bytes that a block has without it: with it, the second one goes. */
  lemma SpillExample(a: seq<Byte>, b: seq<Byte>, inode: nat, kind: Byte)
    requires |a| == 5 && |b| == 1 && 0 < inode < 0x1_0000_0000 && kind != EXT2_FT_FREE
    ensures var rs := [[Rec(inode, 2032, a, kind), Rec(inode, 16, b, kind)]];
      BlocksOk(rs) && FirstWith(rs, a) == 0 && Entry(b, inode, kind) in MapOf(rs) && !IsLive(Removed(rs, a), Entry(b, inode, kind))
  {
    var recs := [Rec(inode, 2032, a, kind), Rec(inode, 16, b, kind)];
    TwoOk(recs);
    var rs := [recs];
    assert Find(recs, a) == 0 && Has(recs, a);
    FirstWithIs(rs, a, 0);
    InMapOf(rs, Entry(b, inode, kind));
    assert recs[1] in recs && Entry(b, inode, kind) in Map(recs) && rs[0] == recs;
    RemovedLives(rs, a, Entry(b, inode, kind));
  }

  lemma TwoOk(recs: seq<Rec>)
    requires |recs| == 2 && RecOk(recs[0]) && RecOk(recs[1]) && recs[0].rec_len + recs[1].rec_len == BLOCK
    requires recs[0].name != recs[1].name
    ensures DirOk(recs)
  {
    TotalAppend([recs[0]], [recs[1]]);
    TotalOf(recs[0]);
    TotalOf(recs[1]);
    assert recs == [recs[0]] + [recs[1]];
  }

  // ----- the inode of a directory -----

  /** The number of data blocks of a small file. */
  lemma SmallFile(v: Volume, n: nat, id: nat)
    requires Consistent(v, n) && id in v.trees && id in v.inodes
    ensures v.inodes[id].i_blocks <= 12 <==> |v.trees[id].data| <= 12
    ensures |v.trees[id].data| <= 12 ==> v.inodes[id].i_blocks == |v.trees[id].data|
    ensures |v.trees[id].data| < 12 ==> IndexCost(v.trees[id]) == 0
  {
    assert InodeOk(v, id, n);
    CountIs(v.trees[id]);
  }

  class Dir {
    const fs: FileSystem
    const id: nat
    var data: seq<seq<Byte>>          // the contents of the blocks
    var i_size: nat
    ghost var recs: seq<seq<Rec>>

    ghost predicate Hold()
      reads this
    {
      |data| == |recs| && BlocksOk(recs) && forall i {:trigger data[i]} :: 0 <= i < |data| ==> Tiles(data[i], recs[i])
    }

    /** The records tile the blocks, some of them marked as free perhaps. */
    ghost predicate Stands()
      reads this
    {
      |data| == |recs| && forall i {:trigger data[i]} :: 0 <= i < |data| ==> Tiles(data[i], recs[i])
    }

    ghost predicate Sound()
      reads this, fs
    {
      && fs.Valid() && id in fs.trees && id in fs.inodes && fs.inodes[id].i_blocks == |data| <= L_DIRECT
      && Hold()
    }

    ghost predicate Valid()
      reads this, fs
    {
      Sound() && i_size == UsedOf(recs)
    }

    /** An inode without blocks. */
    constructor (f: FileSystem, inode: nat)
      requires f.Valid() && inode in f.trees && inode in f.inodes && f.inodes[inode].i_blocks == 0
      ensures Valid() && fs == f && id == inode && data == [] && recs == [] && i_size == 0
    {
      fs, id, data, i_size, recs := f, inode, [], 0, [];
    }

    /** Block k, as it is read from the disk. */
    method ReadBlock(k: nat) returns (b: DirBlock)
      requires Hold() && k < |data|
      ensures fresh(b) && fresh(b.block) && b.Valid() && b.recs == recs[k]
    {
      assert Tiles(data[k], recs[k]) && DirOk(recs[k]) && NoneFree(recs[k]);
      b := new DirBlock.Read(data[k], recs[k]);
    }

    /** save_fs_block on block k. */
    method SaveBlock(k: nat, b: DirBlock)
      requires Hold() && k < |data| && b.Valid() && BlocksOk(recs[k := b.recs])
      modifies this`data, this`recs
      ensures Hold() && |data| == |old(data)| && recs == old(recs)[k := b.recs]
    {
      data := data[k := b.block[..]];
      recs := recs[k := b.recs];
    }

    /** The inode that block k has for the name, or 0. */
    method LookIn(k: nat, name: seq<Byte>) returns (inode: nat)
      requires Hold() && k < |data|
      ensures inode == if Has(recs[k], name) then recs[k][Find(recs[k], name)].inode else 0
      ensures Has(recs[k], name) <==> inode > 0
    {
      var b := ReadBlock(k);
      inode := b.Lookup(name);
      FindIsLookup(recs[k], name);
    }

    /** The search through the blocks: where the name is, and its inode, which is not 0. */
    method Search(name: seq<Byte>) returns (k: nat, inode: nat)
      requires Hold()
      ensures k == FirstWith(recs, name) && (k < |recs| <==> inode > 0)
      ensures inode == if k < |recs| then recs[k][Find(recs[k], name)].inode else 0
    {
      k, inode := 0, 0;
      while k < |data| && inode == 0
        invariant k <= |data| && (inode == 0 || k < |data|)
        invariant inode != 0 ==> Has(recs[k], name) && inode == recs[k][Find(recs[k], name)].inode
        invariant forall j {:trigger recs[j]} :: 0 <= j < k ==> !Has(recs[j], name)
        decreases |data| - k, if inode == 0 then 1 else 0
      {
        inode := LookIn(k, name);
        if inode == 0 {
          k := k + 1;
        }
      }
      FirstWithIs(recs, name, k);
    }

    /** look_for_inode_dir */
    method LookFor(name: seq<Byte>) returns (inode: nat)
      requires Hold()
      ensures name == [] ==> inode == 0xFFFF_FFFF
      ensures name != [] && inode != 0 ==> (exists e :: e in MapOf(recs) && e.name == name)
      ensures name != [] && inode != 0 ==> forall e :: e in MapOf(recs) && e.name == name ==> e.inode == inode
      ensures name != [] && inode == 0 ==> forall e :: e in MapOf(recs) ==> e.name != name
      ensures name != [] ==> (inode == 0 <==> FirstWith(recs, name) == |recs|)
    {
      if |name| == 0 {
        return 0xFFFF_FFFF;
      }
      LookupIs(recs, name);
      var k;
      k, inode := Search(name);
      assert inode != 0 ==> EntryOf(recs[k][Find(recs[k], name)]) in MapOf(recs);
    }

    /** The entry goes into block k, if there is room. */
    method AddIn(k: nat, inode: nat, kind: Byte, name: seq<Byte>) returns (found: bool)
      requires Hold() && k < |data| && 0 < inode < 0x1_0000_0000 && kind != EXT2_FT_FREE && 0 < |name| <= 255
      requires FirstWith(recs, name) == |recs| && FirstRoom(recs, Fit(|name|)) >= k
      modifies this`data, this`recs
      ensures Hold() && |data| == |old(data)| && (found <==> k == FirstRoom(old(recs), Fit(|name|)))
      ensures !found ==> data == old(data) && recs == old(recs) && FirstRoom(recs, Fit(|name|)) > k
      ensures found ==> MapOf(recs) == MapOf(old(recs)) + {Entry(name, inode, kind)} && UsedOf(recs) == UsedOf(old(recs)) + Fit(|name|)
    {
      var b := ReadBlock(k);
      FirstRoomStep(recs, Fit(|name|), k);
      assert !Has(recs[k], name);
      found := b.AddTo(inode, kind, name);
      if found {
        AddedToBlock(recs, k, inode, name, kind);
        SaveBlock(k, b);
      }
    }

    /** The loop over the blocks. */
    method AddToSome(inode: nat, kind: Byte, name: seq<Byte>) returns (found: bool)
      requires Hold() && 0 < inode < 0x1_0000_0000 && kind != EXT2_FT_FREE && 0 < |name| <= 255 && FirstWith(recs, name) == |recs|
      modifies this`data, this`recs
      ensures Hold() && |data| == |old(data)| && (found <==> FirstRoom(old(recs), Fit(|name|)) < |old(recs)|)
      ensures !found ==> data == old(data) && recs == old(recs)
      ensures found ==> MapOf(recs) == MapOf(old(recs)) + {Entry(name, inode, kind)} && UsedOf(recs) == UsedOf(old(recs)) + Fit(|name|)
    {
      found := false;
      var blk := 0;
      while blk < |data| && !found
        invariant Hold() && |data| == |old(data)| && blk <= |data|
        invariant !found ==> data == old(data) && recs == old(recs) && FirstRoom(recs, Fit(|name|)) >= blk
        invariant found ==> FirstRoom(old(recs), Fit(|name|)) < |old(recs)|
        invariant found ==> MapOf(recs) == MapOf(old(recs)) + {Entry(name, inode, kind)} && UsedOf(recs) == UsedOf(old(recs)) + Fit(|name|)
      {
        found := AddIn(blk, inode, kind, name);
        blk := blk + 1;
      }
    }

    /** add_data_block_inode on the directory, which has fewer than twelve blocks. */
    method GrowFile() returns (rc: int)
      requires fs.Valid() && id in fs.trees && id in fs.inodes && fs.inodes[id].i_blocks < L_DIRECT
      modifies fs
      ensures fs.Valid() && id in fs.trees && id in fs.inodes && (rc == 0 || rc == -1) && (rc == 0 <==> old(fs.free) % SHORT != 0)
      ensures fs.inodes[id].i_blocks == old(fs.inodes)[id].i_blocks + if rc == 0 then 1 else 0
    {
      ghost var b;
      SmallFile(fs.View(), fs.blocks, id);
      rc, b := fs.AddDataBlock(id);
      SmallFile(fs.View(), fs.blocks, id);
    }

    /** A new block for the entry, if the volume has one. */
    method AddBlock(inode: nat, kind: Byte, name: seq<Byte>) returns (rc: int)
      requires Sound() && |data| < L_DIRECT && 0 < inode < 0x1_0000_0000 && kind != EXT2_FT_FREE && 0 < |name| <= 255
      requires FirstWith(recs, name) == |recs|
      modifies this`data, this`recs, fs
      ensures Sound() && (rc == 0 || rc == -1) && (rc == 0 <==> old(fs.free) % SHORT != 0)
      ensures rc == -1 ==> data == old(data) && recs == old(recs)
      ensures rc == 0 ==> MapOf(recs) == MapOf(old(recs)) + {Entry(name, inode, kind)} && UsedOf(recs) == UsedOf(old(recs)) + Fit(|name|)
    {
      rc := GrowFile();
      if rc == 0 {
        Append(inode, kind, name);
      }
    }

    /** The entry is alone in a block of its own. */
    method Append(inode: nat, kind: Byte, name: seq<Byte>)
      requires Hold() && 0 < inode < 0x1_0000_0000 && kind != EXT2_FT_FREE && 0 < |name| <= 255 && FirstWith(recs, name) == |recs|
      modifies this`data, this`recs
      ensures Hold() && |data| == |old(data)| + 1
      ensures MapOf(recs) == MapOf(old(recs)) + {Entry(name, inode, kind)} && UsedOf(recs) == UsedOf(old(recs)) + Fit(|name|)
    {
      var d := new DirBlock(inode, kind, name);
      AddedBlock(recs, inode, name, kind);
      data := data + [d.block[..]];
      recs := recs + [d.recs];
    }

    /**
     remove_inode_dir. A record that is not the first of its block goes to the one before it; the first one
     is marked as free, unless its length is what a whole block has without it: then the last block of the
     directory is to be given back (`dropped`), and any other one is emptied. A directory without blocks
     reports success.
     */
    method Remove(name: seq<Byte>) returns (rc: int, dropped: bool)
      requires Valid() && |name| <= 255
      modifies this`data, this`i_size, this`recs
      ensures (rc == 0 || rc == -1) && Stands()
      ensures rc == 0 <==> name != [] && !IsDots(name) && (old(data) == [] || FirstWith(old(recs), name) < |old(recs)|)
      ensures rc == -1 || old(data) == [] ==> data == old(data) && recs == old(recs) && i_size == old(i_size) && !dropped
      ensures rc == 0 && old(data) != [] ==>
        && recs == Removed(old(recs), name) && i_size == old(i_size) - (if dropped then 0 else Fit(|name|))
        && (dropped <==> Spills(old(recs), name) && FirstWith(old(recs), name) == |old(recs)| - 1)
      ensures rc == 0 && old(data) != [] ==> Loses(old(recs), name, recs)
      ensures Valid() <==> rc == -1 || old(data) == [] || !IsFirst(old(recs), name)
    {
      if |name| == 0 {
        return -1, false;
      }
      if IsDots(name) {
        return -1, false;
      }
      if |data| == 0 {
        return 0, false;
      }
      var k, inode := Search(name);
      if k == |data| {
        return -1, false;
      }
      rc := 0;
      RemovedLoses(recs, name);
      dropped := RemoveAt(k, name);
    }

    method RemoveAt(k: nat, name: seq<Byte>) returns (dropped: bool)
      requires Valid() && k == FirstWith(recs, name) < |recs| && 0 < |name| <= 255
      modifies this`data, this`i_size, this`recs
      ensures recs == Removed(old(recs), name) && Stands()
      ensures i_size == old(i_size) - (if dropped then 0 else Fit(|name|))
      ensures dropped <==> Spills(old(recs), name) && k == |old(recs)| - 1
      ensures Valid() <==> !IsFirst(old(recs), name)
    {
      var b := ReadBlock(k);
      var found, pos, previous;
      ghost var i;
      found, pos, previous, i := b.Scan(name);
      AtStart(recs[k], i);
      dropped := false;
      if pos == 0 {
        dropped := RemoveFirst(k, b, name);
      } else {
        RemoveLater(k, name);
      }
    }

    /** The record before it takes its room. */
    method RemoveLater(k: nat, name: seq<Byte>)
      requires Valid() && k == FirstWith(recs, name) < |recs| && Find(recs[k], name) > 0
      modifies this`data, this`i_size, this`recs
      ensures Valid() && recs == Removed(old(recs), name) && i_size == old(i_size) - Fit(|name|)
    {
      RemovedFromBlock(recs, name);
      i_size := i_size - Fit(|name|);
      RemoveIn(k, name);
    }

    /** The block whose first record is to go has been read. */
    method RemoveFirst(k: nat, b: DirBlock, name: seq<Byte>) returns (dropped: bool)
      requires Valid() && k == FirstWith(recs, name) < |recs| && Find(recs[k], name) == 0 && 0 < |name| <= 255
      requires b.Valid() && b.recs == recs[k]
      modifies this`data, this`i_size, this`recs, b`recs, b.block
      ensures recs == Removed(old(recs), name) && Stands() && !Valid()
      ensures i_size == old(i_size) - (if dropped then 0 else Fit(|name|))
      ensures dropped <==> Spills(old(recs), name) && k == |old(recs)| - 1
    {
      UsedAtLeast(recs, k);
      var rec_len := b.FirstLength();
      dropped := BLOCK - Fit(|name|) == rec_len && k == |data| - 1;
      if dropped {
        DropLast();
      } else {
        i_size := i_size - Fit(|name|);
        ChangeFirst(k, b, BLOCK - Fit(|name|) == rec_len);
      }
    }

    /** The last block is not one of the directory's any more. */
    method DropLast()
      requires Sound() && data != []
      modifies this`data, this`recs
      ensures recs == old(recs)[..|old(recs)| - 1] && Stands() && |data| < |old(data)|
    {
      data, recs := data[..|data| - 1], recs[..|recs| - 1];
    }

    /** The first record is marked as free; it may take the whole block. */
    method ChangeFirst(k: nat, b: DirBlock, whole: bool)
      requires Hold() && k < |recs| && b.Valid() && b.recs == recs[k]
      modifies this`data, this`recs, b`recs, b.block
      ensures Stands() && !BlocksOk(recs)
      ensures recs == old(recs)[k := if whole then Emptied(old(recs)[k]) else Freed(old(recs)[k])]
    {
      if whole {
        b.EmptyFirst();
      } else {
        b.FreeFirst();
      }
      data, recs := data[k := b.block[..]], recs[k := b.recs];
      assert recs[k][0].kind == EXT2_FT_FREE && !NoneFree(recs[k]);
    }

    method RemoveIn(k: nat, name: seq<Byte>)
      requires Hold() && k == FirstWith(recs, name) < |recs| && Find(recs[k], name) > 0
      requires BlocksOk(recs[k := Merge(recs[k], Find(recs[k], name))])
      modifies this`data, this`recs
      ensures Hold() && |data| == |old(data)| && recs == old(recs)[k := Merge(old(recs)[k], Find(old(recs)[k], name))]
    {
      var b := ReadBlock(k);
      var found := b.RemoveFrom(name);
      SaveBlock(k, b);
    }

    /**
     add_inode_directory. It fails if the name cannot be added or is there already, or if no block has
     room for it and there is no new one to be had; in the last case i_size has grown all the same.
     */
    method Add(inode: nat, kind: Byte, name: seq<Byte>) returns (rc: int)
      requires Valid() && inode < 0x1_0000_0000 && kind != EXT2_FT_FREE && |name| <= 255
      modifies this`data, this`i_size, this`recs, fs
      ensures Sound() && (rc == 0 || rc == -1)
      ensures rc == 0 <==> Fresh(inode, name, old(recs)) && !NoPlace(Fit(|name|), old(recs), old(fs.free))
      ensures rc == 0 ==> Valid() && MapOf(recs) == MapOf(old(recs)) + {Entry(name, inode, kind)}
      ensures rc == -1 ==> data == old(data) && recs == old(recs)
      ensures i_size == old(i_size) + if Fresh(inode, name, old(recs)) then Fit(|name|) else 0
    {
      if inode == 0 {
        return -1;
      }
      var existing := LookFor(name);
      if existing > 0 {
        return -1;
      }
      i_size := i_size + Fit(|name|);
      rc := Place(inode, kind, name);
    }

    /** The entry goes into the first block with room, or into a new block. */
    method Place(inode: nat, kind: Byte, name: seq<Byte>) returns (rc: int)
      requires Sound() && 0 < inode < 0x1_0000_0000 && kind != EXT2_FT_FREE && 0 < |name| <= 255
      requires FirstWith(recs, name) == |recs|
      modifies this`data, this`recs, fs
      ensures Sound() && (rc == 0 || rc == -1) && (rc == -1 <==> NoPlace(Fit(|name|), old(recs), old(fs.free)))
      ensures rc == -1 ==> data == old(data) && recs == old(recs)
      ensures rc == 0 ==> MapOf(recs) == MapOf(old(recs)) + {Entry(name, inode, kind)} && UsedOf(recs) == UsedOf(old(recs)) + Fit(|name|)
    {
      if |data| == 0 {
        rc := AddBlock(inode, kind, name);
      } else {
        var found := AddToSome(inode, kind, name);
        rc := if found then 0 else -1;
        if !found && |data| < L_DIRECT {
          rc := AddBlock(inode, kind, name);
        }
      }
    }
  }

  /** A volume of 65537 blocks: the first entry of a directory cannot be added, and i_size says that it is there. */
  method FirstEntryExample() returns (d: Dir, rc: int)
    ensures rc == -1 && d.recs == [] && d.i_size == 12
  {
    var content := seq(65537, _ => Zeros());
    var fs := new FileSystem(65537, 5, {0}, content);
    assert 0 in fs.trees.Keys;
    SmallFile(fs.View(), fs.blocks, 0);
    d := new Dir(fs, 0);
    assert Fresh(2, DOT, d.recs) && NoPlace(Fit(1), d.recs, fs.free);
    rc := d.Add(2, 2, DOT);
  }

  /** The name can be added, and is not there yet. */
  predicate Fresh(inode: nat, name: seq<Byte>, rs: seq<seq<Rec>>) {
    inode != 0 && name != [] && FirstWith(rs, name) == |rs|
  }

  /** No block has room, and no other block can be had. */
  predicate NoPlace(need: nat, rs: seq<seq<Rec>>, free: nat) {
    FirstRoom(rs, need) == |rs| && (|rs| >= L_DIRECT || free % SHORT == 0)
  }
}
