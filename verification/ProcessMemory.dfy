/**
 The memory of a process (src/kernel/process/process_memory.c:45-373, 563-810): frames are taken from
 the allocator, tables are linked, and pages are mapped one by one. Allocation succeeds.
 */
module ProcessMemory {
  import opened Marks
  import opened PageTables
  import opened AddressSpace
  import opened TableList
  import opened PageOutcomes
  import FrameDist

  const START_HEAP: nat := 0x5000_0000    // start_heap_add: 0x40000000 and 128 tables of 512 pages

  function ZeroTable(): (t: seq<Pte>)
    ensures |t| == 512 && forall i :: 0 <= i < 512 ==> t[i] == EMPTY_PTE
  {
    seq(512, _ => EMPTY_PTE)
  }

  function ZeroBytes(): (b: seq<nat>)
    ensures |b| == FRAME_SIZE && forall i :: 0 <= i < FRAME_SIZE ==> b[i] == 0
  {
    seq(FRAME_SIZE, _ => 0)
  }

  /** Physical memory: what is in the frames that are in use. */
  class Machine {
    const frames: FrameDist.Frames
    var mem: Mem
    ghost const total: nat

    ghost predicate Valid()
      reads this, frames
    {
      && frames.Valid() && frames.end <= FRAME_LIMIT
      && (forall f :: f in frames.free ==> f !in mem)
      && (forall f {:trigger f in mem} :: f in mem ==> f < FRAME_LIMIT)
      && |mem.Keys| + |frames.free| == total
    }

    constructor (f: FrameDist.Frames)
      requires f.Valid() && f.end <= FRAME_LIMIT
      ensures Valid() && frames == f && mem == map[]
    {
      frames, mem, total := f, map[], |f.free|;
      new;
      assert frames.Valid();
    }

    /** get_frame, and what is put into the frame; 0 when the last one is left. */
    method Take(content: Content) returns (f: nat)
      requires Valid()
      modifies this, frames
      ensures Valid() && (f == 0 <==> |old(frames.free)| == 1)
      ensures f == 0 ==> mem == old(mem) && |frames.free| == |old(frames.free)|
      ensures f != 0 ==> f !in old(mem) && f < FRAME_LIMIT && mem == old(mem)[f := content]
      ensures f != 0 ==> |frames.free| == |old(frames.free)| - 1
    {
      ghost var free := frames.free;
      f := frames.GetFrame();
      if f != 0 {
        FirstApart(free);
        assert mem[f := content].Keys == mem.Keys + {f};
        mem := mem[f := content];
      }
    }

    /** configure_page_entry on entry i of a table; e is what it leaves there. */
    method Configure(table: nat, i: nat, frame: nat, read: bool, write: bool, exec: bool, user: bool) returns (ghost e: Pte)
      requires Valid() && IsTable(mem, table) && i < 512 && frame < FRAME_LIMIT
      modifies this`mem
      ensures e.valid && e.read == read && e.write == write && e.exec == exec && e.user == user && FrameOf(e) == frame
      ensures Valid() && mem == old(mem)[table := Table(old(mem)[table].ptes[i := e])]
    {
      e := Configured(frame, read, write, exec, user);
      LinkedFrame(frame, read, write, exec, user);
      SameKeys(mem, table, Table(mem[table].ptes[i := e]));
      mem := mem[table := Table(mem[table].ptes[i := Configured(frame, read, write, exec, user)])];
    }
  }

  lemma SameKeys(mem: Mem, f: nat, content: Content)
    requires f in mem
    ensures mem[f := content].Keys == mem.Keys
  {
  }

  /** CUSTOM_MOD_DIV(n, FRAME_SIZE) */
  function FramesFor(n: nat): (f: nat)
    ensures FRAME_SIZE * f >= n && (f > 0 ==> FRAME_SIZE * (f - 1) < n)
  {
    if n % FRAME_SIZE > 0 then n / FRAME_SIZE + 1 else n / FRAME_SIZE
  }

  lemma FirstApart(free: seq<nat>)
    requires free != []
    ensures forall f :: f in free[1..] ==> f in free
    ensures free[0] in free
  {
  }

  /** A level 1 entry for a new table. */
  lemma LinkedTable(mem: Mem, mem1: Mem, mem': Mem, lvl1: nat, i: nat, nt: nat, e: Pte)
    requires IsTable(mem, lvl1) && nt !in mem && i < 512 && Leads(e) && FrameOf(e) == nt
    requires mem1 == mem[nt := Table(ZeroTable())]
    requires mem' == mem1[lvl1 := Table(mem1[lvl1].ptes[i := e])]
    ensures TableAdded(mem, mem', lvl1, i, nt)
  {
    forall f: nat ensures Kept(mem, mem', lvl1, f) {
    }
  }

  /** A level 0 entry for a new page. */
  lemma MappedPage(mem: Mem, mem1: Mem, mem': Mem, tb: nat, slot: nat, r: nat, data: seq<nat>, e: Pte, exec: bool)
    requires IsTable(mem, tb) && r !in mem && |data| == FRAME_SIZE && slot < 512 && Permits(e, exec) && FrameOf(e) == r
    requires mem1 == mem[r := Bytes(data)]
    requires mem' == mem1[tb := Table(mem1[tb].ptes[slot := e])]
    ensures PageAdded(mem, mem', tb, slot, r, exec)
  {
    forall f: nat ensures Kept(mem, mem', tb, f) {
    }
  }

  /** Everything that was in memory is still there; bytes have not changed. */
  ghost predicate Unharmed(mem: Mem, mem': Mem) {
    forall f {:trigger f in mem} {:trigger f in mem'} :: f in mem ==> f in mem' && (mem[f].Bytes? ==> mem'[f] == mem[f])
  }

  /** Nothing that was in memory at base has changed. */
  ghost predicate Extends(base: Mem, mem: Mem) {
    forall f: nat {:trigger f in base} {:trigger f in mem} :: f in base ==> f in mem && mem[f] == base[f]
  }

  /** The tables of a process have come after base, and leave it alone. */
  ghost predicate Apart(base: Mem, mem: Mem, lvl1: nat) {
    && Extends(base, mem) && lvl1 !in base
    && forall i: nat {:trigger Entry(mem, lvl1, i)} :: Entry(mem, lvl1, i).valid ==> FrameOf(Entry(mem, lvl1, i)) !in base
  }

  /** A process's own root table is one of the things that its tables leave alone. */
  lemma RootApart(mem: Mem, lvl2: nat, lvl1: nat)
    requires Tree(mem, lvl2, lvl1)
    ensures Apart(map[lvl2 := mem[lvl2]], mem, lvl1)
  {
    forall i: nat | Entry(mem, lvl1, i).valid ensures FrameOf(Entry(mem, lvl1, i)) != lvl2 {
      assert LinkOk(mem, lvl2, lvl1, i);
    }
  }

  lemma PageApart(base: Mem, mem: Mem, mem': Mem, lvl2: nat, lvl1: nat, i: nat, slot: nat, r: nat, exec: bool)
    requires Apart(base, mem, lvl1) && Tree(mem, lvl2, lvl1) && Entry(mem, lvl1, i).valid
    requires PageAdded(mem, mem', FrameOf(Entry(mem, lvl1, i)), slot, r, exec)
    ensures Apart(base, mem', lvl1)
  {
    PageAddedTree(mem, mem', lvl2, lvl1, i, slot, r, exec);
    forall f: nat | f in base ensures f in mem' && mem'[f] == base[f] {
      assert Kept(mem, mem', FrameOf(Entry(mem, lvl1, i)), f);
    }
    assert forall j: nat :: Entry(mem', lvl1, j) == Entry(mem, lvl1, j);
  }

  lemma TableApart(base: Mem, mem: Mem, mem': Mem, lvl1: nat, i: nat, nt: nat)
    requires Apart(base, mem, lvl1) && TableAdded(mem, mem', lvl1, i, nt)
    ensures Apart(base, mem', lvl1)
  {
    forall f: nat | f in base ensures f in mem' && mem'[f] == base[f] {
      assert Kept(mem, mem', lvl1, f);
    }
    forall j: nat | Entry(mem', lvl1, j).valid ensures FrameOf(Entry(mem', lvl1, j)) !in base {
      if j != i {
        assert Entry(mem', lvl1, j) == Entry(mem, lvl1, j);
      }
    }
  }

  lemma EmptySpace(mem: Mem, lvl2: nat, lvl1: nat)
    requires IsTable(mem, lvl2) && lvl1 != lvl2 && EmptyTable(mem, lvl1)
    requires Leads(Entry(mem, lvl2, USERSPACE)) && FrameOf(Entry(mem, lvl2, USERSPACE)) == lvl1
    ensures Space(mem, lvl2, lvl1, Pages([], [], [])) && OnlyUsed(mem, lvl1, Pages([], [], []))
    ensures ListOk(mem, lvl1, [], Pages([], [], []))
  {
    assert forall i: nat :: Entry(mem, lvl1, i) == EMPTY_PTE;
    forall i: nat ensures LinkOk(mem, lvl2, lvl1, i) {
    }
    forall kind: Kind ensures AllListed([], kind, |Of(Pages([], [], []), kind)|) {
    }
  }

  ghost function More(pages: Pages, kind: Kind, r: nat): Pages {
    With(pages, kind, Of(pages, kind) + [r])
  }

  /** The page tables and the list of them hold the pages. */
  ghost predicate Laid(mem: Mem, lvl2: nat, lvl1: nat, nodes: seq<Node>, pages: Pages) {
    Space(mem, lvl2, lvl1, pages) && ListOk(mem, lvl1, nodes, pages) && OnlyUsed(mem, lvl1, pages)
  }

  /** A new frame of zeros; everything else that is in use is still there, and no bytes have changed. */
  ghost predicate Zeroed(mem: Mem, mem': Mem, frame: nat) {
    frame !in mem && frame in mem' && mem'[frame] == Bytes(ZeroBytes()) && Unharmed(mem, mem')
  }

  /** Where the next page goes if some table of its kind has room. */
  lemma RoomPlace(mem: Mem, lvl2: nat, lvl1: nat, nodes: seq<Node>, pages: Pages, kind: Kind, i: nat)
    requires Laid(mem, lvl2, lvl1, nodes, pages) && i == FindRoom(nodes, kind) < |nodes|
    ensures var n, node := |Of(pages, kind)|, nodes[i];
      && IsTable(mem, node.table) && n % 512 != 0 && node.usage == n % 512 && node.kind == kind && IndexOf(kind, n / 512) == node.index
      && Entry(mem, lvl1, node.index).valid && FrameOf(Entry(mem, lvl1, node.index)) == node.table
  {
    RoomFound(mem, lvl1, nodes, pages, kind);
    assert NodeOk(mem, lvl1, nodes[i], |Of(pages, kind)|);
    assert LinkOk(mem, lvl2, lvl1, nodes[i].index);
    IndexOfNumber(nodes[i]);
  }

  lemma IndexOfNumber(node: Node)
    requires NumberOf(node) >= 0
    ensures IndexOf(node.kind, NumberOf(node)) == node.index
  {
  }

  lemma ExistingPage(mem: Mem, mem': Mem, lvl2: nat, lvl1: nat, nodes: seq<Node>, pages: Pages, kind: Kind, i: nat, slot: nat, r: nat)
    requires Laid(mem, lvl2, lvl1, nodes, pages) && i == FindRoom(nodes, kind) < |nodes| && Fits(More(pages, kind, r))
    requires slot == Slot(kind, |Of(pages, kind)| % 512) && PageAdded(mem, mem', nodes[i].table, slot, r, kind == CODE_PAGE)
    ensures Laid(mem', lvl2, lvl1, Filled(nodes, i), More(pages, kind, r))
  {
    RoomPlace(mem, lvl2, lvl1, nodes, pages, kind, i);
    UsedMore(mem, lvl1, pages, kind, r);
    PagePlaced(mem, mem', lvl2, lvl1, pages, kind, nodes[i].table, slot, r);
    FilledOk(mem, mem', lvl1, nodes, pages, kind, r);
  }

  /** The counters say how many tables and pages there are. */
  ghost predicate Counted(ct: nat, st: nat, ht: nat, cu: nat, su: nat, hu: nat, pages: Pages) {
    && ct == Tables(|pages.code|) && st == Tables(|pages.stack|) && ht == Tables(|pages.heap|)
    && cu == |pages.code| && su == |pages.stack| && hu == |pages.heap|
  }

  function One(a: Kind, b: Kind): nat {
    if a == b then 1 else 0
  }

  lemma CountedMore(ct: nat, st: nat, ht: nat, cu: nat, su: nat, hu: nat, pages: Pages, kind: Kind, r: nat)
    requires Counted(ct, st, ht, cu, su, hu, pages)
    ensures |Of(pages, kind)| % 512 != 0 ==>
      Counted(ct, st, ht, cu + One(kind, CODE_PAGE), su + One(kind, STACK_PAGE), hu + One(kind, HEAP_PAGE), More(pages, kind, r))
    ensures |Of(pages, kind)| % 512 == 0 ==>
      Counted(ct + One(kind, CODE_PAGE), st + One(kind, STACK_PAGE), ht + One(kind, HEAP_PAGE),
              cu + One(kind, CODE_PAGE), su + One(kind, STACK_PAGE), hu + One(kind, HEAP_PAGE), More(pages, kind, r))
  {
    TablesGrow(|Of(pages, kind)|);
    if |Of(pages, kind)| % 512 == 0 {
      TablesExact(|Of(pages, kind)|);
    }
  }

  /** A round that makes a page has room for it in its region. */
  lemma FitsMore(pages: Pages, kind: Kind, free: nat, r: nat)
    requires Fits(pages) && RegionsApart(pages, kind, 1) && !AddFails(pages, kind, free)
    ensures Fits(More(pages, kind, r))
  {
    HeapTables(|pages.heap|);
  }

  lemma HeapTables(h: nat)
    ensures h % 512 == 0 && Tables(h) < 128 ==> h < 65536
    ensures h % 512 != 0 && h <= 65536 ==> h < 65536
  {
  }

  /** A page in a table that level 1 leads to. */
  lemma PagePlaced(mem: Mem, mem': Mem, lvl2: nat, lvl1: nat, pages: Pages, kind: Kind, tb: nat, slot: nat, r: nat)
    requires Space(mem, lvl2, lvl1, pages) && Fits(More(pages, kind, r))
    requires var n := |Of(pages, kind)|; IndexOf(kind, n / 512) >= 0 && slot == Slot(kind, n % 512)
    requires var e := Entry(mem, lvl1, IndexOf(kind, |Of(pages, kind)| / 512)); e.valid && FrameOf(e) == tb
    requires PageAdded(mem, mem', tb, slot, r, kind == CODE_PAGE)
    ensures Space(mem', lvl2, lvl1, More(pages, kind, r)) && SameLinks(mem, mem', lvl1)
    ensures OnlyUsed(mem, lvl1, More(pages, kind, r)) ==> OnlyUsed(mem', lvl1, More(pages, kind, r))
  {
    PageAddedTree(mem, mem', lvl2, lvl1, IndexOf(kind, |Of(pages, kind)| / 512), slot, r, kind == CODE_PAGE);
    PageAddedPages(mem, mem', lvl2, lvl1, pages, kind, r);
    PageAddedOwn(mem, lvl1, pages, kind, r);
    assert forall i: nat :: Entry(mem', lvl1, i) == Entry(mem, lvl1, i);
  }

  lemma UsedMore(mem: Mem, lvl1: nat, pages: Pages, kind: Kind, r: nat)
    requires OnlyUsed(mem, lvl1, pages)
    ensures OnlyUsed(mem, lvl1, More(pages, kind, r))
  {
    forall i: nat | Entry(mem, lvl1, i).valid ensures UsedIndex(More(pages, kind, r), i) {
      UsedGrows(pages, kind, r, i);
    }
  }

  /** A new table at the next free entry of level 1. */
  lemma TablePlaced(mem: Mem, mem': Mem, lvl2: nat, lvl1: nat, pages: Pages, kind: Kind, i: nat, nt: nat, r: nat)
    requires Space(mem, lvl2, lvl1, pages) && OnlyUsed(mem, lvl1, pages) && Fits(More(pages, kind, r))
    requires |Of(pages, kind)| % 512 == 0 && i == IndexOf(kind, |Of(pages, kind)| / 512) && TableAdded(mem, mem', lvl1, i, nt)
    ensures Space(mem', lvl2, lvl1, pages) && OnlyUsed(mem', lvl1, More(pages, kind, r)) && SameLinks(mem, mem', lvl1)
    ensures !Entry(mem, lvl1, i).valid
  {
    NextIndexFree(pages, kind, r);
    TableAddedTree(mem, mem', lvl2, lvl1, i, nt);
    TableAddedPages(mem, mem', lvl2, lvl1, pages, i, nt);
    forall j: nat | Entry(mem', lvl1, j).valid ensures UsedIndex(More(pages, kind, r), j) {
      if j == i {
        NewIndexUsed(pages, kind, r);
      } else {
        assert Entry(mem', lvl1, j) == Entry(mem, lvl1, j);
        UsedGrows(pages, kind, r, j);
      }
    }
    forall j: nat | Entry(mem, lvl1, j).valid ensures Entry(mem', lvl1, j) == Entry(mem, lvl1, j) {
      assert j != i;
    }
  }

  lemma LinksTransitive(mem: Mem, mem1: Mem, mem': Mem, lvl1: nat)
    requires SameLinks(mem, mem1, lvl1) && SameLinks(mem1, mem', lvl1)
    ensures SameLinks(mem, mem', lvl1)
  {
    forall i: nat | Entry(mem, lvl1, i).valid ensures Entry(mem', lvl1, i) == Entry(mem, lvl1, i) {
      assert Entry(mem1, lvl1, i) == Entry(mem, lvl1, i);
    }
  }

  lemma WithNone(pages: Pages, kind: Kind)
    ensures With(pages, kind, Of(pages, kind) + []) == pages
  {
    assert Of(pages, kind) + [] == Of(pages, kind);
  }

  lemma WithWith(pages: Pages, kind: Kind, list: seq<nat>, r: nat)
    ensures More(With(pages, kind, Of(pages, kind) + list), kind, r) == With(pages, kind, Of(pages, kind) + (list + [r]))
  {
    assert Of(pages, kind) + list + [r] == Of(pages, kind) + (list + [r]);
  }

  /** The frames of the list were free and are full of zeros; nothing else has been harmed. */
  ghost predicate AllZeroed(mem: Mem, mem': Mem, list: seq<nat>) {
    && Unharmed(mem, mem')
    && (forall i {:trigger list[i]} :: 0 <= i < |list| ==> list[i] !in mem && list[i] in mem' && mem'[list[i]] == Bytes(ZeroBytes()))
    && forall i, j {:trigger Pair(i, j)} :: Pair(i, j) && 0 <= i < j < |list| ==> list[i] != list[j]
  }

  lemma OneMoreZeroed(mem: Mem, mem1: Mem, mem': Mem, list: seq<nat>, frame: nat)
    requires AllZeroed(mem, mem1, list) && Zeroed(mem1, mem', frame)
    ensures AllZeroed(mem, mem', list + [frame])
  {
    var u := list + [frame];
    forall i | 0 <= i < |u| ensures u[i] !in mem && u[i] in mem' && mem'[u[i]] == Bytes(ZeroBytes()) {
      assert i < |list| ==> u[i] == list[i];
    }
    forall i, j | 0 <= i < j < |u| ensures u[i] != u[j] {
      assert Pair(i, j) && u[i] == list[i];
    }
  }

  /** Pages, memory and the number of free frames, with the pages of the list and without them. */
  ghost predicate Lengthened(before: Pages, mem: Mem, free: nat, kind: Kind, list: seq<nat>, pages: Pages, mem': Mem, free': int) {
    && pages == With(before, kind, Of(before, kind) + list) && AllZeroed(mem, mem', list)
    && free' == free - Cost(|Of(before, kind)|, |list|)
  }

  lemma LengthenedNext(before: Pages, mem: Mem, free: nat, kind: Kind, list: seq<nat>, pages: Pages, mem1: Mem, free1: int,
                       mem': Mem, free': int, frame: nat)
    requires Lengthened(before, mem, free, kind, list, pages, mem1, free1) && Zeroed(mem1, mem', frame)
    requires free' == free1 - Cost(|Of(pages, kind)|, 1)
    ensures Lengthened(before, mem, free, kind, list + [frame], More(pages, kind, frame), mem', free')
  {
    OneMoreZeroed(mem, mem1, mem', list, frame);
    WithWith(before, kind, list, frame);
    CostSplits(|Of(before, kind)|, |list|);
  }

  lemma FirstPage(mem: Mem, mem1: Mem, mem': Mem, lvl2: nat, lvl1: nat, nodes: seq<Node>, pages: Pages, kind: Kind, i: nat, table: nat,
                  slot: nat, r: nat)
    requires Laid(mem, lvl2, lvl1, nodes, pages) && Fits(More(pages, kind, r)) && |Of(pages, kind)| % 512 == 0
    requires i == IndexOf(kind, |Of(pages, kind)| / 512) && TableAdded(mem, mem1, lvl1, i, table)
    requires slot == Slot(kind, 0) && PageAdded(mem1, mem', table, slot, r, kind == CODE_PAGE)
    ensures Laid(mem', lvl2, lvl1, nodes + [Node(kind, i, 1, table)], More(pages, kind, r))
  {
    TablePlaced(mem, mem1, lvl2, lvl1, pages, kind, i, table, r);
    PagePlaced(mem1, mem', lvl2, lvl1, pages, kind, table, slot, r);
    LinksTransitive(mem, mem1, mem', lvl1);
    NumberOfIndex(kind, |Of(pages, kind)| / 512, table);
    assert Entry(mem', lvl1, i) == Entry(mem1, lvl1, i);
    AppendedOk(mem, mem', lvl1, nodes, pages, kind, Node(kind, i, 1, table), r);
  }

  lemma FirstPageApart(base: Mem, mem: Mem, mem1: Mem, mem': Mem, lvl2: nat, lvl1: nat, i: nat, table: nat, slot: nat, r: nat, exec: bool)
    requires Apart(base, mem, lvl1) && Tree(mem, lvl2, lvl1) && TableAdded(mem, mem1, lvl1, i, table) && PageAdded(mem1, mem', table, slot, r, exec)
    ensures Apart(base, mem', lvl1)
  {
    TableApart(base, mem, mem1, lvl1, i, table);
    TableAddedTree(mem, mem1, lvl2, lvl1, i, table);
    PageApart(base, mem1, mem', lvl2, lvl1, i, slot, r, exec);
  }

  lemma NumberOfIndex(kind: Kind, t: nat, table: nat)
    requires IndexOf(kind, t) >= 0
    ensures NumberOf(Node(kind, IndexOf(kind, t), 1, table)) == t
  {
  }

  /** Linking a table again, where it is linked already. */
  lemma Relinked(mem: Mem, mem': Mem, lvl2: nat, lvl1: nat, nodes: seq<Node>, pages: Pages, i: nat, e: Pte)
    requires Laid(mem, lvl2, lvl1, nodes, pages) && i < 512 && Entry(mem, lvl1, i).valid
    requires Leads(e) && FrameOf(e) == FrameOf(Entry(mem, lvl1, i))
    requires mem' == mem[lvl1 := Table(mem[lvl1].ptes[i := e])]
    ensures Laid(mem', lvl2, lvl1, nodes, pages)
  {
    forall j: nat ensures Entry(mem', lvl1, j).valid == Entry(mem, lvl1, j).valid
    {
    }
    assert forall j: nat :: Entry(mem', lvl1, j).valid ==> FrameOf(Entry(mem', lvl1, j)) == FrameOf(Entry(mem, lvl1, j));
    forall j: nat ensures LinkOk(mem', lvl2, lvl1, j) {
      assert LinkOk(mem, lvl2, lvl1, j);
    }
    forall j: nat, k: nat | j != k && Entry(mem', lvl1, j).valid && Entry(mem', lvl1, k).valid
      ensures FrameOf(Entry(mem', lvl1, j)) != FrameOf(Entry(mem', lvl1, k))
    {
      assert Pair(j, k);
    }
    forall kind, k: nat | k < |Of(pages, kind)| ensures PageOk(mem', lvl1, kind, k, Of(pages, kind)[k]) {
      assert PageOk(mem, lvl1, kind, k, Of(pages, kind)[k]);
      assert LinkOk(mem, lvl2, lvl1, IndexOf(kind, k / 512));
    }
    forall j | 0 <= j < |nodes| ensures NodeOk(mem', lvl1, nodes[j], |Of(pages, nodes[j].kind)|) {
      assert NodeOk(mem, lvl1, nodes[j], |Of(pages, nodes[j].kind)|);
    }
  }

  lemma RelinkApart(base: Mem, mem: Mem, mem': Mem, lvl1: nat, i: nat, e: Pte)
    requires Apart(base, mem, lvl1) && IsTable(mem, lvl1) && i < 512 && Entry(mem, lvl1, i).valid
    requires FrameOf(e) == FrameOf(Entry(mem, lvl1, i)) && mem' == mem[lvl1 := Table(mem[lvl1].ptes[i := e])]
    ensures Apart(base, mem', lvl1)
  {
    forall j: nat | Entry(mem', lvl1, j).valid ensures FrameOf(Entry(mem', lvl1, j)) !in base {
      assert j != i ==> Entry(mem', lvl1, j) == Entry(mem, lvl1, j);
      assert Entry(mem, lvl1, i).valid;
    }
  }

  lemma InTableOutcome(pages: Pages, tail: seq<Kind>, kind: Kind, slot: nat, free: nat)
    requires |Of(pages, kind)| % 512 != 0 && slot == Slot(kind, |Of(pages, kind)| % 512)
    ensures RoundOutcome(pages, tail, kind, free) == if slot == 0 && tail != [kind] then Asserts else if free == 1 then NoFrame else Done
    ensures (slot == 0 ==> kind == STACK_PAGE) && (kind == STACK_PAGE ==> slot != PT_SIZE - 1)
  {
  }

  lemma TailFilled(nodes: seq<Node>, i: nat)
    requires i < |nodes|
    ensures Tail(Filled(nodes, i)) == Tail(nodes)
  {
  }

  lemma TailAppended(nodes: seq<Node>, node: Node)
    ensures Tail(nodes + [node]) == [node.kind]
  {
  }

  lemma UnharmedTwice(mem: Mem, mem1: Mem, mem': Mem)
    requires Unharmed(mem, mem1) && Unharmed(mem1, mem')
    ensures Unharmed(mem, mem')
  {
  }

  lemma UnharmedZeroed(mem: Mem, mem1: Mem, mem': Mem, frame: nat)
    requires Unharmed(mem, mem1) && Zeroed(mem1, mem', frame)
    ensures Zeroed(mem, mem', frame)
  {
    UnharmedTwice(mem, mem1, mem');
  }

  /** A frame more in use: the tables of the process are where they were. */
  lemma TakenApart(base: Mem, mem: Mem, mem': Mem, lvl2: nat, lvl1: nat, f: nat, content: Content)
    requires Apart(base, mem, lvl1) && Tree(mem, lvl2, lvl1) && f !in mem && mem' == mem[f := content]
    ensures Apart(base, mem', lvl1) && Unharmed(mem, mem')
  {
    assert forall i: nat :: Entry(mem', lvl1, i) == Entry(mem, lvl1, i);
  }

  /** What the next round of a run starts from. */
  lemma RoundFits(before: Pages, tail: seq<Kind>, mem: Mem, free: nat, kind: Kind, list: seq<nat>, pages: Pages, mem': Mem, free': nat)
    requires Lengthened(before, mem, free, kind, list, pages, mem', free') && Enough(before, tail, kind, |list|, free)
    requires RegionsApart(before, kind, |list| + 1) && |before.heap| <= 65536 && Fits(pages) && free' > 0
    ensures RegionsApart(pages, kind, 1)
    ensures RoundOutcome(pages, TailAfter(|Of(before, kind)|, tail, kind, |list|), kind, free') == Done <==>
            Enough(before, tail, kind, |list| + 1, free)
  {
    NextRound(before, tail, kind, |list|, free, pages, free');
  }

  lemma TailNext(before: Pages, tail: seq<Kind>, kind: Kind, list: seq<nat>, pages: Pages)
    requires |Of(pages, kind)| == |Of(before, kind)| + |list|
    ensures TailAfter(|Of(before, kind)|, tail, kind, |list| + 1) ==
            if |Of(pages, kind)| % 512 == 0 then [kind] else TailAfter(|Of(before, kind)|, tail, kind, |list|)
  {
    TablesNext(|Of(before, kind)|, |list|);
  }

  lemma NotEnough(pages: Pages, tail: seq<Kind>, kind: Kind, k: nat, n: nat, free: nat)
    requires !Enough(pages, tail, kind, k, free) && k <= n
    ensures !Enough(pages, tail, kind, n, free)
  {
    if Enough(pages, tail, kind, n, free) {
      EnoughPrefix(pages, tail, kind, k, n, free);
    }
  }

  /** The heap as sys_sbrk sees it: where it ends, and how many pages it has. */
  datatype Heap = Heap(end: nat, pages: nat) {
    /** Every page from the start of the heap to its end is there. */
    ghost predicate Covered() {
      START_HEAP <= end <= START_HEAP + FRAME_SIZE * pages
    }

    /** After one call of sys_sbrk. */
    function Moved(increment: int): Heap {
      if end + increment < START_HEAP then this
      else Heap(end + increment, pages + if increment > 0 then FramesFor(increment) else 0)
    }

    /** After a run of calls. */
    function After(increments: seq<int>): Heap
      decreases |increments|
    {
      if increments == [] then this else Moved(increments[0]).After(increments[1..])
    }
  }

  /** The heap stays covered over every run of sys_sbrk. */
  lemma {:induction false} StaysCovered(h: Heap, increments: seq<int>)
    requires h.Covered()
    ensures h.After(increments).Covered()
    decreases |increments|
  {
    if increments != [] {
      StaysCovered(h.Moved(increments[0]), increments[1..]);
    }
  }

  /** The increments that are not refused: those that do not go below the start of the heap. */
  function Accepted(end: int, increments: seq<int>): seq<int>
    decreases |increments|
  {
    if increments == [] then []
    else if end + increments[0] < START_HEAP then Accepted(end, increments[1..])
    else [increments[0]] + Accepted(end + increments[0], increments[1..])
  }

  function Sum(s: seq<int>): int {
    if s == [] then 0 else s[0] + Sum(s[1..])
  }

  /** The pages that the steps up take. */
  function PagesFor(s: seq<int>): nat {
    if s == [] then 0 else (if s[0] > 0 then FramesFor(s[0]) else 0) + PagesFor(s[1..])
  }

  /** Over every run of sys_sbrk the end of the heap is the old one plus all increments that were not refused. */
  lemma {:induction false} EndIsSum(h: Heap, increments: seq<int>)
    requires h.Covered()
    ensures h.After(increments).end == h.end + Sum(Accepted(h.end, increments))
    ensures h.After(increments).pages == h.pages + PagesFor(Accepted(h.end, increments))
    decreases |increments|
  {
    if increments != [] {
      EndIsSum(h.Moved(increments[0]), increments[1..]);
      var rest := Accepted(h.Moved(increments[0]).end, increments[1..]);
      assert ([increments[0]] + rest)[1..] == rest;
    }
  }

  /** What sys_sbrk returns. */
  function Returned(h: Heap, increment: int): int {
    if h.end + increment < START_HEAP then -1 else h.end
  }

  /** Without a step down the end of the heap does not move back. */
  lemma {:induction false} NeverBack(h: Heap, increments: seq<int>)
    requires h.Covered() && forall i :: 0 <= i < |increments| ==> increments[i] >= 0
    ensures h.After(increments).end >= h.end && h.After(increments).Covered()
    decreases |increments|
  {
    if increments != [] {
      NeverBack(h.Moved(increments[0]), increments[1..]);
    }
  }

  /** Two steps up, with no step down in between: the ranges that the calls give out do not overlap. */
  lemma GrantsApart(h: Heap, first: nat, between: seq<int>, second: nat, x: int)
    requires h.Covered() && forall i :: 0 <= i < |between| ==> between[i] >= 0
    requires var r := Returned(h, first); r <= x < r + first
    ensures var r := Returned(h.Moved(first).After(between), second); x < r
    ensures Returned(h, first) == h.end && h.Moved(first).end == h.end + first
  {
    NeverBack(h.Moved(first), between);
  }

  /** The page table nodes of a process and its counters. */
  class Process {
    const machine: Machine
    const lvl2: nat                   // page_table_level_2
    const lvl1: nat                   // the table of page_tables_lvl_1_list
    var nodes: seq<Node>              // its children, in the order of the list
    var code_tables: nat              // code_usage, stack_usage, heap_usage of the level 1 node
    var stack_tables: nat
    var heap_tables: nat
    var code_usage: nat               // mem_info
    var stack_usage: nat
    var heap_usage: nat
    var sbrk_pointer: nat             // an address
    ghost var pages: Pages

    ghost predicate Counters()
      reads this
    {
      Counted(code_tables, stack_tables, heap_tables, code_usage, stack_usage, heap_usage, pages)
    }

    ghost predicate Valid()
      reads this, machine, machine.frames
    {
      machine.Valid() && Counters() && Laid(machine.mem, lvl2, lvl1, nodes, pages)
    }

    /** What a call leaves of a process that it cannot finish: memory is in order, and nothing has been harmed. */
    ghost predicate Stopped(was: Mem, base: Mem)
      reads this, machine, machine.frames
    {
      machine.Valid() && Unharmed(was, machine.mem) && Apart(base, machine.mem, lvl1)
    }

    /** A process without pages. */
    constructor (m: Machine, root: nat, user: nat)
      requires m.Valid() && IsTable(m.mem, root) && user != root && EmptyTable(m.mem, user)
      requires Leads(Entry(m.mem, root, USERSPACE)) && FrameOf(Entry(m.mem, root, USERSPACE)) == user
      ensures machine == m && lvl2 == root && lvl1 == user && Valid()
      ensures nodes == [] && pages == Pages([], [], []) && sbrk_pointer == START_HEAP
    {
      machine, lvl2, lvl1 := m, root, user;
      nodes, code_tables, stack_tables, heap_tables := [], 0, 0, 0;
      code_usage, stack_usage, heap_usage, sbrk_pointer := 0, 0, 0, START_HEAP;
      pages := Pages([], [], []);
      new;
      EmptySpace(machine.mem, lvl2, lvl1);
    }

    /** The loop of add_frame_to_process over the list of tables. */
    method Search(kind: Kind) returns (i: nat)
      ensures i == FindRoom(nodes, kind)
    {
      i := 0;
      while i < |nodes| && !(nodes[i].kind == kind && nodes[i].usage < PT_SIZE)
        invariant i <= |nodes|
        invariant forall k {:trigger nodes[k]} :: 0 <= k < i ==> nodes[k].kind != kind || nodes[k].usage >= 512
      {
        i := i + 1;
      }
      FindRoomIs(nodes, kind, i);
    }

    /** A zeroed frame, and the entry of a table that leads to it; 0 if there is no frame. */
    method MapPage(table: nat, slot: nat, exec: bool) returns (frame: nat)
      requires machine.Valid() && IsTable(machine.mem, table) && slot < 512
      modifies machine, machine.frames
      ensures machine.Valid() && (frame == 0 <==> |old(machine.frames.free)| == 1)
      ensures frame == 0 ==> machine.mem == old(machine.mem) && |machine.frames.free| == |old(machine.frames.free)|
      ensures frame != 0 ==> PageAdded(old(machine.mem), machine.mem, table, slot, frame, exec)
      ensures frame != 0 ==> Zeroed(old(machine.mem), machine.mem, frame)
      ensures frame != 0 ==> |machine.frames.free| == |old(machine.frames.free)| - 1
    {
      ghost var mem := machine.mem;
      frame := machine.Take(Bytes(ZeroBytes()));
      if frame == 0 {
        return;
      }
      ghost var mem1 := machine.mem;
      ghost var e := machine.Configure(table, slot, frame, true, true, exec, true);
      MappedPage(mem, mem1, machine.mem, table, slot, frame, ZeroBytes(), e, exec);
    }

    /** The counters of mem_info. */
    method CountPage(kind: Kind)
      modifies this`code_usage, this`stack_usage, this`heap_usage
      ensures code_usage == old(code_usage) + One(kind, CODE_PAGE)
      ensures stack_usage == old(stack_usage) + One(kind, STACK_PAGE)
      ensures heap_usage == old(heap_usage) + One(kind, HEAP_PAGE)
    {
      match kind
      case CODE_PAGE => code_usage := code_usage + 1;
      case STACK_PAGE => stack_usage := stack_usage + 1;
      case HEAP_PAGE => heap_usage := heap_usage + 1;
    }

    /** The index that the counters of the level 1 node give to the next table. */
    method NextIndex(kind: Kind) returns (index: nat)
      requires Counters() && IndexOf(kind, Tables(|Of(pages, kind)|)) >= 0
      ensures index == IndexOf(kind, Tables(|Of(pages, kind)|))
    {
      match kind
      case CODE_PAGE => index := STACK_CODE_SPACE_START + code_tables;
      case STACK_PAGE => index := STACK_CODE_SPACE_END - stack_tables;
      case HEAP_PAGE => index := HEAP_SPACE_START + heap_tables;
    }

    method CountTable(kind: Kind)
      modifies this`code_tables, this`stack_tables, this`heap_tables
      ensures code_tables == old(code_tables) + One(kind, CODE_PAGE)
      ensures stack_tables == old(stack_tables) + One(kind, STACK_PAGE)
      ensures heap_tables == old(heap_tables) + One(kind, HEAP_PAGE)
    {
      match kind
      case CODE_PAGE => code_tables := code_tables + 1;
      case STACK_PAGE => stack_tables := stack_tables + 1;
      case HEAP_PAGE => heap_tables := heap_tables + 1;
    }

    /** link_lvl1_table_direct on the last table of the list, which is linked already. */
    method RelinkTail(ghost base: Mem)
      requires machine.Valid() && nodes != [] && Laid(machine.mem, lvl2, lvl1, nodes, pages) && Apart(base, machine.mem, lvl1)
      modifies machine`mem
      ensures machine.Valid() && Laid(machine.mem, lvl2, lvl1, nodes, pages) && Apart(base, machine.mem, lvl1)
      ensures Unharmed(old(machine.mem), machine.mem) && machine.mem.Keys == old(machine.mem).Keys
    {
      ghost var mem := machine.mem;
      var tail := nodes[|nodes| - 1];
      assert NodeOk(mem, lvl1, tail, |Of(pages, tail.kind)|);
      assert LinkOk(mem, lvl2, lvl1, tail.index);
      ghost var e := machine.Configure(lvl1, tail.index, tail.table, false, false, false, true);
      Relinked(mem, machine.mem, lvl2, lvl1, nodes, pages, tail.index, e);
      RelinkApart(base, mem, machine.mem, lvl1, tail.index, e);
      SameKeys(mem, lvl1, machine.mem[lvl1]);
    }

    /** The process has one page more than `was`, in a new frame, since memory was mem; so many frames are left. */
    ghost predicate OneMore(kind: Kind, frame: nat, was: Pages, tail: seq<Kind>, mem: Mem, base: Mem, left: int)
      reads this, machine, machine.frames
    {
      && Valid() && pages == More(was, kind, frame) && Tail(nodes) == tail
      && Zeroed(mem, machine.mem, frame) && Apart(base, machine.mem, lvl1) && |machine.frames.free| == left
    }

    /** The round has made a page, or has stopped. */
    ghost predicate RoundEnded(o: Outcome, kind: Kind, frame: nat, was: Pages, tail: seq<Kind>, mem: Mem, base: Mem, left: int)
      reads this, machine, machine.frames
    {
      if o == Done then OneMore(kind, frame, was, tail, mem, base, left) else Stopped(mem, base)
    }

    /** A page in table number i, whose next entry is `slot`; 0 if there is no frame. */
    method FillTable(kind: Kind, i: nat, slot: nat, ghost base: Mem) returns (frame: nat)
      requires Valid() && Fits(More(pages, kind, 0)) && i == FindRoom(nodes, kind) < |nodes| && Apart(base, machine.mem, lvl1)
      requires slot == Slot(kind, |Of(pages, kind)| % 512)
      modifies this, machine, machine.frames
      ensures sbrk_pointer == old(sbrk_pointer) && (frame == 0 <==> |old(machine.frames.free)| == 1)
      ensures frame == 0 ==> machine.Valid() && machine.mem == old(machine.mem)
      ensures frame != 0 ==>
        OneMore(kind, frame, old(pages), Tail(old(nodes)), old(machine.mem), base, |old(machine.frames.free)| - 1)
    {
      ghost var mem := machine.mem;
      RoomPlace(mem, lvl2, lvl1, nodes, pages, kind, i);
      TailFilled(nodes, i);
      frame := MapPage(nodes[i].table, slot, kind == CODE_PAGE);
      if frame == 0 {
        return;
      }
      ExistingPage(mem, machine.mem, lvl2, lvl1, nodes, pages, kind, i, slot, frame);
      PageApart(base, mem, machine.mem, lvl2, lvl1, nodes[i].index, slot, frame, kind == CODE_PAGE);
      Record(kind, Filled(nodes, i), frame);
    }

    /** A page in a table of the list that is not full. */
    method AddToTable(kind: Kind, i: nat, ghost base: Mem) returns (o: Outcome, frame: nat)
      requires Valid() && Fits(More(pages, kind, 0)) && i == FindRoom(nodes, kind) < |nodes| && Apart(base, machine.mem, lvl1)
      modifies this, machine, machine.frames
      ensures sbrk_pointer == old(sbrk_pointer)
      ensures o == RoundOutcome(old(pages), Tail(old(nodes)), kind, |old(machine.frames.free)|)
      ensures RoundEnded(o, kind, frame, old(pages), Tail(old(nodes)), old(machine.mem), base, |old(machine.frames.free)| - 1)
    {
      ghost var mem := machine.mem;
      RoomPlace(mem, lvl2, lvl1, nodes, pages, kind, i);
      var slot := if kind == STACK_PAGE then PT_SIZE - 1 - nodes[i].usage else nodes[i].usage;
      InTableOutcome(pages, Tail(nodes), kind, slot, |machine.frames.free|);
      frame := 0;
      o := TailCheck(kind, slot, base);
      if o == Done {
        ghost var mem1 := machine.mem;
        frame := FillTable(kind, i, slot, base);
        if frame == 0 {
          o := NoFrame;
        } else {
          UnharmedZeroed(mem, mem1, machine.mem, frame);
        }
      }
    }

    /** The test for a new table: it also strikes at the last entry of a stack's table. */
    method TailCheck(kind: Kind, slot: nat, ghost base: Mem) returns (o: Outcome)
      requires Valid() && nodes != [] && Apart(base, machine.mem, lvl1) && (slot == 0 ==> kind == STACK_PAGE)
      requires kind == STACK_PAGE ==> slot != PT_SIZE - 1
      modifies machine`mem
      ensures Valid() && Apart(base, machine.mem, lvl1) && Unharmed(old(machine.mem), machine.mem)
      ensures machine.mem.Keys == old(machine.mem).Keys
      ensures o == if slot == 0 && Tail(nodes) != [kind] then Asserts else Done
    {
      o := Done;
      if slot == 0 || (kind == STACK_PAGE && slot == PT_SIZE - 1) {
        if nodes[|nodes| - 1].kind != kind {
          return Asserts;
        }
        RelinkTail(base);
      }
    }

    /** The counters, and the list with the page in it. */
    method Record(kind: Kind, list: seq<Node>, frame: nat)
      requires machine.Valid() && Counters() && |Of(pages, kind)| % 512 != 0
      requires Laid(machine.mem, lvl2, lvl1, list, More(pages, kind, frame))
      modifies this
      ensures Valid() && sbrk_pointer == old(sbrk_pointer) && pages == More(old(pages), kind, frame) && nodes == list
    {
      CountedMore(code_tables, stack_tables, heap_tables, code_usage, stack_usage, heap_usage, pages, kind, frame);
      CountPage(kind);
      Keep(list, More(pages, kind, frame));
    }

    method RecordTable(kind: Kind, list: seq<Node>, frame: nat)
      requires machine.Valid() && Counters() && |Of(pages, kind)| % 512 == 0
      requires Laid(machine.mem, lvl2, lvl1, list, More(pages, kind, frame))
      modifies this
      ensures Valid() && sbrk_pointer == old(sbrk_pointer) && pages == More(old(pages), kind, frame) && nodes == list
    {
      CountedMore(code_tables, stack_tables, heap_tables, code_usage, stack_usage, heap_usage, pages, kind, frame);
      CountTable(kind);
      CountPage(kind);
      Keep(list, More(pages, kind, frame));
    }

    /** The list, and the pages that it stands for. */
    method Keep(list: seq<Node>, ghost more: Pages)
      requires machine.Valid() && Laid(machine.mem, lvl2, lvl1, list, more)
      requires Counted(code_tables, stack_tables, heap_tables, code_usage, stack_usage, heap_usage, more)
      modifies this`nodes, this`pages
      ensures Valid() && pages == more && nodes == list
    {
      nodes := list;
      pages := more;
    }

    /**
     add_frame_to_process, up to the table that it finds or makes: -1 exactly if no table of the kind has
     room and a limit has been reached or there is no frame for a new one.
     */
    method AddFrameToProcess(kind: Kind) returns (rc: int, i: nat, table: nat)
      requires machine.Valid()
      modifies machine, machine.frames
      ensures machine.Valid() && i == FindRoom(nodes, kind) && (rc == 0 || rc == -1)
      ensures rc == -1 <==>
        i == |nodes| && (LimitReached(code_tables, stack_tables, heap_tables) || |old(machine.frames.free)| == 1)
      ensures rc == -1 || i < |nodes| ==> machine.mem == old(machine.mem) && |machine.frames.free| == |old(machine.frames.free)|
      ensures rc == 0 && i == |nodes| ==> table !in old(machine.mem) && table < FRAME_LIMIT
      ensures rc == 0 && i == |nodes| ==> machine.mem == old(machine.mem)[table := Table(ZeroTable())]
      ensures rc == 0 && i == |nodes| ==> |machine.frames.free| == |old(machine.frames.free)| - 1
    {
      i := Search(kind);
      if i < |nodes| {
        return 0, i, nodes[i].table;
      }
      if code_tables + stack_tables + heap_tables >= PT_SIZE || stack_tables >= STACK_FRAME_SIZE || heap_tables >= HEAP_FRAME_SIZE {
        return -1, i, 0;
      }
      table := machine.Take(Table(ZeroTable()));
      rc := if table == 0 then -1 else 0;
    }

    /** The rest of a round in which add_frame_to_process has failed: the test for a failure is `< -1`. */
    method GoOnAfterFailure(kind: Kind, ghost base: Mem) returns (o: Outcome)
      requires Valid() && Apart(base, machine.mem, lvl1)
      modifies machine, machine.frames
      ensures o == AfterFailure(Tail(nodes), kind, |old(machine.frames.free)|) && Stopped(old(machine.mem), base)
    {
      if nodes == [] {
        return NoTail;
      }
      if nodes[|nodes| - 1].kind != kind {
        return Asserts;
      }
      RelinkTail(base);
      ghost var mem, free := machine.mem, |machine.frames.free|;
      var frame := machine.Take(Bytes(ZeroBytes()));
      if frame == 0 {
        return NoFrame;
      }
      TakenApart(base, mem, machine.mem, lvl2, lvl1, frame, Bytes(ZeroBytes()));
      o := StoresAtNull;
    }

    /** A table has been taken since memory was mem. */
    ghost predicate TableTaken(table: nat, mem: Mem, base: Mem)
      reads this, machine, machine.frames
    {
      && machine.Valid() && Counters() && Laid(mem, lvl2, lvl1, nodes, pages) && Apart(base, mem, lvl1)
      && table !in mem && table < FRAME_LIMIT && machine.mem == mem[table := Table(ZeroTable())]
    }

    /** The new table is linked. */
    method LinkNew(kind: Kind, table: nat, ghost mem: Mem, ghost base: Mem) returns (index: nat)
      requires TableTaken(table, mem, base) && Fits(More(pages, kind, 0)) && |Of(pages, kind)| % 512 == 0
      modifies machine`mem
      ensures machine.Valid() && index == IndexOf(kind, |Of(pages, kind)| / 512) && Apart(base, machine.mem, lvl1)
      ensures TableAdded(mem, machine.mem, lvl1, index, table) && Unharmed(mem, machine.mem)
    {
      ghost var taken := machine.mem;
      NextIndexFree(pages, kind, 0);
      index := NextIndex(kind);
      ghost var e := machine.Configure(lvl1, index, table, false, false, false, true);
      LinkedTable(mem, taken, machine.mem, lvl1, index, table, e);
      TableApart(base, mem, machine.mem, lvl1, index, table);
    }

    /** The first page of a new table, which is linked first. */
    method AddTable(kind: Kind, table: nat, ghost mem: Mem, ghost base: Mem) returns (o: Outcome, frame: nat)
      requires TableTaken(table, mem, base) && Fits(More(pages, kind, 0)) && |Of(pages, kind)| % 512 == 0
      modifies this, machine, machine.frames
      ensures sbrk_pointer == old(sbrk_pointer) && o == (if |old(machine.frames.free)| == 1 then NoFrame else Done)
      ensures RoundEnded(o, kind, frame, old(pages), [kind], mem, base, |old(machine.frames.free)| - 1)
    {
      var index := LinkNew(kind, table, mem, base);
      ghost var mem1 := machine.mem;
      var slot := if kind == STACK_PAGE then PT_SIZE - 1 else 0;
      frame := MapPage(table, slot, kind == CODE_PAGE);
      if frame == 0 {
        return NoFrame, 0;
      }
      FirstPage(mem, mem1, machine.mem, lvl2, lvl1, nodes, pages, kind, index, table, slot, frame);
      FirstPageApart(base, mem, mem1, machine.mem, lvl2, lvl1, index, table, slot, frame, kind == CODE_PAGE);
      UnharmedZeroed(mem, mem1, machine.mem, frame);
      TailAppended(nodes, Node(kind, index, 1, table));
      RecordTable(kind, nodes + [Node(kind, index, 1, table)], frame);
      o := Done;
    }

    /** The last table after a round that made a page. */
    ghost function NewTail(kind: Kind): seq<Kind>
      reads this
    {
      if |Of(pages, kind)| % 512 == 0 then [kind] else Tail(nodes)
    }

    /** One round of add_and_allocate_frames. */
    method AddPage(kind: Kind, ghost base: Mem) returns (o: Outcome, frame: nat)
      requires Valid() && RegionsApart(pages, kind, 1) && Apart(base, machine.mem, lvl1)
      modifies this, machine, machine.frames
      ensures sbrk_pointer == old(sbrk_pointer)
      ensures o == RoundOutcome(old(pages), Tail(old(nodes)), kind, |old(machine.frames.free)|)
      ensures RoundEnded(o, kind, frame, old(pages), old(NewTail(kind)), old(machine.mem), base,
                         |old(machine.frames.free)| - Cost(|Of(old(pages), kind)|, 1))
    {
      ghost var mem, free := machine.mem, |machine.frames.free|;
      RoomFound(mem, lvl1, nodes, pages, kind);
      CostOfOne(|Of(pages, kind)|);
      var rc, i, table := AddFrameToProcess(kind);
      assert rc == -1 <==> AddFails(pages, kind, free);
      assert !(rc < -1);
      if rc == -1 {
        frame := 0;
        o := GoOnAfterFailure(kind, base);
      } else if i < |nodes| {
        FitsMore(pages, kind, free, 0);
        o, frame := AddToTable(kind, i, base);
      } else {
        FitsMore(pages, kind, free, 0);
        o, frame := AddTable(kind, table, mem, base);
      }
    }

    /** The pages of the list have been added to the ones there were before; `free` frames were free then. */
    ghost predicate Extended(kind: Kind, list: seq<nat>, before: Pages, mem: Mem, base: Mem, free: nat)
      reads this, machine, machine.frames
    {
      && Valid() && Apart(base, machine.mem, lvl1)
      && Lengthened(before, mem, free, kind, list, pages, machine.mem, |machine.frames.free|)
    }

    /** The pages of the list have been added, and there was enough for them. */
    ghost predicate Midway(kind: Kind, list: seq<nat>, before: Pages, tail: seq<Kind>, mem: Mem, base: Mem, free: nat)
      reads this, machine, machine.frames
    {
      && Extended(kind, list, before, mem, base, free) && |before.heap| <= 65536
      && Tail(nodes) == TailAfter(|Of(before, kind)|, tail, kind, |list|) && Enough(before, tail, kind, |list|, free)
    }

    /** k rounds have been made well, or one of them has ended otherwise, for want of something. */
    ghost predicate Ended(o: Outcome, kind: Kind, list: seq<nat>, k: nat, before: Pages, tail: seq<Kind>, mem: Mem, base: Mem, free: nat)
      reads this, machine, machine.frames
    {
      if o == Done then |list| == k && Midway(kind, list, before, tail, mem, base, free)
      else o != Refused && !Enough(before, tail, kind, k, free) && Stopped(mem, base)
    }

    /** What the next round of a run starts from. */
    lemma BeforeRound(kind: Kind, list: seq<nat>, page_nb: nat, before: Pages, tail: seq<Kind>, mem: Mem, base: Mem, free: nat)
      requires Midway(kind, list, before, tail, mem, base, free) && RegionsApart(before, kind, page_nb) && |list| < page_nb
      ensures RegionsApart(pages, kind, 1)
      ensures RoundOutcome(pages, Tail(nodes), kind, |machine.frames.free|) == Done <==> Enough(before, tail, kind, |list| + 1, free)
    {
      RegionsApartPrefix(before, kind, |list| + 1, page_nb);
      RoundFits(before, tail, mem, free, kind, list, pages, machine.mem, |machine.frames.free|);
    }

    /** What a round leads to, whichever way it ends. */
    lemma AfterRound(o: Outcome, kind: Kind, list: seq<nat>, frame: nat, before: Pages, tail: seq<Kind>, mem: Mem, base: Mem, free: nat,
                     pages1: Pages, mem1: Mem, free1: nat)
      requires Lengthened(before, mem, free, kind, list, pages1, mem1, free1) && |before.heap| <= 65536 && o != Refused
      requires o == Done <==> Enough(before, tail, kind, |list| + 1, free)
      requires o == Done ==>
        OneMore(kind, frame, pages1, if |Of(pages1, kind)| % 512 == 0 then [kind] else TailAfter(|Of(before, kind)|, tail, kind, |list|),
                mem1, base, free1 - Cost(|Of(pages1, kind)|, 1))
      requires o != Done ==> Stopped(mem1, base)
      ensures Ended(o, kind, list + [frame], |list| + 1, before, tail, mem, base, free)
    {
      if o == Done {
        TailNext(before, tail, kind, list, pages1);
        LengthenedNext(before, mem, free, kind, list, pages1, mem1, free1, machine.mem, |machine.frames.free|, frame);
      } else {
        UnharmedTwice(mem, mem1, machine.mem);
      }
    }

    /** One round, after the pages of the list: it ends well exactly if there is enough for one more page. */
    method AddNext(kind: Kind, list: seq<nat>, ghost page_nb: nat, ghost before: Pages, ghost tail: seq<Kind>, ghost mem: Mem,
                   ghost base: Mem, ghost free: nat) returns (o: Outcome, more: seq<nat>)
      requires Midway(kind, list, before, tail, mem, base, free) && RegionsApart(before, kind, page_nb) && |list| < page_nb
      modifies this, machine, machine.frames
      ensures sbrk_pointer == old(sbrk_pointer)
      ensures |more| == |list| + 1 && Ended(o, kind, more, |more|, before, tail, mem, base, free)
    {
      ghost var mem1, pages1, free1 := machine.mem, pages, |machine.frames.free|;
      BeforeRound(kind, list, page_nb, before, tail, mem, base, free);
      var frame;
      o, frame := AddPage(kind, base);
      AfterRound(o, kind, list, frame, before, tail, mem, base, free, pages1, mem1, free1);
      more := list + [frame];
    }

    lemma MidwayNone(kind: Kind, base: Mem)
      requires Valid() && Apart(base, machine.mem, lvl1)
      ensures Midway(kind, [], pages, Tail(nodes), machine.mem, base, |machine.frames.free|)
    {
      WithNone(pages, kind);
    }

    /** The loop of add_and_allocate_frames. */
    method AddAll(kind: Kind, page_nb: nat, ghost before: Pages, ghost tail: seq<Kind>, ghost mem: Mem, ghost base: Mem, ghost free: nat)
      returns (o: Outcome, list: seq<nat>)
      requires Ended(Done, kind, [], 0, before, tail, mem, base, free) && RegionsApart(before, kind, page_nb)
      modifies this, machine, machine.frames
      ensures sbrk_pointer == old(sbrk_pointer) && |list| <= page_nb && (o == Done ==> |list| == page_nb)
      ensures Ended(o, kind, list, |list|, before, tail, mem, base, free)
    {
      var page_iter := 0;
      o, list := Done, [];
      while page_iter < page_nb
        invariant page_iter == |list| <= page_nb && o == Done
        invariant Midway(kind, list, before, tail, mem, base, free)
        invariant sbrk_pointer == old(sbrk_pointer)
      {
        o, list := AddNext(kind, list, page_nb, before, tail, mem, base, free);
        page_iter := page_iter + 1;
        if o != Done {
          return;
        }
      }
    }

    /**
     add_and_allocate_frames: -1 for Refused and NoFrame. When it ends well, the pages come after those of
     their kind, in frames that were free and are full of zeros.
     */
    method AddAndAllocate(kind: Kind, page_nb: nat, ghost base: Mem) returns (o: Outcome, list: seq<nat>)
      requires Valid() && RegionsApart(pages, kind, page_nb) && Apart(base, machine.mem, lvl1)
      modifies this, machine, machine.frames
      ensures sbrk_pointer == old(sbrk_pointer)
      ensures o == Done <==> Enough(old(pages), Tail(old(nodes)), kind, page_nb, |old(machine.frames.free)|)
      ensures o == Refused <==> page_nb > |old(machine.frames.free)|
      ensures o == Done ==> |list| == page_nb
      ensures o == Done ==> Midway(kind, list, old(pages), Tail(old(nodes)), old(machine.mem), base, |old(machine.frames.free)|)
      ensures o != Done ==> Stopped(old(machine.mem), base)
    {
      ghost var before, tail, free := pages, Tail(nodes), |machine.frames.free|;
      CostMonotone(|Of(pages, kind)|, 0, page_nb);
      var remaining := machine.frames.GetRemaining();
      if page_nb > remaining {
        return Refused, [];
      }
      MidwayNone(kind, base);
      o, list := AddAll(kind, page_nb, before, tail, machine.mem, base, free);
      if o != Done {
        NotEnough(before, tail, kind, |list|, page_nb, free);
      }
    }

    /** The end of the heap and the number of its pages. */
    ghost function HeapState(): Heap
      reads this
    {
      Heap(sbrk_pointer, |pages.heap|)
    }

    /**
     sys_sbrk: moves the end of the heap, with new pages for every step up; -1 for a step below its
     start, or when there is not enough for the pages.
     */
    method Sbrk(increment: int) returns (o: Outcome, r: int)
      requires Valid() && HeapState().Covered()
      modifies this, machine, machine.frames
      ensures o == Done <==>
        increment <= 0 || Enough(old(pages), Tail(old(nodes)), HEAP_PAGE, FramesFor(increment), |old(machine.frames.free)|)
      ensures o == Done ==> Valid() && HeapState() == old(HeapState()).Moved(increment) && HeapState().Covered()
      ensures o == Done ==> r == Returned(old(HeapState()), increment)
      ensures o == Done ==> (r == -1 <==> old(sbrk_pointer) + increment < START_HEAP)
      ensures o == Done && r != -1 ==> r == old(sbrk_pointer) && sbrk_pointer == r + increment
      ensures o == Done && r == -1 ==> sbrk_pointer == old(sbrk_pointer)
      ensures o == Done && increment > 0 ==> |pages.heap| == |old(pages).heap| + FramesFor(increment)
      ensures o == Done && increment <= 0 ==> pages == old(pages)
      ensures o == Done ==> pages.code == old(pages).code && pages.stack == old(pages).stack && old(pages).heap <= pages.heap
      ensures o != Done ==> machine.Valid() && sbrk_pointer == old(sbrk_pointer) && (o.Returns() ==> r == -1)
      ensures Unharmed(old(machine.mem), machine.mem) && lvl2 in machine.mem && machine.mem[lvl2] == old(machine.mem)[lvl2]
    {
      ghost var base := map[lvl2 := machine.mem[lvl2]];
      RootApart(machine.mem, lvl2, lvl1);
      var current := sbrk_pointer;
      var c := current + increment;
      o := Done;
      if increment > 0 {
        var list;
        o, list := AddAndAllocate(HEAP_PAGE, FramesFor(increment), base);
        if o != Done {
          return o, -1;
        }
      }
      if c < START_HEAP {
        return o, -1;
      }
      sbrk_pointer := c;
      r := current;
    }
  }

  /** init_mem_proc: the kernel's level 2 table is copied, and its user entry leads to an empty level 1 table. */
  method InitMemProc(m: Machine, kernel: seq<Pte>) returns (q: Process?)
    requires m.Valid() && |kernel| == 512
    modifies m, m.frames
    ensures m.Valid() && Extends(old(m.mem), m.mem) && (q == null <==> |old(m.frames.free)| <= 2)
    ensures q != null ==> fresh(q) && q.machine == m && q.Valid() && q.lvl2 !in old(m.mem) && Apart(old(m.mem), m.mem, q.lvl1)
    ensures q != null ==> q.nodes == [] && q.pages == Pages([], [], []) && q.sbrk_pointer == START_HEAP && Rooted(m.mem, q.lvl2, kernel)
    ensures q != null ==> |m.frames.free| == |old(m.frames.free)| - 2
  {
    q := null;
    var root := m.Take(Table(kernel));
    if root != 0 {
      var user := m.Take(Table(ZeroTable()));
      if user != 0 {
        ghost var e := m.Configure(root, USERSPACE, user, false, false, false, true);
        q := new Process(m, root, user);
      }
    }
  }
}
