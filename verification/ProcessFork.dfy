/**
 copy_process_memory (src/kernel/process/process_memory.c:563-671): the child gets the same bytes at
 the same addresses, in frames of its own.
 */
module ProcessFork {
  import opened Marks
  import opened SetFacts
  import opened PageTables
  import opened AddressSpace
  import opened TableList
  import opened PageOutcomes
  import opened ProcessMemory
  import opened ProcessImage

  function Replaced(pages: Pages, kind: Kind, k: nat, r: nat): Pages
    requires k < |Of(pages, kind)|
  {
    With(pages, kind, Of(pages, kind)[k := r])
  }

  /** Another frame for page number k: every other page stays. */
  lemma PageReplaced(mem: Mem, mem': Mem, lvl2: nat, lvl1: nat, nodes: seq<Node>, pages: Pages, kind: Kind, k: nat, r: nat)
    requires Laid(mem, lvl2, lvl1, nodes, pages) && k < |Of(pages, kind)| && IndexOf(kind, k / 512) >= 0
    requires var e := Entry(mem, lvl1, IndexOf(kind, k / 512));
      e.valid && PageAdded(mem, mem', FrameOf(e), Slot(kind, k % 512), r, kind == CODE_PAGE)
    ensures Laid(mem', lvl2, lvl1, nodes, Replaced(pages, kind, k, r))
  {
    var i, pages' := IndexOf(kind, k / 512), Replaced(pages, kind, k, r);
    PageAddedTree(mem, mem', lvl2, lvl1, i, Slot(kind, k % 512), r, kind == CODE_PAGE);
    assert forall j: nat :: Entry(mem', lvl1, j) == Entry(mem, lvl1, j);
    forall kind', k': nat | k' < |Of(pages', kind')| ensures PageOk(mem', lvl1, kind', k', Of(pages', kind')[k']) {
      if kind' != kind || k' != k {
        OtherPageStays(mem, mem', lvl2, lvl1, pages, kind, k, r, kind', k');
      }
    }
    ReplacedOwn(mem, lvl1, pages, kind, k, r);
    forall j | 0 <= j < |nodes| ensures NodeOk(mem', lvl1, nodes[j], |Of(pages', nodes[j].kind)|) {
      assert NodeOk(mem, lvl1, nodes[j], |Of(pages, nodes[j].kind)|);
    }
    forall other: Kind ensures AllListed(nodes, other, |Of(pages', other)|) {
      assert AllListed(nodes, other, |Of(pages, other)|);
    }
  }

  lemma OtherPageStays(mem: Mem, mem': Mem, lvl2: nat, lvl1: nat, pages: Pages, kind: Kind, k: nat, r: nat, kind': Kind, k': nat)
    requires Space(mem, lvl2, lvl1, pages) && k < |Of(pages, kind)| && k' < |Of(pages, kind')| && (kind' != kind || k' != k)
    requires IndexOf(kind, k / 512) >= 0 && IsTable(mem', lvl1) && mem'[lvl1] == mem[lvl1]
    requires var e := Entry(mem, lvl1, IndexOf(kind, k / 512));
      e.valid && PageAdded(mem, mem', FrameOf(e), Slot(kind, k % 512), r, kind == CODE_PAGE)
    ensures PageOk(mem', lvl1, kind', k', Of(pages, kind')[k'])
  {
    assert PageOk(mem, lvl1, kind', k', Of(pages, kind')[k']);
    var i, j := IndexOf(kind, k / 512), IndexOf(kind', k' / 512);
    var tb := FrameOf(Entry(mem, lvl1, i));
    assert LinkOk(mem, lvl2, lvl1, j) && LinkOk(mem, lvl2, lvl1, i) && Pair(i, j);
    assert Kept(mem, mem', tb, FrameOf(Entry(mem, lvl1, j))) && Kept(mem, mem', tb, Of(pages, kind')[k']);
    SlotDistinct(pages, kind, k, kind', k');
  }

  lemma ReplacedOwn(mem: Mem, lvl1: nat, pages: Pages, kind: Kind, n: nat, r: nat)
    requires PagesOk(mem, lvl1, pages) && OwnFrames(pages) && r !in mem && n < |Of(pages, kind)|
    ensures OwnFrames(Replaced(pages, kind, n, r))
  {
    var pages' := Replaced(pages, kind, n, r);
    forall a, k: nat, b, l: nat | k < |Of(pages', a)| && l < |Of(pages', b)| && (a != b || k != l)
      ensures Of(pages', a)[k] != Of(pages', b)[l]
    {
      assert Both(a, k, b, l);
      assert PageOk(mem, lvl1, a, k, Of(pages, a)[k]);
      assert PageOk(mem, lvl1, b, l, Of(pages, b)[l]);
    }
  }

  // ----- the copy -----

  /** The parent, as it is in memory at base: nothing that the child does touches it. */
  ghost predicate Parent(p: Process, base: Mem)
    reads p
  {
    Laid(base, p.lvl2, p.lvl1, p.nodes, p.pages) && p.Counters()
  }

  /** Page number k of a kind holds the same bytes for both. */
  ghost predicate SamePage(mem: Mem, p: Pages, q: Pages, kind: Kind, k: nat) {
    && k < |Of(p, kind)| && k < |Of(q, kind)| && Of(p, kind)[k] in mem && Of(q, kind)[k] in mem
    && mem[Of(p, kind)[k]].Bytes? && mem[Of(q, kind)[k]] == mem[Of(p, kind)[k]]
  }

  ghost predicate SameSizes(p: Pages, q: Pages) {
    |p.code| == |q.code| && |p.stack| == |q.stack| && |p.heap| == |q.heap|
  }

  /** The child's frames were not in memory at base. */
  ghost predicate NewFrames(q: Pages, base: Mem) {
    forall kind, k: nat {:trigger Of(q, kind)[k]} :: k < |Of(q, kind)| ==> Of(q, kind)[k] !in base
  }

  /** Where the page of the parent is found: the entry of its table number k / 512. */
  lemma SourcePage(base: Mem, mem: Mem, p: Pages, lvl2: nat, lvl1: nat, nodes: seq<Node>, kind: Kind, k: nat)
    requires Laid(base, lvl2, lvl1, nodes, p) && Extends(base, mem) && k < |Of(p, kind)|
    ensures IndexOf(kind, k / 512) >= 0 && IsPage(base, Of(p, kind)[k]) && IsPage(mem, Of(p, kind)[k])
    ensures var tb := FrameOf(Entry(base, lvl1, IndexOf(kind, k / 512)));
      IsTable(mem, tb) && FrameOf(Entry(mem, tb, Slot(kind, k % 512))) == Of(p, kind)[k]
  {
    assert PageOk(base, lvl1, kind, k, Of(p, kind)[k]);
    assert LinkOk(base, lvl2, lvl1, IndexOf(kind, k / 512));
  }

  /** Pages that are the same for both stay so. */
  ghost predicate StaySame(mem: Mem, q: Pages, mem': Mem, q': Pages, p: Pages) {
    forall kind, k: nat {:trigger SamePage(mem', p, q', kind, k)} :: SamePage(mem, p, q, kind, k) ==> SamePage(mem', p, q', kind, k)
  }

  lemma StaySameTwice(mem: Mem, q: Pages, mem1: Mem, q1: Pages, mem2: Mem, q2: Pages, p: Pages)
    requires StaySame(mem, q, mem1, q1, p) && StaySame(mem1, q1, mem2, q2, p)
    ensures StaySame(mem, q, mem2, q2, p)
  {
    forall kind, k: nat | SamePage(mem, p, q, kind, k) ensures SamePage(mem2, p, q2, kind, k) {
      assert SamePage(mem1, p, q1, kind, k);
    }
  }

  /** The child on its way: its tables and pages are in order, and nothing of what was in memory at base has changed. */
  ghost predicate Under(base: Mem, mem: Mem, p: Pages, lvl2: nat, lvl1: nat, nodes: seq<Node>, q: Pages) {
    Laid(mem, lvl2, lvl1, nodes, q) && Apart(base, mem, lvl1) && SameSizes(p, q) && NewFrames(q, base)
  }

  /** A new frame with the parent's bytes takes the place of page number k of the child. */
  lemma PageCopied(base: Mem, mem: Mem, mem': Mem, p: Pages, lvl2: nat, lvl1: nat, nodes: seq<Node>, q: Pages,
                   kind: Kind, k: nat, table: nat, slot: nat, frame: nat, e: Pte)
    requires Under(base, mem, p, lvl2, lvl1, nodes, q) && k < |Of(p, kind)| && IsPage(base, Of(p, kind)[k])
    requires IndexOf(kind, k / 512) >= 0 && slot == Slot(kind, k % 512) && IsTable(mem, table)
    requires var e1 := Entry(mem, lvl1, IndexOf(kind, k / 512)); e1.valid && FrameOf(e1) == table
    requires frame !in mem && Permits(e, kind == CODE_PAGE) && FrameOf(e) == frame && Of(p, kind)[k] in mem
    requires var mem1 := mem[frame := mem[Of(p, kind)[k]]]; mem' == mem1[table := Table(mem1[table].ptes[slot := e])]
    ensures Under(base, mem', p, lvl2, lvl1, nodes, Replaced(q, kind, k, frame))
    ensures SamePage(mem', p, Replaced(q, kind, k, frame), kind, k) && Extends(base, mem') && lvl1 in mem && lvl1 in mem' && mem'[lvl1] == mem[lvl1]
    ensures StaySame(mem, q, mem', Replaced(q, kind, k, frame), p)
  {
    var q' := Replaced(q, kind, k, frame);
    var source := Of(p, kind)[k];
    assert source in base && mem[source] == base[source];
    MappedPage(mem, mem[frame := mem[source]], mem', table, slot, frame, mem[source].data, e, kind == CODE_PAGE);
    PageAddedTree(mem, mem', lvl2, lvl1, IndexOf(kind, k / 512), slot, frame, kind == CODE_PAGE);
    PageReplaced(mem, mem', lvl2, lvl1, nodes, q, kind, k, frame);
    PageApart(base, mem, mem', lvl2, lvl1, IndexOf(kind, k / 512), slot, frame, kind == CODE_PAGE);
    assert Kept(mem, mem', table, source);
    forall kind', k': nat | SamePage(mem, p, q, kind', k') ensures SamePage(mem', p, q', kind', k') {
      assert Kept(mem, mem', table, Of(p, kind')[k']) && Kept(mem, mem', table, Of(q, kind')[k']);
    }
    NewFramesReplaced(q, base, kind, k, frame);
  }

  lemma NewFramesReplaced(q: Pages, base: Mem, kind: Kind, k: nat, frame: nat)
    requires NewFrames(q, base) && k < |Of(q, kind)| && frame !in base
    ensures NewFrames(Replaced(q, kind, k, frame), base)
  {
    var q' := Replaced(q, kind, k, frame);
    forall kind', k': nat | k' < |Of(q', kind')| ensures Of(q', kind')[k'] !in base {
      assert k' < |Of(q, kind')| && Of(q, kind')[k'] !in base;
    }
  }

  /** get_frame, memset and memcpy: a new frame with the content of another; 0 if there is none. */
  method CopyFrame(m: Machine, source: nat) returns (frame: nat)
    requires m.Valid() && IsPage(m.mem, source)
    modifies m, m.frames
    ensures m.Valid() && (frame == 0 <==> |old(m.frames.free)| == 1)
    ensures frame == 0 ==> m.mem == old(m.mem) && |m.frames.free| == |old(m.frames.free)|
    ensures frame != 0 ==> frame !in old(m.mem) && frame < FRAME_LIMIT && m.mem == old(m.mem)[frame := old(m.mem)[source]]
    ensures frame != 0 ==> |m.frames.free| == |old(m.frames.free)| - 1
  {
    frame := m.Take(Bytes(ZeroBytes()));
    if frame != 0 {
      SameKeys(m.mem, frame, m.mem[source]);
      m.mem := m.mem[frame := m.mem[source]];
    }
  }

  /** The entry for a page of the child, and the table that it is in. */
  lemma ChildEntry(mem: Mem, lvl2: nat, lvl1: nat, nodes: seq<Node>, q: Pages, kind: Kind, k: nat)
    requires Laid(mem, lvl2, lvl1, nodes, q) && k < |Of(q, kind)|
    ensures IndexOf(kind, k / 512) >= 0
    ensures var e := Entry(mem, lvl1, IndexOf(kind, k / 512)); e.valid && IsTable(mem, FrameOf(e))
  {
    assert PageOk(mem, lvl1, kind, k, Of(q, kind)[k]);
    assert LinkOk(mem, lvl2, lvl1, IndexOf(kind, k / 512));
  }

  /** One page of the inner loop of copy_process_memory; 0, and nothing has changed, if there is no frame. */
  method CopyPage(q: Process, p: Process, kind: Kind, table: nat, source: nat, index_kilo: nat, ghost k: nat, ghost base: Mem) returns (frame: nat)
    requires q != p && q.machine.Valid() && Parent(p, base)
    requires Under(base, q.machine.mem, p.pages, q.lvl2, q.lvl1, q.nodes, q.pages) && k < |Of(p.pages, kind)|
    requires index_kilo == Slot(kind, k % 512) && IndexOf(kind, k / 512) >= 0
    requires source == FrameOf(Entry(base, p.lvl1, IndexOf(kind, k / 512)))
    requires table == FrameOf(Entry(q.machine.mem, q.lvl1, IndexOf(kind, k / 512)))
    modifies q`pages, q.machine, q.machine.frames
    ensures q.machine.Valid() && Under(base, q.machine.mem, p.pages, q.lvl2, q.lvl1, q.nodes, q.pages)
    ensures frame == 0 <==> |old(q.machine.frames.free)| == 1
    ensures frame == 0 ==> q.machine.mem == old(q.machine.mem) && q.pages == old(q.pages)
    ensures frame != 0 ==> SamePage(q.machine.mem, p.pages, q.pages, kind, k)
    ensures frame != 0 ==> StaySame(old(q.machine.mem), old(q.pages), q.machine.mem, q.pages, p.pages)
    ensures frame != 0 ==> |q.machine.frames.free| == |old(q.machine.frames.free)| - 1
  {
    ghost var mem := q.machine.mem;
    SourcePage(base, mem, p.pages, p.lvl2, p.lvl1, p.nodes, kind, k);
    ChildEntry(mem, q.lvl2, q.lvl1, q.nodes, q.pages, kind, k);
    frame := CopyFrame(q.machine, FrameOf(Entry(q.machine.mem, source, index_kilo)));
    if frame != 0 {
      ghost var e := q.machine.Configure(table, index_kilo, frame, true, true, kind == CODE_PAGE, true);
      PageCopied(base, mem, q.machine.mem, p.pages, q.lvl2, q.lvl1, q.nodes, q.pages, kind, k, table, index_kilo, frame, e);
      q.pages := Replaced(q.pages, kind, k, frame);
    }
  }

  // ----- one table -----

  /** Which page of its kind the entry number j of a table is. */
  function PageAt(node: Node, j: nat): nat {
    if NumberOf(node) >= 0 then 512 * NumberOf(node) + j else j
  }

  /** The first n pages of a table are the same for both. */
  ghost predicate NodeCopied(mem: Mem, p: Pages, q: Pages, node: Node, n: nat) {
    forall j: nat {:trigger PageAt(node, j)} :: j < n ==> SamePage(mem, p, q, node.kind, PageAt(node, j))
  }

  lemma NodeStays(mem: Mem, q: Pages, mem': Mem, q': Pages, p: Pages, node: Node, n: nat)
    requires NodeCopied(mem, p, q, node, n) && StaySame(mem, q, mem', q', p)
    ensures NodeCopied(mem', p, q', node, n)
  {
    forall j: nat | j < n ensures SamePage(mem', p, q', node.kind, PageAt(node, j)) {
      assert SamePage(mem, p, q, node.kind, PageAt(node, j));
    }
  }

  /** A table of the child and entry number j of it. */
  lemma PagePlace(mem: Mem, lvl2: nat, lvl1: nat, nodes: seq<Node>, q: Pages, x: nat, j: nat)
    requires Laid(mem, lvl2, lvl1, nodes, q) && x < |nodes| && j < nodes[x].usage
    ensures var node, k := nodes[x], PageAt(nodes[x], j);
      && k < |Of(q, node.kind)| && k % 512 == j && IndexOf(node.kind, k / 512) == node.index
      && FrameOf(Entry(mem, lvl1, node.index)) == node.table
  {
    assert NodeOk(mem, lvl1, nodes[x], |Of(q, nodes[x].kind)|);
    IndexOfNumber(nodes[x]);
    PlaceOf(NumberOf(nodes[x]), j);
  }

  lemma PlaceOf(t: nat, j: nat)
    requires j < 512
    ensures (512 * t + j) / 512 == t && (512 * t + j) % 512 == j
  {
  }

  /** The table of the parent with the same index is there, and it has the same kind and as many pages. */
  lemma SourceFound(base: Mem, plvl1: nat, pnodes: seq<Node>, p: Pages, mem: Mem, lvl1: nat, nodes: seq<Node>, q: Pages, x: nat)
    requires ListOk(base, plvl1, pnodes, p) && ListOk(mem, lvl1, nodes, q) && SameSizes(p, q) && x < |nodes|
    ensures exists i {:trigger pnodes[i]} :: 0 <= i < |pnodes| && pnodes[i].index == nodes[x].index
    ensures forall i {:trigger pnodes[i]} :: 0 <= i < |pnodes| && pnodes[i].index == nodes[x].index ==>
      && pnodes[i].kind == nodes[x].kind && pnodes[i].usage == nodes[x].usage
      && pnodes[i].table == FrameOf(Entry(base, plvl1, nodes[x].index))
  {
    var kind, t := nodes[x].kind, NumberOf(nodes[x]);
    var n := |Of(q, kind)|;
    assert n == |Of(p, kind)|;
    assert NodeOk(mem, lvl1, nodes[x], n);
    assert AllListed(pnodes, kind, n);
    assert Listed(pnodes, kind, t);
    var s :| 0 <= s < |pnodes| && pnodes[s].kind == kind && NumberOf(pnodes[s]) == t;
    IndexOfNumber(nodes[x]);
    IndexOfNumber(pnodes[s]);
    assert NodeOk(base, plvl1, pnodes[s], n);
    forall i | 0 <= i < |pnodes| && pnodes[i].index == nodes[x].index ensures i == s {
      assert Pair(i, s) && Pair(s, i);
    }
  }

  /** The level 1 entry of a table is written again. */
  lemma RelinkUnder(base: Mem, mem: Mem, mem': Mem, p: Pages, lvl2: nat, lvl1: nat, nodes: seq<Node>, q: Pages, i: nat, e: Pte)
    requires Under(base, mem, p, lvl2, lvl1, nodes, q) && i < 512 && Entry(mem, lvl1, i).valid
    requires Leads(e) && FrameOf(e) == FrameOf(Entry(mem, lvl1, i))
    requires mem' == mem[lvl1 := Table(mem[lvl1].ptes[i := e])]
    ensures Under(base, mem', p, lvl2, lvl1, nodes, q) && StaySame(mem, q, mem', q, p)
  {
    Relinked(mem, mem', lvl2, lvl1, nodes, q, i, e);
    forall j: nat | Entry(mem', lvl1, j).valid ensures FrameOf(Entry(mem', lvl1, j)) !in base {
      assert Entry(mem, lvl1, j).valid && FrameOf(Entry(mem', lvl1, j)) == FrameOf(Entry(mem, lvl1, j));
    }
    forall kind, k: nat | SamePage(mem, p, q, kind, k) ensures SamePage(mem', p, q, kind, k) {
    }
  }

  /** The child while it is being filled; the parent is at rest, as it was at base. */
  ghost predicate Filling(q: Process, p: Process, base: Mem)
    reads q, q.machine, q.machine.frames, p
  {
    && q != p && q.machine.Valid() && q.Counters() && Parent(p, base)
    && Under(base, q.machine.mem, p.pages, q.lvl2, q.lvl1, q.nodes, q.pages)
  }

  /** The search through the list of the parent; its length if there is no table with the index. */
  method FindSource(p: Process, index: nat) returns (i: nat)
    ensures i <= |p.nodes| && (i < |p.nodes| ==> p.nodes[i].index == index)
    ensures i == |p.nodes| ==> forall k {:trigger p.nodes[k]} :: 0 <= k < |p.nodes| ==> p.nodes[k].index != index
  {
    i := 0;
    while i < |p.nodes| && p.nodes[i].index != index
      invariant i <= |p.nodes|
      invariant forall k {:trigger p.nodes[k]} :: 0 <= k < i ==> p.nodes[k].index != index
    {
      i := i + 1;
    }
  }

  /** The first entries of table number x have been copied, since `was` and with `pages`. */
  ghost predicate Midway(q: Process, p: Process, base: Mem, was: Mem, pages: Pages, x: nat, n: nat)
    reads q, q.machine, p
  {
    x < |q.nodes| && NodeCopied(q.machine.mem, p.pages, q.pages, q.nodes[x], n) && StaySame(was, pages, q.machine.mem, q.pages, p.pages)
  }

  lemma OneMoreCopied(mem: Mem, p: Pages, q: Pages, node: Node, n: nat)
    requires NodeCopied(mem, p, q, node, n) && SamePage(mem, p, q, node.kind, PageAt(node, n))
    ensures NodeCopied(mem, p, q, node, n + 1)
  {
  }

  /** One round of the inner loop: entry number tab_iter of table number x. */
  method CopyEntry(q: Process, p: Process, x: nat, source: nat, tab_iter: nat, ghost base: Mem, ghost was: Mem, ghost pages: Pages)
    returns (rc: int)
    requires Filling(q, p, base) && Midway(q, p, base, was, pages, x, tab_iter) && tab_iter < q.nodes[x].usage
    requires source == FrameOf(Entry(base, p.lvl1, q.nodes[x].index))
    modifies q`pages, q.machine, q.machine.frames
    ensures Filling(q, p, base) && (rc == 0 || rc == -1) && (rc == 0 <==> |old(q.machine.frames.free)| > 1)
    ensures rc == 0 ==> Midway(q, p, base, was, pages, x, tab_iter + 1)
    ensures rc == 0 ==> |q.machine.frames.free| == |old(q.machine.frames.free)| - 1
  {
    ghost var mem, before, k := q.machine.mem, q.pages, PageAt(q.nodes[x], tab_iter);
    var kind := q.nodes[x].kind;
    PagePlace(mem, q.lvl2, q.lvl1, q.nodes, q.pages, x, tab_iter);
    var index_kilo := if kind == STACK_PAGE then PT_SIZE - 1 - tab_iter else tab_iter;
    var frame := CopyPage(q, p, kind, q.nodes[x].table, source, index_kilo, k, base);
    if frame == 0 {
      rc := -1;
    } else {
      NodeStays(mem, before, q.machine.mem, q.pages, p.pages, q.nodes[x], tab_iter);
      StaySameTwice(was, pages, mem, before, q.machine.mem, q.pages, p.pages);
      OneMoreCopied(q.machine.mem, p.pages, q.pages, q.nodes[x], tab_iter);
      rc := 0;
    }
  }

  /** mega_entry: the child's table is linked once more. */
  method Relink(q: Process, p: Process, x: nat, ghost base: Mem)
    requires Filling(q, p, base) && x < |q.nodes|
    modifies q.machine`mem
    ensures Filling(q, p, base) && StaySame(old(q.machine.mem), q.pages, q.machine.mem, q.pages, p.pages)
  {
    ghost var mem := q.machine.mem;
    var node := q.nodes[x];
    assert NodeOk(mem, q.lvl1, node, |Of(q.pages, node.kind)|);
    assert LinkOk(mem, q.lvl2, q.lvl1, node.index);
    ghost var e := q.machine.Configure(q.lvl1, node.index, node.table, false, false, false, true);
    RelinkUnder(base, mem, q.machine.mem, p.pages, q.lvl2, q.lvl1, q.nodes, q.pages, node.index, e);
  }

  /** One round of the outer loop: a table of the child. None of the checks fires; -1 exactly if the frames do not suffice. */
  method CopyTable(q: Process, p: Process, x: nat, ghost base: Mem) returns (rc: int)
    requires Filling(q, p, base) && x < |q.nodes|
    modifies q`pages, q.machine, q.machine.frames
    ensures Filling(q, p, base) && (rc == 0 || rc == -1) && (rc == 0 <==> |old(q.machine.frames.free)| > q.nodes[x].usage)
    ensures rc == 0 ==> Midway(q, p, base, old(q.machine.mem), old(q.pages), x, q.nodes[x].usage)
    ensures rc == 0 ==> |q.machine.frames.free| == |old(q.machine.frames.free)| - q.nodes[x].usage
  {
    ghost var was, pages, free := q.machine.mem, q.pages, |q.machine.frames.free|;
    SourceFound(base, p.lvl1, p.nodes, p.pages, was, q.lvl1, q.nodes, q.pages, x);
    var src := FindSource(p, q.nodes[x].index);
    assert src < |p.nodes|;
    var source := p.nodes[src];
    assert source.usage == q.nodes[x].usage;
    Relink(q, p, x, base);
    var tab_iter := 0;
    rc := 0;
    while tab_iter < q.nodes[x].usage
      invariant tab_iter <= q.nodes[x].usage && |q.machine.frames.free| == free - tab_iter && rc == 0
      invariant Filling(q, p, base) && Midway(q, p, base, was, pages, x, tab_iter)
    {
      rc := CopyEntry(q, p, x, source.table, tab_iter, base, was, pages);
      if rc < 0 {
        break;
      }
      tab_iter := tab_iter + 1;
    }
  }

  // ----- copy_process_memory -----

  /** The first x tables are the same for both. */
  ghost predicate TablesCopied(mem: Mem, p: Pages, q: Pages, nodes: seq<Node>, x: nat) {
    forall y {:trigger nodes[y]} :: 0 <= y < x && y < |nodes| ==> NodeCopied(mem, p, q, nodes[y], nodes[y].usage)
  }

  lemma TablesStay(mem: Mem, q: Pages, mem': Mem, q': Pages, p: Pages, nodes: seq<Node>, x: nat)
    requires TablesCopied(mem, p, q, nodes, x) && StaySame(mem, q, mem', q', p)
    requires x < |nodes| && NodeCopied(mem', p, q', nodes[x], nodes[x].usage)
    ensures TablesCopied(mem', p, q', nodes, x + 1)
  {
    forall y | 0 <= y < x ensures NodeCopied(mem', p, q', nodes[y], nodes[y].usage) {
      NodeStays(mem, q, mem', q', p, nodes[y], nodes[y].usage);
    }
  }

  /** Every page is in some table. */
  lemma AllCopied(mem: Mem, p: Pages, lvl1: nat, nodes: seq<Node>, q: Pages, kind: Kind, k: nat)
    requires ListOk(mem, lvl1, nodes, q) && TablesCopied(mem, p, q, nodes, |nodes|) && k < |Of(q, kind)|
    ensures SamePage(mem, p, q, kind, k)
  {
    var t, n := k / 512, |Of(q, kind)|;
    assert AllListed(nodes, kind, n);
    assert Listed(nodes, kind, t);
    var y :| 0 <= y < |nodes| && nodes[y].kind == kind && NumberOf(nodes[y]) == t;
    assert NodeOk(mem, lvl1, nodes[y], n);
    assert k == 512 * t + k % 512;
    assert PageAt(nodes[y], k % 512) == k;
  }

  /** Every page of the parent is there for the child, with the same bytes. */
  ghost predicate SameBytes(mem: Mem, p: Pages, q: Pages) {
    SameSizes(p, q) && forall kind, k: nat {:trigger SamePage(mem, p, q, kind, k)} :: k < |Of(p, kind)| ==> SamePage(mem, p, q, kind, k)
  }

  lemma AllSame(mem: Mem, p: Pages, lvl1: nat, nodes: seq<Node>, q: Pages)
    requires ListOk(mem, lvl1, nodes, q) && TablesCopied(mem, p, q, nodes, |nodes|) && SameSizes(p, q)
    ensures SameBytes(mem, p, q)
  {
    forall kind, k: nat | k < |Of(p, kind)| ensures SamePage(mem, p, q, kind, k) {
      AllCopied(mem, p, lvl1, nodes, q, kind, k);
    }
  }

  lemma RestUsage(nodes: seq<Node>, x: nat)
    requires x < |nodes|
    ensures Usage(nodes[x..]) == nodes[x].usage + Usage(nodes[x + 1..])
  {
    assert nodes[x..][1..] == nodes[x + 1..];
  }

  /** Frames that were taken after base. */
  lemma NewFramesMore(before: Pages, kind: Kind, list: seq<nat>, base: Mem, mem: Mem, mem': Mem)
    requires NewFrames(before, base) && Extends(base, mem) && AllZeroed(mem, mem', list)
    ensures NewFrames(With(before, kind, Of(before, kind) + list), base)
  {
    var after := With(before, kind, Of(before, kind) + list);
    forall kind', k: nat | k < |Of(after, kind')| ensures Of(after, kind')[k] !in base {
      if k < |Of(before, kind')| {
        assert Of(after, kind')[k] == Of(before, kind')[k];
      } else {
        assert Of(after, kind')[k] == list[k - |Of(before, kind)|];
      }
    }
  }

  /** The frames that the copy takes: two root tables, the pages with their tables, and the pages once more. */
  function CopyCost(pages: Pages): nat {
    2 + Cost(0, |pages.code|) + Cost(0, |pages.stack|) + Cost(0, |pages.heap|) + Count(pages)
  }

  /** What the parent is left with: everything that it had. */
  lemma ParentUntouched(p: Process, base: Mem, mem: Mem)
    requires Laid(base, p.lvl2, p.lvl1, p.nodes, p.pages) && Extends(base, mem)
    ensures Laid(mem, p.lvl2, p.lvl1, p.nodes, p.pages)
  {
    ExtendsKeeps(base, mem);
    LaidSame(base, mem, p.lvl2, p.lvl1, p.nodes, p.pages);
  }

  /** A child with so many pages of every kind, in new frames, and so many free frames. */
  ghost predicate Young(q: Process, base: Mem, free: nat, code: nat, stack: nat, heap: nat)
    reads q, q.machine, q.machine.frames
  {
    && q.Valid() && Apart(base, q.machine.mem, q.lvl1) && NewFrames(q.pages, base)
    && |q.pages.code| == code && |q.pages.stack| == stack && |q.pages.heap| == heap
    && |q.machine.frames.free| == free
  }

  /** add_and_allocate_frames for the child: the first pages of a kind. */
  method Grow(q: Process, kind: Kind, n: nat, ghost base: Mem, ghost free: nat, ghost code: nat, ghost stack: nat, ghost heap: nat)
    returns (o: Outcome)
    requires Young(q, base, free, code, stack, heap) && |Of(q.pages, kind)| == 0
    requires RegionsApart(q.pages, kind, n) && (kind == HEAP_PAGE ==> n <= 65536)
    modifies q, q.machine, q.machine.frames
    ensures q.machine.Valid() && Extends(base, q.machine.mem)
    ensures o == Done <==> n == 0 || (free > Cost(0, n) && (if kind == HEAP_PAGE then Tables(stack) else Tables(heap)) < 128)
    ensures o == Done ==>
      Young(q, base, free - Cost(0, n), Plus(code, kind, CODE_PAGE, n), Plus(stack, kind, STACK_PAGE, n), Plus(heap, kind, HEAP_PAGE, n))
  {
    ghost var mem, pages := q.machine.mem, q.pages;
    FirstEnough(pages, Tail(q.nodes), kind, n, free);
    var list;
    o, list := q.AddAndAllocate(kind, n, base);
    if o == Done {
      NewFramesMore(pages, kind, list, base, mem, q.machine.mem);
    }
  }

  /** The checks of the counters, and the end of the heap. */
  method ChildReady(q: Process, p: Process, ghost base: Mem, ghost free: nat)
    requires q != p && Parent(p, base) && Young(q, base, free, p.code_usage, p.stack_usage, p.heap_usage)
    modifies q`sbrk_pointer
    ensures Filling(q, p, base) && q.sbrk_pointer == p.sbrk_pointer && |q.machine.frames.free| == free
  {
    assert q.code_usage == p.code_usage && q.stack_usage == p.stack_usage && q.heap_usage == p.heap_usage;
    q.sbrk_pointer := p.sbrk_pointer;
  }

  /** The last of the three calls, and what follows it. */
  method GrowHeap(q: Process, p: Process, ghost base: Mem, ghost free: nat) returns (o: Outcome)
    requires q != p && Parent(p, base) && Young(q, base, free, p.code_usage, p.stack_usage, 0)
    modifies q, q.machine, q.machine.frames
    ensures q.machine.Valid() && Extends(base, q.machine.mem)
    ensures o == Done <==> p.heap_usage == 0 || (free > Cost(0, p.heap_usage) && Tables(p.stack_usage) < STACK_FRAME_SIZE)
    ensures o == Done ==> Filling(q, p, base) && q.sbrk_pointer == p.sbrk_pointer
    ensures o == Done ==> |q.machine.frames.free| == free - Cost(0, p.heap_usage)
  {
    CostMonotone(0, 0, p.heap_usage);
    o := Grow(q, HEAP_PAGE, p.heap_usage, base, free, p.code_usage, p.stack_usage, 0);
    if o == Done {
      ChildReady(q, p, base, free - Cost(0, p.heap_usage));
    }
  }

  /** What the three calls of add_and_allocate_frames need. */
  ghost predicate EnoughToReserve(code: nat, stack: nat, heap: nat, free: int) {
    && (code == 0 || free > Cost(0, code))
    && (stack == 0 || free - Cost(0, code) > Cost(0, stack))
    && (heap == 0 || (free - Cost(0, code) - Cost(0, stack) > Cost(0, heap) && Tables(stack) < STACK_FRAME_SIZE))
  }

  /** The last two of the three calls. */
  method GrowStackAndHeap(q: Process, p: Process, ghost base: Mem, ghost free: nat) returns (o: Outcome)
    requires q != p && Parent(p, base) && Young(q, base, free, p.code_usage, 0, 0)
    modifies q, q.machine, q.machine.frames
    ensures q.machine.Valid() && Extends(base, q.machine.mem)
    ensures o == Done <==>
      && (p.stack_usage == 0 || free > Cost(0, p.stack_usage))
      && (p.heap_usage == 0 || (free - Cost(0, p.stack_usage) > Cost(0, p.heap_usage) && Tables(p.stack_usage) < STACK_FRAME_SIZE))
    ensures o == Done ==> Filling(q, p, base) && q.sbrk_pointer == p.sbrk_pointer
    ensures o == Done ==> |q.machine.frames.free| == free - Cost(0, p.stack_usage) - Cost(0, p.heap_usage)
  {
    CostMonotone(0, 0, p.stack_usage);
    o := Grow(q, STACK_PAGE, p.stack_usage, base, free, p.code_usage, 0, 0);
    if o == Done {
      o := GrowHeap(q, p, base, free - Cost(0, p.stack_usage));
    }
  }

  /** As many pages of every kind as the parent has. */
  method Reserve(q: Process, p: Process, ghost base: Mem, ghost free: nat) returns (o: Outcome)
    requires q != p && Parent(p, base) && Young(q, base, free, 0, 0, 0)
    modifies q, q.machine, q.machine.frames
    ensures q.machine.Valid() && Extends(base, q.machine.mem)
    ensures o == Done <==> EnoughToReserve(p.code_usage, p.stack_usage, p.heap_usage, free)
    ensures o == Done ==> Filling(q, p, base) && q.sbrk_pointer == p.sbrk_pointer
    ensures o == Done ==>
      |q.machine.frames.free| == free - Cost(0, p.code_usage) - Cost(0, p.stack_usage) - Cost(0, p.heap_usage)
  {
    CostMonotone(0, 0, p.code_usage);
    o := Grow(q, CODE_PAGE, p.code_usage, base, free, 0, 0, 0);
    if o == Done {
      o := GrowStackAndHeap(q, p, base, free - Cost(0, p.code_usage));
    }
  }

  /** The outer loop, over the tables of the child: -1 exactly if there are not enough frames for all pages. */
  method CopyTables(q: Process, p: Process, ghost base: Mem) returns (rc: int)
    requires Filling(q, p, base)
    modifies q`pages, q.machine, q.machine.frames
    ensures Filling(q, p, base) && (rc == 0 || rc == -1) && (rc == 0 <==> |old(q.machine.frames.free)| > Usage(q.nodes))
    ensures rc == 0 ==> TablesCopied(q.machine.mem, p.pages, q.pages, q.nodes, |q.nodes|)
    ensures rc == 0 ==> |q.machine.frames.free| == |old(q.machine.frames.free)| - Usage(q.nodes)
  {
    ghost var free := |q.machine.frames.free|;
    var x := 0;
    rc := 0;
    assert q.nodes[0..] == q.nodes;
    while x < |q.nodes|
      invariant x <= |q.nodes| && rc == 0 && Filling(q, p, base)
      invariant |q.machine.frames.free| - Usage(q.nodes[x..]) == free - Usage(q.nodes)
      invariant TablesCopied(q.machine.mem, p.pages, q.pages, q.nodes, x)
    {
      ghost var mem, pages := q.machine.mem, q.pages;
      RestUsage(q.nodes, x);
      rc := CopyTable(q, p, x, base);
      if rc < 0 {
        break;
      }
      TablesStay(mem, pages, q.machine.mem, q.pages, p.pages, q.nodes, x);
      x := x + 1;
    }
  }

  /** What copy_process_memory needs, with so many free frames. */
  ghost predicate EnoughToCopy(pages: Pages, free: nat) {
    free > CopyCost(pages) && (pages.heap != [] ==> Tables(|pages.stack|) < STACK_FRAME_SIZE)
  }

  lemma EnoughInAll(pages: Pages, free: int)
    requires free >= 1
    ensures EnoughToReserve(|pages.code|, |pages.stack|, |pages.heap|, free)
            && free - Cost(0, |pages.code|) - Cost(0, |pages.stack|) - Cost(0, |pages.heap|) > Count(pages)
            <==> EnoughToCopy(pages, free + 2)
  {
    CostMonotone(0, 0, |pages.code|);
    CostMonotone(0, 0, |pages.stack|);
    CostMonotone(0, 0, |pages.heap|);
  }

  /** The child, whose root tables are there, gets the parent's pages. */
  method FillChild(q: Process, p: Process, ghost base: Mem, ghost free: nat) returns (o: Outcome)
    requires q != p && Parent(p, base) && Young(q, base, free, 0, 0, 0)
    modifies q, q.machine, q.machine.frames
    ensures q.machine.Valid() && Extends(base, q.machine.mem)
    ensures o == Done <==> EnoughToCopy(p.pages, free + 2)
    ensures o == Done ==> Filling(q, p, base) && q.sbrk_pointer == p.sbrk_pointer && SameBytes(q.machine.mem, p.pages, q.pages)
    ensures o == Done ==> |q.machine.frames.free| == free + 2 - CopyCost(p.pages)
  {
    EnoughInAll(p.pages, free);
    o := Reserve(q, p, base, free);
    if o == Done {
      assert Usage(q.nodes) == Count(p.pages);
      var rc := CopyTables(q, p, base);
      if rc < 0 {
        o := NoFrame;
      } else {
        AllSame(q.machine.mem, p.pages, q.lvl1, q.nodes, q.pages);
      }
    }
  }

  /** The child's root table counts with what was there before. */
  lemma WithRoot(base: Mem, mem: Mem, p: Process, lvl2: nat, lvl1: nat)
    requires Parent(p, base) && Apart(base, mem, lvl1) && Tree(mem, lvl2, lvl1) && lvl2 !in base
    ensures Parent(p, base[lvl2 := mem[lvl2]]) && Apart(base[lvl2 := mem[lvl2]], mem, lvl1)
  {
    RootApart(mem, lvl2, lvl1);
    ParentUntouched(p, base, base[lvl2 := mem[lvl2]]);
  }

  lemma WithoutRoot(base: Mem, mem: Mem, lvl2: nat, lvl1: nat, q: Pages, root: Content)
    requires Extends(base[lvl2 := root], mem) && lvl2 !in base
    ensures Extends(base, mem) && lvl2 in mem && mem[lvl2] == root
    ensures Apart(base[lvl2 := root], mem, lvl1) ==> Apart(base, mem, lvl1)
    ensures NewFrames(q, base[lvl2 := root]) ==> NewFrames(q, base)
  {
    forall f: nat | f in base ensures f in mem && mem[f] == base[f] {
      assert base[lvl2 := root][f] == base[f];
    }
  }

  /**
   copy_process_memory, which returns -1 when it stops with Refused or NoFrame. However it ends, the
   parent and whatever else was in memory are as they were.
   */
  method CopyProcessMemory(p: Process, kernel: seq<Pte>) returns (o: Outcome, q: Process?)
    requires p.Valid() && |kernel| == 512
    modifies p.machine, p.machine.frames
    ensures p.Valid() && Extends(old(p.machine.mem), p.machine.mem)
    ensures o == Done <==> EnoughToCopy(p.pages, |old(p.machine.frames.free)|)
    ensures o == Done ==> q != null && fresh(q) && q.machine == p.machine && q.Valid() && q.HeapState() == p.HeapState()
    ensures o == Done ==> SameBytes(q.machine.mem, p.pages, q.pages) && NewFrames(q.pages, old(p.machine.mem))
    ensures o == Done ==> Rooted(q.machine.mem, q.lvl2, kernel)
    ensures o == Done ==> |p.machine.frames.free| == |old(p.machine.frames.free)| - CopyCost(p.pages)
    ensures o == Done ==>
      |p.machine.mem.Keys - old(p.machine.mem).Keys - ToSet(FramesOf(q.lvl2, q.lvl1, q.nodes, q.pages))| == Count(p.pages)
  {
    ghost var base := p.machine.mem;
    q := InitMemProc(p.machine, kernel);
    if q == null {
      o := NoFrame;
    } else {
      ghost var base1 := base[q.lvl2 := q.machine.mem[q.lvl2]];
      WithRoot(base, q.machine.mem, p, q.lvl2, q.lvl1);
      o := FillChild(q, p, base1, |q.machine.frames.free|);
      WithoutRoot(base, q.machine.mem, q.lvl2, q.lvl1, q.pages, base1[q.lvl2]);
      if o == Done {
        LostFrames(base, q.machine.mem, q.lvl2, q.lvl1, q.nodes, q.pages);
      }
    }
    ParentUntouched(p, base, p.machine.mem);
  }

  // ----- the frames that are lost -----

  /** The frames that the tables and pages of a process take. */
  function TablesOf(nodes: seq<Node>): (s: seq<nat>)
    ensures |s| == |nodes| && forall i :: 0 <= i < |s| ==> s[i] == nodes[i].table
  {
    seq(|nodes|, i requires 0 <= i < |nodes| => nodes[i].table)
  }

  function FramesOf(lvl2: nat, lvl1: nat, nodes: seq<Node>, q: Pages): seq<nat> {
    [lvl2, lvl1] + TablesOf(nodes) + (q.code + q.stack + q.heap)
  }

  lemma PagesNoDup(q: Pages)
    requires OwnFrames(q)
    ensures NoDup(q.code + q.stack + q.heap)
  {
    forall kind: Kind ensures NoDup(Of(q, kind)) {
      forall i, j | 0 <= i < j < |Of(q, kind)| ensures Of(q, kind)[i] != Of(q, kind)[j] {
        assert Both(kind, i, kind, j);
      }
    }
    assert NoDup(Of(q, CODE_PAGE)) && NoDup(Of(q, STACK_PAGE)) && NoDup(Of(q, HEAP_PAGE));
    forall a: Kind, b: Kind, x | a != b && x in Of(q, a) ensures x !in Of(q, b) {
      var i :| 0 <= i < |Of(q, a)| && Of(q, a)[i] == x;
      forall j | 0 <= j < |Of(q, b)| ensures Of(q, b)[j] != x {
        assert Both(a, i, b, j);
      }
    }
    assert q.code == Of(q, CODE_PAGE) && q.stack == Of(q, STACK_PAGE) && q.heap == Of(q, HEAP_PAGE);
    NoDupConcat(q.code, q.stack);
    NoDupConcat(q.code + q.stack, q.heap);
  }

  lemma TablesNoDup(mem: Mem, lvl2: nat, lvl1: nat, nodes: seq<Node>, q: Pages)
    requires Laid(mem, lvl2, lvl1, nodes, q)
    ensures NoDup([lvl2, lvl1] + TablesOf(nodes))
    ensures forall f :: f in [lvl2, lvl1] + TablesOf(nodes) ==> IsTable(mem, f)
  {
    forall i | 0 <= i < |nodes|
      ensures IsTable(mem, nodes[i].table) && nodes[i].table != lvl1 && nodes[i].table != lvl2
    {
      assert NodeOk(mem, lvl1, nodes[i], |Of(q, nodes[i].kind)|);
      assert LinkOk(mem, lvl2, lvl1, nodes[i].index);
    }
    forall i, j | 0 <= i < j < |nodes| ensures nodes[i].table != nodes[j].table {
      assert NodeOk(mem, lvl1, nodes[i], |Of(q, nodes[i].kind)|) && NodeOk(mem, lvl1, nodes[j], |Of(q, nodes[j].kind)|);
      assert Pair(i, j) && Pair(nodes[i].index, nodes[j].index);
    }
    NoDupConcat([lvl2, lvl1], TablesOf(nodes));
  }

  lemma FramesNoDup(mem: Mem, lvl2: nat, lvl1: nat, nodes: seq<Node>, q: Pages)
    requires Laid(mem, lvl2, lvl1, nodes, q)
    ensures NoDup(FramesOf(lvl2, lvl1, nodes, q))
    ensures forall f :: f in FramesOf(lvl2, lvl1, nodes, q) ==> f in mem
    ensures |FramesOf(lvl2, lvl1, nodes, q)| == 2 + TableCount(q) + Count(q)
  {
    PagesNoDup(q);
    TablesNoDup(mem, lvl2, lvl1, nodes, q);
    var s := q.code + q.stack + q.heap;
    forall f | f in s ensures IsPage(mem, f) {
      var kind := if f in q.code then CODE_PAGE else if f in q.stack then STACK_PAGE else HEAP_PAGE;
      var k :| 0 <= k < |Of(q, kind)| && Of(q, kind)[k] == f;
      assert PageOk(mem, lvl1, kind, k, Of(q, kind)[k]);
    }
    NoDupConcat([lvl2, lvl1] + TablesOf(nodes), s);
  }

  /** None of them was in memory at base. */
  lemma FramesNew(base: Mem, mem: Mem, lvl2: nat, lvl1: nat, nodes: seq<Node>, q: Pages)
    requires Laid(mem, lvl2, lvl1, nodes, q) && Apart(base, mem, lvl1) && lvl2 !in base && NewFrames(q, base)
    ensures forall f :: f in FramesOf(lvl2, lvl1, nodes, q) ==> f !in base
  {
    forall i | 0 <= i < |nodes| ensures nodes[i].table !in base {
      assert NodeOk(mem, lvl1, nodes[i], |Of(q, nodes[i].kind)|);
    }
    assert forall k :: 0 <= k < |q.code| ==> Of(q, CODE_PAGE)[k] !in base;
    assert forall k :: 0 <= k < |q.stack| ==> Of(q, STACK_PAGE)[k] !in base;
    assert forall k :: 0 <= k < |q.heap| ==> Of(q, HEAP_PAGE)[k] !in base;
  }

  /** Of the frames that the copy took, as many as there are pages belong to nobody. */
  lemma LostFrames(base: Mem, mem: Mem, lvl2: nat, lvl1: nat, nodes: seq<Node>, q: Pages)
    requires Laid(mem, lvl2, lvl1, nodes, q) && Apart(base, mem, lvl1) && lvl2 !in base && NewFrames(q, base)
    requires |mem.Keys| == |base.Keys| + CopyCost(q)
    ensures |mem.Keys - base.Keys - ToSet(FramesOf(lvl2, lvl1, nodes, q))| == Count(q)
  {
    var own := FramesOf(lvl2, lvl1, nodes, q);
    FramesNoDup(mem, lvl2, lvl1, nodes, q);
    FramesNew(base, mem, lvl2, lvl1, nodes, q);
    SetSize(own);
    assert base.Keys <= mem.Keys;
    Difference(mem.Keys, base.Keys);
    Difference(mem.Keys - base.Keys, ToSet(own));
  }

  lemma Difference(a: set<nat>, b: set<nat>)
    requires b <= a
    ensures |a - b| == |a| - |b|
  {
    assert a == b + (a - b);
  }

  // ----- what the child sees -----

  /** The child reads what the parent reads, at every address that is mapped for the parent's code, stack and heap. */
  lemma ReadsTheSame(mem: Mem, lvl2: nat, lvl1: nat, p: Pages, child2: nat, child1: nat, q: Pages, kind: Kind, k: nat, offset: nat)
    requires Space(mem, lvl2, lvl1, p) && Space(mem, child2, child1, q) && SameBytes(mem, p, q)
    requires k < |Of(p, kind)| && offset < 4096
    ensures PageNumber(kind, k) >= 0
    ensures var address := PageNumber(kind, k) * 4096 + offset;
      ReadByte(mem, child2, address) == ReadByte(mem, lvl2, address) != NotMapped
  {
    assert SamePage(mem, p, q, kind, k);
    ReadsPage(mem, lvl2, lvl1, p, kind, k, offset);
    ReadsPage(mem, child2, child1, q, kind, k, offset);
  }

  /** A store of one byte to a virtual address. */
  function WriteByte(mem: Mem, root: nat, address: nat, v: nat): Mem {
    match Translate(mem, root, address / 4096)
    case Fault => mem
    case Frame(f) =>
      if f in mem && mem[f].Bytes? && address % 4096 < |mem[f].data| then mem[f := Bytes(mem[f].data[address % 4096 := v])] else mem
  }

  /** No page of the child is in a frame of the parent. */
  lemma NoSharedFrame(base: Mem, lvl1: nat, p: Pages, q: Pages, kind: Kind, k: nat, kind': Kind, k': nat)
    requires PagesOk(base, lvl1, p) && NewFrames(q, base) && k < |Of(p, kind)| && k' < |Of(q, kind')|
    ensures Of(p, kind)[k] != Of(q, kind')[k']
  {
    assert PageOk(base, lvl1, kind, k, Of(p, kind)[k]);
  }

  /** The frame that a store to a page changes. */
  lemma StoredAt(mem: Mem, lvl2: nat, lvl1: nat, q: Pages, kind: Kind, k: nat, offset: nat, v: nat)
    requires Space(mem, lvl2, lvl1, q) && k < |Of(q, kind)| && offset < 4096
    ensures PageNumber(kind, k) >= 0 && IsPage(mem, Of(q, kind)[k])
    ensures var mem' := WriteByte(mem, lvl2, PageNumber(kind, k) * 4096 + offset, v);
      mem' == mem[Of(q, kind)[k] := Bytes(mem[Of(q, kind)[k]].data[offset := v])] && SameTables(mem, mem')
  {
    Translates(mem, lvl2, lvl1, q, kind, k);
    Offset(PageNumber(kind, k), offset);
    BytesSet(mem, Of(q, kind)[k], mem[Of(q, kind)[k]].data[offset := v]);
  }

  /** A store to a page of the process is read back. */
  lemma ChildReadsBack(mem: Mem, lvl2: nat, lvl1: nat, q: Pages, kind: Kind, k: nat, offset: nat, v: nat)
    requires Space(mem, lvl2, lvl1, q) && k < |Of(q, kind)| && offset < 4096
    ensures PageNumber(kind, k) >= 0
    ensures var address := PageNumber(kind, k) * 4096 + offset;
      ReadByte(WriteByte(mem, lvl2, address, v), lvl2, address) == Value(v)
  {
    StoredAt(mem, lvl2, lvl1, q, kind, k, offset, v);
    var mem' := WriteByte(mem, lvl2, PageNumber(kind, k) * 4096 + offset, v);
    SpaceSame(mem, mem', lvl2, lvl1, q);
    ReadsPage(mem', lvl2, lvl1, q, kind, k, offset);
  }

  /** What the child stores in its code, stack or heap is not seen by the parent. */
  lemma ChildStoreUnseen(base: Mem, mem: Mem, lvl2: nat, lvl1: nat, p: Pages, child2: nat, child1: nat, q: Pages,
                         kind: Kind, k: nat, offset: nat, v: nat, kind': Kind, k': nat, offset': nat)
    requires Space(base, lvl2, lvl1, p) && Space(mem, lvl2, lvl1, p) && Space(mem, child2, child1, q) && NewFrames(q, base)
    requires k < |Of(q, kind)| && offset < 4096 && k' < |Of(p, kind')| && offset' < 4096
    ensures PageNumber(kind, k) >= 0 && PageNumber(kind', k') >= 0
    ensures var mem' := WriteByte(mem, child2, PageNumber(kind, k) * 4096 + offset, v);
      var address := PageNumber(kind', k') * 4096 + offset';
      ReadByte(mem', lvl2, address) == ReadByte(mem, lvl2, address) != NotMapped
  {
    StoredAt(mem, child2, child1, q, kind, k, offset, v);
    var mem' := WriteByte(mem, child2, PageNumber(kind, k) * 4096 + offset, v);
    SpaceSame(mem, mem', lvl2, lvl1, p);
    ReadsPage(mem, lvl2, lvl1, p, kind', k', offset');
    ReadsPage(mem', lvl2, lvl1, p, kind', k', offset');
    NoSharedFrame(base, lvl1, p, q, kind', k', kind, k);
  }
}
