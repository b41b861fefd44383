/**
 The address space of a process (src/kernel/process/process_memory.c:45-283, 702-745): what its page
 tables look like in memory, and that adding a table or a page keeps every translation.
 */
module AddressSpace {
  import opened Marks
  import opened PageTables

  const FRAME_LIMIT: nat := 0x1000_0000_0000

  ghost predicate IsTable(mem: Mem, f: nat) {
    f in mem && mem[f].Table? && |mem[f].ptes| == 512
  }

  ghost predicate IsPage(mem: Mem, f: nat) {
    f in mem && mem[f].Bytes? && |mem[f].data| == FRAME_SIZE
  }

  /** Level 1 entry i, if it is valid, leads to a table of its own. */
  ghost predicate LinkOk(mem: Mem, lvl2: nat, lvl1: nat, i: nat) {
    var e := Entry(mem, lvl1, i);
    e.valid ==> Leads(e) && IsTable(mem, FrameOf(e)) && FrameOf(e) != lvl1 && FrameOf(e) != lvl2
  }

  ghost predicate Tree(mem: Mem, lvl2: nat, lvl1: nat) {
    && IsTable(mem, lvl2) && IsTable(mem, lvl1) && lvl1 != lvl2
    && Leads(Entry(mem, lvl2, USERSPACE)) && FrameOf(Entry(mem, lvl2, USERSPACE)) == lvl1
    && (forall i: nat {:trigger LinkOk(mem, lvl2, lvl1, i)} :: LinkOk(mem, lvl2, lvl1, i))
    && (forall i: nat, j: nat {:trigger Pair(i, j)} :: Pair(i, j) && i != j && Entry(mem, lvl1, i).valid && Entry(mem, lvl1, j).valid ==>
        FrameOf(Entry(mem, lvl1, i)) != FrameOf(Entry(mem, lvl1, j)))
  }

  /** The entry for page number k of a kind, in a table that level 1 leads to, is a leaf for the frame, with the permissions of its kind. */
  ghost predicate PageOk(mem: Mem, lvl1: nat, kind: Kind, k: nat, frame: nat) {
    && IndexOf(kind, k / 512) >= 0
    && var e1 := Entry(mem, lvl1, IndexOf(kind, k / 512));
    && e1.valid
    && var e0 := Entry(mem, FrameOf(e1), Slot(kind, k % 512));
    && Permits(e0, kind == CODE_PAGE) && FrameOf(e0) == frame && IsPage(mem, frame)
  }

  ghost predicate PagesOk(mem: Mem, lvl1: nat, pages: Pages) {
    forall kind, k: nat {:trigger PageOk(mem, lvl1, kind, k, Of(pages, kind)[k])} :: k < |Of(pages, kind)| ==>
      PageOk(mem, lvl1, kind, k, Of(pages, kind)[k])
  }

  /** Always true; naming two pages is what makes the verifier compare them. */
  ghost predicate Both(kind: Kind, k: nat, kind': Kind, k': nat) {
    true
  }

  /** Different pages have different frames. */
  ghost predicate OwnFrames(pages: Pages) {
    forall kind, k: nat, kind', k': nat {:trigger Both(kind, k, kind', k')} ::
      Both(kind, k, kind', k') && k < |Of(pages, kind)| && k' < |Of(pages, kind')| && (kind != kind' || k != k') ==>
      Of(pages, kind)[k] != Of(pages, kind')[k']
  }

  ghost predicate Space(mem: Mem, lvl2: nat, lvl1: nat, pages: Pages) {
    Tree(mem, lvl2, lvl1) && PagesOk(mem, lvl1, pages) && OwnFrames(pages) && Fits(pages)
  }

  lemma WithinRegion(pages: Pages, kind: Kind, k: nat)
    requires Fits(pages) && k < |Of(pages, kind)|
    ensures k < 65536
  {
  }

  /** The hardware's walk finds every page of the process in its frame. */
  lemma Translates(mem: Mem, lvl2: nat, lvl1: nat, pages: Pages, kind: Kind, k: nat)
    requires Space(mem, lvl2, lvl1, pages) && k < |Of(pages, kind)|
    ensures PageNumber(kind, k) >= 0 && Translate(mem, lvl2, PageNumber(kind, k)) == Frame(Of(pages, kind)[k])
    ensures IsPage(mem, Of(pages, kind)[k])
  {
    WithinRegion(pages, kind, k);
    Split(kind, k);
    assert PageOk(mem, lvl1, kind, k, Of(pages, kind)[k]);
    assert LinkOk(mem, lvl2, lvl1, IndexOf(kind, k / 512));
  }

  /** Every page can be read and written by its process, and only code can be executed. */
  lemma Permitted(mem: Mem, lvl2: nat, lvl1: nat, pages: Pages, kind: Kind, k: nat)
    requires Space(mem, lvl2, lvl1, pages) && k < |Of(pages, kind)|
    ensures PageNumber(kind, k) >= 0 && Permits(LastEntry(mem, lvl2, PageNumber(kind, k)), kind == CODE_PAGE)
  {
    WithinRegion(pages, kind, k);
    Split(kind, k);
    assert PageOk(mem, lvl1, kind, k, Of(pages, kind)[k]);
  }

  /** The root table is the kernel's, but for the entry of the user space. */
  ghost predicate Rooted(mem: Mem, lvl2: nat, kernel: seq<Pte>) {
    && IsTable(mem, lvl2) && |kernel| == 512
    && forall i :: 0 <= i < 512 && i != USERSPACE ==> mem[lvl2].ptes[i] == kernel[i]
  }

  /** Outside the user space every process has the kernel's translations. */
  lemma KernelMapped(mem: Mem, lvl2: nat, kernel: seq<Pte>, root: nat, page: nat)
    requires Rooted(mem, lvl2, kernel) && root in mem && mem[root] == Table(kernel) && page / 262144 % 512 != USERSPACE
    ensures Translate(mem, lvl2, page) == Translate(mem, root, page) && LastEntry(mem, lvl2, page) == LastEntry(mem, root, page)
  {
    assert Entry(mem, lvl2, page / 262144 % 512) == kernel[page / 262144 % 512];
  }

  /** Frame f is still there, and unless it is the table tb it is unchanged. */
  ghost predicate Kept(mem: Mem, mem': Mem, tb: nat, f: nat) {
    f in mem ==> f in mem' && (f != tb ==> mem'[f] == mem[f])
  }

  // ----- a new table -----

  ghost predicate EmptyTable(mem: Mem, f: nat) {
    IsTable(mem, f) && forall i :: 0 <= i < 512 ==> mem[f].ptes[i] == EMPTY_PTE
  }

  /** mem' is mem with a new empty table, which entry i of lvl1 leads to. */
  ghost predicate TableAdded(mem: Mem, mem': Mem, lvl1: nat, i: nat, nt: nat) {
    && nt !in mem && i < 512 && EmptyTable(mem', nt) && IsTable(mem', lvl1)
    && Leads(Entry(mem', lvl1, i)) && FrameOf(Entry(mem', lvl1, i)) == nt
    && (forall j: nat {:trigger Entry(mem', lvl1, j)} :: j != i ==> Entry(mem', lvl1, j) == Entry(mem, lvl1, j))
    && forall f: nat {:trigger Kept(mem, mem', lvl1, f)} :: Kept(mem, mem', lvl1, f)
  }

  lemma TableAddedTree(mem: Mem, mem': Mem, lvl2: nat, lvl1: nat, i: nat, nt: nat)
    requires Tree(mem, lvl2, lvl1) && TableAdded(mem, mem', lvl1, i, nt)
    ensures Tree(mem', lvl2, lvl1)
  {
    assert Kept(mem, mem', lvl1, lvl2);
    forall j: nat ensures LinkOk(mem', lvl2, lvl1, j) {
      assert LinkOk(mem, lvl2, lvl1, j);
      assert Kept(mem, mem', lvl1, FrameOf(Entry(mem, lvl1, j)));
    }
    forall j: nat, k: nat | j != k && Entry(mem', lvl1, j).valid && Entry(mem', lvl1, k).valid
      ensures FrameOf(Entry(mem', lvl1, j)) != FrameOf(Entry(mem', lvl1, k))
    {
      assert Pair(j, k);
      assert LinkOk(mem, lvl2, lvl1, j) && LinkOk(mem, lvl2, lvl1, k);
    }
  }

  lemma TableAddedPages(mem: Mem, mem': Mem, lvl2: nat, lvl1: nat, pages: Pages, i: nat, nt: nat)
    requires Tree(mem, lvl2, lvl1) && PagesOk(mem, lvl1, pages) && TableAdded(mem, mem', lvl1, i, nt) && !Entry(mem, lvl1, i).valid
    ensures PagesOk(mem', lvl1, pages)
  {
    forall kind, k: nat | k < |Of(pages, kind)| ensures PageOk(mem', lvl1, kind, k, Of(pages, kind)[k]) {
      assert PageOk(mem, lvl1, kind, k, Of(pages, kind)[k]);
      var j := IndexOf(kind, k / 512);
      assert LinkOk(mem, lvl2, lvl1, j);
      assert Kept(mem, mem', lvl1, FrameOf(Entry(mem, lvl1, j)));
      assert Kept(mem, mem', lvl1, Of(pages, kind)[k]);
    }
  }

  // ----- a new page -----

  function With(pages: Pages, kind: Kind, s: seq<nat>): (r: Pages)
    ensures Of(r, kind) == s && forall other :: other != kind ==> Of(r, other) == Of(pages, other)
  {
    match kind
    case CODE_PAGE => pages.(code := s)
    case STACK_PAGE => pages.(stack := s)
    case HEAP_PAGE => pages.(heap := s)
  }

  /** mem' is mem with a new frame of bytes, for which entry `slot` of the table tb is a leaf. */
  ghost predicate PageAdded(mem: Mem, mem': Mem, tb: nat, slot: nat, r: nat, exec: bool) {
    && r !in mem && IsPage(mem', r) && slot < 512 && IsTable(mem, tb) && IsTable(mem', tb)
    && Permits(Entry(mem', tb, slot), exec) && FrameOf(Entry(mem', tb, slot)) == r
    && (forall j: nat {:trigger Entry(mem', tb, j)} :: j != slot ==> Entry(mem', tb, j) == Entry(mem, tb, j))
    && forall f: nat {:trigger Kept(mem, mem', tb, f)} :: Kept(mem, mem', tb, f)
  }

  lemma PageAddedTree(mem: Mem, mem': Mem, lvl2: nat, lvl1: nat, i: nat, slot: nat, r: nat, exec: bool)
    requires Tree(mem, lvl2, lvl1) && Entry(mem, lvl1, i).valid
    requires PageAdded(mem, mem', FrameOf(Entry(mem, lvl1, i)), slot, r, exec)
    ensures Tree(mem', lvl2, lvl1) && mem'[lvl1] == mem[lvl1]
  {
    var tb := FrameOf(Entry(mem, lvl1, i));
    assert LinkOk(mem, lvl2, lvl1, i);
    assert Kept(mem, mem', tb, lvl2) && Kept(mem, mem', tb, lvl1);
    assert forall j: nat :: Entry(mem', lvl1, j) == Entry(mem, lvl1, j);
    forall j: nat ensures LinkOk(mem', lvl2, lvl1, j) {
      assert LinkOk(mem, lvl2, lvl1, j);
      assert Kept(mem, mem', tb, FrameOf(Entry(mem, lvl1, j)));
    }
    forall j: nat, k: nat | j != k && Entry(mem', lvl1, j).valid && Entry(mem', lvl1, k).valid
      ensures FrameOf(Entry(mem', lvl1, j)) != FrameOf(Entry(mem', lvl1, k))
    {
      assert Pair(j, k);
    }
  }

  /** Different pages are in different tables or slots. */
  lemma SlotDistinct(pages: Pages, kind: Kind, k: nat, kind': Kind, k': nat)
    requires Fits(pages) && k < |Of(pages, kind)| && k' < |Of(pages, kind')|
    ensures kind != kind' || k != k' ==> IndexOf(kind, k / 512) != IndexOf(kind', k' / 512) || Slot(kind, k % 512) != Slot(kind', k' % 512)
  {
    TableNumber(k, |Of(pages, kind)|);
    TableNumber(k', |Of(pages, kind')|);
    if IndexOf(kind, k / 512) == IndexOf(kind', k' / 512) {
      IndexDistinct(Tables(|pages.code|), Tables(|pages.stack|), Tables(|pages.heap|), kind, k / 512, kind', k' / 512);
    }
    assert k == 512 * (k / 512) + k % 512 && k' == 512 * (k' / 512) + k' % 512;
  }

  lemma TableNumber(k: nat, n: nat)
    requires k < n
    ensures k / 512 < Tables(n) && (n <= 65536 ==> Tables(n) <= 128)
  {
  }

  lemma PageAddedPages(mem: Mem, mem': Mem, lvl2: nat, lvl1: nat, pages: Pages, kind: Kind, r: nat)
    requires Tree(mem, lvl2, lvl1) && PagesOk(mem, lvl1, pages)
    requires var k := |Of(pages, kind)|; Fits(With(pages, kind, Of(pages, kind) + [r])) && IndexOf(kind, k / 512) >= 0
    requires var k := |Of(pages, kind)|;
      var e := Entry(mem, lvl1, IndexOf(kind, k / 512));
      e.valid && PageAdded(mem, mem', FrameOf(e), Slot(kind, k % 512), r, kind == CODE_PAGE)
    ensures PagesOk(mem', lvl1, With(pages, kind, Of(pages, kind) + [r]))
  {
    var n, pages' := |Of(pages, kind)|, With(pages, kind, Of(pages, kind) + [r]);
    var i := IndexOf(kind, n / 512);
    PageAddedTree(mem, mem', lvl2, lvl1, i, Slot(kind, n % 512), r, kind == CODE_PAGE);
    forall kind', k: nat | k < |Of(pages', kind')| ensures PageOk(mem', lvl1, kind', k, Of(pages', kind')[k]) {
      if kind' != kind || k != n {
        OtherPageKept(mem, mem', lvl2, lvl1, pages, kind, r, kind', k);
      }
    }
  }

  lemma OtherPageKept(mem: Mem, mem': Mem, lvl2: nat, lvl1: nat, pages: Pages, kind: Kind, r: nat, kind': Kind, k: nat)
    requires Tree(mem, lvl2, lvl1) && PagesOk(mem, lvl1, pages) && IsTable(mem', lvl1) && mem'[lvl1] == mem[lvl1]
    requires var n := |Of(pages, kind)|; Fits(With(pages, kind, Of(pages, kind) + [r])) && IndexOf(kind, n / 512) >= 0
    requires var n := |Of(pages, kind)|;
      var e := Entry(mem, lvl1, IndexOf(kind, n / 512));
      e.valid && PageAdded(mem, mem', FrameOf(e), Slot(kind, n % 512), r, kind == CODE_PAGE)
    requires k < |Of(pages, kind')|
    ensures PageOk(mem', lvl1, kind', k, Of(pages, kind')[k])
  {
    var n, pages' := |Of(pages, kind)|, With(pages, kind, Of(pages, kind) + [r]);
    assert PageOk(mem, lvl1, kind', k, Of(pages, kind')[k]);
    var i, j := IndexOf(kind, n / 512), IndexOf(kind', k / 512);
    var tb := FrameOf(Entry(mem, lvl1, i));
    assert LinkOk(mem, lvl2, lvl1, j) && LinkOk(mem, lvl2, lvl1, i) && Pair(i, j);
    assert Kept(mem, mem', tb, FrameOf(Entry(mem, lvl1, j))) && Kept(mem, mem', tb, Of(pages, kind')[k]);
    SlotDistinct(pages', kind, n, kind', k);
  }

  lemma PageAddedOwn(mem: Mem, lvl1: nat, pages: Pages, kind: Kind, r: nat)
    requires PagesOk(mem, lvl1, pages) && OwnFrames(pages) && r !in mem
    ensures OwnFrames(With(pages, kind, Of(pages, kind) + [r]))
  {
    var pages' := With(pages, kind, Of(pages, kind) + [r]);
    forall a, k: nat, b, l: nat | k < |Of(pages', a)| && l < |Of(pages', b)| && (a != b || k != l)
      ensures Of(pages', a)[k] != Of(pages', b)[l]
    {
      assert Both(a, k, b, l);
      assert k < |Of(pages, a)| ==> PageOk(mem, lvl1, a, k, Of(pages, a)[k]);
      assert l < |Of(pages, b)| ==> PageOk(mem, lvl1, b, l, Of(pages, b)[l]);
    }
  }
}
