/**
 Three-level page tables in physical memory (src/kernel/memory/pages.c:22-128; the split of a virtual
 address is that of section 4.4 of the RISC-V Privileged Architecture, Sv39). Frames and pages go by
 their number, the address divided by 4096.
 */
module PageTables {
  import opened CInt

  const FRAME_SIZE: nat := 4096
  const PT_SIZE: nat := 512
  const USERSPACE: nat := 1
  const STACK_CODE_SPACE_START: nat := 0
  const STACK_CODE_SPACE_END: nat := 127
  const HEAP_SPACE_START: nat := 128

  datatype Pte = Pte(valid: bool, read: bool, write: bool, exec: bool, user: bool, ppn0: nat, ppn1: nat, ppn2: nat)

  const EMPTY_PTE: Pte := Pte(false, false, false, false, false, 0, 0, 0)

  /** What a frame is used for. */
  datatype Content = Table(ptes: seq<Pte>) | Bytes(data: seq<nat>)

  type Mem = map<nat, Content>

  /** link_pte: the frame number is cut into three fields by masks. */
  function LinkPte(pte: Pte, frame: nat): Pte {
    pte.(ppn0 := BitAnd(frame, 511), ppn1 := BitAnd(frame / 512, 511), ppn2 := BitAnd(frame / 512 / 512, 0x3FFFFFF))
  }

  /** find_pte_adress */
  function FrameOf(pte: Pte): nat {
    pte.ppn2 * 262144 + pte.ppn1 * 512 + pte.ppn0
  }

  /** configure_page_entry, for a page of 4 KiB */
  function Configured(frame: nat, read: bool, write: bool, exec: bool, user: bool): Pte {
    LinkPte(Pte(true, read, write, exec, user, 0, 0, 0), frame)
  }

  /** Reading the frame back from the entry, for every physical address of 56 bits. */
  lemma LinkedFrame(frame: nat, read: bool, write: bool, exec: bool, user: bool)
    requires frame < 0x1000_0000_0000
    ensures FrameOf(Configured(frame, read, write, exec, user)) == frame
  {
    MaskNine(frame);
    MaskNine(frame / 512);
    MaskTwentySix(frame / 512 / 512);
    ThreeParts(frame);
  }

  lemma MaskNine(x: nat)
    ensures BitAnd(x, 511) == x % 512
  {
    assert Pow2(9) == 512;
    MaskIsMod(x, 9);
  }

  lemma MaskTwentySix(x: nat)
    ensures BitAnd(x, 0x3FFFFFF) == x % 0x4000000
  {
    assert Pow2(13) == 8192;
    Pow2Sum(13, 13);
    MaskIsMod(x, 26);
  }

  lemma ThreeParts(frame: nat)
    requires frame < 0x1000_0000_0000
    ensures frame / 512 / 512 % 0x4000000 * 262144 + frame / 512 % 512 * 512 + frame % 512 == frame
  {
  }

  predicate IsLeaf(pte: Pte) {
    pte.read || pte.exec
  }

  /** The entry of a page that its process may read and write, and only execute if it is code. */
  predicate Permits(pte: Pte, exec: bool) {
    pte.valid && pte.read && pte.write && pte.user && pte.exec == exec
  }

  // ----- the walk -----

  datatype Walk = Fault | Frame(n: nat)

  /** One step: the entry of a table, if it is valid. */
  function Entry(mem: Mem, table: nat, i: nat): Pte {
    if table in mem && mem[table].Table? && i < |mem[table].ptes| then mem[table].ptes[i] else EMPTY_PTE
  }

  /** Does the entry lead on to another table? */
  predicate Leads(pte: Pte) {
    pte.valid && !IsLeaf(pte)
  }

  /** The walk over the virtual page number, for pages of 4 KiB. */
  function Translate(mem: Mem, root: nat, page: nat): Walk {
    var e2 := Entry(mem, root, page / 262144 % 512);
    if !Leads(e2) then Fault else
      var e1 := Entry(mem, FrameOf(e2), page / 512 % 512);
      if !Leads(e1) then Fault else
        var e0 := Entry(mem, FrameOf(e1), page % 512);
        if e0.valid && IsLeaf(e0) then Frame(FrameOf(e0)) else Fault
  }

  /** The entry at which the walk ends. */
  function LastEntry(mem: Mem, root: nat, page: nat): Pte {
    Entry(mem, FrameOf(Entry(mem, FrameOf(Entry(mem, root, page / 262144 % 512)), page / 512 % 512)), page % 512)
  }

  // ----- where the pages of a process are -----

  datatype Kind = CODE_PAGE | STACK_PAGE | HEAP_PAGE

  /** Which level 1 entry leads to table number t of a kind. */
  function IndexOf(kind: Kind, t: nat): int {
    match kind
    case CODE_PAGE => STACK_CODE_SPACE_START + t
    case STACK_PAGE => STACK_CODE_SPACE_END - t
    case HEAP_PAGE => HEAP_SPACE_START + t
  }

  /** Which entry of its table page number j uses: stacks are filled from the end. */
  function Slot(kind: Kind, j: nat): int {
    if kind == STACK_PAGE then PT_SIZE - 1 - j else j
  }

  /** The virtual page of page number k: code from 0x40000000 up, the heap from 0x50000000 up, the stack below it. */
  function PageNumber(kind: Kind, k: nat): int {
    match kind
    case CODE_PAGE => 0x40000 + k
    case STACK_PAGE => 0x50000 - 1 - k
    case HEAP_PAGE => 0x50000 + k
  }

  /** How the hardware cuts up these page numbers. */
  lemma Split(kind: Kind, k: nat)
    requires k < 65536
    ensures var page := PageNumber(kind, k);
      && page >= 0 && page / 262144 % 512 == USERSPACE
      && page / 512 % 512 == IndexOf(kind, k / 512) && page % 512 == Slot(kind, k % 512)
  {
    assert k == 512 * (k / 512) + k % 512;
    Cut(IndexOf(kind, k / 512), Slot(kind, k % 512));
  }

  lemma Cut(i: int, r: int)
    requires 0 <= i < 512 && 0 <= r < 512
    ensures var page := 262144 + 512 * i + r;
      page / 262144 == 1 && page / 512 % 512 == i && page % 512 == r
  {
    assert (262144 + 512 * i + r) / 512 == 512 + i;
  }

  /** The frames of the pages of a process, in the order in which they were added. */
  datatype Pages = Pages(code: seq<nat>, stack: seq<nat>, heap: seq<nat>)

  function Of(pages: Pages, kind: Kind): seq<nat> {
    match kind
    case CODE_PAGE => pages.code
    case STACK_PAGE => pages.stack
    case HEAP_PAGE => pages.heap
  }

  function Tables(n: nat): nat {
    (n + 511) / 512
  }

  /** The three regions do not run into one another. */
  ghost predicate Fits(pages: Pages) {
    Tables(|pages.code|) + Tables(|pages.stack|) <= 128 && |pages.heap| <= 65536
  }

  /** Two tables of a process have different entries at level 1. */
  lemma IndexDistinct(code: nat, stack: nat, heap: nat, kind: Kind, t: nat, kind': Kind, t': nat)
    requires code + stack <= 128 && heap <= 128
    requires t < (if kind == CODE_PAGE then code else if kind == STACK_PAGE then stack else heap)
    requires t' < (if kind' == CODE_PAGE then code else if kind' == STACK_PAGE then stack else heap)
    requires IndexOf(kind, t) == IndexOf(kind', t')
    ensures kind == kind' && t == t'
  {
  }
}
