/**
 What a process finds in its memory: the program image after process_memory_allocator, and the
 parent's pages after copy_process_memory (src/kernel/process/process_memory.c:347-373, 563-671).
 */
module ProcessImage {
  import opened Marks
  import opened PageTables
  import opened AddressSpace
  import opened TableList
  import opened PageOutcomes
  import opened ProcessMemory

  /** The tables of mem are the same in mem', and what held bytes still does. */
  ghost predicate SameTables(mem: Mem, mem': Mem) {
    forall f: nat {:trigger TableKept(mem, mem', f)} :: TableKept(mem, mem', f)
  }

  ghost predicate TableKept(mem: Mem, mem': Mem, f: nat) {
    f in mem ==> f in mem' && (if mem[f].Table? then mem'[f] == mem[f] else mem'[f].Bytes? && |mem'[f].data| == |mem[f].data|)
  }

  lemma SameEntry(mem: Mem, mem': Mem, f: nat, i: nat)
    requires SameTables(mem, mem') && f in mem
    ensures Entry(mem', f, i) == Entry(mem, f, i)
  {
    assert TableKept(mem, mem', f);
  }

  lemma SpaceSame(mem: Mem, mem': Mem, lvl2: nat, lvl1: nat, pages: Pages)
    requires Space(mem, lvl2, lvl1, pages) && SameTables(mem, mem')
    ensures Space(mem', lvl2, lvl1, pages) && forall i: nat {:trigger Entry(mem', lvl1, i)} :: Entry(mem', lvl1, i) == Entry(mem, lvl1, i)
  {
    assert TableKept(mem, mem', lvl2) && TableKept(mem, mem', lvl1);
    forall i: nat ensures Entry(mem', lvl1, i) == Entry(mem, lvl1, i) {
      SameEntry(mem, mem', lvl1, i);
    }
    forall i: nat ensures LinkOk(mem', lvl2, lvl1, i) {
      assert LinkOk(mem, lvl2, lvl1, i);
      assert TableKept(mem, mem', FrameOf(Entry(mem, lvl1, i)));
    }
    TreeSame(mem, mem', lvl2, lvl1);
    forall kind, k: nat | k < |Of(pages, kind)| ensures PageOk(mem', lvl1, kind, k, Of(pages, kind)[k]) {
      assert PageOk(mem, lvl1, kind, k, Of(pages, kind)[k]);
      var i := IndexOf(kind, k / 512);
      assert LinkOk(mem, lvl2, lvl1, i);
      SameEntry(mem, mem', FrameOf(Entry(mem, lvl1, i)), Slot(kind, k % 512));
      assert TableKept(mem, mem', Of(pages, kind)[k]);
    }
  }

  lemma LaidSame(mem: Mem, mem': Mem, lvl2: nat, lvl1: nat, nodes: seq<Node>, pages: Pages)
    requires Laid(mem, lvl2, lvl1, nodes, pages) && SameTables(mem, mem')
    ensures Laid(mem', lvl2, lvl1, nodes, pages)
  {
    SpaceSame(mem, mem', lvl2, lvl1, pages);
    forall i | 0 <= i < |nodes| ensures NodeOk(mem', lvl1, nodes[i], |Of(pages, nodes[i].kind)|) {
      assert NodeOk(mem, lvl1, nodes[i], |Of(pages, nodes[i].kind)|);
    }
  }

  lemma TreeSame(mem: Mem, mem': Mem, lvl2: nat, lvl1: nat)
    requires Tree(mem, lvl2, lvl1) && SameTables(mem, mem')
    requires (forall i: nat {:trigger LinkOk(mem', lvl2, lvl1, i)} :: LinkOk(mem', lvl2, lvl1, i))
    requires forall i: nat {:trigger Entry(mem', lvl1, i)} :: Entry(mem', lvl1, i) == Entry(mem, lvl1, i)
    ensures Tree(mem', lvl2, lvl1)
  {
    assert TableKept(mem, mem', lvl2) && TableKept(mem, mem', lvl1);
    forall i: nat, j: nat | i != j && Entry(mem', lvl1, i).valid && Entry(mem', lvl1, j).valid
      ensures FrameOf(Entry(mem', lvl1, i)) != FrameOf(Entry(mem', lvl1, j))
    {
      assert Pair(i, j);
      assert Entry(mem', lvl1, i) == Entry(mem, lvl1, i) && Entry(mem', lvl1, j) == Entry(mem, lvl1, j);
    }
  }

  /** New bytes for a frame that holds bytes. */
  lemma BytesSet(mem: Mem, f: nat, data: seq<nat>)
    requires f in mem && mem[f].Bytes? && |data| == |mem[f].data|
    ensures SameTables(mem, mem[f := Bytes(data)])
  {
  }

  lemma ExtendsKeeps(base: Mem, mem: Mem)
    requires Extends(base, mem)
    ensures SameTables(base, mem)
  {
  }

  // ----- reading -----

  datatype Read = NotMapped | Value(v: nat)

  /** A load of one byte from a virtual address. */
  function ReadByte(mem: Mem, root: nat, address: nat): Read {
    match Translate(mem, root, address / 4096)
    case Fault => NotMapped
    case Frame(f) =>
      if f in mem && mem[f].Bytes? && address % 4096 < |mem[f].data| then Value(mem[f].data[address % 4096]) else NotMapped
  }

  /** Page number k of a kind holds the given bytes. */
  lemma ReadsPage(mem: Mem, lvl2: nat, lvl1: nat, pages: Pages, kind: Kind, k: nat, offset: nat)
    requires Space(mem, lvl2, lvl1, pages) && k < |Of(pages, kind)| && offset < 4096
    ensures PageNumber(kind, k) >= 0 && IsPage(mem, Of(pages, kind)[k])
    ensures ReadByte(mem, lvl2, PageNumber(kind, k) * 4096 + offset) == Value(mem[Of(pages, kind)[k]].data[offset])
  {
    Translates(mem, lvl2, lvl1, pages, kind, k);
    Offset(PageNumber(kind, k), offset);
  }

  lemma Offset(page: nat, offset: nat)
    requires offset < 4096
    ensures (page * 4096 + offset) / 4096 == page && (page * 4096 + offset) % 4096 == offset
  {
  }

  // ----- the program image -----

  /** Page k of the image, filled up with zeros. */
  function Chunk(image: seq<nat>, k: nat): (c: seq<nat>)
    ensures |c| == FRAME_SIZE
    ensures forall j :: 0 <= j < FRAME_SIZE ==> c[j] == if FRAME_SIZE * k + j < |image| then image[FRAME_SIZE * k + j] else 0
  {
    seq(FRAME_SIZE, j requires 0 <= j < FRAME_SIZE => if FRAME_SIZE * k + j < |image| then image[FRAME_SIZE * k + j] else 0)
  }

  /** memcpy into a frame of bytes: the first bytes change. */
  method CopyInto(p: Process, f: nat, bytes: seq<nat>)
    requires p.Valid() && f in p.machine.mem && p.machine.mem[f] == Bytes(ZeroBytes()) && |bytes| <= FRAME_SIZE
    modifies p.machine`mem
    ensures p.Valid() && p.machine.mem == old(p.machine.mem)[f := Bytes(bytes + ZeroBytes()[|bytes|..])]
  {
    ghost var mem := p.machine.mem;
    BytesSet(mem, f, bytes + ZeroBytes()[|bytes|..]);
    SameKeys(mem, f, Bytes(bytes + ZeroBytes()[|bytes|..]));
    LaidSame(mem, mem[f := Bytes(bytes + ZeroBytes()[|bytes|..])], p.lvl2, p.lvl1, p.nodes, p.pages);
    p.machine.mem := p.machine.mem[f := Bytes(bytes + ZeroBytes()[|bytes|..])];
  }

  /** The first n frames of the list hold their pages of the image, the others zeros. */
  ghost predicate Copied(mem: Mem, list: seq<nat>, image: seq<nat>, n: nat) {
    forall k {:trigger list[k]} :: 0 <= k < |list| ==>
      list[k] in mem && mem[list[k]] == Bytes(if k < n then Chunk(image, k) else ZeroBytes())
  }

  ghost predicate AllDifferent(list: seq<nat>) {
    forall i, j {:trigger Pair(i, j)} :: Pair(i, j) && 0 <= i < j < |list| ==> list[i] != list[j]
  }

  lemma CopiedNext(mem: Mem, list: seq<nat>, image: seq<nat>, n: nat, bytes: seq<nat>)
    requires Copied(mem, list, image, n) && AllDifferent(list) && n < |list| && |bytes| <= FRAME_SIZE
    requires FRAME_SIZE * n + |bytes| <= |image| && bytes == image[FRAME_SIZE * n..FRAME_SIZE * n + |bytes|]
    requires |bytes| == FRAME_SIZE || FRAME_SIZE * n + |bytes| == |image|
    ensures Copied(mem[list[n] := Bytes(bytes + ZeroBytes()[|bytes|..])], list, image, n + 1)
  {
    assert bytes + ZeroBytes()[|bytes|..] == Chunk(image, n);
    forall k | 0 <= k < |list| && k != n ensures list[k] != list[n] {
      assert Pair(k, n) && Pair(n, k);
    }
  }

  /** Only frames of the list have changed. */
  ghost predicate Outside(mem: Mem, mem': Mem, list: seq<nat>) {
    forall f {:trigger f in mem} {:trigger f in mem'} :: f in mem ==> f in mem' && (f !in list ==> mem'[f] == mem[f])
  }

  lemma OutsideNext(mem: Mem, mem1: Mem, list: seq<nat>, n: nat, content: Content)
    requires Outside(mem, mem1, list) && n < |list|
    ensures Outside(mem, mem1[list[n] := content], list)
  {
  }

  /** n pages of the image have been copied, since `was`. */
  ghost predicate Copying(p: Process, list: seq<nat>, image: seq<nat>, n: nat, was: Mem)
    reads p, p.machine, p.machine.frames
  {
    && p.Valid() && |list| == FramesFor(|image|) && AllDifferent(list)
    && Copied(p.machine.mem, list, image, n) && Outside(was, p.machine.mem, list)
  }

  /** One page of the image, or what is left of it. */
  method CopyChunk(p: Process, image: seq<nat>, frame_list: seq<nat>, page_iter: nat, data_left_code: nat, ghost was: Mem)
    requires Copying(p, frame_list, image, page_iter, was) && 0 < data_left_code == |image| - FRAME_SIZE * page_iter
    modifies p.machine`mem
    ensures Copying(p, frame_list, image, page_iter + 1, was)
  {
    var from := FRAME_SIZE * page_iter;
    var n := if FRAME_SIZE < data_left_code then FRAME_SIZE else data_left_code;
    assert page_iter < |frame_list|;
    var bytes := image[from..from + n];
    CopiedNext(p.machine.mem, frame_list, image, page_iter, bytes);
    OutsideNext(was, p.machine.mem, frame_list, page_iter, Bytes(bytes + ZeroBytes()[|bytes|..]));
    CopyInto(p, frame_list[page_iter], bytes);
  }

  /** The copy loop of process_memory_allocator. */
  method CopyImage(p: Process, image: seq<nat>, frame_list: seq<nat>)
    requires p.Valid() && |frame_list| == FramesFor(|image|)
    requires AllDifferent(frame_list) && Copied(p.machine.mem, frame_list, image, 0)
    modifies p.machine`mem
    ensures p.Valid() && Copied(p.machine.mem, frame_list, image, |frame_list|)
    ensures Outside(old(p.machine.mem), p.machine.mem, frame_list)
  {
    var data_left_code: int := |image|;
    var page_iter := 0;
    while data_left_code > 0
      invariant page_iter >= 0 && data_left_code == |image| - FRAME_SIZE * page_iter
      invariant Copying(p, frame_list, image, page_iter, old(p.machine.mem))
      decreases |image| - FRAME_SIZE * page_iter
    {
      CopyChunk(p, image, frame_list, page_iter, data_left_code, old(p.machine.mem));
      data_left_code := data_left_code - FRAME_SIZE;
      page_iter := page_iter + 1;
    }
    CopiedAll(p.machine.mem, frame_list, image, page_iter);
  }

  lemma CopiedAll(mem: Mem, list: seq<nat>, image: seq<nat>, n: nat)
    requires Copied(mem, list, image, n) && |list| == FramesFor(|image|) && FRAME_SIZE * n >= |image|
    ensures Copied(mem, list, image, |list|)
  {
  }

  /** The process holds the image: as many code pages as it takes, with its bytes. */
  ghost predicate Holds(mem: Mem, pages: Pages, image: seq<nat>) {
    |pages.code| == FramesFor(|image|) && Copied(mem, pages.code, image, |pages.code|)
  }

  /** What process_memory_allocator needs, with so many free frames. */
  ghost predicate EnoughToLoad(code: nat, stack: nat, free: nat) {
    free > Cost(0, code) + Cost(0, stack) + Cost(0, 1) && Tables(stack) < STACK_FRAME_SIZE
  }

  /** The code pages are there, full of zeros, and so many pages of the other kinds. */
  ghost predicate Loading(p: Process, code: seq<nat>, image: seq<nat>, stack: nat, heap: nat, free: int, base: Mem)
    reads p, p.machine, p.machine.frames
  {
    && p.Valid() && p.pages.code == code && |p.pages.stack| == stack && |p.pages.heap| == heap && |p.machine.frames.free| == free
    && Apart(base, p.machine.mem, p.lvl1) && |code| == FramesFor(|image|) && AllDifferent(code) && Copied(p.machine.mem, code, image, 0)
  }

  lemma FirstOfKind(pages: Pages, kind: Kind, list: seq<nat>)
    requires Of(pages, kind) == []
    ensures With(pages, kind, Of(pages, kind) + list) == With(pages, kind, list)
  {
    assert [] + list == list;
  }

  /** The pages of the code. */
  method LoadCode(p: Process, ghost image: seq<nat>, n: nat, ghost base: Mem) returns (o: Outcome, frame_list: seq<nat>)
    requires p.Valid() && p.pages == Pages([], [], []) && n == FramesFor(|image|) && Tables(n) <= 128
    requires Apart(base, p.machine.mem, p.lvl1)
    modifies p, p.machine, p.machine.frames
    ensures p.sbrk_pointer == old(p.sbrk_pointer) && p.machine.Valid()
    ensures o == Done <==> n == 0 || |old(p.machine.frames.free)| > Cost(0, n)
    ensures o == Done ==> Loading(p, frame_list, image, 0, 0, |old(p.machine.frames.free)| - Cost(0, n), base)
    ensures Extends(base, p.machine.mem)
  {
    FirstEnough(p.pages, Tail(p.nodes), CODE_PAGE, n, |p.machine.frames.free|);
    o, frame_list := p.AddAndAllocate(CODE_PAGE, n, base);
    FirstOfKind(Pages([], [], []), CODE_PAGE, frame_list);
  }

  /** The first pages of the stack or the heap. */
  method LoadMore(p: Process, kind: Kind, n: nat, ghost code: seq<nat>, ghost image: seq<nat>, ghost stack: nat, ghost heap: nat, ghost free: nat, ghost base: Mem)
    returns (o: Outcome)
    requires Loading(p, code, image, stack, heap, free, base) && kind != CODE_PAGE && Of(p.pages, kind) == []
    requires RegionsApart(p.pages, kind, n) && (kind == HEAP_PAGE ==> n <= 65536)
    modifies p, p.machine, p.machine.frames
    ensures p.sbrk_pointer == old(p.sbrk_pointer) && p.machine.Valid()
    ensures o == Done <==> n == 0 || (free > Cost(0, n) && (if kind == HEAP_PAGE then Tables(stack) else Tables(heap)) < 128)
    ensures o == Done ==> Loading(p, code, image, Plus(stack, kind, STACK_PAGE, n), Plus(heap, kind, HEAP_PAGE, n), free - Cost(0, n), base)
    ensures Extends(base, p.machine.mem)
  {
    ghost var mem := p.machine.mem;
    FirstEnough(p.pages, Tail(p.nodes), kind, n, free);
    var list;
    o, list := p.AddAndAllocate(kind, n, base);
    StillZero(mem, p.machine.mem, code, image);
  }

  lemma StillZero(mem: Mem, mem': Mem, list: seq<nat>, image: seq<nat>)
    requires Copied(mem, list, image, 0) && Unharmed(mem, mem')
    ensures Copied(mem', list, image, 0)
  {
  }

  /** The three calls of add_and_allocate_frames. */
  method Reserve(p: Process, ghost image: seq<nat>, nb_frames_code: nat, nb_frames_stack: nat, ghost base: Mem)
    returns (o: Outcome, frame_list: seq<nat>)
    requires Apart(base, p.machine.mem, p.lvl1) && p.Valid() && p.pages == Pages([], [], []) && nb_frames_code == FramesFor(|image|)
    requires Tables(nb_frames_code) + Tables(nb_frames_stack) <= 128
    modifies p, p.machine, p.machine.frames
    ensures p.sbrk_pointer == old(p.sbrk_pointer) && p.machine.Valid()
    ensures o == Done <==> EnoughToLoad(nb_frames_code, nb_frames_stack, |old(p.machine.frames.free)|)
    ensures o == Done ==> Loading(p, frame_list, image, nb_frames_stack, 1, |p.machine.frames.free|, base)
    ensures Extends(base, p.machine.mem)
  {
    ghost var free := |p.machine.frames.free|;
    CostMonotone(0, 0, nb_frames_code);
    CostMonotone(0, 0, nb_frames_stack);
    o, frame_list := LoadCode(p, image, nb_frames_code, base);
    if o == Done {
      ghost var free1 := free - Cost(0, nb_frames_code);
      o := LoadMore(p, STACK_PAGE, nb_frames_stack, frame_list, image, 0, 0, free1, base);
      if o == Done {
        o := LoadMore(p, HEAP_PAGE, FramesFor(1), frame_list, image, nb_frames_stack, 0, free1 - Cost(0, nb_frames_stack), base);
      }
    }
  }

  /**
   process_memory_allocator, after the root tables have been set up; it returns -1 when it stops with
   Refused or NoFrame.
   */
  method Load(p: Process, image: seq<nat>, stack_size: nat) returns (o: Outcome)
    requires p.Valid() && p.pages == Pages([], [], []) && Tables(FramesFor(|image|)) + Tables(FramesFor(stack_size)) <= 128
    modifies p, p.machine, p.machine.frames
    ensures p.machine.Valid() && p.sbrk_pointer == old(p.sbrk_pointer)
    ensures o == Done <==> EnoughToLoad(FramesFor(|image|), FramesFor(stack_size), |old(p.machine.frames.free)|)
    ensures o == Done ==> p.Valid() && Holds(p.machine.mem, p.pages, image)
    ensures o == Done ==> p.HeapState() == Heap(old(p.sbrk_pointer), 1) && |p.pages.stack| == FramesFor(stack_size)
    ensures p.lvl2 in p.machine.mem && p.machine.mem[p.lvl2] == old(p.machine.mem)[p.lvl2]
  {
    RootApart(p.machine.mem, p.lvl2, p.lvl1);
    var nb_frames_code, nb_frames_stack := FramesFor(|image|), FramesFor(stack_size);
    var frame_list;
    o, frame_list := Reserve(p, image, nb_frames_code, nb_frames_stack, map[p.lvl2 := p.machine.mem[p.lvl2]]);
    if o == Done {
      CopyImage(p, image, frame_list);
    }
  }

  /** A walk of 0x40000000 + i reads byte i of the program image. */
  lemma ReadsImage(mem: Mem, lvl2: nat, lvl1: nat, pages: Pages, image: seq<nat>, i: nat)
    requires Space(mem, lvl2, lvl1, pages) && Holds(mem, pages, image) && i < |image|
    ensures ReadByte(mem, lvl2, 0x4000_0000 + i) == Value(image[i])
  {
    var k := i / 4096;
    assert i == 4096 * k + i % 4096;
    assert k < |pages.code|;
    assert pages.code[k] == Of(pages, CODE_PAGE)[k];
    ReadsPage(mem, lvl2, lvl1, pages, CODE_PAGE, k, i % 4096);
  }

  /** Page number k of the heap, and of the stack below its top, are where they should be, with what their frames hold. */
  lemma ReadsHeapAndStack(mem: Mem, lvl2: nat, lvl1: nat, pages: Pages, k: nat, offset: nat)
    requires Space(mem, lvl2, lvl1, pages) && offset < 4096
    ensures k < |pages.heap| ==> IsPage(mem, pages.heap[k])
    ensures k < |pages.heap| ==>
      ReadByte(mem, lvl2, START_HEAP + k * 4096 + offset) == Value(mem[pages.heap[k]].data[offset])
    ensures k < |pages.stack| ==> IsPage(mem, pages.stack[k]) && START_HEAP >= (k + 1) * 4096
    ensures k < |pages.stack| ==>
      ReadByte(mem, lvl2, START_HEAP - (k + 1) * 4096 + offset) == Value(mem[pages.stack[k]].data[offset])
  {
    if k < |pages.heap| {
      assert pages.heap[k] == Of(pages, HEAP_PAGE)[k];
      Translates(mem, lvl2, lvl1, pages, HEAP_PAGE, k);
      ReadsPage(mem, lvl2, lvl1, pages, HEAP_PAGE, k, offset);
    }
    if k < |pages.stack| {
      assert pages.stack[k] == Of(pages, STACK_PAGE)[k];
      Translates(mem, lvl2, lvl1, pages, STACK_PAGE, k);
      ReadsPage(mem, lvl2, lvl1, pages, STACK_PAGE, k, offset);
    }
  }

  /**
   A process that has been loaded, with one heap page and the end of the heap at its start, has every
   address below the end of the heap mapped after every run of sys_sbrk.
   */
  lemma HeapMapped(mem: Mem, lvl2: nat, lvl1: nat, pages: Pages, increments: seq<int>, address: nat)
    requires Space(mem, lvl2, lvl1, pages) && |pages.heap| == Heap(START_HEAP, 1).After(increments).pages
    requires START_HEAP <= address < Heap(START_HEAP, 1).After(increments).end
    ensures Translate(mem, lvl2, address / 4096).Frame?
  {
    StaysCovered(Heap(START_HEAP, 1), increments);
    var k := (address - START_HEAP) / 4096;
    assert address / 4096 == PageNumber(HEAP_PAGE, k);
    Translates(mem, lvl2, lvl1, pages, HEAP_PAGE, k);
  }

  /** Different pages of a process never share a frame. */
  lemma OwnFrame(mem: Mem, lvl2: nat, lvl1: nat, pages: Pages, kind: Kind, k: nat, kind': Kind, k': nat)
    requires Space(mem, lvl2, lvl1, pages) && k < |Of(pages, kind)| && k' < |Of(pages, kind')|
    requires Translate(mem, lvl2, PageNumber(kind, k)) == Translate(mem, lvl2, PageNumber(kind', k'))
    requires PageNumber(kind, k) >= 0 && PageNumber(kind', k') >= 0
    ensures kind == kind' && k == k'
  {
    Translates(mem, lvl2, lvl1, pages, kind, k);
    Translates(mem, lvl2, lvl1, pages, kind', k');
    assert Both(kind, k, kind', k');
  }
}
