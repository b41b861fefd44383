/**
 How one round of add_and_allocate_frames can end, and when all rounds end well
 (src/kernel/process/process_memory.c:131-174, 216-283, 702-745).
 */
module PageOutcomes {
  import opened PageTables
  import opened AddressSpace
  import opened TableList

  const STACK_FRAME_SIZE: nat := 128
  const HEAP_FRAME_SIZE: nat := 128

  /**
   Done; -1 because more pages are asked for than frames remain, or because there is no frame for the
   page; or an assertion fails, the tail of an empty list is read, or an entry is written through a
   null table.
   */
  datatype Outcome = Done | Refused | NoFrame | Asserts | NoTail | StoresAtNull {
    predicate Returns() {
      Done? || Refused? || NoFrame?
    }
  }

  /** The kind of the last table in the list. */
  function Tail(nodes: seq<Node>): seq<Kind> {
    if nodes == [] then [] else [nodes[|nodes| - 1].kind]
  }

  /** The test of add_child_node_page_table. */
  predicate LimitReached(ct: nat, st: nat, ht: nat) {
    ct + st + ht >= PT_SIZE || st >= STACK_FRAME_SIZE || ht >= HEAP_FRAME_SIZE
  }

  /** add_frame_to_process returns -1: a table is due, and a limit is reached or no frame can be had. */
  predicate AddFails(pages: Pages, kind: Kind, free: nat) {
    |Of(pages, kind)| % 512 == 0 && (LimitReached(Tables(|pages.code|), Tables(|pages.stack|), Tables(|pages.heap|)) || free == 1)
  }

  /** What follows a failure of add_frame_to_process, whose -1 is not noticed. */
  function AfterFailure(tail: seq<Kind>, kind: Kind, free: nat): Outcome {
    if tail == [] then NoTail else if tail != [kind] then Asserts else if free == 1 then NoFrame else StoresAtNull
  }

  /** How a round ends, with so many free frames. */
  function RoundOutcome(pages: Pages, tail: seq<Kind>, kind: Kind, free: nat): Outcome {
    var n := |Of(pages, kind)|;
    if AddFails(pages, kind, free) then AfterFailure(tail, kind, free)
    else if n % 512 == 0 then if free == 2 then NoFrame else Done
    else if kind == STACK_PAGE && n % 512 == 511 && tail != [STACK_PAGE] then Asserts
    else if free == 1 then NoFrame
    else Done
  }

  /** A failure of add_frame_to_process makes the call return -1 only if the last table is of the kind and no frame is left. */
  lemma FailureReturnsIff(pages: Pages, tail: seq<Kind>, kind: Kind, free: nat)
    requires AddFails(pages, kind, free) && |tail| <= 1
    ensures RoundOutcome(pages, tail, kind, free).Returns() <==> tail == [kind] && free == 1
    ensures RoundOutcome(pages, tail, kind, free).Returns() ==> RoundOutcome(pages, tail, kind, free) == NoFrame
  {
  }

  /** Page number 65536 of the heap, frames or not: there is no table for it, and the call does not return. */
  lemma HeapIsFull(pages: Pages, tail: seq<Kind>, free: nat)
    requires |pages.heap| == 65536 && free > 1
    ensures RoundOutcome(pages, tail, HEAP_PAGE, free) == if tail == [] then NoTail else if tail == [HEAP_PAGE] then StoresAtNull else Asserts
  {
  }

  /** The last page of a stack's first table, when a table of another kind has been made since. */
  lemma StackTableIsFull(pages: Pages, tail: seq<Kind>, free: nat)
    requires |pages.stack| == 511
    ensures RoundOutcome(pages, tail, STACK_PAGE, free) == Asserts <==> tail != [STACK_PAGE]
  {
  }

  /** The frames that n more pages take, with their tables, when there are `have` of the kind. */
  function Cost(have: nat, n: nat): nat {
    n + (Tables(have + n) - Tables(have))
  }

  function Plus(have: nat, a: Kind, b: Kind, n: nat): nat {
    if a == b then have + n else have
  }

  /** Code and stack, with n more pages, do not run into each other. */
  ghost predicate RegionsApart(pages: Pages, kind: Kind, n: nat) {
    Tables(Plus(|pages.code|, kind, CODE_PAGE, n)) + Tables(Plus(|pages.stack|, kind, STACK_PAGE, n)) <= 128
  }

  /** No limit stands in the way of the tables for n more pages. */
  ghost predicate MayGrow(pages: Pages, kind: Kind, n: nat) {
    if kind == HEAP_PAGE then Tables(|pages.heap| + n) <= HEAP_FRAME_SIZE && Tables(|pages.stack|) < STACK_FRAME_SIZE
    else Tables(|pages.heap|) < HEAP_FRAME_SIZE
  }

  /** What n more pages need: frames, tables, and the assertion about the last table. */
  ghost predicate Enough(pages: Pages, tail: seq<Kind>, kind: Kind, n: nat, free: nat) {
    var have := |Of(pages, kind)|;
    n == 0 ||
    (&& free > Cost(have, n)
     && (Tables(have + n) > Tables(have) ==> MayGrow(pages, kind, n))
     && (kind == STACK_PAGE && FillsUp(have, n) ==> tail == [STACK_PAGE]))
  }

  /** The last table after k more pages. */
  function TailAfter(have: nat, tail: seq<Kind>, kind: Kind, k: nat): seq<Kind> {
    if Tables(have + k) > Tables(have) then [kind] else tail
  }

  lemma CostOfOne(have: nat)
    ensures Cost(have, 1) == if have % 512 == 0 then 2 else 1
  {
    TablesGrow(have);
    if have % 512 == 0 {
      TablesExact(have);
    }
  }

  lemma TablesMonotone(a: nat, b: nat)
    requires a <= b
    ensures Tables(a) <= Tables(b)
  {
  }

  lemma CostSplits(have: nat, k: nat)
    ensures Cost(have, k + 1) == Cost(have, k) + Cost(have + k, 1)
  {
    TablesMonotone(have, have + k);
    TablesMonotone(have + k, have + k + 1);
  }

  lemma CostMonotone(have: nat, k: nat, n: nat)
    requires k <= n
    ensures Cost(have, k) <= Cost(have, n) && Cost(have, n) >= n
  {
    TablesMonotone(have + k, have + n);
    TablesMonotone(have, have + n);
  }

  lemma RegionsApartPrefix(pages: Pages, kind: Kind, k: nat, n: nat)
    requires RegionsApart(pages, kind, n) && k <= n
    ensures RegionsApart(pages, kind, k)
  {
    TablesMonotone(|pages.code| + k, |pages.code| + n);
    TablesMonotone(|pages.stack| + k, |pages.stack| + n);
  }

  lemma EnoughPrefix(pages: Pages, tail: seq<Kind>, kind: Kind, k: nat, n: nat, free: nat)
    requires Enough(pages, tail, kind, n, free) && k <= n
    ensures Enough(pages, tail, kind, k, free)
  {
    var have := |Of(pages, kind)|;
    CostMonotone(have, k, n);
    TablesMonotone(have + k, have + n);
  }

  /** New tables are counted when the pages before fill their tables exactly. */
  lemma TablesNext(have: nat, k: nat)
    ensures Tables(have + k + 1) == Tables(have + k) + if (have + k) % 512 == 0 then 1 else 0
    ensures Tables(have + k) >= Tables(have)
    ensures Tables(have + k) == Tables(have) ==> (have % 512 == 0 && k == 0) || (have % 512 != 0 && have % 512 + k <= 512)
    ensures have % 512 != 0 && have % 512 + k <= 512 ==> Tables(have + k) == Tables(have)
  {
  }

  /** A round's limit test, in terms of the whole run. */
  lemma LimitIs(pages: Pages, pages': Pages, kind: Kind, k: nat)
    requires |Of(pages', kind)| == |Of(pages, kind)| + k && forall other :: other != kind ==> Of(pages', other) == Of(pages, other)
    requires RegionsApart(pages, kind, k + 1) && |pages.heap| <= 65536 && (|Of(pages, kind)| + k) % 512 == 0
    requires Tables(|pages'.heap|) <= 128
    ensures LimitReached(Tables(|pages'.code|), Tables(|pages'.stack|), Tables(|pages'.heap|)) <==> !MayGrow(pages, kind, k + 1)
  {
    TablesNext(|Of(pages, kind)|, k);
    assert Of(pages', CODE_PAGE) == pages'.code && Of(pages', STACK_PAGE) == pages'.stack && Of(pages', HEAP_PAGE) == pages'.heap;
  }

  /** Round k + 1, when a table is due. */
  lemma TableRound(pages: Pages, tail: seq<Kind>, kind: Kind, k: nat, free: nat, pages': Pages, free': nat)
    requires |Of(pages', kind)| == |Of(pages, kind)| + k && forall other :: other != kind ==> Of(pages', other) == Of(pages, other)
    requires Enough(pages, tail, kind, k, free) && RegionsApart(pages, kind, k + 1) && |pages.heap| <= 65536
    requires Tables(|pages'.heap|) <= 128 && free' == free - Cost(|Of(pages, kind)|, k) && free' > 0
    requires (|Of(pages, kind)| + k) % 512 == 0
    ensures RoundOutcome(pages', TailAfter(|Of(pages, kind)|, tail, kind, k), kind, free') == Done <==> Enough(pages, tail, kind, k + 1, free)
  {
    var have := |Of(pages, kind)|;
    CostSplits(have, k);
    CostOfOne(have + k);
    TablesNext(have, k);
    LimitIs(pages, pages', kind, k);
  }

  /** Do n more pages use up the last entry of the table that is not full now? */
  predicate FillsUp(have: nat, n: nat) {
    have % 512 != 0 && have % 512 + n >= 512
  }

  /** ... with the page after k others exactly if that one is the last entry, and no table has been made since. */
  lemma FillsUpNext(have: nat, k: nat)
    requires (have + k) % 512 != 0
    ensures FillsUp(have, k) ==> k > 0 && Tables(have + k) > Tables(have)
    ensures FillsUp(have, k + 1) <==> FillsUp(have, k) || (Tables(have + k) == Tables(have) && (have + k) % 512 == 511)
  {
  }

  /** Round k + 1, in a table that is there. */
  lemma PageRound(pages: Pages, tail: seq<Kind>, kind: Kind, k: nat, free: nat, pages': Pages, free': nat)
    requires |Of(pages', kind)| == |Of(pages, kind)| + k && forall other :: other != kind ==> Of(pages', other) == Of(pages, other)
    requires Enough(pages, tail, kind, k, free) && (|Of(pages, kind)| + k) % 512 != 0
    requires free' == free - Cost(|Of(pages, kind)|, k) && free' > 0
    ensures RoundOutcome(pages', TailAfter(|Of(pages, kind)|, tail, kind, k), kind, free') == Done <==> Enough(pages, tail, kind, k + 1, free)
  {
    var have := |Of(pages, kind)|;
    CostSplits(have, k);
    CostOfOne(have + k);
    TablesNext(have, k);
    FillsUpNext(have, k);
  }

  /** After k good rounds, the next one is good exactly if there is enough for k + 1 pages. */
  lemma NextRound(pages: Pages, tail: seq<Kind>, kind: Kind, k: nat, free: nat, pages': Pages, free': nat)
    requires |Of(pages', kind)| == |Of(pages, kind)| + k && forall other :: other != kind ==> Of(pages', other) == Of(pages, other)
    requires Enough(pages, tail, kind, k, free) && RegionsApart(pages, kind, k + 1) && |pages.heap| <= 65536
    requires Tables(|pages'.heap|) <= 128 && free' == free - Cost(|Of(pages, kind)|, k) && free' > 0
    ensures RoundOutcome(pages', TailAfter(|Of(pages, kind)|, tail, kind, k), kind, free') == Done <==> Enough(pages, tail, kind, k + 1, free)
  {
    if (|Of(pages, kind)| + k) % 512 == 0 {
      TableRound(pages, tail, kind, k, free, pages', free');
    } else {
      PageRound(pages, tail, kind, k, free, pages', free');
    }
  }

  /** What the first pages of a kind need. */
  lemma FirstEnough(pages: Pages, tail: seq<Kind>, kind: Kind, n: nat, free: nat)
    requires |Of(pages, kind)| == 0 && RegionsApart(pages, kind, n) && (kind == HEAP_PAGE ==> n <= 65536)
    ensures Enough(pages, tail, kind, n, free) <==>
            n == 0 || (free > Cost(0, n) && if kind == HEAP_PAGE then Tables(|pages.stack|) < STACK_FRAME_SIZE else Tables(|pages.heap|) < HEAP_FRAME_SIZE)
  {
    TablesMonotone(n, 65536);
    assert n > 0 ==> Tables(n) > 0;
  }
}
