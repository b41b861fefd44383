/**
 The list of level 0 tables that the kernel keeps beside the page tables themselves
 (src/kernel/process/process_memory.c:29-174, 216-283): with how many pages each is filled, and how
 many there are of each kind.
 */
module TableList {
  import opened Marks
  import opened PageTables
  import opened AddressSpace

  /** page_table_link_list_t, of a level 0 table. */
  datatype Node = Node(kind: Kind, index: nat, usage: nat, table: nat)

  /** The number of a table among those of its kind, from its place at level 1. */
  function NumberOf(node: Node): int {
    match node.kind
    case CODE_PAGE => node.index - STACK_CODE_SPACE_START
    case STACK_PAGE => STACK_CODE_SPACE_END - node.index
    case HEAP_PAGE => node.index - HEAP_SPACE_START
  }

  /** A table number t of a kind with n pages holds those from 512 t on, and level 1 leads to it. */
  ghost predicate NodeOk(mem: Mem, lvl1: nat, node: Node, n: nat) {
    var t := NumberOf(node);
    && 0 <= t && 512 * t < n
    && node.usage == (if n - 512 * t < 512 then n - 512 * t else 512)
    && Entry(mem, lvl1, node.index).valid && FrameOf(Entry(mem, lvl1, node.index)) == node.table
  }

  ghost predicate Listed(nodes: seq<Node>, kind: Kind, t: nat) {
    exists i :: 0 <= i < |nodes| && nodes[i].kind == kind && NumberOf(nodes[i]) == t
  }

  /** All tables of a kind with n pages are in the list. */
  ghost predicate AllListed(nodes: seq<Node>, kind: Kind, n: nat) {
    forall t: nat {:trigger Listed(nodes, kind, t)} :: 512 * t < n ==> Listed(nodes, kind, t)
  }

  /** The pages in all the tables of the list. */
  function Usage(nodes: seq<Node>): nat {
    if nodes == [] then 0 else nodes[0].usage + Usage(nodes[1..])
  }

  function Count(pages: Pages): nat {
    |pages.code| + |pages.stack| + |pages.heap|
  }

  function TableCount(pages: Pages): nat {
    Tables(|pages.code|) + Tables(|pages.stack|) + Tables(|pages.heap|)
  }

  lemma {:induction false} UsageUpdate(nodes: seq<Node>, i: nat, node: Node)
    requires i < |nodes|
    ensures Usage(nodes[i := node]) == Usage(nodes) - nodes[i].usage + node.usage
  {
    if i > 0 {
      UsageUpdate(nodes[1..], i - 1, node);
      assert nodes[i := node][1..] == nodes[1..][i - 1 := node];
    } else {
      assert nodes[0 := node][1..] == nodes[1..];
    }
  }

  lemma {:induction false} UsageAppend(nodes: seq<Node>, node: Node)
    ensures Usage(nodes + [node]) == Usage(nodes) + node.usage
  {
    if nodes == [] {
      assert [node][1..] == [];
    } else {
      UsageAppend(nodes[1..], node);
      assert (nodes + [node])[1..] == nodes[1..] + [node];
    }
  }

  ghost predicate ListOk(mem: Mem, lvl1: nat, nodes: seq<Node>, pages: Pages) {
    && (forall i {:trigger nodes[i]} :: 0 <= i < |nodes| ==> NodeOk(mem, lvl1, nodes[i], |Of(pages, nodes[i].kind)|))
    && (forall kind {:trigger Of(pages, kind)} :: AllListed(nodes, kind, |Of(pages, kind)|))
    && (forall i, j {:trigger Pair(i, j)} :: Pair(i, j) && 0 <= i < j < |nodes| ==> nodes[i].index != nodes[j].index)
    && Usage(nodes) == Count(pages) && |nodes| == TableCount(pages)
  }

  /** Is there a table of the process behind level 1 entry i? */
  predicate UsedIndex(pages: Pages, i: nat) {
    || i < Tables(|pages.code|)
    || (i <= STACK_CODE_SPACE_END && i > STACK_CODE_SPACE_END - Tables(|pages.stack|))
    || (HEAP_SPACE_START <= i < HEAP_SPACE_START + Tables(|pages.heap|))
  }

  ghost predicate OnlyUsed(mem: Mem, lvl1: nat, pages: Pages) {
    forall i: nat {:trigger Entry(mem, lvl1, i)} :: Entry(mem, lvl1, i).valid ==> UsedIndex(pages, i)
  }

  /** The entry for the next table is free. */
  lemma NextIndexFree(pages: Pages, kind: Kind, r: nat)
    requires Fits(With(pages, kind, Of(pages, kind) + [r])) && |Of(pages, kind)| % 512 == 0
    ensures var i, n := IndexOf(kind, |Of(pages, kind)| / 512), |Of(pages, kind)|;
      0 <= i < 512 && !UsedIndex(pages, i) && Tables(n) == n / 512 && Tables(n + 1) == n / 512 + 1
  {
    TablesExact(|Of(pages, kind)|);
  }

  lemma TablesExact(n: nat)
    requires n % 512 == 0
    ensures Tables(n) == n / 512 && Tables(n + 1) == n / 512 + 1
  {
  }

  lemma TablesGrow(n: nat)
    ensures Tables(n) <= Tables(n + 1)
    ensures n % 512 != 0 ==> Tables(n + 1) == Tables(n)
  {
  }

  lemma UsedGrows(pages: Pages, kind: Kind, r: nat, i: nat)
    requires UsedIndex(pages, i)
    ensures UsedIndex(With(pages, kind, Of(pages, kind) + [r]), i)
  {
    TablesGrow(|Of(pages, kind)|);
  }

  lemma NewIndexUsed(pages: Pages, kind: Kind, r: nat)
    requires |Of(pages, kind)| % 512 == 0 && IndexOf(kind, |Of(pages, kind)| / 512) >= 0
    ensures UsedIndex(With(pages, kind, Of(pages, kind) + [r]), IndexOf(kind, |Of(pages, kind)| / 512))
  {
    TablesExact(|Of(pages, kind)|);
  }

  /** The first table of the kind with room, or the length of the list. */
  function FindRoom(nodes: seq<Node>, kind: Kind): (i: nat)
    ensures i <= |nodes|
    ensures i < |nodes| ==> nodes[i].kind == kind && nodes[i].usage < 512
    ensures forall k {:trigger nodes[k]} :: 0 <= k < i ==> nodes[k].kind != kind || nodes[k].usage >= 512
  {
    if nodes == [] || (nodes[0].kind == kind && nodes[0].usage < 512) then 0 else 1 + FindRoom(nodes[1..], kind)
  }

  lemma FindRoomIs(nodes: seq<Node>, kind: Kind, i: nat)
    requires i <= |nodes| && (i < |nodes| ==> nodes[i].kind == kind && nodes[i].usage < 512)
    requires forall k {:trigger nodes[k]} :: 0 <= k < i ==> nodes[k].kind != kind || nodes[k].usage >= 512
    ensures FindRoom(nodes, kind) == i
  {
    var j := FindRoom(nodes, kind);
    assert j < |nodes| ==> nodes[j].kind == kind && nodes[j].usage < 512;
  }

  /** The search finds the table that the next page belongs to, if that table is there. */
  lemma RoomFound(mem: Mem, lvl1: nat, nodes: seq<Node>, pages: Pages, kind: Kind)
    requires ListOk(mem, lvl1, nodes, pages)
    ensures var i, n := FindRoom(nodes, kind), |Of(pages, kind)|;
      if i < |nodes| then NumberOf(nodes[i]) == n / 512 && nodes[i].usage == n % 512 && n % 512 != 0 else n % 512 == 0
  {
    var i, n := FindRoom(nodes, kind), |Of(pages, kind)|;
    if i < |nodes| {
      assert NodeOk(mem, lvl1, nodes[i], n);
      LastNumber(n, NumberOf(nodes[i]));
    }
    PartialHasRoom(mem, lvl1, nodes, pages, kind);
  }

  lemma PartialHasRoom(mem: Mem, lvl1: nat, nodes: seq<Node>, pages: Pages, kind: Kind)
    requires ListOk(mem, lvl1, nodes, pages)
    ensures |Of(pages, kind)| % 512 != 0 ==> exists k {:trigger nodes[k]} :: 0 <= k < |nodes| && nodes[k].kind == kind && nodes[k].usage < 512
  {
    var n := |Of(pages, kind)|;
    if n % 512 != 0 {
      assert AllListed(nodes, kind, n);
      assert 512 * (n / 512) < n && Listed(nodes, kind, n / 512);
      var k :| 0 <= k < |nodes| && nodes[k].kind == kind && NumberOf(nodes[k]) == n / 512;
      assert NodeOk(mem, lvl1, nodes[k], n);
      assert n - 512 * (n / 512) < 512;
    }
  }

  lemma LastNumber(n: nat, t: nat)
    requires 512 * t < n && n - 512 * t < 512
    ensures t == n / 512 && n - 512 * t == n % 512 != 0
  {
  }

  /** A page more in the table that has room. */
  function Filled(nodes: seq<Node>, i: nat): seq<Node>
    requires i < |nodes|
  {
    nodes[i := nodes[i].(usage := nodes[i].usage + 1)]
  }

  lemma FilledNode(mem: Mem, lvl1: nat, node: Node, n: nat)
    requires NodeOk(mem, lvl1, node, n)
    ensures node.usage == 512 ==> NodeOk(mem, lvl1, node, n + 1)
    ensures node.usage < 512 ==> NodeOk(mem, lvl1, node.(usage := node.usage + 1), n + 1)
  {
  }

  /** mem' keeps what mem has at level 1. */
  ghost predicate SameLinks(mem: Mem, mem': Mem, lvl1: nat) {
    forall i: nat {:trigger Entry(mem', lvl1, i)} :: Entry(mem, lvl1, i).valid ==> Entry(mem', lvl1, i) == Entry(mem, lvl1, i)
  }

  lemma NodeKept(mem: Mem, mem': Mem, lvl1: nat, node: Node, n: nat)
    requires NodeOk(mem, lvl1, node, n) && SameLinks(mem, mem', lvl1)
    ensures NodeOk(mem', lvl1, node, n)
  {
    assert Entry(mem', lvl1, node.index) == Entry(mem, lvl1, node.index);
  }

  lemma FilledCounts(mem: Mem, lvl1: nat, nodes: seq<Node>, pages: Pages, kind: Kind, r: nat)
    requires ListOk(mem, lvl1, nodes, pages) && FindRoom(nodes, kind) < |nodes|
    ensures var nodes', pages' := Filled(nodes, FindRoom(nodes, kind)), With(pages, kind, Of(pages, kind) + [r]);
      Usage(nodes') == Count(pages') && |nodes'| == TableCount(pages')
  {
    RoomFound(mem, lvl1, nodes, pages, kind);
    TablesGrow(|Of(pages, kind)|);
    UsageUpdate(nodes, FindRoom(nodes, kind), Filled(nodes, FindRoom(nodes, kind))[FindRoom(nodes, kind)]);
  }

  /** A page more in the table with room. */
  lemma FilledOk(mem: Mem, mem': Mem, lvl1: nat, nodes: seq<Node>, pages: Pages, kind: Kind, r: nat)
    requires ListOk(mem, lvl1, nodes, pages) && SameLinks(mem, mem', lvl1) && FindRoom(nodes, kind) < |nodes|
    ensures ListOk(mem', lvl1, Filled(nodes, FindRoom(nodes, kind)), With(pages, kind, Of(pages, kind) + [r]))
  {
    var i, n, pages' := FindRoom(nodes, kind), |Of(pages, kind)|, With(pages, kind, Of(pages, kind) + [r]);
    var nodes' := Filled(nodes, i);
    FilledCounts(mem, lvl1, nodes, pages, kind, r);
    RoomFound(mem, lvl1, nodes, pages, kind);
    forall j | 0 <= j < |nodes'| ensures NodeOk(mem', lvl1, nodes'[j], |Of(pages', nodes'[j].kind)|) {
      assert NodeOk(mem, lvl1, nodes[j], |Of(pages, nodes[j].kind)|);
      NodeKept(mem, mem', lvl1, nodes[j], |Of(pages, nodes[j].kind)|);
      if nodes[j].kind == kind {
        OnlyOnePartial(mem, lvl1, nodes, pages, kind, j);
        FilledNode(mem', lvl1, nodes[j], n);
      }
    }
    forall other ensures AllListed(nodes', other, |Of(pages', other)|) {
      assert AllListed(nodes, other, |Of(pages, other)|);
      FilledListed(nodes, i, other, |Of(pages, other)|, |Of(pages', other)|);
    }
    forall j, k | 0 <= j < k < |nodes'| ensures nodes'[j].index != nodes'[k].index {
      assert Pair(j, k);
    }
  }

  lemma FilledListed(nodes: seq<Node>, i: nat, kind: Kind, n: nat, n': nat)
    requires i < |nodes| && AllListed(nodes, kind, n)
    requires n' == n || (n' == n + 1 && n % 512 != 0)
    ensures AllListed(Filled(nodes, i), kind, n')
  {
    forall t: nat | 512 * t < n' ensures Listed(Filled(nodes, i), kind, t) {
      assert 512 * t < n;
      assert Listed(nodes, kind, t);
      var k :| 0 <= k < |nodes| && nodes[k].kind == kind && NumberOf(nodes[k]) == t;
      assert NumberOf(Filled(nodes, i)[k]) == t;
    }
  }

  /** Every other table of the kind is full. */
  lemma OnlyOnePartial(mem: Mem, lvl1: nat, nodes: seq<Node>, pages: Pages, kind: Kind, j: nat)
    requires ListOk(mem, lvl1, nodes, pages) && FindRoom(nodes, kind) < |nodes| && j < |nodes| && nodes[j].kind == kind
    ensures j == FindRoom(nodes, kind) || nodes[j].usage == 512
  {
    var i, n := FindRoom(nodes, kind), |Of(pages, kind)|;
    assert NodeOk(mem, lvl1, nodes[i], n) && NodeOk(mem, lvl1, nodes[j], n);
    if nodes[j].usage < 512 {
      LastNumber(n, NumberOf(nodes[i]));
      LastNumber(n, NumberOf(nodes[j]));
      assert nodes[i].index == nodes[j].index;
      assert Pair(i, j) && Pair(j, i);
    }
  }

  /** A new table with its first page. */
  lemma AppendedOk(mem: Mem, mem': Mem, lvl1: nat, nodes: seq<Node>, pages: Pages, kind: Kind, node: Node, r: nat)
    requires ListOk(mem, lvl1, nodes, pages) && SameLinks(mem, mem', lvl1) && |Of(pages, kind)| % 512 == 0
    requires node.kind == kind && NumberOf(node) == |Of(pages, kind)| / 512 && node.usage == 1
    requires !Entry(mem, lvl1, node.index).valid
    requires Entry(mem', lvl1, node.index).valid && FrameOf(Entry(mem', lvl1, node.index)) == node.table
    ensures ListOk(mem', lvl1, nodes + [node], With(pages, kind, Of(pages, kind) + [r]))
  {
    var n, pages' := |Of(pages, kind)|, With(pages, kind, Of(pages, kind) + [r]);
    var nodes' := nodes + [node];
    UsageAppend(nodes, node);
    TablesExact(n);
    assert NodeOk(mem', lvl1, node, n + 1);
    forall j | 0 <= j < |nodes'| ensures NodeOk(mem', lvl1, nodes'[j], |Of(pages', nodes'[j].kind)|) {
      if j < |nodes| {
        assert NodeOk(mem, lvl1, nodes[j], |Of(pages, nodes[j].kind)|);
        NodeKept(mem, mem', lvl1, nodes[j], |Of(pages, nodes[j].kind)|);
        if nodes[j].kind == kind {
          FullWhenExact(n, NumberOf(nodes[j]));
          FilledNode(mem', lvl1, nodes[j], n);
        }
      }
    }
    forall other ensures AllListed(nodes', other, |Of(pages', other)|) {
      assert AllListed(nodes, other, |Of(pages, other)|);
      AppendedListed(nodes, node, other, |Of(pages, other)|, |Of(pages', other)|);
    }
    forall j, k | 0 <= j < k < |nodes'| ensures nodes'[j].index != nodes'[k].index {
      assert Pair(j, k);
      assert NodeOk(mem, lvl1, nodes[j], |Of(pages, nodes[j].kind)|);
    }
  }

  lemma FullWhenExact(n: nat, t: nat)
    requires n % 512 == 0 && 512 * t < n
    ensures n - 512 * t >= 512
  {
  }

  lemma AppendedListed(nodes: seq<Node>, node: Node, kind: Kind, n: nat, n': nat)
    requires AllListed(nodes, kind, n)
    requires n' == n || (n' == n + 1 && n % 512 == 0 && node.kind == kind && NumberOf(node) == n / 512)
    ensures AllListed(nodes + [node], kind, n')
  {
    var nodes' := nodes + [node];
    forall t: nat | 512 * t < n' ensures Listed(nodes', kind, t) {
      if 512 * t < n {
        assert Listed(nodes, kind, t);
        var k :| 0 <= k < |nodes| && nodes[k].kind == kind && NumberOf(nodes[k]) == t;
        assert nodes'[k] == nodes[k];
      } else {
        assert nodes'[|nodes|] == node && t == n / 512;
      }
    }
  }
}
