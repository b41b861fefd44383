/**
 Bentley and McIlroy's quicksort (src/lib/stdlib/qsort.c) at element granularity: a partition that
 parks the keys equal to the pivot at both ends, two block swaps that bring them to the middle,
 recursion on the left part and iteration on the right one.
 */
module QuickSort {

  /** The caller's comparison is a total preorder. */
  ghost predicate TotalPreorder<T(!new)>(cmp: (T, T) -> int) {
    && (forall a, b :: cmp(a, b) < 0 <==> cmp(b, a) > 0)
    && (forall a, b, c {:trigger Chain(a, b, c)} ::
          Chain(a, b, c) && cmp(a, b) <= 0 && cmp(b, c) <= 0 ==> cmp(a, c) <= 0)
  }

  /** Always true; naming three elements is what makes the verifier apply transitivity to them. */
  ghost predicate Chain<T>(a: T, b: T, c: T) {
    true
  }

  /** Every element of s[from..mid] is at most every later one of s[from..hi]. */
  ghost predicate Settled<T>(cmp: (T, T) -> int, s: seq<T>, from: nat, mid: nat, hi: nat)
    requires mid <= hi <= |s|
  {
    forall i, j {:trigger cmp(s[i], s[j])} :: from <= i < mid && i < j < hi ==> cmp(s[i], s[j]) <= 0
  }

  ghost predicate Sorted<T>(cmp: (T, T) -> int, s: seq<T>, from: nat, hi: nat)
    requires hi <= |s|
  {
    Settled(cmp, s, from, hi, hi)
  }

  /** t is s with the elements of [lo, hi) in another order. */
  ghost predicate Shuffled<T>(s: seq<T>, t: seq<T>, lo: nat, hi: nat) {
    && |s| == |t|
    && multiset(s) == multiset(t)
    && (forall k :: 0 <= k < |s| && !(lo <= k < hi) ==> s[k] == t[k])
  }

  function Swapped<T>(s: seq<T>, i: nat, j: nat): (t: seq<T>)
    requires i < |s| && j < |s|
    ensures |t| == |s|
  {
    s[i := s[j]][j := s[i]]
  }

  lemma SwapShuffles<T>(s: seq<T>, i: nat, j: nat, lo: nat, hi: nat)
    requires lo <= i < hi <= |s| && lo <= j < hi
    ensures Shuffled(s, Swapped(s, i, j), lo, hi)
  {
  }

  lemma ShuffledTrans<T>(s: seq<T>, t: seq<T>, u: seq<T>, lo: nat, hi: nat)
    requires Shuffled(s, t, lo, hi) && Shuffled(t, u, lo, hi)
    ensures Shuffled(s, u, lo, hi)
  {
  }

  lemma ShuffledWiden<T>(s: seq<T>, t: seq<T>, lo: nat, hi: nat, lo': nat, hi': nat)
    requires Shuffled(s, t, lo, hi) && lo' <= lo && hi <= hi'
    ensures Shuffled(s, t, lo', hi')
  {
  }

  /** Every element of the shuffled range comes from that range. */
  lemma ShuffledSource<T>(s: seq<T>, t: seq<T>, lo: nat, hi: nat, k: nat) returns (i: nat)
    requires Shuffled(s, t, lo, hi) && lo <= k < hi <= |s|
    ensures lo <= i < hi && s[i] == t[k]
  {
    ThreeParts(s, lo, hi);
    ThreeParts(t, lo, hi);
    assert s[..lo] == t[..lo];
    assert s[hi..] == t[hi..] by {
      assert forall d :: 0 <= d < |s| - hi ==> s[hi..][d] == s[hi + d] && t[hi..][d] == t[hi + d];
    }
    Cancel(multiset(s[..lo]), multiset(s[lo..hi]), multiset(t[lo..hi]), multiset(s[hi..]));
    assert t[lo..hi][k - lo] == t[k];
    assert t[k] in multiset(s[lo..hi]);
    var d :| 0 <= d < hi - lo && s[lo..hi][d] == t[k];
    i := lo + d;
  }

  lemma Cancel<T>(a: multiset<T>, b: multiset<T>, b': multiset<T>, c: multiset<T>)
    requires a + b + c == a + b' + c
    ensures b == b'
  {
    forall x ensures b[x] == b'[x] {
      assert (a + b + c)[x] == (a + b' + c)[x];
    }
  }

  lemma ThreeParts<T>(s: seq<T>, lo: nat, hi: nat)
    requires lo <= hi <= |s|
    ensures multiset(s) == multiset(s[..lo]) + multiset(s[lo..hi]) + multiset(s[hi..])
  {
    assert s == s[..lo] + s[lo..hi] + s[hi..];
  }

  /** Shuffling the unsettled part leaves the settled part settled. */
  lemma SettledKept<T>(cmp: (T, T) -> int, s: seq<T>, t: seq<T>, from: nat, mid: nat, hi: nat)
    requires mid <= hi <= |s| && Shuffled(s, t, mid, hi)
    requires Settled(cmp, s, from, mid, hi)
    ensures Settled(cmp, t, from, mid, hi)
  {
    forall i, j | from <= i < mid && i < j < hi ensures cmp(t[i], t[j]) <= 0 {
      if j >= mid {
        var j' := ShuffledSource(s, t, mid, hi, j);
        assert cmp(s[i], s[j']) <= 0;
      }
    }
  }

  method Swap<T>(a: array<T>, i: nat, j: nat)
    requires i < a.Length && j < a.Length
    modifies a
    ensures a[..] == Swapped(old(a[..]), i, j)
  {
    a[i], a[j] := a[j], a[i];
  }

  // ----- choosing the pivot -----

  /** med3, on indices */
  function Med3<T>(cmp: (T, T) -> int, s: seq<T>, i: nat, j: nat, k: nat): (m: nat)
    requires i < |s| && j < |s| && k < |s|
    ensures m == i || m == j || m == k
  {
    if cmp(s[i], s[j]) < 0 then
      if cmp(s[j], s[k]) < 0 then j else if cmp(s[i], s[k]) < 0 then k else i
    else
      if cmp(s[j], s[k]) > 0 then j else if cmp(s[i], s[k]) < 0 then i else k
  }

  function AtMost<T>(cmp: (T, T) -> int, x: T, y: T): nat {
    if cmp(x, y) <= 0 then 1 else 0
  }

  /** The chosen element is a median: two of the three are at most it, two are at least it. */
  lemma Med3IsMedian<T(!new)>(cmp: (T, T) -> int, s: seq<T>, i: nat, j: nat, k: nat)
    requires TotalPreorder(cmp) && i < |s| && j < |s| && k < |s|
    ensures var m := s[Med3(cmp, s, i, j, k)];
      && AtMost(cmp, s[i], m) + AtMost(cmp, s[j], m) + AtMost(cmp, s[k], m) >= 2
      && AtMost(cmp, m, s[i]) + AtMost(cmp, m, s[j]) + AtMost(cmp, m, s[k]) >= 2
  {
    var x, y, z := s[i], s[j], s[k];
    assert cmp(x, x) == 0 && cmp(y, y) == 0 && cmp(z, z) == 0;
    assert cmp(x, y) < 0 <==> cmp(y, x) > 0;
    assert cmp(y, z) < 0 <==> cmp(z, y) > 0;
    assert cmp(x, z) < 0 <==> cmp(z, x) > 0;
    assert Chain(x, y, z) && Chain(x, z, y) && Chain(y, x, z) && Chain(y, z, x) && Chain(z, x, y) && Chain(z, y, x);
  }

  /** The index of the pivot for s[lo..lo+n]. */
  function Pivot<T>(cmp: (T, T) -> int, s: seq<T>, lo: nat, n: nat): (m: nat)
    requires 7 <= n && lo + n <= |s|
    ensures lo <= m < lo + n
  {
    var pm := lo + n / 2;
    if n > 7 then
      var pl, pn := lo, lo + (n - 1);
      if n > 40 then
        var d := n / 8;
        Med3(cmp, s,
          Med3(cmp, s, pl, pl + d, pl + 2 * d),
          Med3(cmp, s, pm - d, pm, pm + d),
          Med3(cmp, s, pn - 2 * d, pn - d, pn))
      else
        Med3(cmp, s, pl, pm, pn)
    else
      pm
  }

  // ----- insertion sort -----

  /** s[lo..pm+1] is sorted but for the element on its way down, at pl. */
  ghost predicate SortedBut<T>(cmp: (T, T) -> int, s: seq<T>, lo: nat, pm: nat, pl: nat)
    requires lo <= pl <= pm < |s|
  {
    forall i, j {:trigger cmp(s[i], s[j])} :: lo <= i < j <= pm && j != pl ==> cmp(s[i], s[j]) <= 0
  }

  /** The inner loop's invariant. */
  ghost predicate Sinking<T(!new)>(cmp: (T, T) -> int, s0: seq<T>, s: seq<T>, lo: nat, pm: nat, pl: nat) {
    lo <= pl <= pm < |s| && SortedBut(cmp, s, lo, pm, pl) && Shuffled(s0, s, lo, pm + 1)
  }

  lemma SinkOnce<T(!new)>(cmp: (T, T) -> int, s0: seq<T>, s: seq<T>, lo: nat, pm: nat, pl: nat)
    requires TotalPreorder(cmp) && Sinking(cmp, s0, s, lo, pm, pl) && lo < pl && cmp(s[pl - 1], s[pl]) > 0
    ensures Sinking(cmp, s0, Swapped(s, pl, pl - 1), lo, pm, pl - 1)
  {
    SwapShuffles(s, pl, pl - 1, lo, pm + 1);
    ShuffledTrans(s0, s, Swapped(s, pl, pl - 1), lo, pm + 1);
    SunkOrder(cmp, s, lo, pm, pl);
  }

  lemma SunkOrder<T(!new)>(cmp: (T, T) -> int, s: seq<T>, lo: nat, pm: nat, pl: nat)
    requires TotalPreorder(cmp) && lo < pl <= pm < |s| && SortedBut(cmp, s, lo, pm, pl) && cmp(s[pl - 1], s[pl]) > 0
    ensures SortedBut(cmp, Swapped(s, pl, pl - 1), lo, pm, pl - 1)
  {
    var t := Swapped(s, pl, pl - 1);
    forall i, j | lo <= i < j <= pm && j != pl - 1 ensures cmp(t[i], t[j]) <= 0 {
      SunkPair(cmp, s, lo, pm, pl, i, j);
    }
  }

  lemma SunkPair<T(!new)>(cmp: (T, T) -> int, s: seq<T>, lo: nat, pm: nat, pl: nat, i: nat, j: nat)
    requires TotalPreorder(cmp) && lo < pl <= pm < |s| && SortedBut(cmp, s, lo, pm, pl) && cmp(s[pl - 1], s[pl]) > 0
    requires lo <= i < j <= pm && j != pl - 1
    ensures cmp(Swapped(s, pl, pl - 1)[i], Swapped(s, pl, pl - 1)[j]) <= 0
  {
    if j == pl {
      if i == pl - 1 {
        assert cmp(s[pl], s[pl - 1]) < 0;
      } else {
        assert cmp(s[i], s[pl - 1]) <= 0;
      }
    } else if i == pl - 1 {
      assert cmp(s[pl], s[j]) <= 0;
    } else if i == pl {
      assert cmp(s[pl - 1], s[j]) <= 0;
    } else {
      assert cmp(s[i], s[j]) <= 0;
    }
  }

  lemma Sunk<T(!new)>(cmp: (T, T) -> int, s0: seq<T>, s: seq<T>, lo: nat, pm: nat, pl: nat)
    requires TotalPreorder(cmp) && Sinking(cmp, s0, s, lo, pm, pl)
    requires pl > lo ==> cmp(s[pl - 1], s[pl]) <= 0
    ensures Sorted(cmp, s, lo, pm + 1) && Shuffled(s0, s, lo, pm + 1)
  {
    forall i, j | lo <= i < j < pm + 1 ensures cmp(s[i], s[j]) <= 0 {
      if j == pl && i < pl - 1 {
        assert Chain(s[i], s[pl - 1], s[pl]) && cmp(s[i], s[pl - 1]) <= 0;
      }
    }
  }

  /** The inner loop: the element at pm sinks to its place. */
  method Sink<T(!new)>(a: array<T>, lo: nat, pm: nat, cmp: (T, T) -> int)
    requires TotalPreorder(cmp) && lo <= pm < a.Length
    requires Sorted(cmp, a[..], lo, pm)
    modifies a
    ensures Sorted(cmp, a[..], lo, pm + 1)
    ensures Shuffled(old(a[..]), a[..], lo, pm + 1)
  {
    ghost var s0 := a[..];
    var pl := pm;
    while pl > lo && cmp(a[pl - 1], a[pl]) > 0
      invariant lo <= pl <= pm && Sinking(cmp, s0, a[..], lo, pm, pl)
    {
      SinkOnce(cmp, s0, a[..], lo, pm, pl);
      Swap(a, pl, pl - 1);
      pl := pl - 1;
    }
    Sunk(cmp, s0, a[..], lo, pm, pl);
  }

  method InsertionSort<T(!new)>(a: array<T>, lo: nat, hi: nat, cmp: (T, T) -> int)
    requires TotalPreorder(cmp) && lo <= hi <= a.Length
    modifies a
    ensures Sorted(cmp, a[..], lo, hi)
    ensures Shuffled(old(a[..]), a[..], lo, hi)
  {
    ghost var s0 := a[..];
    var pm := lo + 1;
    while pm < hi
      invariant lo < pm && (pm <= hi || pm == lo + 1)
      invariant pm <= hi ==> Sorted(cmp, a[..], lo, pm)
      invariant Shuffled(s0, a[..], lo, hi)
    {
      ghost var s := a[..];
      Sink(a, lo, pm, cmp);
      ShuffledWiden(s, a[..], lo, pm + 1, lo, hi);
      ShuffledTrans(s0, s, a[..], lo, hi);
      pm := pm + 1;
    }
  }

  // ----- the partition -----

  /** The pivot p is at lo; [lo,pa) and (pd,hi) equal it, [pa,pb) is below it, (pc,pd] above it. */
  ghost predicate Zones<T>(cmp: (T, T) -> int, s: seq<T>, p: T, lo: nat, hi: nat, pa: nat, pb: nat, pc: int, pd: int) {
    && lo < pa <= pb <= pc + 1 <= pd + 1 <= hi <= |s|
    && s[lo] == p
    && (forall k :: lo <= k < pa ==> cmp(s[k], p) == 0)
    && (forall k :: pa <= k < pb ==> cmp(s[k], p) < 0)
    && (forall k :: pc < k <= pd ==> cmp(s[k], p) > 0)
    && (forall k :: pd < k < hi ==> cmp(s[k], p) == 0)
  }

  /** A key equal to the pivot joins the left end ... */
  lemma ParkLow<T>(cmp: (T, T) -> int, s0: seq<T>, s: seq<T>, p: T, lo: nat, hi: nat, pa: nat, pb: nat, pc: int, pd: int)
    requires Zones(cmp, s, p, lo, hi, pa, pb, pc, pd) && Shuffled(s0, s, lo, hi)
    requires pb <= pc && cmp(s[pb], p) == 0
    ensures Zones(cmp, Swapped(s, pa, pb), p, lo, hi, pa + 1, pb + 1, pc, pd)
    ensures Shuffled(s0, Swapped(s, pa, pb), lo, hi)
  {
    SwapShuffles(s, pa, pb, lo, hi);
    ShuffledTrans(s0, s, Swapped(s, pa, pb), lo, hi);
  }

  /** ... or the right end ... */
  lemma ParkHigh<T>(cmp: (T, T) -> int, s0: seq<T>, s: seq<T>, p: T, lo: nat, hi: nat, pa: nat, pb: nat, pc: int, pd: int)
    requires Zones(cmp, s, p, lo, hi, pa, pb, pc, pd) && Shuffled(s0, s, lo, hi)
    requires pb <= pc && cmp(s[pc], p) == 0
    ensures Zones(cmp, Swapped(s, pc, pd), p, lo, hi, pa, pb, pc - 1, pd - 1)
    ensures Shuffled(s0, Swapped(s, pc, pd), lo, hi)
    ensures pb < pc ==> Swapped(s, pc, pd)[pb] == s[pb]
  {
    SwapShuffles(s, pc, pd, lo, hi);
    ShuffledTrans(s0, s, Swapped(s, pc, pd), lo, hi);
  }

  /** ... and a misplaced pair changes sides. */
  lemma Exchange<T>(cmp: (T, T) -> int, s0: seq<T>, s: seq<T>, p: T, lo: nat, hi: nat, pa: nat, pb: nat, pc: int, pd: int)
    requires Zones(cmp, s, p, lo, hi, pa, pb, pc, pd) && Shuffled(s0, s, lo, hi)
    requires pb < pc && cmp(s[pb], p) > 0 && cmp(s[pc], p) < 0
    ensures Zones(cmp, Swapped(s, pb, pc), p, lo, hi, pa, pb + 1, pc - 1, pd)
    ensures Shuffled(s0, Swapped(s, pb, pc), lo, hi)
  {
    SwapShuffles(s, pb, pc, lo, hi);
    ShuffledTrans(s0, s, Swapped(s, pb, pc), lo, hi);
  }

  /** The left scan: stops at an element above the pivot. */
  method ScanUp<T(!new)>(a: array<T>, cmp: (T, T) -> int, ghost p: T, lo: nat, hi: nat, pa0: nat, pb0: nat, pc: int, ghost pd: int)
    returns (pa: nat, pb: nat, moved: bool)
    requires hi <= a.Length && Zones(cmp, a[..], p, lo, hi, pa0, pb0, pc, pd)
    modifies a
    ensures Zones(cmp, a[..], p, lo, hi, pa, pb, pc, pd)
    ensures pb >= pb0 && (pb <= pc ==> cmp(a[pb], p) > 0)
    ensures Shuffled(old(a[..]), a[..], lo, hi)
    ensures !moved ==> a[..] == old(a[..])
  {
    pa, pb, moved := pa0, pb0, false;
    ghost var s0 := a[..];
    while pb <= pc && cmp(a[pb], a[lo]) <= 0
      invariant pb0 <= pb && Zones(cmp, a[..], p, lo, hi, pa, pb, pc, pd)
      invariant Shuffled(s0, a[..], lo, hi)
      invariant !moved ==> a[..] == s0
      decreases pc - pb
    {
      var r := cmp(a[pb], a[lo]);
      if r == 0 {
        moved := true;
        ParkLow(cmp, s0, a[..], p, lo, hi, pa, pb, pc, pd);
        Swap(a, pa, pb);
        pa := pa + 1;
      }
      pb := pb + 1;
    }
  }

  /** The right scan: stops at an element below the pivot. */
  method ScanDown<T(!new)>(a: array<T>, cmp: (T, T) -> int, ghost p: T, lo: nat, hi: nat, ghost pa: nat, pb: nat, pc0: int, pd0: int)
    returns (pc: int, pd: int, moved: bool)
    requires hi <= a.Length && Zones(cmp, a[..], p, lo, hi, pa, pb, pc0, pd0)
    requires pb <= pc0 ==> cmp(a[pb], p) > 0
    modifies a
    ensures Zones(cmp, a[..], p, lo, hi, pa, pb, pc, pd)
    ensures pc <= pc0 && (pb <= pc ==> pb < pc && cmp(a[pb], p) > 0 && cmp(a[pc], p) < 0)
    ensures Shuffled(old(a[..]), a[..], lo, hi)
    ensures !moved ==> a[..] == old(a[..])
  {
    pc, pd, moved := pc0, pd0, false;
    ghost var s0 := a[..];
    while pb <= pc && cmp(a[pc], a[lo]) >= 0
      invariant pc <= pc0 && Zones(cmp, a[..], p, lo, hi, pa, pb, pc, pd)
      invariant pb <= pc ==> cmp(a[pb], p) > 0
      invariant Shuffled(s0, a[..], lo, hi)
      invariant !moved ==> a[..] == s0
      decreases pc - pb
    {
      var r := cmp(a[pc], a[lo]);
      if r == 0 {
        moved := true;
        ParkHigh(cmp, s0, a[..], p, lo, hi, pa, pb, pc, pd);
        Swap(a, pc, pd);
        pd := pd - 1;
      }
      pc := pc - 1;
    }
  }

  /** The whole partition loop; `moved` is the source's swap_cnt. */
  method Partition<T(!new)>(a: array<T>, cmp: (T, T) -> int, lo: nat, hi: nat)
    returns (pa: nat, pb: nat, pc: int, pd: int, moved: bool)
    requires TotalPreorder(cmp) && lo < hi <= a.Length
    modifies a
    ensures Zones(cmp, a[..], old(a[lo]), lo, hi, pa, pb, pc, pd) && pb == pc + 1
    ensures Shuffled(old(a[..]), a[..], lo, hi)
    ensures !moved ==> a[..] == old(a[..])
  {
    ghost var p := a[lo];
    ghost var s0 := a[..];
    pa, pb, moved := lo + 1, lo + 1, false;
    pc, pd := hi - 1, hi - 1;
    while true
      invariant Zones(cmp, a[..], p, lo, hi, pa, pb, pc, pd)
      invariant Shuffled(s0, a[..], lo, hi)
      invariant !moved ==> a[..] == s0
      decreases pc - pb
    {
      ghost var s1 := a[..];
      var m1, m2;
      pa, pb, m1 := ScanUp(a, cmp, p, lo, hi, pa, pb, pc, pd);
      ghost var s2 := a[..];
      pc, pd, m2 := ScanDown(a, cmp, p, lo, hi, pa, pb, pc, pd);
      ghost var s3 := a[..];
      ShuffledTrans(s0, s1, s2, lo, hi);
      ShuffledTrans(s0, s2, s3, lo, hi);
      moved := moved || m1 || m2;
      if pb > pc {
        return;
      }
      Exchange(cmp, s0, s3, p, lo, hi, pa, pb, pc, pd);
      Swap(a, pb, pc);
      moved := true;
      pb := pb + 1;
      pc := pc - 1;
    }
  }

  // ----- bringing the equal keys to the middle -----

  /** Where the element at k comes from when the blocks [i, i+n) and [j, j+n) change places. */
  function Source(i: nat, j: nat, n: nat, k: nat): nat
    requires i + n <= j
  {
    if i <= k < i + n then k + (j - i) else if j <= k < j + n then k - (j - i) else k
  }

  ghost predicate BlocksSwapped<T>(s: seq<T>, t: seq<T>, i: nat, j: nat, n: nat)
    requires i + n <= j && j + n <= |s|
  {
    |s| == |t| && forall k: nat {:trigger t[k]} :: k < |s| ==> t[k] == s[Source(i, j, n, k)]
  }

  lemma NextPair<T>(s: seq<T>, t: seq<T>, i: nat, j: nat, n: nat)
    requires i + n < j && j + n < |s| && BlocksSwapped(s, t, i, j, n)
    ensures BlocksSwapped(s, Swapped(t, i + n, j + n), i, j, n + 1)
  {
  }

  lemma BlocksShuffled<T>(s: seq<T>, t: seq<T>, i: nat, j: nat, n: nat, lo: nat, hi: nat)
    requires lo <= i && i + n <= j && j + n <= hi <= |s| && BlocksSwapped(s, t, i, j, n)
    ensures Shuffled(s, t, lo, hi)
  {
    BlockPieces(s, t, i, j, n);
    Regroup(s[..i], s[i..i + n], s[i + n..j], s[j..j + n], s[j + n..]);
  }

  lemma BlockPieces<T>(s: seq<T>, t: seq<T>, i: nat, j: nat, n: nat)
    requires i + n <= j && j + n <= |s| && BlocksSwapped(s, t, i, j, n)
    ensures s == s[..i] + s[i..i + n] + s[i + n..j] + s[j..j + n] + s[j + n..]
    ensures t == s[..i] + s[j..j + n] + s[i + n..j] + s[i..i + n] + s[j + n..]
  {
    var u := s[..i] + s[j..j + n] + s[i + n..j] + s[i..i + n] + s[j + n..];
    assert |u| == |t|;
    forall k: nat | k < |t| ensures t[k] == u[k] {
    }
  }

  lemma Regroup<T>(a: seq<T>, b: seq<T>, c: seq<T>, d: seq<T>, e: seq<T>)
    ensures multiset(a + b + c + d + e) == multiset(a + d + c + b + e)
  {
  }

  /** vecswap, inside the range [lo, hi) */
  method VecSwap<T>(a: array<T>, i: nat, j: nat, n: nat, ghost lo: nat, ghost hi: nat)
    requires lo <= i && i + n <= j && j + n <= hi <= a.Length
    modifies a
    ensures BlocksSwapped(old(a[..]), a[..], i, j, n)
    ensures Shuffled(old(a[..]), a[..], lo, hi)
  {
    ghost var s0 := a[..];
    var k := 0;
    while k < n
      invariant 0 <= k <= n
      invariant BlocksSwapped(s0, a[..], i, j, k)
    {
      NextPair(s0, a[..], i, j, k);
      Swap(a, i + k, j + k);
      k := k + 1;
    }
    BlocksShuffled(s0, a[..], i, j, n, lo, hi);
  }

  function Min(x: int, y: int): int {
    if x < y then x else y
  }

  /** Three zones: below the pivot, equal to it, above it. */
  ghost predicate ThreeWay<T>(cmp: (T, T) -> int, s: seq<T>, p: T, lo: nat, m1: nat, m2: nat, hi: nat) {
    && lo <= m1 < m2 <= hi <= |s|
    && (forall k :: lo <= k < m1 ==> cmp(s[k], p) < 0)
    && (forall k :: m1 <= k < m2 ==> cmp(s[k], p) == 0)
    && (forall k :: m2 <= k < hi ==> cmp(s[k], p) > 0)
  }

  /** The left block swap: below, equal, above, equal. */
  ghost predicate FourZones<T>(cmp: (T, T) -> int, s: seq<T>, p: T, lo: nat, m1: nat, pb: nat, pd: int, hi: nat) {
    && lo <= m1 < pb <= pd + 1 <= hi <= |s|
    && (forall k :: lo <= k < m1 ==> cmp(s[k], p) < 0)
    && (forall k :: m1 <= k < pb ==> cmp(s[k], p) == 0)
    && (forall k :: pb <= k <= pd ==> cmp(s[k], p) > 0)
    && (forall k :: pd < k < hi ==> cmp(s[k], p) == 0)
  }

  lemma LeftBlock<T>(cmp: (T, T) -> int, s: seq<T>, t: seq<T>, p: T, lo: nat, hi: nat, pa: nat, pb: nat, pc: int, pd: int)
    requires Zones(cmp, s, p, lo, hi, pa, pb, pc, pd) && pb == pc + 1
    requires var r := Min(pa - lo, pb - pa); BlocksSwapped(s, t, lo, pb - r, r)
    ensures FourZones(cmp, t, p, lo, lo + (pb - pa), pb, pd, hi)
  {
  }

  lemma RightBlock<T>(cmp: (T, T) -> int, s: seq<T>, t: seq<T>, p: T, lo: nat, m1: nat, pb: nat, pd: int, hi: nat)
    requires FourZones(cmp, s, p, lo, m1, pb, pd, hi)
    requires var r := Min(pd - pb + 1, hi - pd - 1); BlocksSwapped(s, t, pb, hi - r, r)
    ensures ThreeWay(cmp, t, p, lo, m1, hi - (pd - pb + 1), hi)
  {
  }

  method RearrangeLeft<T>(a: array<T>, cmp: (T, T) -> int, ghost p: T, lo: nat, ghost hi: nat, pa: nat, pb: nat, ghost pc: int, ghost pd: int)
    requires hi <= a.Length && Zones(cmp, a[..], p, lo, hi, pa, pb, pc, pd) && pb == pc + 1
    modifies a
    ensures FourZones(cmp, a[..], p, lo, lo + (pb - pa), pb, pd, hi)
    ensures Shuffled(old(a[..]), a[..], lo, hi)
  {
    var r := Min(pa - lo, pb - pa);
    VecSwap(a, lo, pb - r, r, lo, hi);
    LeftBlock(cmp, old(a[..]), a[..], p, lo, hi, pa, pb, pc, pd);
  }

  method RearrangeRight<T>(a: array<T>, cmp: (T, T) -> int, ghost p: T, ghost lo: nat, hi: nat, ghost m1: nat, pb: nat, pc: int, pd: int)
    requires hi <= a.Length && FourZones(cmp, a[..], p, lo, m1, pb, pd, hi) && pb == pc + 1
    modifies a
    ensures ThreeWay(cmp, a[..], p, lo, m1, hi - (pd - pc), hi)
    ensures Shuffled(old(a[..]), a[..], lo, hi)
  {
    var r := Min(pd - pc, hi - pd - 1);
    VecSwap(a, pb, hi - r, r, lo, hi);
    RightBlock(cmp, old(a[..]), a[..], p, lo, m1, pb, pd, hi);
  }

  /** The two vecswaps after the partition. */
  method Rearrange<T>(a: array<T>, cmp: (T, T) -> int, ghost p: T, lo: nat, hi: nat, pa: nat, pb: nat, pc: int, pd: int)
    requires hi <= a.Length && Zones(cmp, a[..], p, lo, hi, pa, pb, pc, pd) && pb == pc + 1
    modifies a
    ensures ThreeWay(cmp, a[..], p, lo, lo + (pb - pa), hi - (pd - pc), hi)
    ensures Shuffled(old(a[..]), a[..], lo, hi)
  {
    ghost var s0 := a[..];
    RearrangeLeft(a, cmp, p, lo, hi, pa, pb, pc, pd);
    ghost var s1 := a[..];
    RearrangeRight(a, cmp, p, lo, hi, lo + (pb - pa), pb, pc, pd);
    ShuffledTrans(s0, s1, a[..], lo, hi);
  }

  // ----- the sort -----

  /** Sorting the left part of a three-way partition settles everything before the right part. */
  lemma LeftDone<T(!new)>(cmp: (T, T) -> int, s: seq<T>, t: seq<T>, p: T, from: nat, lo: nat, m1: nat, m2: nat, hi: nat)
    requires TotalPreorder(cmp) && from <= lo && ThreeWay(cmp, s, p, lo, m1, m2, hi)
    requires Settled(cmp, s, from, lo, hi)
    requires Shuffled(s, t, lo, m1) && Sorted(cmp, t, lo, m1)
    ensures Settled(cmp, t, from, m2, hi)
  {
    ShuffledWiden(s, t, lo, m1, lo, hi);
    SettledKept(cmp, s, t, from, lo, hi);
    forall i, j | from <= i < m2 && i < j < hi ensures cmp(t[i], t[j]) <= 0 {
      if i >= lo {
        if i < m1 {
          var i' := ShuffledSource(s, t, lo, m1, i);
          assert cmp(t[i], p) < 0;
        }
        if j >= m1 {
          assert cmp(t[j], p) >= 0 && cmp(p, t[j]) <= 0;
          assert Chain(t[i], p, t[j]);
        }
      }
    }
  }

  /** What the outer loop keeps: everything before lo is in its place. */
  ghost predicate Sorting<T(!new)>(cmp: (T, T) -> int, s0: seq<T>, s: seq<T>, from: nat, lo: nat, hi: nat) {
    from <= lo <= hi <= |s| && Settled(cmp, s, from, lo, hi) && Shuffled(s0, s, from, hi)
  }

  /**
   qsort on the n elements from lo: terminates, sorts them, and only reorders them. The source's
   `goto loop` is the loop; the recursion handles the part below the pivot.
   */
  method Qsort<T(!new)>(a: array<T>, from: nat, count: nat, cmp: (T, T) -> int)
    requires TotalPreorder(cmp) && from + count <= a.Length
    modifies a
    ensures Sorted(cmp, a[..], from, from + count)
    ensures Shuffled(old(a[..]), a[..], from, from + count)
    decreases count, 1
  {
    ghost var s0 := a[..];
    var lo, r := from, count;
    while true
      invariant lo + r == from + count && Sorting(cmp, s0, a[..], from, lo, from + count)
      decreases r
    {
      var n := r;
      r := Pass(a, s0, from, lo, n, cmp);
      lo := lo + n - r;
      if r <= 1 {
        return;
      }
    }
  }

  /** From the label `loop` on: only the last r elements remain to be sorted. */
  method Pass<T(!new)>(a: array<T>, ghost s0: seq<T>, ghost from: nat, lo: nat, n: nat, cmp: (T, T) -> int) returns (r: nat)
    requires TotalPreorder(cmp) && lo + n <= a.Length && Sorting(cmp, s0, a[..], from, lo, lo + n)
    modifies a
    ensures r <= n && (r < n || r == 0) && Sorting(cmp, s0, a[..], from, lo + n - r, lo + n)
    decreases n, 0
  {
    ghost var s1 := a[..];
    r := 0;
    if n < 7 {
      InsertionSort(a, lo, lo + n, cmp);
      FinishFrom(cmp, s0, s1, a[..], from, lo, lo + n);
    } else {
      var moved, left;
      ghost var p;
      moved, left, r, p := Divide(a, lo, n, cmp);
      ghost var s2 := a[..];
      if !moved {
        InsertionSort(a, lo, lo + n, cmp);
        ShuffledTrans(s1, s2, a[..], lo, lo + n);
        FinishFrom(cmp, s0, s1, a[..], from, lo, lo + n);
      } else {
        if left > 1 {
          Qsort(a, lo, left, cmp);
        }
        Passed(cmp, s0, s1, s2, a[..], p, from, lo, lo + left, lo + n - r, lo + n);
      }
    }
  }

  /** The partition around a pivot. If it has moved nothing, it leaves the sorting to the insertion sort. */
  method Divide<T(!new)>(a: array<T>, lo: nat, n: nat, cmp: (T, T) -> int) returns (moved: bool, left: nat, right: nat, ghost p: T)
    requires TotalPreorder(cmp) && 7 <= n && lo + n <= a.Length
    modifies a
    ensures Shuffled(old(a[..]), a[..], lo, lo + n)
    ensures if moved then left + right < n && ThreeWay(cmp, a[..], p, lo, lo + left, lo + n - right, lo + n) else left == right == 0
  {
    ghost var s0 := a[..];
    var pm := Pivot(cmp, a[..], lo, n);
    SwapShuffles(s0, lo, pm, lo, lo + n);
    Swap(a, lo, pm);
    p := a[lo];
    ghost var s1 := a[..];
    var pa, pb, pc, pd;
    pa, pb, pc, pd, moved := Partition(a, cmp, lo, lo + n);
    ghost var s2 := a[..];
    ShuffledTrans(s0, s1, s2, lo, lo + n);
    left, right := 0, 0;
    if moved {
      Rearrange(a, cmp, p, lo, lo + n, pa, pb, pc, pd);
      ShuffledTrans(s0, s2, a[..], lo, lo + n);
      left, right := pb - pa, pd - pc;
    }
  }

  /** s1 has been divided into s2, whose left part has been sorted. */
  lemma Passed<T(!new)>(cmp: (T, T) -> int, s0: seq<T>, s1: seq<T>, s2: seq<T>, t: seq<T>, p: T, from: nat, lo: nat, m1: nat, m2: nat, hi: nat)
    requires TotalPreorder(cmp) && Sorting(cmp, s0, s1, from, lo, hi) && Shuffled(s1, s2, lo, hi)
    requires ThreeWay(cmp, s2, p, lo, m1, m2, hi)
    requires (Shuffled(s2, t, lo, m1) && Sorted(cmp, t, lo, m1)) || (t == s2 && m1 <= lo + 1)
    ensures Sorting(cmp, s0, t, from, m2, hi)
  {
    SettledKept(cmp, s1, s2, from, lo, hi);
    LeftDone(cmp, s2, t, p, from, lo, m1, m2, hi);
    Combine(s0, s1, s2, t, from, lo, m1, hi);
  }

  lemma Combine<T>(s0: seq<T>, s1: seq<T>, s4: seq<T>, s5: seq<T>, from: nat, lo: nat, m1: nat, hi: nat)
    requires from <= lo <= m1 <= hi <= |s0|
    requires Shuffled(s0, s1, from, hi) && Shuffled(s1, s4, lo, hi) && Shuffled(s4, s5, lo, m1)
    ensures Shuffled(s0, s5, from, hi)
  {
  }

  /** Sorting the unsettled rest finishes the job. */
  lemma FinishFrom<T(!new)>(cmp: (T, T) -> int, s0: seq<T>, s1: seq<T>, t: seq<T>, from: nat, lo: nat, hi: nat)
    requires Sorting(cmp, s0, s1, from, lo, hi) && Shuffled(s1, t, lo, hi) && Sorted(cmp, t, lo, hi)
    ensures Sorting(cmp, s0, t, from, hi, hi)
  {
    SettledKept(cmp, s1, t, from, lo, hi);
  }
}
