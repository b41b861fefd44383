/** Facts about sets, and about sequences without duplicates, that the modules share. */
module SetFacts {
  import opened Marks

  lemma SubsetSize<T>(a: set<T>, b: set<T>)
    requires a <= b
    ensures |a| <= |b|
  {
    assert b == a + (b - a);
  }

  ghost predicate NoDup(s: seq<nat>) {
    forall i, j {:trigger Pair(i, j)} :: Pair(i, j) && 0 <= i < j < |s| ==> s[i] != s[j]
  }

  ghost function ToSet(l: seq<nat>): set<nat> {
    set b | b in l
  }

  lemma {:induction false} SetSize(s: seq<nat>)
    requires NoDup(s)
    ensures |ToSet(s)| == |s|
  {
    if s != [] {
      var init, last := s[..|s| - 1], s[|s| - 1];
      forall i, j | 0 <= i < j < |init| ensures init[i] != init[j] {
        assert Pair(i, j);
      }
      SetSize(init);
      forall i | 0 <= i < |init| ensures init[i] != last {
        assert Pair(i, |s| - 1);
      }
      assert s == init + [last];
      assert ToSet(s) == ToSet(init) + {last};
    } else {
      assert ToSet(s) == {};
    }
  }

  lemma NoDupConcat(a: seq<nat>, b: seq<nat>)
    requires NoDup(a) && NoDup(b) && forall x :: x in a ==> x !in b
    ensures NoDup(a + b)
  {
    var s := a + b;
    forall i, j | 0 <= i < j < |s| ensures s[i] != s[j] {
      assert Pair(i, j) && Pair(i - |a|, j - |a|);
      assert i < |a| ==> s[i] in a;
      assert j >= |a| ==> s[j] in b;
    }
  }
}
