/**
 Paths as stacks of components (src/kernel/fs/dir_api.c:11-131, src/kernel/process/helperfunc.c:289-342):
 what tokenising, rendering and resolving mean, and that they fit together.
 */
module PathSpec {

  /** The characters that separate components: both kinds of slash. */
  predicate IsDelimiter(c: char) {
    c == '/' || c == '\\'
  }

  /** The length of the first component of s. */
  function RunLength(s: string): (n: nat)
    ensures n <= |s|
    ensures forall i :: 0 <= i < n ==> !IsDelimiter(s[i])
    ensures n < |s| ==> IsDelimiter(s[n])
  {
    if s == "" || IsDelimiter(s[0]) then 0 else 1 + RunLength(s[1..])
  }

  /** The components of a path: the longest runs of other characters between delimiters. */
  function Tokens(s: string): seq<string> {
    if s == "" then []
    else if IsDelimiter(s[0]) then Tokens(s[1..])
    else [s[..RunLength(s)]] + Tokens(s[RunLength(s)..])
  }

  predicate IsComponent(c: string) {
    c != "" && forall i :: 0 <= i < |c| ==> !IsDelimiter(c[i]) && c[i] != '\0'
  }

  /** A component that stays in a resolved path. */
  predicate IsName(c: string) {
    IsComponent(c) && c != "." && c != ".."
  }

  predicate Canonical(stack: seq<string>) {
    forall i :: 0 <= i < |stack| ==> IsName(stack[i])
  }

  function Joined(stack: seq<string>): string {
    if stack == [] then "" else Joined(stack[..|stack| - 1]) + "/" + stack[|stack| - 1]
  }

  function Render(stack: seq<string>): string {
    if stack == [] then "/" else Joined(stack)
  }

  /** One step of a path. */
  function Walk(stack: seq<string>, c: string): seq<string> {
    if c == "." then stack
    else if c == ".." then (if stack == [] then [] else stack[..|stack| - 1])
    else stack + [c]
  }

  function Resolve(stack: seq<string>, path: seq<string>): seq<string>
    decreases |path|
  {
    if path == [] then stack else Resolve(Walk(stack, path[0]), path[1..])
  }

  predicate IsAbsolute(path: string) {
    path != "" && path[0] == '/'
  }

  /** What get_final_string means. */
  function Final(cwd: seq<string>, path: string): seq<string> {
    Resolve(if IsAbsolute(path) then [] else cwd, Tokens(path))
  }

  predicate NoNul(s: string) {
    forall i :: 0 <= i < |s| ==> s[i] != '\0'
  }

  // ----- tokenising -----

  lemma RunLengthUnique(s: string, n: nat)
    requires n <= |s| && (forall i :: 0 <= i < n ==> !IsDelimiter(s[i])) && (n < |s| ==> IsDelimiter(s[n]))
    ensures RunLength(s) == n
  {
    var m := RunLength(s);
  }

  /** Delimiters in front change nothing. */
  lemma {:induction false} TokensSkip(s: string, n: nat)
    requires n <= |s| && forall i :: 0 <= i < n ==> IsDelimiter(s[i])
    ensures Tokens(s) == Tokens(s[n..])
  {
    if n > 0 {
      TokensSkip(s[1..], n - 1);
      assert s[1..][n - 1..] == s[n..];
    } else {
      assert s[0..] == s;
    }
  }

  /** A component in front is the first token. */
  lemma TokensFirst(s: string, n: nat)
    requires 0 < n <= |s| && (forall i :: 0 <= i < n ==> !IsDelimiter(s[i])) && (n < |s| ==> IsDelimiter(s[n]))
    ensures Tokens(s) == [s[..n]] + Tokens(s[n..])
    ensures n < |s| ==> Tokens(s[n..]) == Tokens(s[n + 1..])
  {
    RunLengthUnique(s, n);
    if n < |s| {
      assert s[n..][1..] == s[n + 1..];
    }
  }

  /** Every token is a component. */
  lemma {:induction false} TokensAreComponents(s: string)
    requires NoNul(s)
    ensures forall i :: 0 <= i < |Tokens(s)| ==> IsComponent(Tokens(s)[i])
    decreases |s|
  {
    if s == "" {
    } else if IsDelimiter(s[0]) {
      TokensAreComponents(s[1..]);
    } else {
      var n := RunLength(s);
      TokensAreComponents(s[n..]);
      assert IsComponent(s[..n]);
    }
  }

  lemma Pieces(s: string, d: char, t: string, n: nat)
    requires n <= |s|
    ensures var u := s + [d] + t; u[n..] == s[n..] + [d] + t && u[..n] == s[..n] && u[n] == if n < |s| then s[n] else d
  {
  }

  /** Tokenising across a delimiter, whatever is on both sides of it. */
  lemma {:induction false} TokensConcat(s: string, d: char, t: string)
    requires IsDelimiter(d)
    ensures Tokens(s + [d] + t) == Tokens(s) + Tokens(t)
    decreases |s|
  {
    if s == "" || IsDelimiter(s[0]) {
      Pieces(s, d, t, if s == "" then 0 else 1);
      if s == "" {
        assert ("" + [d] + t)[1..] == t;
      } else {
        TokensConcat(s[1..], d, t);
      }
    } else {
      var n := RunLength(s);
      Pieces(s, d, t, n);
      FirstRun(s, d, t, n);
      TokensFirst(s, n);
      TokensConcat(s[n..], d, t);
    }
  }

  lemma FirstRun(s: string, d: char, t: string, n: nat)
    requires IsDelimiter(d) && s != "" && !IsDelimiter(s[0]) && n == RunLength(s)
    ensures Tokens(s + [d] + t) == [s[..n]] + Tokens(s[n..] + [d] + t)
  {
    var u := s + [d] + t;
    Pieces(s, d, t, n);
    assert forall i :: 0 <= i < n ==> u[i] == s[i];
    TokensFirst(u, n);
  }

  lemma TokensOfOne(c: string)
    requires IsComponent(c)
    ensures Tokens(c) == [c]
  {
    TokensFirst(c, |c|);
    assert c[|c|..] == "" && c[..|c|] == c;
  }

  /** Tokenising across a separator. */
  lemma TokensAppend(s: string, c: string)
    requires IsComponent(c)
    ensures Tokens(s + "/" + c) == Tokens(s) + [c]
  {
    TokensConcat(s, '/', c);
    TokensOfOne(c);
    assert s + ['/'] + c == s + "/" + c;
  }

  // ----- rendering and tokenising undo each other -----

  lemma {:induction false} TokensOfJoined(stack: seq<string>)
    requires forall i :: 0 <= i < |stack| ==> IsComponent(stack[i])
    ensures Tokens(Joined(stack)) == stack
  {
    if stack != [] {
      var init, last := stack[..|stack| - 1], stack[|stack| - 1];
      TokensOfJoined(init);
      TokensAppend(Joined(init), last);
      assert stack == init + [last];
    }
  }

  lemma TokensOfRender(stack: seq<string>)
    requires Canonical(stack)
    ensures Tokens(Render(stack)) == stack
    ensures IsAbsolute(Render(stack))
  {
    if stack == [] {
      assert "/"[1..] == "";
    } else {
      TokensOfJoined(stack);
      JoinedStarts(stack);
    }
  }

  lemma {:induction false} JoinedStarts(stack: seq<string>)
    requires stack != []
    ensures Joined(stack) != "" && Joined(stack)[0] == '/'
  {
    if |stack| > 1 {
      JoinedStarts(stack[..|stack| - 1]);
    }
  }

  // ----- resolving -----

  lemma {:induction false} ResolveCanonical(stack: seq<string>, path: seq<string>)
    requires Canonical(stack) && forall i :: 0 <= i < |path| ==> IsComponent(path[i])
    ensures Canonical(Resolve(stack, path))
    decreases |path|
  {
    if path != [] {
      ResolveCanonical(Walk(stack, path[0]), path[1..]);
    }
  }

  lemma {:induction false} ResolveNames(stack: seq<string>, path: seq<string>)
    requires Canonical(path)
    ensures Resolve(stack, path) == stack + path
    decreases |path|
  {
    if path != [] {
      ResolveNames(stack + [path[0]], path[1..]);
      assert stack + [path[0]] + path[1..] == stack + path;
    } else {
      assert stack + [] == stack;
    }
  }

  lemma {:induction false} ResolveSplit(stack: seq<string>, p: seq<string>, q: seq<string>)
    ensures Resolve(stack, p + q) == Resolve(Resolve(stack, p), q)
    decreases |p|
  {
    if p == [] {
      assert [] + q == q;
    } else {
      assert (p + q)[0] == p[0] && (p + q)[1..] == p[1..] + q;
      ResolveSplit(Walk(stack, p[0]), p[1..], q);
    }
  }

  /** The result is canonical, and a path to itself from anywhere. */
  lemma FinalIsFixed(cwd: seq<string>, path: string, other: seq<string>)
    requires Canonical(cwd) && NoNul(path)
    ensures Canonical(Final(cwd, path))
    ensures Final(other, Render(Final(cwd, path))) == Final(cwd, path)
  {
    TokensAreComponents(path);
    ResolveCanonical(if IsAbsolute(path) then [] else cwd, Tokens(path));
    var r := Final(cwd, path);
    TokensOfRender(r);
    ResolveNames([], r);
    assert [] + r == r;
  }

  /** A component and ".." after it lead back. */
  lemma ThereAndBack(stack: seq<string>, c: string)
    requires IsName(c)
    ensures Resolve(stack, [c, ".."]) == stack
  {
    var path := [c, ".."];
    assert path[1..] == [".."] && path[1..][1..] == [];
    assert Resolve(stack + [c], path[1..]) == Resolve(Walk(stack + [c], ".."), []);
  }

  // ----- where a path starts, and where it leads -----

  /** An absolute path leads to the same place from everywhere. */
  lemma AbsoluteFromAnywhere(cwd: seq<string>, other: seq<string>, path: string)
    requires path != "" && path[0] == '/'
    ensures Final(cwd, path) == Final(other, path)
  {
  }

  /** A path that is not absolute means the current directory's name, a slash, and the path. */
  lemma RelativeFromHere(cwd: seq<string>, other: seq<string>, path: string)
    requires Canonical(cwd) && (path == "" || path[0] != '/')
    ensures Final(cwd, path) == Final(other, Render(cwd) + "/" + path)
  {
    TokensOfRender(cwd);
    TokensConcat(Render(cwd), '/', path);
    ResolveSplit([], cwd, Tokens(path));
    ResolveNames([], cwd);
    assert [] + cwd == cwd && Render(cwd) + ['/'] + path == Render(cwd) + "/" + path;
  }

  /** The shortest paths: nowhere, here, one up, one down. */
  lemma OneStep(cwd: seq<string>, c: string)
    requires Canonical(cwd) && IsName(c)
    ensures Final(cwd, "") == cwd && Final(cwd, ".") == cwd
    ensures Final(cwd, "..") == if cwd == [] then [] else cwd[..|cwd| - 1]
    ensures Final(cwd, c) == cwd + [c]
  {
    TokensOfOne(".");
    TokensOfOne("..");
    TokensOfOne(c);
    forall d ensures Resolve(cwd, [d]) == Walk(cwd, d) {
      assert [d][1..] == [];
    }
  }

  /** Any tree of directories: the children of a node by name, and its parent. */
  datatype Tree = Tree(root: nat, child: (nat, string) -> nat, parent: nat -> nat)

  ghost predicate IsTree(t: Tree) {
    t.parent(t.root) == t.root && forall n, c {:trigger t.child(n, c)} :: IsName(c) ==> t.parent(t.child(n, c)) == n
  }

  /** Going through a tree, one component after the other. */
  function Reached(t: Tree, n: nat, path: seq<string>): nat
    decreases |path|
  {
    if path == [] then n
    else if path[0] == "." then Reached(t, n, path[1..])
    else if path[0] == ".." then Reached(t, t.parent(n), path[1..])
    else Reached(t, t.child(n, path[0]), path[1..])
  }

  lemma {:induction false} ReachedSplit(t: Tree, n: nat, p: seq<string>, q: seq<string>)
    ensures Reached(t, n, p + q) == Reached(t, Reached(t, n, p), q)
    decreases |p|
  {
    if p == [] {
      assert [] + q == q;
    } else {
      assert (p + q)[0] == p[0] && (p + q)[1..] == p[1..] + q;
      ReachedSplit(t, if p[0] == "." then n else if p[0] == ".." then t.parent(n) else t.child(n, p[0]), p[1..], q);
    }
  }

  /** One component leads from the node of the stack to the node of the new stack. */
  lemma WalkReaches(t: Tree, stack: seq<string>, c: string)
    requires IsTree(t) && Canonical(stack) && IsComponent(c)
    ensures Reached(t, t.root, Walk(stack, c)) == Reached(t, Reached(t, t.root, stack), [c])
  {
    assert [c][1..] == [];
    if c == ".." {
      if stack != [] {
        var init, last := stack[..|stack| - 1], stack[|stack| - 1];
        assert stack == init + [last] && IsName(last) && [last][1..] == [];
        ReachedSplit(t, t.root, init, [last]);
      }
    } else if c != "." {
      ReachedSplit(t, t.root, stack, [c]);
    }
  }

  lemma {:induction false} ResolveReaches(t: Tree, stack: seq<string>, path: seq<string>)
    requires IsTree(t) && Canonical(stack) && forall i :: 0 <= i < |path| ==> IsComponent(path[i])
    ensures Reached(t, t.root, Resolve(stack, path)) == Reached(t, Reached(t, t.root, stack), path)
    decreases |path|
  {
    if path != [] {
      WalkReaches(t, stack, path[0]);
      assert path == [path[0]] + path[1..];
      ReachedSplit(t, Reached(t, t.root, stack), [path[0]], path[1..]);
      ResolveReaches(t, Walk(stack, path[0]), path[1..]);
    }
  }

  /**
   In every tree the resolved name leads from the root to where the path leads, from the root if it is
   absolute and from the current directory if it is not.
   */
  lemma FinalReaches(t: Tree, cwd: seq<string>, path: string)
    requires IsTree(t) && Canonical(cwd) && NoNul(path)
    ensures Reached(t, t.root, Final(cwd, path)) ==
            Reached(t, if path != "" && path[0] == '/' then t.root else Reached(t, t.root, cwd), Tokens(path))
  {
    TokensAreComponents(path);
    ResolveReaches(t, if IsAbsolute(path) then [] else cwd, Tokens(path));
  }
}
