/**
 The path normaliser (src/kernel/fs/dir_api.c:11-131): a buffer holding a directory name is
 truncated, copied and extended in place, component by component.
 */
module Paths {
  import opened PathSpec
  import opened Strtok

  /** The position of the last '/', as strrchr finds it, or -1. */
  function LastSlash(s: string): (k: int)
    ensures -1 <= k < |s|
    ensures k >= 0 ==> s[k] == '/' && forall i :: k < i < |s| ==> s[i] != '/'
    ensures k < 0 ==> forall i :: 0 <= i < |s| ==> s[i] != '/'
  {
    if s == "" then -1 else if s[|s| - 1] == '/' then |s| - 1 else LastSlash(s[..|s| - 1])
  }

  /** What navigate_to_parent_directory leaves of a name. */
  function Parent(s: string): string {
    var k := LastSlash(s);
    if s == "/" || k < 0 then s
    else if k == 0 then "/"
    else if k == |s| - 1 then s
    else s[..k]
  }

  /** strrchr(str, '/') */
  method StrRChr(a: array<char>, ghost s: string) returns (last: int)
    requires HoldsAt(a, 0, s)
    ensures last == LastSlash(s)
  {
    last := -1;
    var i := 0;
    while a[i] != '\0'
      invariant 0 <= i <= |s| && (i < |s| ==> a[0 + i] == s[i] && s[i] != '\0')
      invariant -1 <= last < i && (last >= 0 ==> s[last] == '/')
      invariant forall k :: last < k < i ==> s[k] != '/'
      decreases |s| - i
    {
      if a[i] == '/' {
        last := i;
      }
      i := i + 1;
    }
  }

  lemma IsRoot(a: array<char>, s: string)
    requires HoldsAt(a, 0, s)
    ensures |s| == 1 && a[0] == '/' <==> s == "/"
  {
    if |s| == 1 {
      assert a[0 + 0] == s[0];
    }
  }

  /** memset(a + from, 0, n) */
  method Clear(a: array<char>, from: nat, n: nat)
    requires from + n <= a.Length
    modifies a
    ensures forall i :: 0 <= i < a.Length ==> a[i] == if from <= i < from + n then '\0' else old(a[i])
  {
    for j := 0 to n
      invariant forall i :: 0 <= i < a.Length ==> a[i] == if from <= i < from + j then '\0' else old(a[i])
    {
      a[from + j] := '\0';
    }
  }

  /** navigate_to_parent_directory. Its memset stops one character early, behind the new terminator. */
  method NavigateToParent(current: array<char>, ghost s: string)
    requires HoldsAt(current, 0, s)
    modifies current
    ensures HoldsAt(current, 0, Parent(s))
  {
    var old_len := StrLen(current, 0, s);
    IsRoot(current, s);
    if old_len == 1 && current[0] == '/' {
      return;
    }
    var last_separator := StrRChr(current, s);
    if last_separator >= 0 {
      if last_separator == 0 {
        Clear(current, 1, old_len - 1);
        assert s[0] == '/';
      } else {
        Clear(current, last_separator, old_len - last_separator - 1);
      }
    }
  }

  /** navigate_to_directory: a new buffer with the component appended. */
  method NavigateTo(main_dir: array<char>, addition: string, ghost s: string) returns (place_holder: array<char>)
    requires HoldsAt(main_dir, 0, s) && NoNul(addition)
    ensures fresh(place_holder)
    ensures HoldsAt(place_holder, 0, if s == "/" then s + addition else s + "/" + addition)
  {
    var len_main_old := StrLen(main_dir, 0, s);
    var at := len_main_old;
    var root := len_main_old == 1 && main_dir[0] == '/';
    IsRoot(main_dir, s);
    var sep := if root then 0 else 1;
    place_holder := new char[len_main_old + sep + |addition| + 1](i => '\0');
    for i := 0 to len_main_old
      invariant forall k :: 0 <= k < i ==> place_holder[k] == s[k]
      invariant forall k :: i <= k < place_holder.Length ==> place_holder[k] == '\0'
    {
      assert main_dir[0 + i] == s[i];
      place_holder[i] := main_dir[i];
    }
    if !root {
      place_holder[at] := '/';
      at := at + 1;
    }
    for i := 0 to |addition|
      invariant forall k :: 0 <= k < len_main_old ==> place_holder[k] == s[k]
      invariant !root ==> place_holder[len_main_old] == '/'
      invariant forall k :: 0 <= k < i ==> place_holder[at + k] == addition[k]
      invariant forall k :: at + i <= k < place_holder.Length ==> place_holder[k] == '\0'
    {
      place_holder[at + i] := addition[i];
    }
  }

  // ----- the buffer as a stack -----

  lemma {:induction false} LastSlashOf(s: string, c: string)
    requires forall i :: 0 <= i < |c| ==> c[i] != '/'
    ensures LastSlash(s + "/" + c) == |s|
  {
    var t := s + "/" + c;
    assert t[|s|] == '/';
    forall i | |s| < i < |t| ensures t[i] != '/' {
      assert t[i] == c[i - |s| - 1];
    }
  }

  lemma ParentOfRender(stack: seq<string>)
    requires Canonical(stack)
    ensures Parent(Render(stack)) == Render(Walk(stack, ".."))
  {
    if stack != [] {
      var init, last := stack[..|stack| - 1], stack[|stack| - 1];
      assert IsName(last);
      var s := Joined(init);
      LastSlashOf(s, last);
      assert Render(stack) == s + "/" + last;
      if init != [] {
        JoinedStarts(init);
        assert (s + "/" + last)[..|s|] == s;
      }
    }
  }

  lemma ChildOfRender(stack: seq<string>, c: string)
    requires Canonical(stack)
    ensures Render(stack + [c]) == if Render(stack) == "/" then Render(stack) + c else Render(stack) + "/" + c
  {
    var u := stack + [c];
    assert u[..|u| - 1] == stack;
    if stack != [] {
      var init, last := stack[..|stack| - 1], stack[|stack| - 1];
      assert IsName(last) && Render(stack) == Joined(init) + "/" + last;
      assert |Render(stack)| > 1;
    } else {
      assert Joined(u) == "" + "/" + c && "" + "/" == "/";
    }
  }

  lemma {:induction false} JoinedNoNul(stack: seq<string>)
    requires Canonical(stack)
    ensures NoNul(Joined(stack)) && NoNul(Render(stack))
  {
    if stack != [] {
      var init, last := stack[..|stack| - 1], stack[|stack| - 1];
      JoinedNoNul(init);
      assert IsName(last) && Joined(stack) == Joined(init) + "/" + last;
    }
  }

  // ----- get_final_string and chdir -----

  /** The buffer that the walk starts from. */
  method Copy(name: string) returns (a: array<char>)
    requires NoNul(name)
    ensures fresh(a) && HoldsAt(a, 0, name)
  {
    a := new char[|name| + 1](i => '\0');
    for i := 0 to |name|
      invariant forall k :: 0 <= k < i ==> a[k] == name[k]
      invariant forall k :: i <= k < a.Length ==> a[k] == '\0'
    {
      a[i] := name[i];
    }
  }

  /** One component of the path. */
  method Step(temp: array<char>, c: string, ghost stack: seq<string>) returns (next: array<char>)
    requires Canonical(stack) && IsComponent(c) && HoldsAt(temp, 0, Render(stack))
    modifies temp
    ensures next == temp || fresh(next)
    ensures HoldsAt(next, 0, Render(Walk(stack, c)))
  {
    next := temp;
    if c == "." {
      return;
    } else if c == ".." {
      ParentOfRender(stack);
      NavigateToParent(temp, Render(stack));
    } else {
      ChildOfRender(stack, c);
      next := NavigateTo(temp, c, Render(stack));
    }
  }

  /** The loop of get_final_string over the components of the path. */
  method WalkFiles(temp: array<char>, files: seq<string>, ghost start: seq<string>) returns (next: array<char>)
    requires Canonical(start) && HoldsAt(temp, 0, Render(start)) && forall i :: 0 <= i < |files| ==> IsComponent(files[i])
    modifies temp
    ensures (next == temp || fresh(next)) && HoldsAt(next, 0, Render(Resolve(start, files)))
  {
    next := temp;
    ghost var stack := start;
    var i := 0;
    assert files[0..] == files;
    while i < |files|
      invariant 0 <= i <= |files| && Canonical(stack) && (next == temp || fresh(next))
      invariant HoldsAt(next, 0, Render(stack))
      invariant Resolve(stack, files[i..]) == Resolve(start, files)
    {
      assert files[i..][1..] == files[i + 1..];
      next := Step(next, files[i], stack);
      stack := Walk(stack, files[i]);
      i := i + 1;
    }
    assert files[i..] == [];
  }

  datatype Name = NoName | Overran | Name(name: string)

  /** get_final_string, from a current directory that is a canonical name. */
  method GetFinalString(strtok: Tokenizer, current_dir: string, new_directory: string, ghost cwd: seq<string>) returns (r: Name)
    requires Canonical(cwd) && current_dir == Render(cwd) && NoNul(new_directory)
    modifies strtok
    ensures r == Overran <==> |new_directory| == PATH_SIZE_MAX
    ensures r == NoName <==> |new_directory| > PATH_SIZE_MAX
    ensures |new_directory| < PATH_SIZE_MAX ==> r == Name(Render(Final(cwd, new_directory)))
  {
    JoinedNoNul(cwd);
    ghost var start := if IsAbsolute(new_directory) then [] else cwd;
    var temp_directory := Copy(if IsAbsolute(new_directory) then "/" else current_dir);
    var path_data := ExtractFiles(strtok, new_directory);
    if path_data == NoPath {
      return NoName;
    }
    if path_data == Overrun {
      return Overran;
    }
    TokensAreComponents(new_directory);
    temp_directory := WalkFiles(temp_directory, path_data.files, start);
    var len := StrLen(temp_directory, 0, Render(Resolve(start, path_data.files)));
    r := Name(temp_directory[..len]);
    assert temp_directory[..len] == Render(Resolve(start, path_data.files));
  }

  /** A process, as far as its current directory goes. */
  class WorkingDirectory {
    var cur_dir: string
    ghost var stack: seq<string>

    ghost predicate Valid()
      reads this
    {
      Canonical(stack) && cur_dir == Render(stack)
    }

    constructor ()
      ensures Valid() && cur_dir == "/"
    {
      cur_dir, stack := "/", [];
    }

    /** chdir, where isDirectory tells which names lead to a directory; it does not return if it overruns a buffer. */
    method ChDir(strtok: Tokenizer, new_directory: string, isDirectory: string -> bool) returns (rc: int, overran: bool)
      requires Valid() && NoNul(new_directory)
      modifies this, strtok
      ensures Valid() && (rc == 0 || rc == -1) && (overran <==> |new_directory| == PATH_SIZE_MAX)
      ensures rc == 0 <==> |new_directory| < PATH_SIZE_MAX && isDirectory(Render(Final(old(stack), new_directory)))
      ensures rc == 0 ==> stack == Final(old(stack), new_directory)
      ensures rc == -1 ==> cur_dir == old(cur_dir) && stack == old(stack)
    {
      var final_string := GetFinalString(strtok, cur_dir, new_directory, stack);
      if !final_string.Name? {
        return -1, final_string == Overran;
      }
      if !isDirectory(final_string.name) {
        return -1, false;
      }
      FinalIsFixed(stack, new_directory, []);
      cur_dir, stack := final_string.name, Final(stack, new_directory);
      rc, overran := 0, false;
    }
  }
}
