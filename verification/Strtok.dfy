/**
 strtok (src/lib/string/strtok.c:4-39) and extract_files (src/kernel/process/helperfunc.c:289-342).
 A C string is an array with a terminator.
 */
module Strtok {
  import opened PathSpec

  const PATH_SIZE_MAX: nat := 512

  /** From position i the array holds the string s and its terminator. */
  ghost predicate HoldsAt(a: array<char>, i: nat, s: string)
    reads a
  {
    && i + |s| < a.Length && a[i + |s|] == '\0' && NoNul(s)
    && forall k {:trigger s[k]} :: 0 <= k < |s| ==> a[i + k] == s[k]
  }

  /** The static saved_ptr: an array and a position in it, or nothing. */
  class Tokenizer {
    var buffer: array?<char>
    var saved_ptr: nat

    constructor ()
      ensures buffer == null
    {
      buffer, saved_ptr := null, 0;
    }

    /** What is left to be tokenised. */
    ghost predicate Left(s: string)
      reads this, buffer
    {
      buffer != null && HoldsAt(buffer, saved_ptr, s)
    }

    /** strtok(str, delimiters) */
    method First(str: array<char>, ghost s: string) returns (token: int, ghost tok: string, ghost left: string)
      requires HoldsAt(str, 0, s)
      modifies this, str
      ensures buffer == str && Left(left) && token >= -1
      ensures token == -1 ==> Tokens(s) == [] && left == ""
      ensures token >= 0 ==> HoldsAt(str, token, tok) && Tokens(s) == [tok] + Tokens(left)
      ensures token >= 0 ==> |left| < |s|
    {
      buffer, saved_ptr := str, 0;
      token, tok, left := Next(s);
    }

    /** strtok(NULL, delimiters), when something has been saved. */
    method Next(ghost s: string) returns (token: int, ghost tok: string, ghost left: string)
      requires Left(s)
      modifies this`saved_ptr, buffer
      ensures Left(left) && token >= -1 && buffer == old(buffer)
      ensures token == -1 ==> Tokens(s) == [] && left == ""
      ensures token >= 0 ==> HoldsAt(buffer, token, tok) && Tokens(s) == [tok] + Tokens(left)
      ensures token >= 0 ==> |left| < |s|
    {
      var buf := buffer;
      var at := SkipDelimiters(buf, saved_ptr, s);
      ghost var rest := s[at - saved_ptr..];
      TokensSkip(s, at - saved_ptr);
      assert Tokens(s) == Tokens(rest);
      saved_ptr := at;
      if buf[saved_ptr] == '\0' {
        assert rest == "";
        return -1, "", "";
      }
      saved_ptr, tok, left := TakeToken(buf, at, rest);
      token := at;
    }
  }

  /** The second half of strtok: from the first character of the token on. */
  method TakeToken(a: array<char>, at: nat, ghost s: string) returns (saved_ptr: nat, ghost tok: string, ghost left: string)
    requires HoldsAt(a, at, s) && s != "" && !IsDelimiter(s[0])
    modifies a
    ensures HoldsAt(a, at, tok) && HoldsAt(a, saved_ptr, left)
    ensures Tokens(s) == [tok] + Tokens(left) && |left| < |s|
  {
    saved_ptr := SkipToken(a, at, s);
    ghost var m := saved_ptr - at;
    TokensFirst(s, m);
    Tail(a, at, s, m);
    tok := s[..m];
    if a[saved_ptr] == '\0' {
      left := s[m..];
      assert left == "" && tok == s;
    } else {
      left := s[m + 1..];
      Terminate(a, at, saved_ptr, s);
      saved_ptr := saved_ptr + 1;
    }
  }

  lemma Tail(a: array<char>, i: nat, s: string, n: nat)
    requires HoldsAt(a, i, s) && n <= |s|
    ensures HoldsAt(a, i + n, s[n..]) && NoNul(s[..n])
    ensures n < |s| ==> a[i + n] == s[n]
  {
  }

  /** Writes a terminator over the delimiter behind the token. */
  method Terminate(a: array<char>, i: nat, j: nat, ghost s: string)
    requires HoldsAt(a, i, s) && i <= j < i + |s|
    modifies a
    ensures HoldsAt(a, i, s[..j - i]) && HoldsAt(a, j + 1, s[j - i + 1..])
  {
    Tail(a, i, s, j - i);
    Tail(a, i, s, j - i + 1);
    a[j] := '\0';
  }

  /** The loop of strtok over leading delimiters. */
  method SkipDelimiters(a: array<char>, i: nat, ghost s: string) returns (j: nat)
    requires HoldsAt(a, i, s)
    ensures i <= j <= i + |s| && HoldsAt(a, j, s[j - i..])
    ensures forall k :: 0 <= k < j - i ==> IsDelimiter(s[k])
    ensures a[j] == '\0' <==> j == i + |s|
    ensures j < i + |s| ==> !IsDelimiter(s[j - i])
  {
    j := i;
    Tail(a, i, s, 0);
    while a[j] != '\0' && IsDelimiter(a[j])
      invariant i <= j <= i + |s|
      invariant forall k :: 0 <= k < j - i ==> IsDelimiter(s[k])
      decreases i + |s| - j
    {
      Tail(a, i, s, j - i);
      j := j + 1;
    }
    Tail(a, i, s, j - i);
  }

  /** The loop of strtok over the token. */
  method SkipToken(a: array<char>, i: nat, ghost s: string) returns (j: nat)
    requires HoldsAt(a, i, s) && s != "" && !IsDelimiter(s[0])
    ensures i < j <= i + |s| && HoldsAt(a, j, s[j - i..])
    ensures forall k :: 0 <= k < j - i ==> !IsDelimiter(s[k])
    ensures a[j] == '\0' <==> j == i + |s|
    ensures j < i + |s| ==> IsDelimiter(s[j - i])
  {
    j := i;
    Tail(a, i, s, 0);
    while a[j] != '\0' && !IsDelimiter(a[j])
      invariant i <= j <= i + |s|
      invariant forall k :: 0 <= k < j - i ==> !IsDelimiter(s[k])
      decreases i + |s| - j
    {
      Tail(a, i, s, j - i);
      j := j + 1;
    }
    Tail(a, i, s, j - i);
  }

  /** strlen of the string at position i. */
  method StrLen(a: array<char>, i: nat, ghost s: string) returns (n: nat)
    requires HoldsAt(a, i, s)
    ensures n == |s|
  {
    n := 0;
    while a[i + n] != '\0'
      invariant n <= |s| && (n < |s| ==> a[i + n] == s[n] && s[n] != '\0')
      decreases |s| - n
    {
      n := n + 1;
    }
  }

  /** Overrun: the source writes behind the end of its local copy. */
  datatype PathFs = NoPath | Overrun | PathFs(files: seq<string>)

  /** The local copy that extract_files tokenises; is there room for its terminator? */
  method TempPath(path: string) returns (temp: array<char>, fits: bool)
    requires NoNul(path) && |path| <= PATH_SIZE_MAX
    ensures fresh(temp) && temp.Length == PATH_SIZE_MAX && (fits <==> |path| < PATH_SIZE_MAX)
    ensures fits ==> HoldsAt(temp, 0, path)
  {
    temp := new char[PATH_SIZE_MAX](i => '\0');
    for i := 0 to |path|
      invariant forall j :: 0 <= j < i ==> temp[j] == path[j]
      invariant forall j :: i <= j < PATH_SIZE_MAX ==> temp[j] == '\0'
    {
      temp[i] := path[i];
    }
    fits := |path| < temp.Length;
    if fits {
      temp[|path|] := '\0';
    }
  }

  /** The counting pass. */
  method CountTokens(strtok: Tokenizer, path: string, temp: array<char>) returns (count: nat)
    requires NoNul(path) && HoldsAt(temp, 0, path)
    modifies strtok, temp
    ensures count == |Tokens(path)|
  {
    count := 0;
    var token: int;
    ghost var tok: string;
    ghost var left: string;
    token, tok, left := strtok.First(temp, path);
    while token != -1
      invariant strtok.buffer == temp && strtok.Left(left) && token >= -1
      invariant token >= 0 ==> count + 1 + |Tokens(left)| == |Tokens(path)|
      invariant token == -1 ==> count == |Tokens(path)|
      decreases |left|, token
    {
      count := count + 1;
      token, tok, left := strtok.Next(left);
    }
  }

  lemma NextOf(toks: seq<string>, i: nat, tok: string, rest: seq<string>)
    requires i < |toks| && toks[i..] == [tok] + rest
    ensures toks[i] == tok && toks[i + 1..] == rest
  {
    assert toks[i] == toks[i..][0];
    assert toks[i + 1..] == toks[i..][1..];
  }

  /** The filling pass: the array is exactly as large as the counting pass said. */
  method FillTokens(strtok: Tokenizer, path: string, temp: array<char>, files: array<string>)
    requires NoNul(path) && HoldsAt(temp, 0, path) && files.Length == |Tokens(path)|
    modifies strtok, temp, files
    ensures files[..] == Tokens(path)
  {
    ghost var toks := Tokens(path);
    var i := 0;
    var token: int;
    ghost var tok: string;
    ghost var left: string;
    token, tok, left := strtok.First(temp, path);
    while token != -1
      invariant strtok.buffer == temp && strtok.Left(left) && token >= -1
      invariant i <= files.Length && forall k :: 0 <= k < i ==> files[k] == toks[k]
      invariant token >= 0 ==> i < files.Length && HoldsAt(temp, token, tok) && toks[i..] == [tok] + Tokens(left)
      invariant token == -1 ==> i == files.Length
      decreases |left|, token
    {
      var len := StrLen(temp, token, tok);
      NextOf(toks, i, tok, Tokens(left));
      files[i] := temp[token..token + len];
      token, tok, left := strtok.Next(left);
      i := i + 1;
    }
  }

  /** extract_files. A path of exactly 512 characters passes the test, but its terminator does not fit. */
  method ExtractFiles(strtok: Tokenizer, path: string) returns (r: PathFs)
    requires NoNul(path)
    modifies strtok
    ensures r == Overrun <==> |path| == PATH_SIZE_MAX
    ensures r == NoPath <==> |path| > PATH_SIZE_MAX
    ensures |path| < PATH_SIZE_MAX ==> r == PathFs(Tokens(path))
  {
    if |path| > PATH_SIZE_MAX {
      return NoPath;
    }
    var temp, fits := TempPath(path);
    if !fits {
      return Overrun;
    }
    var count := CountTokens(strtok, path, temp);
    var files := new string[count];
    temp, fits := TempPath(path);
    FillTokens(strtok, path, temp, files);
    r := PathFs(files[..]);
  }
}
