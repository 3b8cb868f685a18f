/** splitPath and pathSegment of internal/httpapi/respond.go. */
module Paths {
  // The length of the longest slash-free prefix.
  function RunLength(s: string): (n: nat)
    ensures n <= |s| && '/' !in s[..n] && (n < |s| ==> s[n] == '/')
  {
    if s == "" || s[0] == '/' then 0
    else
      var n := RunLength(s[1..]);
      assert s[..n + 1] == [s[0]] + s[1..][..n];
      n + 1
  }

  // The maximal slash-free runs of a path, left to right.
  function Split(path: string): seq<string>
    decreases |path|
  {
    if path == "" then []
    else if path[0] == '/' then Split(path[1..])
    else var n := RunLength(path); [path[..n]] + Split(path[n..])
  }

  function Join(parts: seq<string>): string {
    if parts == [] then "" else "/" + parts[0] + Join(parts[1..])
  }

  ghost predicate ArePathParts(parts: seq<string>) {
    forall i :: 0 <= i < |parts| ==> parts[i] != "" && '/' !in parts[i]
  }

  // A run ends exactly at its first slash.
  lemma RunLengthIs(s: string, n: nat)
    requires n <= |s| && '/' !in s[..n] && (n < |s| ==> s[n] == '/')
    ensures RunLength(s) == n
  {
    var m := RunLength(s);
    assert forall i :: 0 <= i < n ==> s[i] in s[..n];
    assert forall i :: 0 <= i < m ==> s[i] in s[..m];
  }

  lemma {:induction false} SplitAtSlash(a: string, b: string)
    requires a == "" || a[|a| - 1] == '/'
    ensures Split(a + b) == Split(a) + Split(b)
    decreases |a|
  {
    if a == "" {
      assert a + b == b;
    } else if a[0] == '/' {
      assert (a + b)[1..] == a[1..] + b;
      SplitAtSlash(a[1..], b);
    } else {
      var n := RunLength(a);
      assert forall i :: 0 <= i < n ==> a[i] in a[..n];
      assert (a + b)[..n] == a[..n];
      RunLengthIs(a + b, n);
      assert (a + b)[n..] == a[n..] + b;
      SplitAtSlash(a[n..], b);
    }
  }

  lemma {:induction false} SplitTrailingSlash(a: string)
    ensures Split(a + "/") == Split(a)
    decreases |a|
  {
    if a == "" {
      assert a + "/" == "/";
      assert Split("/"[1..]) == [];
    } else if a[0] == '/' {
      assert (a + "/")[1..] == a[1..] + "/";
      SplitTrailingSlash(a[1..]);
    } else {
      var n := RunLength(a);
      assert (a + "/")[..n] == a[..n];
      RunLengthIs(a + "/", n);
      assert (a + "/")[n..] == a[n..] + "/";
      SplitTrailingSlash(a[n..]);
    }
  }

  /** Splitting is a homomorphism: a slash between two paths concatenates their parts. */
  lemma SplitConcat(a: string, b: string)
    ensures Split(a + "/" + b) == Split(a) + Split(b)
  {
    SplitAtSlash(a + "/", b);
    SplitTrailingSlash(a);
  }

  lemma RepeatedSlashes(a: string, b: string)
    ensures Split(a + "//" + b) == Split(a + "/" + b)
  {
    assert a + "//" + b == a + "/" + ("/" + b);
    SplitConcat(a, "/" + b);
    SplitConcat(a, b);
    assert ("/" + b)[1..] == b;
  }

  lemma {:induction false} SplitPartsWellFormed(path: string)
    ensures ArePathParts(Split(path))
    decreases |path|
  {
    if path != "" {
      if path[0] == '/' {
        SplitPartsWellFormed(path[1..]);
      } else {
        SplitPartsWellFormed(path[RunLength(path)..]);
      }
    }
  }

  /** Round trip: splitting joined parts returns them. */
  lemma {:induction false} SplitJoin(parts: seq<string>)
    requires ArePathParts(parts)
    ensures Split(Join(parts)) == parts
  {
    if parts != [] {
      var p, rest := parts[0], Join(parts[1..]);
      assert parts == [p] + parts[1..];
      assert ArePathParts(parts[1..]);
      SplitJoin(parts[1..]);
      var s := p + rest;
      assert ("/" + p + rest)[1..] == s;
      assert s[..|p|] == p && s[|p|..] == rest;
      assert rest == "" || rest[0] == '/';
      RunLengthIs(s, |p|);
    }
  }

  /** The other round trip: joining the parts of a path gives its canonical spelling,
      which splits the same way. */
  lemma JoinSplit(path: string)
    ensures Split(Join(Split(path))) == Split(path)
  {
    SplitPartsWellFormed(path);
    SplitJoin(Split(path));
  }

  // A slash-free string is a single part, or none if it is empty.
  lemma SplitRun(b: string)
    requires '/' !in b
    ensures Split(b) == if b == "" then [] else [b]
  {
    if b != "" {
      RunLengthIs(b, |b|);
      assert b[..|b|] == b && b[|b|..] == "";
    }
  }

  // A slash completes the part read since the last one, if any.
  lemma SplitPart(before: string, b: string)
    requires before == "" || before[|before| - 1] == '/'
    requires '/' !in b
    ensures Split(before + (b + "/")) == Split(before) + (if b == "" then [] else [b])
  {
    hide *;
    SplitAtSlash(before, b + "/");
    SplitTrailingSlash(b);
    SplitRun(b);
  }

  // splitPath: one pass over the bytes, with a virtual slash after the last one.
  method SplitPath(path: string) returns (parts: seq<string>)
    ensures parts == Split(path)
  {
    parts := [];
    var b := "";
    // What was read before b: empty, or up to and including a slash.
    ghost var before := "";
    var i := 0;
    while i <= |path|
      invariant 0 <= i <= |path| + 1
      invariant before + b == (path + "/")[..i] && '/' !in b
      invariant before == "" || before[|before| - 1] == '/'
      invariant parts == Split(before)
      invariant i == |path| + 1 ==> b == ""
    {
      var c := '/';
      if i < |path| {
        c := path[i];
      }
      assert (path + "/")[..i + 1] == (path + "/")[..i] + [c];
      if c == '/' {
        SplitPart(before, b);
        before := before + (b + "/");
        if |b| > 0 {
          parts := parts + [b];
          b := "";
        }
      } else {
        b := b + [c];
      }
      i := i + 1;
    }
    assert before == path + "/";
    SplitTrailingSlash(path);
  }

  // pathSegment: the index is 1-based; outside the parts it is the empty string.
  method PathSegment(path: string, index: int) returns (r: string)
    ensures r == if 1 <= index <= |Split(path)| then Split(path)[index - 1] else ""
  {
    var parts := SplitPath(path);
    if index < 1 || index > |parts| {
      return "";
    }
    return parts[index - 1];
  }

  /** A route built from a prefix and an identifier yields the identifier back at the
      position after the prefix, whatever follows it. */
  lemma SegmentRecoversId(prefix: seq<string>, id: string, rest: seq<string>)
    requires ArePathParts(prefix) && ArePathParts(rest)
    requires id != "" && '/' !in id
    ensures var parts := Split(Join(prefix + [id] + rest));
            |prefix| < |parts| && parts[|prefix|] == id
  {
    SplitJoin(prefix + [id] + rest);
  }
}
