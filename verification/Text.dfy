/** The string operations the services rely on, over ASCII text. */
module Text {
  function Lower(c: char): char {
    if 'A' <= c <= 'Z' then c - 'A' + 'a' else c
  }

  function ToLower(s: string): (r: string)
    ensures |r| == |s|
    ensures forall i :: 0 <= i < |s| ==>
              if 'A' <= s[i] <= 'Z' then r[i] as int == s[i] as int + 32 else r[i] == s[i]
  {
    seq(|s|, i requires 0 <= i < |s| => Lower(s[i]))
  }

  predicate IsSpace(c: char) {
    c == ' ' || '\t' <= c <= '\r'
  }

  function TrimLeft(s: string): string {
    if s != "" && IsSpace(s[0]) then TrimLeft(s[1..]) else s
  }

  function TrimRight(s: string): string {
    if s != "" && IsSpace(s[|s| - 1]) then TrimRight(s[..|s| - 1]) else s
  }

  function TrimSpace(s: string): string {
    TrimRight(TrimLeft(s))
  }

  /** strings.TrimSpace cuts off spaces, tabs, line feeds, vertical tabs, form feeds and
      carriage returns at both ends, and nothing else. */
  lemma TrimSpaceIs(s: string, a: string, m: string, b: string)
    requires s == a + m + b
    requires forall c :: c in a || c in b ==> c as int in {9, 10, 11, 12, 13, 32}
    requires m != "" ==> m[0] as int !in {9, 10, 11, 12, 13, 32} && m[|m| - 1] as int !in {9, 10, 11, 12, 13, 32}
    ensures TrimSpace(s) == m
  {
    assert forall c: char :: IsSpace(c) <==> c as int in {9, 10, 11, 12, 13, 32};
    hide IsSpace;
    assert s == a + (m + b);
    if m == "" {
      assert m + b == b && b == b + "";
      TrimLeftSpaces(a, b);
      TrimLeftSpaces(b, "");
    } else {
      TrimLeftSpaces(a, m + b);
      TrimRightSpaces(m, b);
    }
  }

  lemma {:induction false} TrimLeftSpaces(a: string, m: string)
    requires forall c :: c in a ==> IsSpace(c)
    ensures TrimLeft(a + m) == TrimLeft(m)
  {
    if a == "" {
      assert a + m == m;
    } else {
      assert a[0] in a && (a + m)[1..] == a[1..] + m;
      TrimLeftSpaces(a[1..], m);
    }
  }

  lemma {:induction false} TrimRightSpaces(m: string, b: string)
    requires forall c :: c in b ==> IsSpace(c)
    ensures TrimRight(m + b) == TrimRight(m)
  {
    if b == "" {
      assert m + b == m;
    } else {
      var n := |b| - 1;
      assert b[n] in b && (m + b)[..|m + b| - 1] == m + b[..n];
      TrimRightSpaces(m, b[..n]);
    }
  }

  predicate Contains(s: string, sub: string) {
    sub <= s || (s != "" && Contains(s[1..], sub))
  }

  /** The text occurs at some offset. */
  lemma {:induction false} ContainsIff(s: string, sub: string)
    ensures Contains(s, sub) <==> exists i :: 0 <= i <= |s| && sub <= s[i..]
  {
    if sub <= s {
      assert s[0..] == s;
    } else if s != "" {
      ContainsIff(s[1..], sub);
      if Contains(s[1..], sub) {
        var i :| 0 <= i <= |s[1..]| && sub <= s[1..][i..];
        assert s[i + 1..] == s[1..][i..];
      }
      if i :| 0 <= i <= |s| && sub <= s[i..] {
        assert i > 0 by { assert s[0..] == s; }
        assert s[1..][i - 1..] == s[i..];
      }
    }
  }

  // strings.Contains(strings.ToLower(field), strings.ToLower(query))
  predicate ContainsFold(field: string, query: string) {
    Contains(ToLower(field), ToLower(query))
  }

  // Byte-wise string order, the `<` of Go strings.
  predicate Before(a: string, b: string) {
    b != "" && (a == "" || a[0] < b[0] || (a[0] == b[0] && Before(a[1..], b[1..])))
  }

  /** At the first difference the smaller byte comes first, and a prefix before what it begins. */
  lemma {:induction false} BeforeIff(a: string, b: string)
    ensures Before(a, b)
       <==> exists i :: 0 <= i <= |a| && i < |b| && a[..i] == b[..i] && (i < |a| ==> a[i] < b[i])
  {
    if b != "" && a != "" && a[0] == b[0] {
      BeforeIff(a[1..], b[1..]);
      if Before(a[1..], b[1..]) {
        var i :| 0 <= i <= |a[1..]| && i < |b[1..]| && a[1..][..i] == b[1..][..i]
                 && (i < |a[1..]| ==> a[1..][i] < b[1..][i]);
        assert a[..i + 1] == [a[0]] + a[1..][..i] && b[..i + 1] == [b[0]] + b[1..][..i];
      }
      if i :| 0 <= i <= |a| && i < |b| && a[..i] == b[..i] && (i < |a| ==> a[i] < b[i]) {
        assert i > 0;
        assert a[1..][..i - 1] == a[..i][1..] && b[1..][..i - 1] == b[..i][1..];
      }
    } else if b != "" {
      assert a[..0] == b[..0];
      forall i | 0 < i <= |a| && i < |b| ensures a[..i] != b[..i] {
        assert a[..i][0] == a[0] && b[..i][0] == b[0];
      }
    }
  }

  lemma {:induction false} BeforeTotal(a: string, b: string)
    ensures Before(a, b) ==> !Before(b, a)
    ensures a != b ==> Before(a, b) || Before(b, a)
  {
    if a != "" && b != "" {
      assert a == [a[0]] + a[1..] && b == [b[0]] + b[1..];
      BeforeTotal(a[1..], b[1..]);
    }
  }

  lemma {:induction false} BeforeTransitive(a: string, b: string, c: string)
    requires Before(a, b) && Before(b, c)
    ensures Before(a, c)
  {
    if a != "" && a[0] == b[0] == c[0] {
      BeforeTransitive(a[1..], b[1..], c[1..]);
    }
  }
}
