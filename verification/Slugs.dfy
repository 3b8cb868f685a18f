/** slugify of internal/service/service.go, over ASCII text. */
module Slugs {
  import opened Text

  predicate IsWordChar(c: char) {
    'a' <= c <= 'z' || '0' <= c <= '9'
  }

  predicate IsSeparator(c: char) {
    c == ' ' || c == '-' || c == '_'
  }

  // Separators become dashes; every byte that is neither is dropped.
  function Kept(s: string): string {
    if s == "" then ""
    else
      var c := s[|s| - 1];
      Kept(s[..|s| - 1]) + (if IsWordChar(c) then [c] else if IsSeparator(c) then "-" else "")
  }

  // Every run of dashes becomes one dash.
  function Collapse(s: string): string {
    if s == "" then ""
    else
      var init, c := Collapse(s[..|s| - 1]), s[|s| - 1];
      if c == '-' && init != "" && init[|init| - 1] == '-' then init else init + [c]
  }

  function DropTrailingDash(s: string): string {
    if s != "" && s[|s| - 1] == '-' then s[..|s| - 1] else s
  }

  function Slug(s: string): string {
    DropTrailingDash(Collapse(Kept(ToLower(TrimSpace(s)))))
  }

  // What a slug looks like. A leading dash is allowed.
  ghost predicate IsSlug(s: string) {
    && (forall i :: 0 <= i < |s| ==> 'a' <= s[i] <= 'z' || '0' <= s[i] <= '9' || s[i] == '-')
    && (forall i :: 0 <= i < |s| - 1 ==> !(s[i] == '-' && s[i + 1] == '-'))
    && (s != "" ==> s[|s| - 1] != '-')
  }

  // What one more byte adds to the slug.
  lemma SlugStep(t: string, i: nat)
    requires i < |t|
    ensures var b, c := Collapse(Kept(t[..i])), t[i];
            Collapse(Kept(t[..i + 1])) ==
              if IsWordChar(c) then b + [c]
              else if IsSeparator(c) && (b == "" || b[|b| - 1] != '-') then b + "-"
              else b
  {
    assert t[..i + 1][..i] == t[..i];
    var k := Kept(t[..i]);
    assert (k + [t[i]])[..|k|] == k && (k + "-")[..|k|] == k && k + "" == k;
  }

  // slugify: the single pass over the bytes.
  method Slugify(s: string) returns (r: string)
    ensures r == Slug(s)
  {
    var t := ToLower(TrimSpace(s));
    var b := "";
    for i := 0 to |t|
      invariant b == Collapse(Kept(t[..i]))
    {
      var c := t[i];
      SlugStep(t, i);
      if IsWordChar(c) {
        b := b + [c];
      } else if IsSeparator(c) {
        if |b| == 0 || b[|b| - 1] != '-' {
          b := b + "-";
        }
      }
    }
    assert t[..|t|] == t;
    if |b| > 0 && b[|b| - 1] == '-' {
      b := b[..|b| - 1];
    }
    r := b;
  }

  ghost predicate KeptForm(s: string) {
    forall i :: 0 <= i < |s| ==> IsWordChar(s[i]) || s[i] == '-'
  }

  ghost predicate NoDoubleDash(s: string) {
    forall i :: 0 <= i < |s| - 1 ==> !(s[i] == '-' && s[i + 1] == '-')
  }

  lemma {:induction false} KeptShape(s: string)
    ensures KeptForm(Kept(s))
    ensures KeptForm(s) ==> Kept(s) == s
  {
    if s != "" {
      KeptShape(s[..|s| - 1]);
      assert s == s[..|s| - 1] + [s[|s| - 1]];
    }
  }

  lemma {:induction false} CollapseShape(s: string)
    requires KeptForm(s)
    ensures KeptForm(Collapse(s)) && NoDoubleDash(Collapse(s))
    ensures NoDoubleDash(s) ==> Collapse(s) == s
  {
    if s != "" {
      var init := s[..|s| - 1];
      CollapseShape(init);
      assert s == init + [s[|s| - 1]];
      if NoDoubleDash(s) {
        assert NoDoubleDash(init);
        if init != "" {
          assert !(s[|s| - 2] == '-' && s[|s| - 1] == '-');
        }
      }
    }
  }

  /** Every result of slugify is a well-formed slug. */
  lemma SlugIsSlug(s: string)
    ensures IsSlug(Slug(s))
  {
    var k := Kept(ToLower(TrimSpace(s)));
    KeptShape(ToLower(TrimSpace(s)));
    CollapseShape(k);
    hide *;
    DropShape(Collapse(k));
    assert Slug(s) == DropTrailingDash(Collapse(k)) by { SlugIs(s); }
  }

  lemma SlugIs(s: string)
    ensures Slug(s) == DropTrailingDash(Collapse(Kept(ToLower(TrimSpace(s)))))
  {
  }

  lemma DropShape(s: string)
    requires KeptForm(s) && NoDoubleDash(s)
    ensures IsSlug(DropTrailingDash(s))
  {
    if |s| > 1 && s[|s| - 1] == '-' {
      assert s[|s| - 2] != '-';
    }
  }

  /** The fixed points of slugify are exactly the well-formed slugs. */
  lemma SlugFixedPoint(s: string)
    ensures Slug(s) == s <==> IsSlug(s)
  {
    if IsSlug(s) {
      assert TrimSpace(s) == s;
      assert ToLower(s) == s;
      KeptShape(s);
      CollapseShape(s);
    } else {
      SlugIsSlug(s);
    }
  }

  lemma SlugIdempotent(s: string)
    ensures Slug(Slug(s)) == Slug(s)
  {
    SlugIsSlug(s);
    SlugFixedPoint(Slug(s));
  }

  // The letters and digits of a string, in order.
  function Words(s: string): string {
    if s == "" then ""
    else
      var c := s[|s| - 1];
      Words(s[..|s| - 1]) + (if IsWordChar(c) then [c] else "")
  }

  lemma {:induction false} WordsConcat(a: string, b: string)
    ensures Words(a + b) == Words(a) + Words(b)
  {
    if b == "" {
      assert a + b == a;
    } else {
      assert (a + b)[..|a + b| - 1] == a + b[..|b| - 1];
      WordsConcat(a, b[..|b| - 1]);
    }
  }

  lemma {:induction false} KeptWords(s: string)
    ensures Words(Kept(s)) == Words(s)
  {
    if s != "" {
      var init, c := s[..|s| - 1], s[|s| - 1];
      KeptWords(init);
      WordsConcat(Kept(init), if IsWordChar(c) then [c] else if IsSeparator(c) then "-" else "");
    }
  }

  lemma {:induction false} CollapseWords(s: string)
    ensures Words(Collapse(s)) == Words(s)
  {
    if s != "" {
      CollapseWords(s[..|s| - 1]);
      WordsConcat(Collapse(s[..|s| - 1]), [s[|s| - 1]]);
    }
  }

  lemma {:induction false} TrimLeftWords(s: string)
    ensures Words(ToLower(TrimLeft(s))) == Words(ToLower(s))
    decreases |s|
  {
    if s != "" && IsSpace(s[0]) {
      TrimLeftWords(s[1..]);
      assert ToLower(s) == [s[0]] + ToLower(s[1..]);
      WordsConcat([s[0]], ToLower(s[1..]));
    }
  }

  lemma {:induction false} TrimRightWords(s: string)
    ensures Words(ToLower(TrimRight(s))) == Words(ToLower(s))
    decreases |s|
  {
    if s != "" && IsSpace(s[|s| - 1]) {
      TrimRightWords(s[..|s| - 1]);
      assert ToLower(s)[..|s| - 1] == ToLower(s[..|s| - 1]);
    }
  }

  // The letters and digits of a name in order, each letter in its small form.
  function SmallWords(s: string): string {
    if s == "" then ""
    else
      var c := s[|s| - 1];
      SmallWords(s[..|s| - 1])
      + (if 'a' <= c <= 'z' || '0' <= c <= '9' then [c]
         else if 'A' <= c <= 'Z' then [(c as int + 32) as char]
         else "")
  }

  function WithoutDashes(s: string): string {
    if s == "" then ""
    else WithoutDashes(s[..|s| - 1]) + (if s[|s| - 1] == '-' then "" else [s[|s| - 1]])
  }

  lemma {:induction false} LowerWords(s: string)
    ensures Words(ToLower(s)) == SmallWords(s)
  {
    if s != "" {
      var init, c := s[..|s| - 1], s[|s| - 1];
      LowerWords(init);
      assert ToLower(s)[..|s| - 1] == ToLower(init);
    }
  }

  lemma {:induction false} SlugWords(s: string)
    requires KeptForm(s)
    ensures Words(s) == WithoutDashes(s)
  {
    if s != "" {
      SlugWords(s[..|s| - 1]);
    }
  }

  /** A slug without its dashes is the letters and digits of the name, in order, with small
      letters for capitals: only other bytes are changed or dropped. */
  lemma SlugKeepsWords(s: string)
    ensures WithoutDashes(Slug(s)) == SmallWords(s)
  {
    var t := ToLower(TrimSpace(s));
    TrimLeftWords(s);
    TrimRightWords(TrimLeft(s));
    KeptWords(t);
    CollapseWords(Kept(t));
    LowerWords(s);
    SlugIsSlug(s);
    SlugWords(Slug(s));
  }

  // ---- Where the dashes go ----

  predicate IsAlnum(c: char) {
    'a' <= c <= 'z' || 'A' <= c <= 'Z' || '0' <= c <= '9'
  }

  lemma {:induction false} KeptConcat(a: string, b: string)
    ensures Kept(a + b) == Kept(a) + Kept(b)
  {
    if b == "" {
      assert a + b == a;
    } else {
      assert (a + b)[..|a + b| - 1] == a + b[..|b| - 1];
      KeptConcat(a, b[..|b| - 1]);
    }
  }

  // What begins with no dash collapses on its own.
  lemma {:induction false} CollapseConcat(u: string, y: string)
    requires y != "" && y[0] != '-'
    ensures Collapse(u + y) == Collapse(u) + Collapse(y)
    ensures Collapse(y) != "" && Collapse(y)[0] == y[0]
  {
    var n := |y| - 1;
    assert (u + y)[..|u + y| - 1] == u + y[..n];
    if n == 0 {
      assert y[..0] == "" && u + "" == u;
    } else {
      CollapseConcat(u, y[..n]);
    }
  }

  lemma {:induction false} CollapseEnd(u: string)
    requires u != "" && u[|u| - 1] != '-'
    ensures Collapse(u) != "" && Collapse(u)[|Collapse(u)| - 1] == u[|u| - 1]
  {
  }

  lemma {:induction false} CollapseDashes(u: string, d: string)
    requires u != "" && u[|u| - 1] != '-' && forall i :: 0 <= i < |d| ==> d[i] == '-'
    ensures Collapse(u + d) == Collapse(u) + if d == "" then "" else "-"
  {
    CollapseEnd(u);
    if d == "" {
      assert u + d == u;
    } else {
      var n := |d| - 1;
      assert (u + d)[..|u + d| - 1] == u + d[..n];
      CollapseDashes(u, d[..n]);
    }
  }

  lemma LowerKeepsOthers(sep: string)
    requires forall c :: c in sep ==> !IsAlnum(c)
    ensures ToLower(sep) == sep
  {
    assert forall i :: 0 <= i < |sep| ==> sep[i] in sep;
  }

  // Of bytes that are neither letters nor digits only the separators are kept, as dashes.
  lemma {:induction false} KeptSeparators(sep: string)
    requires forall c :: c in sep ==> !IsAlnum(c)
    ensures forall i :: 0 <= i < |Kept(sep)| ==> Kept(sep)[i] == '-'
    ensures Kept(sep) == "" <==> ' ' !in sep && '-' !in sep && '_' !in sep
  {
    if sep != "" {
      var init, c := sep[..|sep| - 1], sep[|sep| - 1];
      assert c in sep && forall x :: x in sep <==> x in init || x == c by { assert sep == init + [c]; }
      KeptSeparators(init);
      assert Kept(sep) == Kept(init) + (if c == ' ' || c == '-' || c == '_' then "-" else "");
    }
  }

  lemma {:induction false} TrimLeftKeeps(a: string, x: string)
    requires a != "" && IsAlnum(a[|a| - 1])
    ensures TrimLeft(a + x) == TrimLeft(a) + x
    ensures TrimLeft(a) != "" && TrimLeft(a)[|TrimLeft(a)| - 1] == a[|a| - 1]
  {
    if IsSpace(a[0]) {
      assert (a + x)[1..] == a[1..] + x;
      TrimLeftKeeps(a[1..], x);
    }
  }

  lemma {:induction false} TrimRightKeeps(x: string, b: string)
    requires b != "" && IsAlnum(b[0])
    ensures TrimRight(x + b) == x + TrimRight(b)
    ensures TrimRight(b) != "" && TrimRight(b)[0] == b[0]
  {
    var n := |b| - 1;
    if IsSpace(b[n]) {
      assert (x + b)[..|x + b| - 1] == x + b[..n];
      TrimRightKeeps(x, b[..n]);
    }
  }

  lemma TrimAround(a: string, sep: string, b: string)
    requires a != "" && IsAlnum(a[|a| - 1]) && b != "" && IsAlnum(b[0])
    ensures TrimSpace(a) == TrimLeft(a) && TrimSpace(b) == TrimRight(b)
    ensures TrimSpace(a + sep + b) == TrimLeft(a) + sep + TrimRight(b)
  {
    TrimLeftKeeps(a, "");
    TrimLeftKeeps(a, sep + b);
    assert a + sep + b == a + (sep + b);
    TrimRightKeeps(TrimLeft(a) + sep, b);
    assert TrimLeft(a) + (sep + b) == (TrimLeft(a) + sep) + b;
  }

  lemma {:induction false} KeptEnds(s: string)
    requires s != "" && IsAlnum(s[|s| - 1])
    ensures var k := Kept(ToLower(s)); k != "" && k[|k| - 1] != '-'
  {
    assert IsWordChar(ToLower(s)[|s| - 1]);
  }

  lemma {:induction false} KeptBegins(s: string)
    requires s != "" && IsAlnum(s[0])
    ensures var k := Kept(ToLower(s)); k != "" && k[0] != '-'
  {
    assert IsWordChar(ToLower(s)[0]);
    if |s| > 1 {
      KeptBegins(s[..|s| - 1]);
      assert ToLower(s)[..|s| - 1] == ToLower(s[..|s| - 1]);
    } else {
      assert ToLower(s)[..0] == "";
    }
  }

  /** Between a letter or digit and another, bytes that are neither become one dash if there is
      a space, dash or underscore among them, and nothing otherwise. */
  lemma SlugJoins(a: string, sep: string, b: string)
    requires a != "" && IsAlnum(a[|a| - 1]) && b != "" && IsAlnum(b[0])
    requires forall c :: c in sep ==> !IsAlnum(c)
    ensures Slug(a + sep + b)
         == Slug(a) + (if ' ' in sep || '-' in sep || '_' in sep then "-" else "") + Slug(b)
  {
    TrimAround(a, sep, b);
    TrimLeftKeeps(a, "");
    TrimRightKeeps("", b);
    var x, y := ToLower(TrimLeft(a)), ToLower(TrimRight(b));
    assert ToLower(TrimLeft(a) + sep + TrimRight(b)) == x + ToLower(sep) + y;
    LowerKeepsOthers(sep);
    KeptSeparators(sep);
    KeptEnds(TrimLeft(a));
    KeptBegins(TrimRight(b));
    hide IsAlnum, TrimSpace, TrimLeft, TrimRight, Kept, ToLower, Collapse;
    JoinKept(x, sep, y);
  }

  lemma JoinKept(x: string, sep: string, y: string)
    requires Kept(x) != "" && Kept(x)[|Kept(x)| - 1] != '-'
    requires Kept(y) != "" && Kept(y)[0] != '-'
    requires forall i :: 0 <= i < |Kept(sep)| ==> Kept(sep)[i] == '-'
    ensures DropTrailingDash(Collapse(Kept(x + sep + y)))
         == DropTrailingDash(Collapse(Kept(x))) + (if Kept(sep) == "" then "" else "-")
            + DropTrailingDash(Collapse(Kept(y)))
  {
    KeptConcat(x + sep, y);
    KeptConcat(x, sep);
    CollapseConcat(Kept(x) + Kept(sep), Kept(y));
    CollapseDashes(Kept(x), Kept(sep));
    CollapseEnd(Kept(x));
    hide *;
    var head, tail := Collapse(Kept(x)) + (if Kept(sep) == "" then "" else "-"), Collapse(Kept(y));
    DropAfter(head, tail);
    DropNothing(Collapse(Kept(x)));
  }

  lemma DropAfter(head: string, tail: string)
    requires tail != ""
    ensures DropTrailingDash(head + tail) == head + DropTrailingDash(tail)
  {
  }

  lemma DropNothing(s: string)
    requires s != "" && s[|s| - 1] != '-'
    ensures DropTrailingDash(s) == s
  {
  }
}
