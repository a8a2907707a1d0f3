/** `parse_variables`: every `{name}` placeholder of a step pattern becomes
    a numbered snippet tab-stop `${k:\{name\}}`. The placeholders are the
    matches of the regular expression `\{[\w+]+\}`, found once on the
    original text; the k-th match (counting repeats) is then replaced
    everywhere in the text with `str.replace`. */
module Placeholders {
  import opened PyText

  /** The regex class `\w`, restricted to ASCII. */
  predicate IsWordChar(c: char) {
    'a' <= c <= 'z' || 'A' <= c <= 'Z' || '0' <= c <= '9' || c == '_'
  }

  /** The regex class `[\w+]`. */
  predicate InClass(c: char) {
    IsWordChar(c) || c == '+'
  }

  /** `{`, one or more `[\w+]` characters, `}`. */
  predicate IsPlaceholder(v: String) {
    |v| >= 3 && v[0] == '{' && v[|v| - 1] == '}'
    && forall i :: 1 <= i < |v| - 1 ==> InClass(v[i])
  }

  /** Length of the longest prefix of `[\w+]` characters. */
  function ClassRun(s: String): (n: nat)
    ensures n <= |s|
    ensures forall i :: 0 <= i < n ==> InClass(s[i])
    ensures n < |s| ==> !InClass(s[n])
  {
    if |s| == 0 || !InClass(s[0]) then 0 else 1 + ClassRun(s[1..])
  }

  /** Length of the match of `\{[\w+]+\}` at the start of `s`, 0 if there
      is none. The class excludes `}`, so the greedy run either ends right
      before a `}` or the match fails; backtracking cannot help. */
  function MatchAt(s: String): (n: nat)
    ensures n <= |s|
    ensures n > 0 ==> IsPlaceholder(s[..n])
  {
    if |s| > 0 && s[0] == '{' then
      var run := ClassRun(s[1..]);
      if run > 0 && run + 1 < |s| && s[run + 1] == '}' then run + 2 else 0
    else 0
  }

  /** `re.findall(r'(\{[\w+]+\})', s)`: the non-overlapping matches, left
      to right. */
  function FindAll(s: String): (r: seq<String>)
    ensures forall i :: 0 <= i < |r| ==> IsPlaceholder(r[i])
    decreases |s|
  {
    if |s| == 0 then []
    else
      var n := MatchAt(s);
      if n > 0 then [s[..n]] + FindAll(s[n..]) else FindAll(s[1..])
  }

  /** `str(n)` */
  function NatToString(n: nat): (r: String)
    ensures |r| > 0 && forall i :: 0 <= i < |r| ==> '0' <= r[i] <= '9'
  {
    var d := ('0' as int + n % 10) as char;
    if n < 10 then [d] else NatToString(n / 10) + [d]
  }

  /** `var.replace('{', '\\{').replace('}', '\\}')` */
  function Escape(v: String): String {
    ReplaceAll(ReplaceAll(v, "{", "\\{"), "}", "\\}")
  }

  /** `'${{{}:{}}}'.format(k, Escape(v))` */
  function TabStop(k: nat, v: String): String {
    "${" + NatToString(k) + ":" + Escape(v) + "}"
  }

  /** The loop of `parse_variables` from the k-th match on: each remaining
      match, in order, replaced everywhere by its numbered tab-stop. */
  function Rewrite(text: String, matches: seq<String>, k: nat): String
    requires forall i :: 0 <= i < |matches| ==> IsPlaceholder(matches[i])
    decreases |matches|
  {
    if |matches| == 0 then text
    else
      assert IsPlaceholder(matches[0]);
      Rewrite(ReplaceAll(text, matches[0], TabStop(k, matches[0])), matches[1..], k + 1)
  }

  /** What `parse_variables(text)` returns. */
  function Snippet(text: String): String {
    Rewrite(text, FindAll(text), 1)
  }

  /** `parse_variables`: the matches are found once on the original text,
      then the text is rebound match by match. */
  method ParseVariables(text: String) returns (r: String)
    ensures r == Snippet(text)
    ensures FindAll(r) == []
    ensures FindAll(text) == [] ==> r == text
  {
    var matches := FindAll(text);
    r := text;
    var i := 0;
    while i < |matches|
      invariant 0 <= i <= |matches|
      invariant Rewrite(r, matches[i..], i + 1) == Snippet(text)
    {
      r := ReplaceAll(r, matches[i], TabStop(i + 1, matches[i]));
      i := i + 1;
    }
    SnippetHasNoPlaceholder(text);
  }

  // ---------------------------------------------------------------------
  // Properties

  /** The elements of `xs` that are not in `vs`, in order. */
  function Drop(xs: seq<String>, vs: set<String>): (r: seq<String>)
    ensures |r| <= |xs|
  {
    if |xs| == 0 then []
    else (if xs[0] in vs then [] else [xs[0]]) + Drop(xs[1..], vs)
  }

  lemma {:induction false} DropDrop(xs: seq<String>, a: set<String>, b: set<String>)
    ensures Drop(Drop(xs, a), b) == Drop(xs, a + b)
    decreases |xs|
  {
    if |xs| > 0 {
      DropDrop(xs[1..], a, b);
      var head := if xs[0] in a then [] else [xs[0]];
      var d := Drop(xs[1..], a);
      assert Drop(xs, a) == head + d;
      if xs[0] !in a {
        assert (head + d)[1..] == d;
      } else {
        assert head + d == d;
      }
    }
  }

  lemma {:induction false} DropNothing(xs: seq<String>)
    ensures Drop(xs, {}) == xs
    decreases |xs|
  {
    if |xs| > 0 {
      DropNothing(xs[1..]);
    }
  }

  lemma {:induction false} DropEverything(xs: seq<String>, vs: set<String>)
    requires forall i :: 0 <= i < |xs| ==> xs[i] in vs
    ensures Drop(xs, vs) == []
    decreases |xs|
  {
    if |xs| > 0 {
      DropEverything(xs[1..], vs);
    }
  }

  /** The tab-stop of the k-th placeholder `{name}` is `${k:\{name\}}`:
      the number, then the placeholder with both braces escaped. */
  lemma TabStopForm(k: nat, v: String)
    requires IsPlaceholder(v)
    ensures TabStop(k, v) == "${" + NatToString(k) + ":" + "\\{" + v[1..|v| - 1] + "\\}" + "}"
  {
    EscapePlaceholder(v);
  }

  /** A placeholder escapes to `\{name\}`. */
  lemma EscapePlaceholder(v: String)
    requires IsPlaceholder(v)
    ensures Escape(v) == "\\{" + v[1..|v| - 1] + "\\}"
  {
    var name := v[1..|v| - 1];
    assert v == "{" + (name + "}");
    ReplaceAllSkip(name + "}", "", "{", "\\{");
    assert name + "}" + "" == name + "}";
    assert ReplaceAll(v, "{", "\\{") == "\\{" + name + "}";
    ReplaceAllSkip("\\{" + name, "}", "}", "\\}");
    assert ReplaceAll("}", "}", "\\}") == "\\}" + ReplaceAll("", "}", "\\}");
    assert "\\{" + name + "}" == ("\\{" + name) + "}";
  }

  /** Text without `{` contributes no match. */
  lemma {:induction false} FindAllSkip(a: String, t: String)
    requires '{' !in a
    ensures FindAll(a + t) == FindAll(t)
    decreases |a|
  {
    if |a| > 0 {
      assert (a + t)[0] == a[0];
      assert (a + t)[1..] == a[1..] + t;
      FindAllSkip(a[1..], t);
    } else {
      assert a + t == t;
    }
  }

  lemma {:induction false} ClassRunConcat(a: String, t: String)
    requires forall i :: 0 <= i < |a| ==> InClass(a[i])
    requires |t| > 0 ==> !InClass(t[0])
    ensures ClassRun(a + t) == |a|
    decreases |a|
  {
    if |a| > 0 {
      assert (a + t)[1..] == a[1..] + t;
      ClassRunConcat(a[1..], t);
    } else {
      assert a + t == t;
    }
  }

  /** A `{` whose class run ends at a character other than `}` starts no
      match. */
  lemma FindAllBlocked(a: String, t: String)
    requires forall i :: 0 <= i < |a| ==> InClass(a[i])
    requires |t| > 0 && !InClass(t[0]) && t[0] != '}'
    ensures FindAll("{" + a + t) == FindAll(a + t)
  {
    var s := "{" + a + t;
    assert s[1..] == a + t;
    ClassRunConcat(a, t);
    assert s[|a| + 1] == t[0];
    assert MatchAt(s) == 0;
    assert FindAll(s) == FindAll(s[1..]);
  }

  /** A placeholder at the start of the text is matched whole. */
  lemma MatchPlaceholder(w: String, t: String)
    requires IsPlaceholder(w)
    ensures MatchAt(w + t) == |w|
    ensures FindAll(w + t) == [w] + FindAll(t)
  {
    var name := w[1..|w| - 1];
    var s := w + t;
    assert s[1..] == name + ("}" + t);
    ClassRunConcat(name, "}" + t);
    assert s[|name| + 1] == '}';
    assert s[..|w|] == w && s[|w|..] == t;
  }

  /** `findall` misses no placeholder: a text holding one anywhere has a
      match. */
  lemma FindAllComplete(s: String, i: nat, j: nat)
    requires i <= j <= |s| && IsPlaceholder(s[i..j])
    ensures FindAll(s) != []
  {
    assert s == s[..i] + s[i..j] + s[j..];
    FindAllHas(s[..i], s[i..j], s[j..]);
  }

  /** A placeholder with any text around it gives a match. */
  lemma {:induction false} FindAllHas(pre: String, w: String, post: String)
    requires IsPlaceholder(w)
    ensures FindAll(pre + w + post) != []
    decreases |pre|
  {
    var s := pre + w + post;
    if |pre| == 0 {
      assert s == w + post;
      MatchPlaceholder(w, post);
    } else if MatchAt(s) == 0 {
      assert s[1..] == pre[1..] + w + post;
      FindAllHas(pre[1..], w, post);
    }
  }

  /** Every match `findall` reports is a placeholder found in the text. */
  lemma {:induction false} FindAllWitness(s: String) returns (pre: String, w: String, post: String)
    requires FindAll(s) != []
    ensures s == pre + w + post && IsPlaceholder(w)
    decreases |s|
  {
    var n := MatchAt(s);
    if n > 0 {
      pre, w, post := [], s[..n], s[n..];
      assert s == s[..n] + s[n..];
    } else {
      var t := s[1..];
      assert FindAll(t) == FindAll(s);
      pre, w, post := FindAllWitness(t);
      assert s == [s[0]] + t;
      ConsRegroup(s[0], pre, w, post);
      pre := [s[0]] + pre;
    }
  }

  /** A match inside part of a text is a match of the text. */
  lemma MatchInside(x: String, t: String, y: String)
    requires FindAll(t) != []
    ensures FindAll(x + t + y) != []
  {
    var pre, w, post := FindAllWitness(t);
    Regroup(x, pre, w, post, y);
    FindAllHas(x + pre, w, post + y);
  }

  /** A tab-stop holds no match and starts none that reaches past it. */
  lemma TabStopInert(k: nat, v: String, t: String)
    requires IsPlaceholder(v)
    ensures FindAll(TabStop(k, v) + t) == FindAll(t)
  {
    var x := "\\" + ("{" + v[1..|v| - 1] + ("\\}}" + t));
    TabStopShape(k, v, t);
    EscapedNameInert(v[1..|v| - 1], t);
    NumberInert(NatToString(k), x);
  }

  /** A tab-stop followed by more text, written from the right. */
  lemma TabStopShape(k: nat, v: String, t: String)
    requires IsPlaceholder(v)
    ensures TabStop(k, v) + t
            == "$" + ("{" + NatToString(k) + (":" + ("\\" + ("{" + v[1..|v| - 1] + ("\\}}" + t)))))
  {
    EscapePlaceholder(v);
    TabStopLayout(NatToString(k), v[1..|v| - 1], t);
  }

  /** The characters of a tab-stop followed by more text, regrouped from
      the right. */
  lemma TabStopLayout(d: String, name: String, t: String)
    ensures "${" + d + ":" + ("\\{" + name + "\\}") + "}" + t
            == "$" + ("{" + d + (":" + ("\\" + ("{" + name + ("\\}}" + t)))))
  {
    var e := "\\{" + name + "\\}";
    var x := "{" + name + ("\\}}" + t);
    assert e + "}" + t == "\\" + x;
    assert "${" + d + ":" + e + "}" + t == ("${" + d + ":") + (e + "}" + t);
    assert "${" + d + ":" == "$" + ("{" + d + ":");
  }

  /** The escaped name `\{name\}}` of a tab-stop starts no match. */
  lemma EscapedNameInert(name: String, t: String)
    requires forall i :: 0 <= i < |name| ==> InClass(name[i])
    ensures FindAll("\\" + ("{" + name + ("\\}}" + t))) == FindAll(t)
  {
    var t1 := "\\}}" + t;
    var t2 := "{" + name + t1;
    assert FindAll("\\" + t2) == FindAll(t2) by {
      FindAllSkip("\\", t2);
    }
    assert FindAll(t2) == FindAll(name + t1) by {
      FindAllBlocked(name, t1);
    }
    assert FindAll(name + t1) == FindAll(t1) by {
      FindAllSkip(name, t1);
    }
    FindAllSkip("\\}}", t);
  }

  /** The number part `${k:` of a tab-stop starts no match. */
  lemma NumberInert(d: String, x: String)
    requires forall i :: 0 <= i < |d| ==> '0' <= d[i] <= '9'
    ensures FindAll("$" + ("{" + d + (":" + x))) == FindAll(x)
  {
    var t4 := "{" + d + (":" + x);
    assert FindAll("$" + t4) == FindAll(t4) by {
      FindAllSkip("$", t4);
    }
    assert FindAll(t4) == FindAll(d + (":" + x)) by {
      FindAllBlocked(d, ":" + x);
    }
    assert FindAll(d + (":" + x)) == FindAll(x) by {
      assert d + (":" + x) == (d + ":") + x;
      FindAllSkip(d + ":", x);
    }
  }

  /** One step of `replace` on non-empty text. */
  lemma ReplaceAllHead(x: String, v: String, r: String)
    requires |x| > 0 && |v| > 0 && |r| > 0
    ensures |ReplaceAll(x, v, r)| > 0
    ensures ReplaceAll(x, v, r)[0] == if v <= x then r[0] else x[0]
  {
  }

  lemma DropCons(w: String, xs: seq<String>, vs: set<String>)
    ensures Drop([w] + xs, vs) == (if w in vs then [] else [w]) + Drop(xs, vs)
  {
    assert ([w] + xs)[1..] == xs;
  }

  /** A replacement text that starts with `$` and, wherever it is put,
      neither holds a match nor starts one that reaches past it. */
  ghost predicate Inert(r: String) {
    |r| > 0 && r[0] == '$' && forall t :: FindAll(r + t) == FindAll(t)
  }

  lemma TabStopIsInert(k: nat, v: String)
    requires IsPlaceholder(v)
    ensures Inert(TabStop(k, v))
  {
    forall t
      ensures FindAll(TabStop(k, v) + t) == FindAll(t)
    {
      TabStopInert(k, v, t);
    }
  }

  /** `ReplaceDrops` where the text starts with the placeholder being
      replaced. */
  lemma DropsAtPlaceholder(s: String, v: String, r: String)
    requires IsPlaceholder(v) && Inert(r) && v <= s
    requires FindAll(ReplaceAll(s[|v|..], v, r)) == Drop(FindAll(s[|v|..]), {v})
    ensures FindAll(ReplaceAll(s, v, r)) == Drop(FindAll(s), {v})
  {
    var rest := s[|v|..];
    var rr := ReplaceAll(rest, v, r);
    assert ReplaceAll(s, v, r) == r + rr;
    assert FindAll(r + rr) == FindAll(rr);
    assert FindAll(s) == [v] + FindAll(rest) by {
      assert s == v + rest;
      MatchPlaceholder(v, rest);
    }
    DropCons(v, FindAll(rest), {v});
  }

  /** Replacing in a text that starts with another placeholder leaves
      that placeholder in front. */
  lemma ReplaceAfterOther(s: String, v: String, r: String)
    requires IsPlaceholder(v) && !(v <= s) && MatchAt(s) > 0
    ensures ReplaceAll(s, v, r) == s[..MatchAt(s)] + ReplaceAll(s[MatchAt(s)..], v, r)
  {
    var m := MatchAt(s);
    var w := s[..m];
    var rest := s[m..];
    assert '{' !in w[1..];
    assert s[1..] == w[1..] + rest;
    ReplaceAllSkip(w[1..], rest, v, r);
    assert [s[0]] + w[1..] == w;
  }

  /** `ReplaceDrops` where the text starts with another placeholder. */
  lemma DropsAtOther(s: String, v: String, r: String)
    requires IsPlaceholder(v) && !(v <= s) && MatchAt(s) > 0
    requires FindAll(ReplaceAll(s[MatchAt(s)..], v, r)) == Drop(FindAll(s[MatchAt(s)..]), {v})
    ensures FindAll(ReplaceAll(s, v, r)) == Drop(FindAll(s), {v})
  {
    var m := MatchAt(s);
    var w := s[..m];
    var rest := s[m..];
    var rr := ReplaceAll(rest, v, r);
    ReplaceAfterOther(s, v, r);
    MatchPlaceholder(w, rr);
    assert w != v;
    DropCons(w, FindAll(rest), {v});
  }

  /** Replacing never touches a leading run of class characters, which
      holds no `{`. */
  lemma ReplaceKeepsRun(u: String, v: String, r: String)
    requires IsPlaceholder(v)
    ensures ReplaceAll(u, v, r) == u[..ClassRun(u)] + ReplaceAll(u[ClassRun(u)..], v, r)
  {
    var n := ClassRun(u);
    assert '{' !in u[..n];
    assert u == u[..n] + u[n..];
    ReplaceAllSkip(u[..n], u[n..], v, r);
  }

  /** The class run of the replaced text stops where the original one did,
      before a character that is `$` or the original one. */
  lemma RunAfterReplace(u: String, v: String, r: String)
    requires IsPlaceholder(v) && |r| > 0 && r[0] == '$'
    ensures ClassRun(ReplaceAll(u, v, r)) == ClassRun(u)
    ensures ClassRun(u) < |u| ==> |ReplaceAll(u, v, r)| > ClassRun(u)
    ensures ClassRun(u) < |u| ==>
      ReplaceAll(u, v, r)[ClassRun(u)] == '$' || ReplaceAll(u, v, r)[ClassRun(u)] == u[ClassRun(u)]
    ensures ClassRun(u) == |u| ==> |ReplaceAll(u, v, r)| == |u|
  {
    var n := ClassRun(u);
    var z := ReplaceAll(u[n..], v, r);
    ReplaceKeepsRun(u, v, r);
    if n < |u| {
      ReplaceAllHead(u[n..], v, r);
    } else {
      assert z == [];
    }
    ClassRunConcat(u[..n], z);
  }

  /** When no match starts at the first character, none starts there after
      replacing by a text that begins with `$` either. */
  lemma NoMatchAfterReplace(s: String, v: String, r: String)
    requires IsPlaceholder(v) && |r| > 0 && r[0] == '$' && |s| > 0 && MatchAt(s) == 0
    ensures MatchAt([s[0]] + ReplaceAll(s[1..], v, r)) == 0
  {
    var x := [s[0]] + ReplaceAll(s[1..], v, r);
    assert x[1..] == ReplaceAll(s[1..], v, r);
    RunAfterReplace(s[1..], v, r);
  }

  /** `ReplaceDrops` where no match starts at the first character. */
  lemma DropsAtNoMatch(s: String, v: String, r: String)
    requires IsPlaceholder(v) && |r| > 0 && r[0] == '$' && |s| > 0 && !(v <= s) && MatchAt(s) == 0
    requires FindAll(ReplaceAll(s[1..], v, r)) == Drop(FindAll(s[1..]), {v})
    ensures FindAll(ReplaceAll(s, v, r)) == Drop(FindAll(s), {v})
  {
    var x := [s[0]] + ReplaceAll(s[1..], v, r);
    assert ReplaceAll(s, v, r) == x;
    assert x[1..] == ReplaceAll(s[1..], v, r);
    NoMatchAfterReplace(s, v, r);
  }

  /** Replacing a placeholder everywhere by an inert text removes exactly
      that placeholder from the matches and leaves the others in order. */
  lemma {:induction false} ReplaceDrops(s: String, v: String, r: String)
    requires IsPlaceholder(v) && Inert(r)
    ensures FindAll(ReplaceAll(s, v, r)) == Drop(FindAll(s), {v})
    decreases |s|
  {
    if |s| == 0 {
    } else if v <= s {
      ReplaceDrops(s[|v|..], v, r);
      DropsAtPlaceholder(s, v, r);
    } else if MatchAt(s) > 0 {
      ReplaceDrops(s[MatchAt(s)..], v, r);
      DropsAtOther(s, v, r);
    } else {
      ReplaceDrops(s[1..], v, r);
      DropsAtNoMatch(s, v, r);
    }
  }

  /** Replacing one placeholder everywhere by its tab-stop removes exactly
      that placeholder from the matches and leaves the others in order. */
  lemma ReplaceDropsPlaceholder(s: String, v: String, k: nat)
    requires IsPlaceholder(v)
    ensures FindAll(ReplaceAll(s, v, TabStop(k, v))) == Drop(FindAll(s), {v})
  {
    TabStopIsInert(k, v);
    ReplaceDrops(s, v, TabStop(k, v));
  }

  /** After the loop has handled the given matches, none of them is left in
      the text, and every other match is still there, in order. */
  lemma {:induction false} RewriteDrops(text: String, matches: seq<String>, k: nat)
    requires forall i :: 0 <= i < |matches| ==> IsPlaceholder(matches[i])
    ensures FindAll(Rewrite(text, matches, k)) == Drop(FindAll(text), set x | x in matches)
    decreases |matches|
  {
    if |matches| == 0 {
      DropNothing(FindAll(text));
      assert (set x | x in matches) == {};
    } else {
      var v := matches[0];
      var next := ReplaceAll(text, v, TabStop(k, v));
      RewriteDrops(next, matches[1..], k + 1);
      ReplaceDropsPlaceholder(text, v, k);
      DropDrop(FindAll(text), {v}, set x | x in matches[1..]);
      assert matches == [v] + matches[1..];
      assert {v} + (set x | x in matches[1..]) == set x | x in matches;
    }
  }

  /** The snippet `parse_variables` returns holds no bare `{name}`
      placeholder: every match of the original text has become a tab-stop. */
  lemma SnippetHasNoPlaceholder(text: String)
    ensures FindAll(Snippet(text)) == []
  {
    var matches := FindAll(text);
    RewriteDrops(text, matches, 1);
    DropEverything(matches, set x | x in matches);
  }

  /** A brace group with a character outside `[\w+]`, such as a format
      specification, is not a placeholder and is left as it is. */
  lemma FormatSpecLeftAlone()
    ensures FindAll("{n:d}") == []
    ensures Snippet("{n:d}") == "{n:d}"
  {
    FindAllBlocked("n", ":d}");
    FindAllSkip("n:d}", "");
    assert "n:d}" + "" == "n" + ":d}";
  }
}
