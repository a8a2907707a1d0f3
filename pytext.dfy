/** The Python `str` builtins the autocomplete engine relies on, written out
    as functions over `seq<char>`: `split(sep)`, `split()`, `join`, `strip`,
    `lstrip`, `lower`, `capitalize`, the `in` substring test,
    `replace(old, new, 1)` (with an empty replacement) and `replace(old, new)`.
    Case mapping covers ASCII letters only. */
module PyText {

  type String = seq<char>

  /** `c.isspace()`: every character Python's `str.split()` and `str.strip()`
      treat as whitespace. */
  predicate IsSpace(c: char) {
    c == ' ' || c == '\t' || c == '\n' || c == '\r' || c == '\U{0B}' || c == '\U{0C}'
    || ('\U{1C}' <= c <= '\U{1F}') || c == '\U{85}' || c == '\U{A0}' || c == '\U{1680}'
    || ('\U{2000}' <= c <= '\U{200A}') || c == '\U{2028}' || c == '\U{2029}'
    || c == '\U{202F}' || c == '\U{205F}' || c == '\U{3000}'
  }

  predicate IsUpperAscii(c: char) { 'A' <= c <= 'Z' }
  predicate IsLowerAscii(c: char) { 'a' <= c <= 'z' }

  function LowerChar(c: char): (r: char)
    ensures !IsUpperAscii(r)
    ensures IsUpperAscii(c) || r == c
    ensures IsSpace(r) <==> IsSpace(c)
  {
    if IsUpperAscii(c) then (c as int + 32) as char else c
  }

  function UpperChar(c: char): (r: char)
    ensures !IsLowerAscii(r)
    ensures IsLowerAscii(c) || r == c
    ensures IsSpace(r) <==> IsSpace(c)
  {
    if IsLowerAscii(c) then (c as int - 32) as char else c
  }

  /** `s.lower()` */
  function Lower(s: String): (r: String)
    ensures |r| == |s|
    ensures forall i :: 0 <= i < |r| ==> r[i] == LowerChar(s[i])
  {
    seq(|s|, i requires 0 <= i < |s| => LowerChar(s[i]))
  }

  /** `s.capitalize()`: first character upper-cased, the rest lower-cased. */
  function Capitalize(s: String): (r: String)
    ensures |r| == |s|
    ensures |s| > 0 ==> r[0] == UpperChar(s[0]) && r[1..] == Lower(s[1..])
  {
    if |s| == 0 then "" else [UpperChar(s[0])] + Lower(s[1..])
  }

  /** The substring test `pat in s`. */
  predicate Contains(s: String, pat: String)
    decreases |s|
  {
    pat <= s || (|s| > 0 && Contains(s[1..], pat))
  }

  /** `pat` occurs in `s` at index `i`. */
  predicate OccursAt(s: String, pat: String, i: nat) {
    i + |pat| <= |s| && s[i..i + |pat|] == pat
  }

  /** `s.split(sep)` for a one-character separator: the pieces between the
      separators, empty pieces included. */
  function Split(s: String, sep: char): (r: seq<String>)
    ensures |r| >= 1
    decreases |s|
  {
    if |s| == 0 then [""]
    else
      var rest := Split(s[1..], sep);
      if s[0] == sep then [""] + rest else [[s[0]] + rest[0]] + rest[1..]
  }

  /** `sep.join(parts)` */
  function Join(parts: seq<String>, sep: String): String
    decreases |parts|
  {
    if |parts| == 0 then ""
    else if |parts| == 1 then parts[0]
    else parts[0] + sep + Join(parts[1..], sep)
  }

  /** Index of the first `c` in `s`, or `|s|` when there is none. */
  function IndexOf(s: String, c: char): (r: nat)
    ensures r <= |s|
    ensures forall i :: 0 <= i < r ==> s[i] != c
    ensures r < |s| ==> s[r] == c
  {
    if |s| == 0 || s[0] == c then 0 else 1 + IndexOf(s[1..], c)
  }

  /** `xs[1:]` */
  function Tail<T>(xs: seq<T>): seq<T> {
    if |xs| == 0 then [] else xs[1..]
  }

  /** `xs[1:-1]` */
  function Interior<T>(xs: seq<T>): seq<T> {
    if |xs| <= 2 then [] else xs[1..|xs| - 1]
  }

  /** Length of the longest prefix of `s` free of whitespace. */
  function WordLength(s: String): (n: nat)
    ensures n <= |s|
    ensures forall i :: 0 <= i < n ==> !IsSpace(s[i])
    ensures n < |s| ==> IsSpace(s[n])
  {
    if |s| == 0 || IsSpace(s[0]) then 0 else 1 + WordLength(s[1..])
  }

  /** `s.split()`: the maximal runs of non-whitespace characters. */
  function SplitWs(s: String): (r: seq<String>)
    ensures forall i :: 0 <= i < |r| ==> |r[i]| > 0
    decreases |s|
  {
    if |s| == 0 then []
    else if IsSpace(s[0]) then SplitWs(s[1..])
    else
      var n := WordLength(s);
      [s[..n]] + SplitWs(s[n..])
  }

  /** `s.lstrip()` */
  function LStrip(s: String): (r: String)
    ensures |r| <= |s|
  {
    if |s| > 0 && IsSpace(s[0]) then LStrip(s[1..]) else s
  }

  /** `s.rstrip()` */
  function RStrip(s: String): (r: String)
    ensures |r| <= |s|
  {
    if |s| > 0 && IsSpace(s[|s| - 1]) then RStrip(s[..|s| - 1]) else s
  }

  /** `s.strip()` */
  function Strip(s: String): (r: String)
    ensures |r| <= |s|
  {
    RStrip(LStrip(s))
  }

  /** `s.replace(pat, '', 1)`: the first occurrence of `pat` removed. */
  function RemoveFirst(s: String, pat: String): (r: String)
    decreases |s|
  {
    if pat <= s then s[|pat|..]
    else if |s| == 0 then s
    else [s[0]] + RemoveFirst(s[1..], pat)
  }

  /** Index of the first occurrence of `pat` in `s`; past `|s|` when there
      is none. */
  function Find(s: String, pat: String): (r: nat)
    decreases |s|
  {
    if pat <= s then 0
    else if |s| == 0 then 1
    else 1 + Find(s[1..], pat)
  }

  /** `s.replace(old, new)`: every occurrence, scanning left to right
      without overlap. */
  function ReplaceAll(s: String, target: String, repl: String): String
    requires |target| > 0
    decreases |s|
  {
    if |s| == 0 then s
    else if target <= s then repl + ReplaceAll(s[|target|..], target, repl)
    else [s[0]] + ReplaceAll(s[1..], target, repl)
  }

  // ---------------------------------------------------------------------
  // Properties

  /** `lstrip` drops exactly the leading whitespace: what is left is a
      suffix that does not start with whitespace. */
  lemma {:induction false} LStripSpec(s: String)
    ensures LStrip(s) == s[|s| - |LStrip(s)|..]
    ensures |LStrip(s)| > 0 ==> !IsSpace(LStrip(s)[0])
    ensures forall i :: 0 <= i < |s| - |LStrip(s)| ==> IsSpace(s[i])
    decreases |s|
  {
    if |s| > 0 && IsSpace(s[0]) {
      LStripSpec(s[1..]);
    }
  }

  /** `rstrip` drops exactly the trailing whitespace: what is left is a
      prefix that does not end with whitespace. */
  lemma {:induction false} RStripSpec(s: String)
    ensures RStrip(s) == s[..|RStrip(s)|]
    ensures |RStrip(s)| > 0 ==> !IsSpace(RStrip(s)[|RStrip(s)| - 1])
    ensures forall i :: |RStrip(s)| <= i < |s| ==> IsSpace(s[i])
    decreases |s|
  {
    if |s| > 0 && IsSpace(s[|s| - 1]) {
      RStripSpec(s[..|s| - 1]);
    }
  }

  /** `strip` leaves text that neither starts nor ends with whitespace. */
  lemma StripEnds(s: String)
    ensures |Strip(s)| > 0 ==> !IsSpace(Strip(s)[0]) && !IsSpace(Strip(s)[|Strip(s)| - 1])
  {
    LStripSpec(s);
    RStripSpec(LStrip(s));
    var l := LStrip(s);
    if |RStrip(l)| > 0 {
      assert RStrip(l)[0] == l[0];
    }
  }

  /** Text around a three-part middle, regrouped. */
  lemma Regroup(x: String, pre: String, w: String, post: String, y: String)
    ensures x + (pre + w + post) + y == (x + pre) + w + (post + y)
  {
  }

  /** `strip` keeps one contiguous part of the text: the text is what was
      stripped on the left, the result, and what was stripped on the
      right. */
  lemma StripParts(s: String)
    ensures |s| - |LStrip(s)| + |Strip(s)| <= |s|
    ensures s == s[..|s| - |LStrip(s)|] + Strip(s) + s[|s| - |LStrip(s)| + |Strip(s)|..]
  {
    var d := |s| - |LStrip(s)|;
    LStripSpec(s);
    RStripSpec(LStrip(s));
    SplitThree(s, d, |Strip(s)|);
  }

  /** A text is its first `d` characters, the next `m`, and the rest. */
  lemma SplitThree(s: String, d: nat, m: nat)
    requires d + m <= |s|
    ensures s == s[..d] + s[d..][..m] + s[d + m..]
  {
    var t := s[d..];
    assert s == s[..d] + t;
    assert t == t[..m] + t[m..];
    assert t[m..] == s[d + m..];
  }

  /** A character in front of a three-part text, regrouped. */
  lemma ConsRegroup(c: char, pre: String, w: String, post: String)
    ensures [c] + (pre + w + post) == ([c] + pre) + w + post
  {
  }

  /** Joining the pieces of a split with the separator gives back the text. */
  lemma {:induction false} SplitJoin(s: String, sep: char)
    ensures Join(Split(s, sep), [sep]) == s
    decreases |s|
  {
    if |s| > 0 {
      var rest := Split(s[1..], sep);
      SplitJoin(s[1..], sep);
      if s[0] == sep {
        assert Split(s, sep) == [""] + rest;
        assert s == [sep] + s[1..];
      } else if |rest| == 1 {
        assert s == [s[0]] + s[1..];
      } else {
        assert Join(rest, [sep]) == rest[0] + [sep] + Join(rest[1..], [sep]);
        assert s == [s[0]] + s[1..];
      }
    }
  }

  /** No piece of a split contains the separator. */
  lemma {:induction false} SplitPiecesFree(s: String, sep: char)
    ensures forall i :: 0 <= i < |Split(s, sep)| ==> sep !in Split(s, sep)[i]
    decreases |s|
  {
    if |s| > 0 {
      SplitPiecesFree(s[1..], sep);
    }
  }

  /** The first piece of `s.split(sep)` is the text before the first
      separator; the other pieces joined again are the text after it, or
      empty when there is no separator. */
  lemma {:induction false} SplitFirst(s: String, sep: char)
    ensures Split(s, sep)[0] == s[..IndexOf(s, sep)]
    ensures Join(Split(s, sep)[1..], [sep])
            == if IndexOf(s, sep) < |s| then s[IndexOf(s, sep) + 1..] else ""
    decreases |s|
  {
    if |s| > 0 {
      var rest := Split(s[1..], sep);
      if s[0] == sep {
        SplitJoin(s[1..], sep);
        assert Split(s, sep)[1..] == rest;
      } else {
        var t := s[1..];
        SplitFirst(t, sep);
        assert s == [s[0]] + t;
        SplitCons(s[0], t, sep);
        assert IndexOf(s, sep) == 1 + IndexOf(t, sep);
        HeadSlices(s, IndexOf(t, sep));
        assert Split(s, sep)[1..] == rest[1..];
      }
    }
  }

  /** Slices of a text seen from its tail. */
  lemma HeadSlices(s: String, k: nat)
    requires k + 1 <= |s|
    ensures s[..k + 1] == [s[0]] + s[1..][..k]
    ensures k + 1 < |s| ==> s[k + 2..] == s[1..][k + 1..]
  {
  }

  /** Splitting text that has a separator in it splits the two sides
      independently. */
  lemma {:induction false} SplitConcat(a: String, sep: char, b: String)
    ensures Split(a + [sep] + b, sep) == Split(a, sep) + Split(b, sep)
    decreases |a|
  {
    if |a| == 0 {
      assert a + [sep] + b == [sep] + b;
      SplitCons(sep, b, sep);
    } else {
      var t := a[1..];
      var st := Split(t, sep);
      var sb := Split(b, sep);
      assert a + [sep] + b == [a[0]] + (t + [sep] + b);
      assert a == [a[0]] + t;
      SplitConcat(t, sep, b);
      SplitCons(a[0], t + [sep] + b, sep);
      SplitCons(a[0], t, sep);
      ConsPieces(a[0], sep, st, sb);
    }
  }

  /** A character put in front of pieces followed by more pieces goes to
      the front pieces. */
  lemma ConsPieces(c: char, sep: char, st: seq<String>, sb: seq<String>)
    requires |st| >= 1
    ensures (if c == sep then [""] + (st + sb) else [[c] + (st + sb)[0]] + (st + sb)[1..])
            == (if c == sep then [""] + st else [[c] + st[0]] + st[1..]) + sb
  {
    if c != sep {
      assert (st + sb)[1..] == st[1..] + sb;
    }
  }

  /** One step of `Split` on a text given as its first character and the
      rest. */
  lemma SplitCons(c: char, t: String, sep: char)
    ensures Split([c] + t, sep) ==
      if c == sep then [""] + Split(t, sep)
      else [[c] + Split(t, sep)[0]] + Split(t, sep)[1..]
  {
    assert ([c] + t)[1..] == t;
  }

  /** Removing a prefix occurrence drops exactly that prefix. */
  lemma RemoveFirstPrefix(s: String, pat: String)
    requires pat <= s
    ensures RemoveFirst(s, pat) == s[|pat|..]
  {
  }

  /** An occurrence after the first character is an occurrence in the tail. */
  lemma OccursAtTail(s: String, pat: String, j: nat)
    requires j >= 1 && |s| > 0
    ensures OccursAt(s, pat, j) <==> OccursAt(s[1..], pat, j - 1)
  {
    if j + |pat| <= |s| {
      assert s[1..][j - 1..j - 1 + |pat|] == s[j..j + |pat|];
    }
  }

  /** `Find` lands on an occurrence exactly when there is one. */
  lemma {:induction false} FindOccurs(s: String, pat: String)
    ensures Contains(s, pat) <==> OccursAt(s, pat, Find(s, pat))
    decreases |s|
  {
    if pat <= s {
      assert s[..|pat|] == pat;
    } else if |s| > 0 {
      FindOccurs(s[1..], pat);
      OccursAtTail(s, pat, Find(s[1..], pat) + 1);
    }
  }

  /** No occurrence comes before the one `Find` gives. */
  lemma {:induction false} FindFirst(s: String, pat: String)
    ensures forall j: nat :: j < Find(s, pat) ==> !OccursAt(s, pat, j)
    decreases |s|
  {
    if !(pat <= s) && |s| > 0 {
      FindFirst(s[1..], pat);
      forall j: nat | j < Find(s, pat)
        ensures !OccursAt(s, pat, j)
      {
        if j > 0 {
          OccursAtTail(s, pat, j);
        }
      }
    }
  }

  /** `replace(pat, '', 1)` removes the occurrence of `pat` at `Find(s, pat)`,
      which `FindFirst` shows is the first one, and keeps everything else; it
      is the identity when `pat` does not occur. */
  lemma RemoveFirstSpec(s: String, pat: String)
    ensures !Contains(s, pat) ==> RemoveFirst(s, pat) == s
    ensures Contains(s, pat) ==>
      OccursAt(s, pat, Find(s, pat))
      && RemoveFirst(s, pat) == s[..Find(s, pat)] + s[Find(s, pat) + |pat|..]
  {
    FindOccurs(s, pat);
    if Contains(s, pat) {
      FindBound(s, pat);
      RemoveFirstCut(s, pat);
    } else {
      RemoveFirstAbsent(s, pat);
    }
  }

  /** Without an occurrence, nothing is removed. */
  lemma {:induction false} RemoveFirstAbsent(s: String, pat: String)
    requires !Contains(s, pat)
    ensures RemoveFirst(s, pat) == s
    decreases |s|
  {
    if |s| > 0 {
      RemoveFirstAbsent(s[1..], pat);
      assert s == [s[0]] + s[1..];
    }
  }

  /** An occurrence exists exactly when the one `Find` reports fits. */
  lemma {:induction false} FindBound(s: String, pat: String)
    requires Contains(s, pat)
    ensures Find(s, pat) + |pat| <= |s|
    decreases |s|
  {
    if !(pat <= s) {
      FindBound(s[1..], pat);
    }
  }

  /** With an occurrence, exactly the one `Find` reports is cut out. */
  lemma {:induction false} RemoveFirstCut(s: String, pat: String)
    requires Contains(s, pat) && Find(s, pat) + |pat| <= |s|
    ensures RemoveFirst(s, pat) == s[..Find(s, pat)] + s[Find(s, pat) + |pat|..]
    decreases |s|
  {
    if pat <= s {
      assert s[..0] + s[|pat|..] == s[|pat|..];
    } else {
      var t := s[1..];
      assert Contains(t, pat) && Find(s, pat) == Find(t, pat) + 1;
      assert RemoveFirst(s, pat) == [s[0]] + RemoveFirst(t, pat);
      FindBound(t, pat);
      RemoveFirstCut(t, pat);
      CutCons(s, Find(t, pat), |pat|);
    }
  }

  /** Cutting a slice out after the first character, seen from the tail. */
  lemma CutCons(s: String, i: nat, m: nat)
    requires 0 < |s| && i + m < |s|
    ensures s[..i + 1] + s[i + 1 + m..] == [s[0]] + (s[1..][..i] + s[1..][i + m..])
  {
    assert s[..i + 1] == [s[0]] + s[1..][..i];
    assert s[i + 1 + m..] == s[1..][i + m..];
  }

  /** A prefix that does not hold the first character of `target` passes
      through `replace` unchanged. */
  lemma {:induction false} ReplaceAllSkip(a: String, t: String, target: String, repl: String)
    requires |target| > 0
    requires target[0] !in a
    ensures ReplaceAll(a + t, target, repl) == a + ReplaceAll(t, target, repl)
    decreases |a|
  {
    if |a| > 0 {
      assert !(target <= a + t) by {
        assert (a + t)[0] == a[0] && a[0] in a;
      }
      assert (a + t)[1..] == a[1..] + t;
      ReplaceAllSkip(a[1..], t, target, repl);
      calc {
        ReplaceAll(a + t, target, repl);
        [a[0]] + ReplaceAll(a[1..] + t, target, repl);
        [a[0]] + (a[1..] + ReplaceAll(t, target, repl));
        { assert a == [a[0]] + a[1..]; }
        a + ReplaceAll(t, target, repl);
      }
    } else {
      assert a + t == t;
    }
  }

  /** A whitespace character strictly between two non-whitespace characters
      makes `split()` return at least two words. */
  lemma {:induction false} SplitWsTwoWords(s: String, i: nat, j: nat, k: nat)
    requires i < j < k < |s|
    requires !IsSpace(s[i]) && IsSpace(s[j]) && !IsSpace(s[k])
    ensures |SplitWs(s)| >= 2
    decreases |s|
  {
    if IsSpace(s[0]) {
      SplitWsTwoWords(s[1..], i - 1, j - 1, k - 1);
    } else {
      var n := WordLength(s);
      assert n <= j;
      SplitWsNonEmpty(s[n..], k - n);
    }
  }

  /** A non-whitespace character gives `split()` at least one word. */
  lemma {:induction false} SplitWsNonEmpty(s: String, k: nat)
    requires k < |s| && !IsSpace(s[k])
    ensures |SplitWs(s)| >= 1
    decreases |s|
  {
    if IsSpace(s[0]) {
      SplitWsNonEmpty(s[1..], k - 1);
    }
  }
}
