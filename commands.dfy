/** The quick-panel step list of `BehaveStepsCommand`, the item it inserts
    when one is chosen, and the test that decides whether a saved file is
    a step-implementation module. */
module Commands {
  import opened PyText
  import opened Wrappers
  import opened StepCatalog
  import Behave

  /** `'{} {}'.format(t.capitalize(), d)`: how an entry is listed. */
  function FormatStep(st: Step): String {
    Capitalize(st.0) + " " + st.1
  }

  /** What choosing item `idx` of the panel inserts: nothing when the panel
      was dismissed (a negative index). */
  function SelectItem(stepList: seq<String>, idx: int): (r: Option<String>)
    requires idx < |stepList|
    ensures r.None? <==> idx < 0
    ensures idx >= 0 ==> r == Some(stepList[idx])
  {
    if idx >= 0 then Some(stepList[idx]) else None
  }

  /** The command's state: the list last shown in the quick panel. */
  class StepsCommand {
    var stepList: seq<String>

    constructor()
      ensures stepList == []
    {
      stepList := [];
    }

    /** `run`: lists every catalogued entry once, in the set's iteration
        order (`order`); the result says whether the "No steps found"
        status is shown. */
    method Run(store: Behave.Store) returns (noSteps: bool, ghost order: seq<Step>)
      requires store.Valid()
      modifies this
      ensures |stepList| == |order| == |store.steps|
      ensures forall i :: 0 <= i < |stepList| ==> order[i] in store.steps && stepList[i] == FormatStep(order[i])
      ensures forall st :: st in store.steps ==> st in order
      ensures forall i, j :: 0 <= i < j < |stepList| ==> stepList[i] != stepList[j]
      ensures noSteps <==> store.steps == {}
    {
      var remaining := store.steps;
      var items: seq<String> := [];
      order := [];
      while remaining != {}
        invariant remaining <= store.steps
        invariant |items| == |order|
        invariant forall i :: 0 <= i < |order| ==> order[i] in store.steps && order[i] !in remaining
        invariant forall st :: st in store.steps ==> st in remaining || st in order
        invariant forall i :: 0 <= i < |items| ==> items[i] == FormatStep(order[i])
        invariant forall i, j :: 0 <= i < j < |items| ==> items[i] != items[j]
        invariant |order| + |remaining| == |store.steps|
        decreases |remaining|
      {
        var st :| st in remaining;
        forall i | 0 <= i < |items|
          ensures items[i] != FormatStep(st)
        {
          FormatStepInjective(order[i], st);
        }
        items := items + [FormatStep(st)];
        order := order + [st];
        remaining := remaining - {st};
      }
      stepList := items;
      noSteps := |stepList| == 0;
    }
  }

  /** `os.path.splitext` for POSIX paths: the extension is the text from
      the last `.` of the final path component, unless that component has
      only dots before it. */
  function SplitExt(path: String): (r: (String, String))
  {
    var sepIndex := LastIndexOf(path, '/');
    var dotIndex := LastIndexOf(path, '.');
    if dotIndex > sepIndex && HasNonDot(path[sepIndex + 1..dotIndex])
    then (path[..dotIndex], path[dotIndex..])
    else (path, "")
  }

  /** `s.rfind(c)`: the last index of `c`, or -1. */
  function LastIndexOf(s: String, c: char): (r: int)
    ensures -1 <= r < |s|
    ensures r >= 0 ==> s[r] == c
  {
    if |s| == 0 then -1
    else if s[|s| - 1] == c then |s| - 1
    else LastIndexOf(s[..|s| - 1], c)
  }

  predicate HasNonDot(s: String) {
    exists i :: 0 <= i < |s| && s[i] != '.'
  }

  /** `is_step_impl_file`: the path without its extension mentions
      `steps`, and the extension is `.py`. */
  predicate IsStepImplFile(fileName: String) {
    var (root, ext) := SplitExt(fileName);
    Contains(root, "steps") && ext == ".py"
  }

  // ---------------------------------------------------------------------
  // Properties

  /** A lower-case keyword without spaces survives `capitalize()` and
      `lower()`, and gains no space. */
  lemma CapitalizeLower(k: String)
    requires forall i :: 0 <= i < |k| ==> !IsUpperAscii(k[i])
    requires ' ' !in k
    ensures Lower(Capitalize(k)) == k
    ensures ' ' !in Capitalize(k)
  {
    var c := Capitalize(k);
    if |k| > 0 {
      forall i | 0 <= i < |k|
        ensures Lower(c)[i] == k[i] && c[i] != ' '
      {
        if i > 0 {
          assert c[i] == c[1..][i - 1] == Lower(k[1..])[i - 1];
        }
      }
    }
  }

  /** An entry listed in the panel and written back into an indented dump
      line parses to the same entry. */
  lemma FormatStepRoundTrip(st: Step)
    requires WellFormed(st)
    ensures ParseLine(Indent + FormatStep(st)) == Some(st)
  {
    var line := Indent + FormatStep(st);
    var cap := Capitalize(st.0);
    CapitalizeLower(st.0);
    assert line[2..] == cap + " " + st.1;
    assert line[2..][|cap|] == ' ';
    assert IndexOf(line[2..], ' ') == |cap| by {
      forall i | 0 <= i < |cap|
        ensures line[2..][i] != ' '
      {
        assert line[2..][i] == cap[i];
      }
    }
    assert line[2..][..|cap|] == cap;
    assert line[2..][|cap| + 1..] == st.1;
    ParseLineSpec(line);
  }

  /** Distinct well-formed entries are listed as distinct items. */
  lemma FormatStepInjective(a: Step, b: Step)
    requires WellFormed(a) && WellFormed(b)
    ensures FormatStep(a) == FormatStep(b) ==> a == b
  {
    FormatStepRoundTrip(a);
    FormatStepRoundTrip(b);
  }

  /** No `c` comes after the last one. */
  lemma {:induction false} AfterLastIndex(s: String, c: char, j: int)
    requires LastIndexOf(s, c) < j < |s|
    ensures s[j] != c
    decreases |s|
  {
    if s[|s| - 1] != c && j < |s| - 1 {
      AfterLastIndex(s[..|s| - 1], c, j);
    }
  }

  /** The two parts of `splitext` put back together give the path. */
  lemma SplitExtJoin(path: String)
    ensures SplitExt(path).0 + SplitExt(path).1 == path
  {
    var sepIndex := LastIndexOf(path, '/');
    var dotIndex := LastIndexOf(path, '.');
    if dotIndex > sepIndex && HasNonDot(path[sepIndex + 1..dotIndex]) {
      assert path[..dotIndex] + path[dotIndex..] == path;
    } else {
      assert path + [] == path;
    }
  }

  /** A non-empty extension is a dot followed by neither a dot nor a
      slash. */
  lemma SplitExtShape(path: String, i: nat)
    requires i < |SplitExt(path).1|
    ensures SplitExt(path).1[0] == '.'
    ensures i > 0 ==> SplitExt(path).1[i] != '.'
    ensures SplitExt(path).1[i] != '/'
  {
    var dotIndex := LastIndexOf(path, '.');
    ExtIsTail(path);
    assert SplitExt(path).1[i] == path[dotIndex + i];
    if i > 0 {
      AfterLastIndex(path, '.', dotIndex + i);
    }
    AfterLastIndex(path, '/', dotIndex + i);
  }

  /** A non-empty extension is the path from its last dot on, and that dot
      comes after the last slash. */
  lemma ExtIsTail(path: String)
    ensures SplitExt(path).1 != [] ==>
      LastIndexOf(path, '/') < LastIndexOf(path, '.')
      && SplitExt(path).1 == path[LastIndexOf(path, '.')..]
  {
  }

  /** A file is a step implementation exactly when its name ends in `.py`,
      what comes before mentions `steps`, and the final path component
      before `.py` is not made of dots only. The slash test follows from
      the `.py` ending; it is stated because the slice of the final
      component needs it to be well formed. */
  lemma IsStepImplFileSpec(fileName: String)
    ensures IsStepImplFile(fileName) <==>
      |fileName| >= 3 && fileName[|fileName| - 3..] == ".py"
      && LastIndexOf(fileName, '/') < |fileName| - 3
      && Contains(fileName[..|fileName| - 3], "steps")
      && HasNonDot(fileName[LastIndexOf(fileName, '/') + 1..|fileName| - 3])
  {
    var n := |fileName|;
    if n >= 3 && fileName[n - 3..] == ".py" {
      SplitExtOfPy(fileName);
    } else if IsStepImplFile(fileName) {
      StepImplEndsInPy(fileName);
    }
  }

  /** How `splitext` splits a name ending in `.py`. */
  lemma SplitExtOfPy(fileName: String)
    requires |fileName| >= 3 && fileName[|fileName| - 3..] == ".py"
    ensures var n := |fileName|;
      var sepIndex := LastIndexOf(fileName, '/');
      SplitExt(fileName) ==
        if sepIndex < n - 3 && HasNonDot(fileName[sepIndex + 1..n - 3])
        then (fileName[..n - 3], ".py")
        else (fileName, "")
  {
    LastDotOfPy(fileName);
    SplitExtAtDot(fileName, |fileName| - 3);
  }

  /** How `splitext` splits a path whose last dot is at `dot`. */
  lemma SplitExtAtDot(path: String, dot: int)
    requires LastIndexOf(path, '.') == dot
    ensures var sepIndex := LastIndexOf(path, '/');
      SplitExt(path) ==
        if sepIndex < dot && HasNonDot(path[sepIndex + 1..dot])
        then (path[..dot], path[dot..])
        else (path, "")
  {
  }

  /** The extension `.py` is what `splitext` split off, so the name ends in
      it. */
  lemma StepImplEndsInPy(fileName: String)
    requires IsStepImplFile(fileName)
    ensures |fileName| >= 3 && fileName[|fileName| - 3..] == ".py"
  {
    var dotIndex := LastIndexOf(fileName, '.');
    SplitExtJoin(fileName);
    assert SplitExt(fileName).1 == fileName[dotIndex..];
  }

  /** In a name ending in `.py`, the last dot is the one before `py`. */
  lemma LastDotOfPy(fileName: String)
    requires |fileName| >= 3 && fileName[|fileName| - 3..] == ".py"
    ensures LastIndexOf(fileName, '.') == |fileName| - 3
  {
    var n := |fileName|;
    PyEnding(fileName);
    var init := fileName[..n - 1];
    var stem := fileName[..n - 2];
    LastIndexOfSkip(fileName, '.');
    assert init[..n - 2] == stem;
    LastIndexOfSkip(init, '.');
    LastIndexOfLast(stem, '.');
  }

  /** The last three characters of a name ending in `.py`. */
  lemma PyEnding(fileName: String)
    requires |fileName| >= 3 && fileName[|fileName| - 3..] == ".py"
    ensures fileName[|fileName| - 3] == '.'
    ensures fileName[|fileName| - 2] == 'p'
    ensures fileName[|fileName| - 1] == 'y'
  {
    var n := |fileName|;
    assert fileName[n - 3..][0] == fileName[n - 3];
    assert fileName[n - 3..][1] == fileName[n - 2];
    assert fileName[n - 3..][2] == fileName[n - 1];
  }

  /** A final character other than `c` does not change `rfind(c)`. */
  lemma LastIndexOfSkip(s: String, c: char)
    requires |s| > 0 && s[|s| - 1] != c
    ensures LastIndexOf(s, c) == LastIndexOf(s[..|s| - 1], c)
  {
  }

  /** A final `c` is the one `rfind(c)` reports. */
  lemma LastIndexOfLast(s: String, c: char)
    requires |s| > 0 && s[|s| - 1] == c
    ensures LastIndexOf(s, c) == |s| - 1
  {
  }

}
