/** The plugin's two module-level globals, `steps` and `completions`, as one
    store, and the operations that update them in place: `index_steps`,
    the refresh decision of `get_steps`, `_fill_completions` and
    `on_query_completions`. */
module Behave {
  import opened PyText
  import opened Wrappers
  import opened StepCatalog
  import opened Placeholders
  import opened Completion

  /** How the run of `behave --dry-run -f steps` ended, with its decoded
      output: normally, or with the tool reporting failure. */
  datatype ToolRun = Completed(stdout: String) | Failed(output: String)

  /** Whether a run's output is indexed: always after a normal run, and
      after a failure only when it still lists the catalog up to the
      missing-steps notice. */
  predicate Usable(run: ToolRun) {
    run.Completed? || Contains(run.output, MissingStepsNotice)
  }

  /** The output of a usable run. */
  function DumpOf(run: ToolRun): String {
    if run.Completed? then run.stdout else run.output
  }

  class Store {
    /** The catalog: `(keyword, pattern)` entries. */
    var steps: set<Step>
    /** The suggestions waiting to be handed to the editor, by key. */
    var completions: map<String, Suggestion>

    /** Every entry in the catalog is one the dump parser can produce. */
    ghost predicate Valid()
      reads this
    {
      forall st :: st in steps ==> WellFormed(st)
    }

    /** Both globals start empty. */
    constructor()
      ensures steps == {} && completions == map[]
      ensures Valid()
    {
      steps := {};
      completions := map[];
    }

    /** `index_steps`: reads the dump line by line up to and including the
        missing-steps notice and adds every entry it finds; nothing is ever
        removed. */
    method IndexSteps(text: String)
      requires Valid()
      modifies this
      ensures steps == old(steps) + Catalog(text)
      ensures completions == old(completions)
      ensures Valid()
    {
      var lines := Split(text, '\n');
      ghost var n := ScanLength(lines, MissingStepsNotice);
      var i := 0;
      while i < |lines|
        invariant 0 <= i <= n
        invariant i == n ==> i == |lines|
        invariant steps == old(steps) + EntriesOf(lines[..i])
        invariant completions == old(completions)
      {
        EntriesExtend(lines, i);
        ScanStep(lines, MissingStepsNotice, i);
        var stop := ReadLine(lines[i]);
        i := i + 1;
        if stop {
          break;
        }
      }
      CatalogLines(text);
      EntriesValid(lines[..n]);
    }

    /** The body of the loop in `index_steps` for one line: an indented
        line whose first token is not `*` adds its entry; the result says
        whether the line holds the notice that ends the loop. */
    method ReadLine(line: String) returns (stop: bool)
      modifies this
      ensures steps == old(steps) + (if ParseLine(line).Some? then {ParseLine(line).value} else {})
      ensures stop == StopsAt(line, MissingStepsNotice)
      ensures completions == old(completions)
    {
      var rest := line;
      if Indent <= rest {
        rest := RemoveFirst(rest, Indent);
        var info := Split(rest, ' ');
        var kind := Lower(info[0]);
        if kind != Wildcard {
          steps := steps + {(kind, Join(info[1..], " "))};
        }
      }
      stop := Contains(rest, MissingStepsNotice);
    }

    /** The refresh decision of `get_steps`: a usable run is indexed; any
        other failure empties the catalog and the refresh fails. */
    method Refresh(run: ToolRun) returns (ok: bool)
      requires Valid()
      modifies this
      ensures ok <==> Usable(run)
      ensures ok ==> steps == old(steps) + Catalog(DumpOf(run))
      ensures !ok ==> steps == {}
      ensures completions == old(completions)
      ensures Valid()
    {
      match run
      case Completed(stdout) =>
        IndexSteps(stdout);
        ok := true;
      case Failed(output) =>
        if Contains(output, MissingStepsNotice) {
          IndexSteps(output);
          ok := true;
        } else {
          steps := {};
          ok := false;
        }
    }

    /** `_fill_completions` for the cursor on line `cur`: resolves the
        keyword, then writes the suggestion of every matching step into
        the dict, over whatever it already holds. */
    method FillCompletions(lines: seq<String>, cur: nat)
      requires cur < |lines|
      modifies this
      ensures steps == old(steps)
      ensures completions == old(completions) + FillResult(old(steps), lines, cur)
    {
      var text := Strip(lines[cur]);
      var words := SplitWs(text);
      FillResultSpec(steps, lines, cur);
      if ' ' !in text {
        MapUnionEmpty(completions);
        return;
      }
      var lastKeyword := LastKeyword(lines, cur);
      if lastKeyword == "" {
        MapUnionEmpty(completions);
        return;
      }
      FillFor(lastKeyword, words);
    }

    /** The loop over `steps` in `_fill_completions` for a resolved keyword
        and the current line's words. */
    method FillFor(kw: String, words: seq<String>)
      modifies this
      ensures steps == old(steps)
      ensures completions == old(completions) + Fill(old(steps), kw, words)
    {
      var remaining := steps;
      ghost var done: set<Step> := {};
      MapUnionEmpty(completions);
      while remaining != {}
        invariant remaining !! done && remaining + done == old(steps)
        invariant steps == old(steps)
        invariant completions == old(completions) + Fill(done, kw, words)
        decreases |remaining|
      {
        var st :| st in remaining;
        FillStep(old(completions), done, st, kw, words);
        Offer(st, kw, words);
        remaining := remaining - {st};
        done := done + {st};
      }
    }

    /** The body of the loop over `steps` for one entry: an entry with the
        keyword that matches the typed words stores its suggestion under
        its key. */
    method Offer(st: Step, kw: String, words: seq<String>)
      modifies this
      ensures steps == old(steps)
      ensures completions ==
        if Offers(st, kw, words)
        then old(completions)[KeyOf(st.1, words) := SuggestionFor(KeyOf(st.1, words), kw, words)]
        else old(completions)
    {
      var stepType := st.0;
      var step := st.1;
      if stepType == kw {
        if |words| == 1 {
          var snippet := ParseVariables(step);
          completions := completions[step := (step + "\t" + stepType, snippet)];
        } else if |words| > 1 {
          if StepMatchesLine(SplitWs(step), words) {
            var lineText := Join(Interior(words), " ");
            step := RemoveFirst(step, lineText);
            var snippet := ParseVariables(step);
            completions := completions[step := (step + "\t" + stepType, Strip(snippet))];
          }
        }
      }
    }

    /** `on_query_completions`: hands over every stored suggestion, one per
        key, and empties the dict. */
    method QueryCompletions() returns (r: seq<Suggestion>, ghost keys: seq<String>)
      modifies this
      ensures |r| == |keys| == |old(completions)|
      ensures forall i, j :: 0 <= i < j < |keys| ==> keys[i] != keys[j]
      ensures forall i :: 0 <= i < |keys| ==> keys[i] in old(completions)
      ensures forall i :: 0 <= i < |r| ==> r[i] == old(completions)[keys[i]]
      ensures completions == map[]
      ensures steps == old(steps)
    {
      var rest := completions.Keys;
      r := [];
      keys := [];
      while rest != {}
        invariant rest <= completions.Keys
        invariant |r| == |keys|
        invariant forall i :: 0 <= i < |keys| ==> keys[i] in completions && keys[i] !in rest
        invariant forall i, j :: 0 <= i < j < |keys| ==> keys[i] != keys[j]
        invariant forall i :: 0 <= i < |r| ==> r[i] == completions[keys[i]]
        invariant |keys| + |rest| == |completions.Keys|
        decreases |rest|
      {
        var k :| k in rest;
        r := r + [completions[k]];
        keys := keys + [k];
        rest := rest - {k};
      }
      assert |completions| == |completions.Keys|;
      completions := map[];
    }
  }

  /** Indexing the same dump twice leaves the catalog as indexing it once:
      entries are only ever added, and the set already holds them. */
  method IndexTwice(store: Store, text: String)
    requires store.Valid()
    modifies store
    ensures store.steps == old(store.steps) + Catalog(text)
    ensures store.Valid()
  {
    store.IndexSteps(text);
    ghost var once := store.steps;
    store.IndexSteps(text);
    assert store.steps == once;
  }

  /** A second query with no fill in between hands over nothing. */
  method QueryTwice(store: Store) returns (first: seq<Suggestion>, second: seq<Suggestion>)
    modifies store
    ensures |first| == |old(store.completions)|
    ensures second == []
    ensures store.completions == map[]
  {
    ghost var keys;
    first, keys := store.QueryCompletions();
    second, keys := store.QueryCompletions();
  }

  /** The keyword part of `_fill_completions`: the current line's first
      word when it is a keyword, otherwise the first keyword met scanning
      the earlier lines backwards; `""` when there is none. */
  method LastKeyword(lines: seq<String>, cur: nat) returns (lastKeyword: String)
    requires cur < |lines|
    ensures ResolveKeyword(lines, cur).None? ==> lastKeyword == ""
    ensures ResolveKeyword(lines, cur).Some? ==>
      lastKeyword == ResolveKeyword(lines, cur).value && lastKeyword in Keywords
  {
    lastKeyword := "";
    var words := SplitWs(Strip(lines[cur]));
    if |words| > 0 && Lower(words[0]) in Keywords {
      lastKeyword := Lower(words[0]);
    } else {
      var i := cur;
      while i > 0
        invariant 0 <= i <= cur
        invariant ScanBack(Tokens(lines), i) == ScanBack(Tokens(lines), cur)
        invariant lastKeyword == ""
      {
        var token := LineKeyword(lines[i - 1]);
        ScanBackStep(lines, i);
        if token in Keywords {
          lastKeyword := token;
          break;
        }
        i := i - 1;
      }
    }
  }

  /** Adding nothing leaves a dict as it is. */
  lemma MapUnionEmpty(m: map<String, Suggestion>)
    ensures m + map[] == m
  {
  }

  /** Writing a key after a merge is writing it into the merged-in dict. */
  lemma MapUpdateUnion(a: map<String, Suggestion>, b: map<String, Suggestion>, k: String, v: Suggestion)
    ensures (a + b)[k := v] == a + b[k := v]
  {
  }

  /** Offering one more step on top of a dict that holds the fill of the
      steps visited so far gives the fill of those steps and the new one. */
  lemma FillStep(base: map<String, Suggestion>, done: set<Step>, st: Step, kw: String, words: seq<String>)
    ensures (if Offers(st, kw, words)
             then (base + Fill(done, kw, words))[KeyOf(st.1, words) := SuggestionFor(KeyOf(st.1, words), kw, words)]
             else base + Fill(done, kw, words))
            == base + Fill(done + {st}, kw, words)
  {
    FillInsert(done, st, kw, words);
    if Offers(st, kw, words) {
      MapUpdateUnion(base, Fill(done, kw, words), KeyOf(st.1, words),
                     SuggestionFor(KeyOf(st.1, words), kw, words));
    }
  }

  /** One step of the reverse scan over the lines. */
  lemma ScanBackStep(lines: seq<String>, i: nat)
    requires 0 < i <= |lines|
    ensures Tokens(lines)[i - 1] == LineKeyword(lines[i - 1])
    ensures ScanBack(Tokens(lines), i) ==
      if LineKeyword(lines[i - 1]) in Keywords then Some(LineKeyword(lines[i - 1]))
      else ScanBack(Tokens(lines), i - 1)
  {
  }
}
