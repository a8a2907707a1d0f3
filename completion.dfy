/** What `_fill_completions` computes: the governing keyword, the steps
    that match the words typed so far, and the suggestions it stores for
    them. The stateful loop that writes them lives in the `Behave` module;
    this module gives the value it must produce. */
module Completion {
  import opened PyText
  import opened Wrappers
  import opened StepCatalog
  import opened Placeholders

  /** The keywords that govern a step line. */
  const Keywords: seq<String> := ["given", "when", "then"]

  /** What the dict holds for a key: the trigger shown in the list and the
      text inserted. */
  type Suggestion = (String, String)

  /** `region_text.split(' ', 1)[0].lower()` for a left-stripped earlier
      line. */
  function LineKeyword(line: String): String {
    Lower(Split(LStrip(line), ' ')[0])
  }

  /** The first-token keyword of every line. */
  function Tokens(lines: seq<String>): (r: seq<String>)
    ensures |r| == |lines|
  {
    seq(|lines|, j requires 0 <= j < |lines| => LineKeyword(lines[j]))
  }

  /** The reverse scan over the tokens of `lines[0:i]`: the keyword of the
      nearest line whose first token is a keyword, if there is one. */
  function ScanBack(tokens: seq<String>, i: nat): (r: Option<String>)
    requires i <= |tokens|
    ensures r.Some? ==> r.value in Keywords
    decreases i
  {
    if i == 0 then None
    else if tokens[i - 1] in Keywords then Some(tokens[i - 1])
    else ScanBack(tokens, i - 1)
  }

  /** The words of the current line: `strip()` then `split()`. */
  function LineWords(line: String): seq<String> {
    SplitWs(Strip(line))
  }

  /** The governing keyword for line `cur`: its own first word when that
      is a keyword, otherwise the result of the reverse scan. */
  function ResolveKeyword(lines: seq<String>, cur: nat): (r: Option<String>)
    requires cur < |lines|
    ensures r.Some? ==> r.value in Keywords
  {
    var words := LineWords(lines[cur]);
    if |words| > 0 && Lower(words[0]) in Keywords then Some(Lower(words[0]))
    else ScanBack(Tokens(lines), cur)
  }

  /** `_step_matches_line`: the typed words after the keyword, joined by
      single spaces, against the step's words joined the same way. The
      length test is subsumed by the prefix test. */
  function StepMatchesLine(stepWords: seq<String>, lineWords: seq<String>): (r: bool)
    ensures r <==> Join(Tail(lineWords), " ") <= Join(stepWords, " ")
  {
    var lineText := Join(Tail(lineWords), " ");
    var stepText := Join(stepWords, " ");
    if |stepText| >= |lineText| then lineText <= stepText else false
  }

  /** Whether a catalog entry yields a suggestion for the typed words. */
  predicate Offers(st: Step, kw: String, words: seq<String>) {
    st.0 == kw
    && (|words| == 1 || (|words| > 1 && StepMatchesLine(SplitWs(st.1), words)))
  }

  /** The dict key for an offered pattern: the pattern itself on a one-word
      line, otherwise the pattern with the first occurrence of the interior
      typed words (`words[1:-1]`) removed. */
  function KeyOf(pattern: String, words: seq<String>): String {
    if |words| == 1 then pattern else RemoveFirst(pattern, Join(Interior(words), " "))
  }

  /** The suggestion stored under a key; it depends on the key alone, so
      the order in which the set of steps is visited does not matter. */
  function SuggestionFor(key: String, kw: String, words: seq<String>): Suggestion {
    if |words| == 1 then (key + "\t" + kw, Snippet(key))
    else (key + "\t" + kw, Strip(Snippet(key)))
  }

  /** The dict a loop over `steps` writes when it stores `value(key(st))`
      under `key(st)` for every step `offers` accepts. The value depends on
      the key alone, so the dict does not depend on the visiting order. */
  function Collect(steps: set<Step>, offers: Step -> bool, key: Step -> String,
                   value: String -> Suggestion): map<String, Suggestion>
  {
    map st | st in steps && offers(st) :: key(st) := value(key(st))
  }

  /** The entries the loop over `steps` writes for keyword `kw`. */
  function Fill(steps: set<Step>, kw: String, words: seq<String>): map<String, Suggestion> {
    Collect(steps, (s: Step) => Offers(s, kw, words), (s: Step) => KeyOf(s.1, words),
            k => SuggestionFor(k, kw, words))
  }

  /** Everything one call of `_fill_completions` writes into the dict. */
  function FillResult(steps: set<Step>, lines: seq<String>, cur: nat): map<String, Suggestion>
    requires cur < |lines|
  {
    if ' ' !in Strip(lines[cur]) then map[]
    else
      match ResolveKeyword(lines, cur)
      case None => map[]
      case Some(kw) => Fill(steps, kw, LineWords(lines[cur]))
  }

  // ---------------------------------------------------------------------
  // Properties

  /** The reverse scan finds a keyword exactly when some earlier line has
      one, and then it is the one of the nearest such line; lines such as
      And/But, whose token is not a keyword, are passed over. */
  lemma {:induction false} ScanBackNearest(tokens: seq<String>, i: nat)
    requires i <= |tokens|
    ensures ScanBack(tokens, i).None? <==> forall j :: 0 <= j < i ==> tokens[j] !in Keywords
    ensures ScanBack(tokens, i).Some? ==>
      exists j :: 0 <= j < i && tokens[j] == ScanBack(tokens, i).value
        && forall m :: j < m < i ==> tokens[m] !in Keywords
    decreases i
  {
    if i > 0 && tokens[i - 1] !in Keywords {
      ScanBackNearest(tokens, i - 1);
      if ScanBack(tokens, i).Some? {
        var j :| 0 <= j < i - 1 && tokens[j] == ScanBack(tokens, i - 1).value
          && forall m :: j < m < i - 1 ==> tokens[m] !in Keywords;
        assert forall m :: j < m < i ==> tokens[m] !in Keywords;
      }
    }
  }

  /** The keyword of the current line wins over earlier ones; otherwise the
      reverse scan decides. A resolved keyword is always one of the three. */
  lemma ResolveKeywordSpec(lines: seq<String>, cur: nat)
    requires cur < |lines|
    ensures ResolveKeyword(lines, cur).Some? ==> ResolveKeyword(lines, cur).value in Keywords
    ensures ResolveKeyword(lines, cur).None? <==>
      (|LineWords(lines[cur])| == 0 || Lower(LineWords(lines[cur])[0]) !in Keywords)
      && forall j :: 0 <= j < cur ==> Tokens(lines)[j] !in Keywords
  {
    ScanBackNearest(Tokens(lines), cur);
  }

  /** A stripped line that holds a space has at least two words, so the
      one-word branch of the fill is never taken. */
  lemma OneWordBranchUnreachable(line: String)
    requires ' ' in Strip(line)
    ensures |LineWords(line)| >= 2
  {
    var s := Strip(line);
    StripEnds(line);
    var j :| 0 <= j < |s| && s[j] == ' ';
    assert IsSpace(' ');
    SplitWsTwoWords(s, 0, j, |s| - 1);
  }

  /** On a line of two or more words, a fill writes a key exactly when a
      step with the keyword matches the typed words and its pattern, with
      the interior words removed, is that key; the value is the stripped
      snippet of the key with the keyword as the trigger's description. */
  lemma FillSpec(steps: set<Step>, kw: String, words: seq<String>, key: String)
    requires |words| >= 2
    ensures key in Fill(steps, kw, words) <==>
      exists st :: st in steps && st.0 == kw
        && Join(Tail(words), " ") <= Join(SplitWs(st.1), " ")
        && RemoveFirst(st.1, Join(Interior(words), " ")) == key
    ensures key in Fill(steps, kw, words) ==>
      Fill(steps, kw, words)[key] == (key + "\t" + kw, Strip(Snippet(key)))
  {
    CollectSpec(steps, (s: Step) => Offers(s, kw, words), (s: Step) => KeyOf(s.1, words),
                k => SuggestionFor(k, kw, words), key);
  }

  /** What one call of `_fill_completions` writes: nothing when the
      stripped line has no space or no keyword governs it, otherwise the
      fill for the resolved keyword and the line's words, of which there
      are at least two. */
  lemma FillResultSpec(steps: set<Step>, lines: seq<String>, cur: nat)
    requires cur < |lines|
    ensures ' ' !in Strip(lines[cur]) || ResolveKeyword(lines, cur).None? ==>
      FillResult(steps, lines, cur) == map[]
    ensures ' ' in Strip(lines[cur]) && ResolveKeyword(lines, cur).Some? ==>
      |LineWords(lines[cur])| >= 2
      && FillResult(steps, lines, cur)
         == Fill(steps, ResolveKeyword(lines, cur).value, LineWords(lines[cur]))
  {
    if ' ' in Strip(lines[cur]) {
      OneWordBranchUnreachable(lines[cur]);
    }
  }

  /** Whatever is stored holds no bare `{name}` placeholder in its
      inserted text: the snippet of every key has had all of them turned
      into tab-stops, and stripping it keeps a slice of it. */
  lemma FillValuesAreSnippets(steps: set<Step>, kw: String, words: seq<String>, key: String)
    requires key in Fill(steps, kw, words)
    ensures Fill(steps, kw, words)[key].0 == key + "\t" + kw
    ensures FindAll(Fill(steps, kw, words)[key].1) == []
  {
    CollectSpec(steps, (s: Step) => Offers(s, kw, words), (s: Step) => KeyOf(s.1, words),
                k => SuggestionFor(k, kw, words), key);
    var snippet := Snippet(key);
    SnippetHasNoPlaceholder(key);
    if |words| != 1 {
      StripParts(snippet);
      var d := |snippet| - |LStrip(snippet)|;
      if FindAll(Strip(snippet)) != [] {
        MatchInside(snippet[..d], Strip(snippet), snippet[d + |Strip(snippet)|..]);
      }
    }
  }

  /** A key is collected exactly when an accepted step has it, and its
      value is the one computed from the key. */
  lemma CollectSpec(steps: set<Step>, offers: Step -> bool, key: Step -> String,
                    value: String -> Suggestion, k: String)
    ensures k in Collect(steps, offers, key, value) <==>
      exists st :: st in steps && offers(st) && key(st) == k
    ensures k in Collect(steps, offers, key, value) ==>
      Collect(steps, offers, key, value)[k] == value(k)
  {
    if k in Collect(steps, offers, key, value) {
      var st :| st in steps && offers(st) && key(st) == k;
    }
  }

  /** Steps the loop does not accept leave the collected dict as it is. */
  lemma CollectIgnores(steps: set<Step>, others: set<Step>, offers: Step -> bool,
                       key: Step -> String, value: String -> Suggestion)
    requires forall st :: st in others ==> !offers(st)
    ensures Collect(steps + others, offers, key, value) == Collect(steps, offers, key, value)
  {
    var a := Collect(steps + others, offers, key, value);
    var b := Collect(steps, offers, key, value);
    assert a.Keys == b.Keys by {
      forall k | k in a.Keys ensures k in b.Keys {
        var st :| st in steps + others && offers(st) && key(st) == k;
        assert st in steps;
      }
    }
  }

  /** Visiting one more step writes at most one entry: the value for that
      step's key. */
  lemma CollectInsert(done: set<Step>, st: Step, offers: Step -> bool,
                      key: Step -> String, value: String -> Suggestion)
    ensures Collect(done + {st}, offers, key, value) ==
      if offers(st) then Collect(done, offers, key, value)[key(st) := value(key(st))]
      else Collect(done, offers, key, value)
  {
    if offers(st) {
      var a := Collect(done + {st}, offers, key, value);
      var b := Collect(done, offers, key, value)[key(st) := value(key(st))];
      assert a.Keys == b.Keys;
    } else {
      CollectIgnores(done, {st}, offers, key, value);
    }
  }

  /** Steps filed under other keywords never change what a fill writes. */
  lemma FillIgnoresOtherKeywords(steps: set<Step>, others: set<Step>, kw: String, words: seq<String>)
    requires forall st :: st in others ==> st.0 != kw
    ensures Fill(steps + others, kw, words) == Fill(steps, kw, words)
  {
    CollectIgnores(steps, others, (s: Step) => Offers(s, kw, words), (s: Step) => KeyOf(s.1, words),
                   k => SuggestionFor(k, kw, words));
  }

  /** Adding one step to the visited ones updates the fill by at most one
      entry: the suggestion for that step's key. */
  lemma FillInsert(done: set<Step>, st: Step, kw: String, words: seq<String>)
    ensures Fill(done + {st}, kw, words) ==
      if Offers(st, kw, words)
      then Fill(done, kw, words)[KeyOf(st.1, words) := SuggestionFor(KeyOf(st.1, words), kw, words)]
      else Fill(done, kw, words)
  {
    CollectInsert(done, st, (s: Step) => Offers(s, kw, words), (s: Step) => KeyOf(s.1, words),
                  k => SuggestionFor(k, kw, words));
  }
}
