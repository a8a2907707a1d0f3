/** The step catalog: how `index_steps` turns the text dumped by
    `behave --dry-run -f steps` into `(keyword, pattern)` entries. */
module StepCatalog {
  import opened PyText
  import opened Wrappers

  /** A catalog entry: the lower-cased keyword token and the step pattern. */
  type Step = (String, String)

  /** The sentence behave prints before its snippets for undefined steps. */
  const MissingStepsNotice: String :=
    "You can implement step definitions for undefined steps with these snippets"

  /** The indentation that marks a step line in the dump. */
  const Indent: String := "  "

  /** The keyword token of a `*` step, which is never catalogued. */
  const Wildcard: String := "*"

  /** What every entry the parser can produce looks like: a lower-case
      keyword without spaces that is not the wildcard. */
  predicate WellFormed(st: Step) {
    st.0 != Wildcard
    && ' ' !in st.0
    && forall i :: 0 <= i < |st.0| ==> !IsUpperAscii(st.0[i])
  }

  /** The line as the loop body sees it after the indentation is dropped:
      `line.replace('  ', '', 1)` on an indented line, the line itself
      otherwise. */
  function Dedent(line: String): String {
    if Indent <= line then RemoveFirst(line, Indent) else line
  }

  /** The entry one dump line contributes, if any. */
  function ParseLine(line: String): (r: Option<Step>)
    ensures r.Some? ==> WellFormed(r.value)
  {
    if Indent <= line then
      var info := Split(RemoveFirst(line, Indent), ' ');
      var kind := Lower(info[0]);
      SplitPiecesFree(RemoveFirst(line, Indent), ' ');
      if kind != Wildcard then Some((kind, Join(info[1..], " "))) else None
    else None
  }

  /** The line holds `notice`, after which nothing more is read. */
  predicate StopsAt(line: String, notice: String) {
    Contains(Dedent(line), notice)
  }

  /** How many lines the loop reads: up to and including the first notice
      line, or all of them. */
  function ScanLength(lines: seq<String>, notice: String): (n: nat)
    ensures n <= |lines|
    ensures forall j :: 0 <= j < n - 1 ==> !StopsAt(lines[j], notice)
    ensures n == |lines| || (n > 0 && StopsAt(lines[n - 1], notice))
    ensures n < |lines| ==> n > 0
  {
    if |lines| == 0 then 0
    else if StopsAt(lines[0], notice) then 1
    else 1 + ScanLength(lines[1..], notice)
  }

  /** The entries the given lines contribute, all of them read. */
  function EntriesOf(lines: seq<String>): set<Step>
  {
    if |lines| == 0 then {}
    else
      var last := ParseLine(lines[|lines| - 1]);
      EntriesOf(lines[..|lines| - 1]) + (if last.Some? then {last.value} else {})
  }

  /** The entries of a split dump, read up to the notice. */
  function CatalogOfLines(lines: seq<String>, notice: String): set<Step> {
    EntriesOf(lines[..ScanLength(lines, notice)])
  }

  /** The entries `index_steps` adds for a decoded dump. */
  function Catalog(text: String): set<Step> {
    CatalogOfLines(Split(text, '\n'), MissingStepsNotice)
  }

  // ---------------------------------------------------------------------
  // Properties

  /** A line contributes an entry exactly when it starts with two spaces and
      its first space-delimited token (after the indentation), lower-cased, is
      not `*`; the keyword is that token lower-cased and the pattern is all
      the text after the first space following it (empty if there is none). */
  lemma ParseLineSpec(line: String)
    ensures ParseLine(line).Some? <==>
      Indent <= line && Lower(line[2..][..IndexOf(line[2..], ' ')]) != Wildcard
    ensures ParseLine(line).Some? ==>
      var rest := line[2..];
      var cut := IndexOf(rest, ' ');
      ParseLine(line).value
        == (Lower(rest[..cut]), if cut < |rest| then rest[cut + 1..] else "")
  {
    if Indent <= line {
      RemoveFirstPrefix(line, Indent);
      SplitFirst(line[2..], ' ');
    }
  }

  /** A line indented by more than two spaces is still catalogued: its
      keyword is empty and its pattern is the line after the third space. */
  lemma DeepIndentCatalogued(line: String)
    requires "   " <= line
    ensures ParseLine(line) == Some(("", line[3..]))
  {
    ParseLineSpec(line);
    assert line[2..][0] == ' ';
    assert IndexOf(line[2..], ' ') == 0;
    assert line[2..][1..] == line[3..];
  }

  /** Every catalogued entry is well formed; in particular no `*` step is
      ever catalogued. */
  lemma {:induction false} EntriesWellFormed(lines: seq<String>, st: Step)
    requires st in EntriesOf(lines)
    ensures WellFormed(st)
    decreases |lines|
  {
    var last := ParseLine(lines[|lines| - 1]);
    if !(last.Some? && st == last.value) {
      EntriesWellFormed(lines[..|lines| - 1], st);
    }
  }

  /** An entry comes from the lines exactly when some line parses to it. */
  lemma {:induction false} EntriesOfSpec(lines: seq<String>, st: Step)
    ensures st in EntriesOf(lines) <==>
      exists j :: 0 <= j < |lines| && ParseLine(lines[j]) == Some(st)
    decreases |lines|
  {
    if |lines| > 0 {
      var init := lines[..|lines| - 1];
      EntriesOfSpec(init, st);
      if exists j :: 0 <= j < |lines| && ParseLine(lines[j]) == Some(st) {
        var j :| 0 <= j < |lines| && ParseLine(lines[j]) == Some(st);
        if j < |lines| - 1 {
          assert init[j] == lines[j];
        }
      }
      if exists j :: 0 <= j < |init| && ParseLine(init[j]) == Some(st) {
        var j :| 0 <= j < |init| && ParseLine(init[j]) == Some(st);
        assert lines[j] == init[j];
      }
    }
  }

  /** The catalog of a split dump holds exactly the entries of the lines
      up to and including the first notice line; a notice line that is
      indented is still parsed. */
  lemma CatalogOfLinesSpec(lines: seq<String>, notice: String, st: Step)
    ensures st in CatalogOfLines(lines, notice) <==>
      exists j :: 0 <= j < ScanLength(lines, notice) && ParseLine(lines[j]) == Some(st)
  {
    var read := lines[..ScanLength(lines, notice)];
    EntriesOfSpec(read, st);
    if exists j :: 0 <= j < |read| && ParseLine(read[j]) == Some(st) {
      var j :| 0 <= j < |read| && ParseLine(read[j]) == Some(st);
      assert lines[j] == read[j];
    }
    if exists j :: 0 <= j < ScanLength(lines, notice) && ParseLine(lines[j]) == Some(st) {
      var j :| 0 <= j < ScanLength(lines, notice) && ParseLine(lines[j]) == Some(st);
      assert read[j] == lines[j];
    }
  }

  /** The scan ends at the first notice line whatever follows it. */
  lemma {:induction false} ScanLengthStops(pre: seq<String>, post: seq<String>, notice: String, j: nat)
    requires j < |pre| && StopsAt(pre[j], notice)
    ensures ScanLength(pre + post, notice) == ScanLength(pre, notice)
    decreases |pre|
  {
    var whole := pre + post;
    assert whole[0] == pre[0];
    if j > 0 && !StopsAt(pre[0], notice) {
      assert pre[1..][j - 1] == pre[j];
      ScanLengthStops(pre[1..], post, notice, j - 1);
      assert whole[1..] == pre[1..] + post;
    }
  }

  /** Lines that follow a notice line never reach the catalog. */
  lemma ScanStopsAtNotice(pre: seq<String>, post: seq<String>, notice: String, j: nat)
    requires j < |pre| && StopsAt(pre[j], notice)
    ensures CatalogOfLines(pre + post, notice) == CatalogOfLines(pre, notice)
  {
    ScanLengthStops(pre, post, notice, j);
    var n := ScanLength(pre, notice);
    assert (pre + post)[..n] == pre[..n];
  }

  /** Text appended after a dump that already holds a notice line adds
      nothing to the catalog. */
  lemma NothingAfterNotice(text: String, more: String)
    requires exists j ::
               0 <= j < |Split(text, '\n')| && StopsAt(Split(text, '\n')[j], MissingStepsNotice)
    ensures Catalog(text + "\n" + more) == Catalog(text)
  {
    SplitConcat(text, '\n', more);
    var j :| 0 <= j < |Split(text, '\n')| && StopsAt(Split(text, '\n')[j], MissingStepsNotice);
    ScanStopsAtNotice(Split(text, '\n'), Split(more, '\n'), MissingStepsNotice, j);
  }

  /** The line at `i`, read by the scan, is its last exactly when it holds
      the notice or is the last line of all. */
  lemma ScanStep(lines: seq<String>, notice: String, i: nat)
    requires i < ScanLength(lines, notice)
    ensures i + 1 == ScanLength(lines, notice) <==> StopsAt(lines[i], notice) || i + 1 == |lines|
  {
  }

  /** Every entry the lines contribute is well formed. */
  lemma EntriesValid(lines: seq<String>)
    ensures forall st :: st in EntriesOf(lines) ==> WellFormed(st)
  {
    forall st | st in EntriesOf(lines)
      ensures WellFormed(st)
    {
      EntriesWellFormed(lines, st);
    }
  }

  /** The catalog of a dump is read from its lines up to the scan length. */
  lemma CatalogLines(text: String)
    ensures Catalog(text)
            == EntriesOf(Split(text, '\n')[..ScanLength(Split(text, '\n'), MissingStepsNotice)])
  {
  }

  /** Reading one more line adds that line's entry, if it has one. */
  lemma EntriesExtend(lines: seq<String>, i: nat)
    requires i < |lines|
    ensures EntriesOf(lines[..i + 1]) ==
      EntriesOf(lines[..i]) + (if ParseLine(lines[i]).Some? then {ParseLine(lines[i]).value} else {})
  {
    assert lines[..i + 1][..i] == lines[..i];
  }
}
