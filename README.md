# Gherkin step autocompletion for Sublime Text, modelled in Dafny

The plugin `behave.py` offers Gherkin step completions in Sublime Text. It
runs `behave --dry-run -f steps` and indexes the dumped step definitions
into a module-level set `steps` of `(keyword, pattern)` entries. While a
feature file is edited, it does three things:

- It resolves the Given/When/Then keyword that governs the current line.
- It keeps the steps that match the words typed so far.
- It stores one `(trigger, snippet)` suggestion per key in a module-level
  dict `completions`. The snippet turns every `{name}` placeholder into a
  numbered tab-stop `${k:\{name\}}`.

The editor's completion query then takes every stored suggestion and
empties the dict. A quick-panel command lists the whole catalog. A
file-name test decides whether a saved file is a step-implementation
module.

The project has one module per part of the plugin:

- `pytext.dfy` (`PyText`) defines the Python `str` operations the plugin
  relies on:
  - `split(sep)`, `split()`, `join`, `strip`/`lstrip` and `in`, with their
    edge cases;
  - `lower` and `capitalize`, on ASCII letters only (see "## Left out");
  - `replace(old, '', 1)` and `replace(old, new)`.
- `catalog.dfy` (`StepCatalog`) states which entries `index_steps` reads
  from a dump.
- `placeholders.dfy` (`Placeholders`) covers `re.findall(r'(\{[\w+]+\})')`
  and `parse_variables`.
- `completion.dfy` (`Completion`) defines what `_fill_completions` must
  write:
  - the resolved keyword;
  - the matcher `_step_matches_line`;
  - the keys and values of the dict.
- `store.dfy` (`Behave`) holds the two globals as one `Store` class. Its
  methods update them in place:
  - `index_steps`;
  - the refresh decision of `get_steps`;
  - `_fill_completions`;
  - `on_query_completions`.
- `commands.dfy` (`Commands`) covers the quick-panel list and its
  selection, and `is_step_impl_file` with POSIX `os.path.splitext`.

The methods are proved against the functions of `StepCatalog`,
`Placeholders` and `Completion`. The properties are proved as lemmas about
those functions.

Where the plugin's intended behaviour and its code differ, the model
follows the code:

- The catalog is merged into, never replaced: `index_steps` only adds to
  the set. The only `steps.clear()` is in the `except CalledProcessError`
  branch of `get_steps` (behave.py:47-55). `Popen(...)` and
  `communicate()` (behave.py:35-46) never raise that exception, so as
  written the catalog is never emptied. The output of a failing behave run
  is indexed like any other.
- A pattern is the rest of the dump line after the first single space, and
  runs of spaces in it are kept (`split(' ')`, not `split()`).
- Any keyword token except `*` is catalogued, not only given/when/then.
  Such entries can never be offered, because the resolved keyword is
  always one of the three.
- Step lines are meant to be indented by exactly two spaces, but
  `line.startswith('  ')` (behave.py:24) accepts any deeper indentation
  too. Only the first two spaces are removed, so `"    Given x"` is
  catalogued as `("", " Given x")`: an empty keyword and a pattern that
  starts with a space.
- Tab-stops are meant to be numbered in sequence by first appearance, but
  `enumerate(re.findall(...), 1)` (behave.py:58) counts every match,
  repeats included. The first `replace` already rewrites every copy of a
  repeated placeholder, so `{a} {a} {b}` becomes
  `${1:\{a\}} ${1:\{a\}} ${3:\{b\}}` and the number 2 is skipped.
  `Placeholders.Snippet` numbers the same way.
- The one-word branch of `_fill_completions` (behave.py:179-182) can never
  run. The line is stripped before the space test, so a line that passes
  the test has at least two words.

## Model

| member | source | states |
|---|---|---|
| StepCatalog.ParseLine | behave.py:24-29 | an entry a dump line yields is well formed: a lower-case keyword without spaces that is not `*` |
| StepCatalog.ParseLineSpec | behave.py:24-29 | a line yields an entry exactly when it starts with two spaces and its first token, lower-cased, is not `*`; the keyword is that token lower-cased, and the pattern is everything after the first space (`""` when there is none) |
| StepCatalog.DeepIndentCatalogued | behave.py:24-29 | a line indented by three or more spaces is still catalogued, with an empty keyword and the text after the third space as its pattern |
| StepCatalog.EntriesWellFormed | behave.py:27-29 | no `*` entry and no upper-case or spaced keyword ever enters the catalog |
| StepCatalog.EntriesOfSpec | behave.py:23-29 | an entry comes from a list of lines exactly when one of those lines parses to it |
| StepCatalog.ScanLength | behave.py:23-31 | the loop reads every line up to and including the first line that holds the notice, or all lines when none does |
| StepCatalog.CatalogOfLinesSpec | behave.py:23-31 | the catalog of a dump holds exactly the entries of the lines up to and including the first notice line; an indented notice line is parsed before the loop stops |
| StepCatalog.Catalog | behave.py:20-31 | the entries `index_steps` adds for a dump; `CatalogOfLinesSpec` states which, and `IndexSteps` is proved to add exactly them |
| StepCatalog.ScanStopsAtNotice | behave.py:30-31 | lines that follow a notice line never reach the catalog, whatever they hold |
| StepCatalog.NothingAfterNotice | behave.py:30-31 | text appended after a dump that already holds the notice adds nothing to the catalog |
| Behave.Store.constructor | behave.py:10-11 | both globals start empty |
| Behave.Store.IndexSteps | behave.py:20-31 | the new catalog is the old one plus the entries of the dump; nothing is removed and the dict is untouched |
| Behave.Store.ReadLine | behave.py:24-31 | one loop step adds exactly the entry the line parses to, and reports whether the notice ends the loop |
| Behave.IndexTwice | behave.py:20-31 | indexing the same dump twice leaves the same catalog as indexing it once |
| Behave.Usable | behave.py:49 | the test of the `except` branch: a run's output is kept when the run completed, or when its output holds the notice |
| Behave.Store.Refresh | behave.py:47-55 | the keep-or-clear decision of the `except CalledProcessError` branch over an abstract run outcome: a completed run, or a failed run whose output holds the notice, is indexed and reported usable; any other failure empties the catalog and is reported as such |
| Behave.LastKeyword | behave.py:147-168 | the keyword found is the current line's first word, lower-cased, when that is a keyword, else the nearest earlier keyword line's token; `""` when there is none |
| Behave.Store.FillCompletions | behave.py:140-193 | the new dict is the old one overwritten with exactly the suggestions of one fill; the catalog is untouched |
| Behave.Store.FillFor | behave.py:177-193 | the loop over the catalog writes exactly the fill for the keyword and words, over the old dict |
| Behave.Store.Offer | behave.py:178-193 | one catalog entry writes its suggestion under its key when it has the keyword and matches the words, and otherwise writes nothing |
| Behave.Store.QueryCompletions | behave.py:104-107 | returns one value per stored key, every key exactly once, and leaves the dict empty and the catalog as it was |
| Behave.QueryTwice | behave.py:104-107 | a second query with no fill in between returns nothing |
| Placeholders.MatchAt | behave.py:58 | a match of `\{[\w+]+\}` at the start of the text is a brace-delimited run of word and `+` characters |
| Placeholders.FindAll | behave.py:58 | every match `re.findall` reports is such a placeholder |
| Placeholders.FindAllComplete | behave.py:58 | `re.findall` misses no placeholder: a text that holds one anywhere has a match |
| Placeholders.FindAllWitness | behave.py:58 | a text with a match holds a placeholder, with the text before and after it |
| Placeholders.MatchInside | behave.py:58 | a match inside part of a text is a match of the whole text |
| Placeholders.FindAllBlocked | behave.py:58 | a `{` whose run of word and `+` characters ends at anything other than `}` starts no match, so brace groups with other characters (format specifications) are left alone |
| Placeholders.ParseVariables | behave.py:57-64 | the loop replaces the k-th match everywhere with its tab-stop, in order; the result holds no placeholder; a text with no match is returned unchanged |
| Placeholders.TabStopForm | behave.py:60-62 | the tab-stop of the k-th placeholder `{name}` is `${k:\{name\}}` |
| Placeholders.EscapePlaceholder | behave.py:61 | escaping a placeholder backslash-escapes exactly its two braces |
| Placeholders.TabStopInert | behave.py:59-62 | a tab-stop followed by any text yields exactly the matches of that text: it holds no placeholder and starts none, so later replacements cannot re-match inside it |
| Placeholders.ReplaceDropsPlaceholder | behave.py:59-63 | replacing one placeholder with its tab-stop removes that placeholder from the matches and keeps the others in order |
| Placeholders.RewriteDrops | behave.py:58-63 | after the loop has handled some matches, none of them remains and every other match remains, in order |
| Placeholders.SnippetHasNoPlaceholder | behave.py:57-64 | the snippet returned holds no `{name}` placeholder |
| Placeholders.FormatSpecLeftAlone | behave.py:58 | the example `{n:d}`: it has no match and `parse_variables` returns it unchanged |
| Placeholders.Snippet | behave.py:57-64 | what `parse_variables` returns: the matches of the original text, each replaced everywhere in turn by its numbered tab-stop; `SnippetHasNoPlaceholder` and `RewriteDrops` state its properties and `ParseVariables` is proved equal to it |
| Placeholders.TabStop | behave.py:60-62 | the `'${{{}:{}}}'.format` tab-stop; `TabStopForm` gives its text and `TabStopInert` proves it creates no match |
| Placeholders.Escape | behave.py:61 | the two brace escapes; `EscapePlaceholder` proves they escape exactly the outer braces of a placeholder |
| Completion.LineKeyword | behave.py:164-166 | the token the reverse scan tests for an earlier line: the first `split(' ', 1)` piece of the left-stripped line, lower-cased; `ScanBackNearest` states how it is used |
| Completion.ResolveKeyword | behave.py:156-168 | the resolved keyword is always one of the three; `ResolveKeywordSpec` states when there is none and `LastKeyword` is proved equal to it |
| Completion.ScanBack | behave.py:163-168 | the reverse scan only ever yields one of the three keywords |
| Completion.ScanBackNearest | behave.py:161-168 | the reverse scan finds a keyword exactly when some earlier line's first token is one, and then it takes the nearest such line; And/But lines are passed over |
| Completion.ResolveKeywordSpec | behave.py:156-175 | no keyword is resolved exactly when the current line does not start with a keyword and no earlier line does; a resolved keyword is one of the three |
| Completion.StepMatchesLine | behave.py:195-202 | a step matches exactly when the typed words after the keyword, joined by single spaces, are a prefix of the step's words joined the same way |
| Completion.OneWordBranchUnreachable | behave.py:149-154 | a stripped line that holds a space has at least two words |
| Completion.FillResultSpec | behave.py:147-193 | a fill writes nothing when the stripped line has no space or no keyword governs it; otherwise it writes exactly the suggestions for the resolved keyword and at least two words |
| Completion.FillSpec | behave.py:177-193 | a key is written exactly when some step with the keyword matches the words and has that key once the interior words are removed; its value is the key with a tab and the keyword, and the stripped snippet of the key |
| Completion.FillValuesAreSnippets | behave.py:180-193 | every stored trigger is the key, a tab and the keyword, and every stored inserted text, stripped snippet included, holds no bare placeholder |
| Completion.FillIgnoresOtherKeywords | behave.py:177-178 | steps filed under other keywords never change what a fill writes |
| Completion.FillInsert | behave.py:177-193 | visiting one more step changes the fill by at most the one entry for that step's key, so the visiting order of the set does not matter |
| Completion.Offers | behave.py:178-187 | whether an entry yields a suggestion: its keyword is the resolved one and, on a line of two or more words, `_step_matches_line` accepts it; `FillSpec` states it in full |
| Completion.KeyOf | behave.py:188-189 | the dict key: the pattern with the first occurrence of the interior typed words removed (`RemoveFirstSpec` says which text that cuts) |
| Completion.SuggestionFor | behave.py:190-193 | the stored pair: the key with a tab and the keyword, and the stripped snippet of the key; `FillValuesAreSnippets` states its properties |
| Completion.Fill | behave.py:177-193 | the dict the loop over the catalog writes; `FillSpec`, `FillInsert` and `FillIgnoresOtherKeywords` state its keys, values and order independence, and `FillFor` is proved to write it |
| Completion.FillResult | behave.py:147-193 | everything one call of `_fill_completions` writes; `FillResultSpec` states its early-return cases and `FillCompletions` is proved to write it |
| Completion.CollectSpec | behave.py:177-193 | a key is collected exactly when an accepted step has it, with the value computed from the key |
| Commands.SelectItem | behave.py:76-81 | choosing item `idx` inserts nothing exactly when the panel was dismissed (negative index), and otherwise inserts exactly the item at `idx` |
| Commands.FormatStep | behave.py:84 | how an entry is listed: capitalised keyword, a space, the pattern; `FormatStepRoundTrip` and `FormatStepInjective` prove it loses nothing |
| Commands.StepsCommand.Run | behave.py:83-88 | the panel lists every catalogued entry exactly once, formatted as capitalised keyword, a space and the pattern, with no two items equal; the "no steps" status is set exactly when the catalog is empty |
| Commands.FormatStepRoundTrip | behave.py:84 | a listed item, indented as in the dump, parses back to the entry it lists |
| Commands.FormatStepInjective | behave.py:84 | distinct catalog entries are listed as distinct items |
| Commands.CapitalizeLower | behave.py:84 | a lower-case keyword without spaces survives `capitalize()` and then `lower()` |
| Commands.SplitExtJoin | behave.py:219 | the root and the extension from `splitext` put back together give the file name |
| Commands.SplitExtShape | behave.py:219 | a non-empty extension is a dot followed by neither a dot nor a slash |
| Commands.SplitExt | behave.py:219 | POSIX `os.path.splitext`; `SplitExtJoin` and `SplitExtShape` state that it splits the name into a root and an extension that starts with its only dot |
| Commands.IsStepImplFile | behave.py:218-222 | `is_step_impl_file`; `IsStepImplFileSpec` characterises it without `splitext` |
| Commands.IsStepImplFileSpec | behave.py:218-222 | a file is a step implementation exactly when its name ends in `.py`, the part before mentions `steps`, and the last path component before `.py` is not made of dots only |
| PyText.SplitJoin | behave.py:26-29 | joining the pieces of `split(sep)` with the separator gives back the text |
| PyText.RemoveFirstSpec | behave.py:189 | `replace(x, '', 1)` cuts out the occurrence of `x` that `find` reports and keeps the rest, and leaves the text as it is when `x` does not occur |
| PyText.FindFirst | behave.py:189 | the occurrence `find` reports is the first one |
| PyText.StripEnds | behave.py:149 | a stripped line neither starts nor ends with whitespace |
| PyText.SplitWsTwoWords | behave.py:150 | whitespace between two non-whitespace characters makes `split()` return at least two words |

## Left out

- `get_steps` (behave.py:33-55) spawns the behave process at a hard-coded
  path and decodes its output as UTF-8. Neither is modelled. The outcome of
  the run is the parameter `ToolRun` of `Behave.Store.Refresh`. It is
  either completed or failed, with output that is already decoded.
- Behave.Store.Refresh: `Failed` models the `except CalledProcessError`
  branch (behave.py:47-55), which the code as written cannot reach.
  `Popen(...).communicate()` never raises `CalledProcessError`, so a
  behave run that reports failure returns its stdout normally and is
  `Completed(stdout)` here: it is indexed and the catalog is never
  cleared.
  - A missing executable raises `OSError` instead, which escapes
    `get_steps` with `steps` unchanged. That exception path is not
    modelled.
- Behave.Store.Refresh does not model the side effects of the failure
  branch: the diagnostic `print`, the status-bar message, setting
  `failed_to_parse`, and re-raising the exception.
- The `print` diagnostics in `__init__` and `_fill_completions` are not
  modelled (behave.py:102, 171-174).
- Sublime Text API calls belong to the host editor and are not modelled:
  - `view.sel`/`view.insert` insertion (behave.py:69-71);
  - `show_quick_panel`, `run_command` and `set_status` (behave.py:78-93);
  - `on_modified` and its auto-complete commands and timers
    (behave.py:109-138);
  - `_is_gherkin_scope` (behave.py:204-216);
  - `on_post_save_async` (behave.py:224-230), apart from the re-indexing
    it triggers, which is `Behave.Store.IndexSteps`.
- Behave.Store.IndexSteps, Behave.Store.FillFor and
  Commands.StepsCommand.Run are each modelled as one atomic step. Threads
  are not modelled. `on_post_save_async` (behave.py:224-230) runs
  `index_steps` on Sublime Text's async worker thread, so `steps.add`
  (behave.py:29) can overlap the main thread's loops over `steps` in
  `_fill_completions` (behave.py:177) and in `BehaveStepsCommand.run`
  (behave.py:84). Python then raises `RuntimeError` (set changed size
  during iteration). The contracts of the three members hold only for
  calls that do not overlap.
- Region handling is replaced. `view.line`, `split_by_newlines` and
  `all_lines.index` become a sequence of lines and the index of the
  current line.
- Commands.SelectItem returns the item that would be inserted; the
  `behave_insert_step` command it triggers is not modelled.
- `__init__` (behave.py:100-102) is not modelled separately. It indexes
  once; `Behave.Store.IndexSteps` on a new store models that.
- Iteration order of the Python set and dict is not modelled. Loops over
  `steps` and `completions` visit their elements in an order the model
  does not fix (`:|`). Behave.Store.QueryCompletions and
  Commands.StepsCommand.Run state their results up to that order, through
  a ghost sequence of the keys or entries visited.
- Character classes are ASCII only:
  - `lower()` and `capitalize()` change ASCII letters only;
  - the regex class `\w` is `[A-Za-z0-9_]`.
  Python applies the Unicode case mapping and the Unicode word class.
  Whitespace follows `str.isspace()` in full.
- Commands.SplitExt follows the POSIX rules of `os.path.splitext`; the
  Windows rules, with `\` and drive letters, are not modelled.
- Two source loops are split into a loop method and a method for one
  iteration: `Behave.Store.IndexSteps` with `Behave.Store.ReadLine` for
  `index_steps`, and `Behave.Store.FillFor` with `Behave.Store.Offer` for
  the fill loop. `Behave.LastKeyword` holds the whole reverse scan in one
  method. The statements are the source's. They are grouped so that each
  part is proved on its own.
