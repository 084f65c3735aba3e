# bib2csv in Dafny

bib2csv turns BibTeX bibliographies into tab-separated text that can be
pasted into a spreadsheet. Each entry gives one line with five cells:

- the authors, quoted, with punctuation removed;
- the year;
- the title without its outer braces;
- the journal cell, quoted: the journal name (with `\code` abbreviations
  expanded through a fixed table) followed by the volume, number, pages
  and month sub-parts;
- the doi.

The first four cells are each closed by a space and a tab. The doi cell is
closed by a newline.

The driver loop decides where the rows go and when the header line is
written. With `-o`, every input goes to one file, which is removed before
the first input, and only the first input may write the header. Without
`-o`, each input gets its own freshly removed output file, whose name is
derived from the input's name.

The model is split into these modules:

- `Wrappers` (wrappers.dfy): `Option` and `Result`.
- `Text` (text.dfy): the Python string operations the formatter relies on:
  - deletion of `string.punctuation`;
  - `repr` and `str` of a list of strings;
  - `str.join`;
  - a splitter used to read rows back.
- `Journals` (journals.dfy): the 55-entry abbreviation table.
- `Row` (row.dfy): the per-entry row formatter, including its two failure
  modes:
  - an unknown abbreviation raises `KeyError`;
  - an empty journal field raises `IndexError`.
- `Driver` (driver.dfy): the output-selection loop. Files are a map from
  path to contents.
- `Args` (args.dfy): the input-path list the argument parser yields.
- `Samples` (samples.dfy): worked cases of the formatter on small entries.

A failing entry is modelled as the source behaves. The cells written
before the journal lookup stay in the output, and the run stops.

## Model

| member | source | states |
|---|---|---|
| Text.PunctuationRanges | bib2csv.py:85 | the four ASCII ranges used by the model hold exactly the 32 characters of `string.punctuation` |
| Text.StripPunctuation | bib2csv.py:102 | the translated string is no longer than the input; it holds only non-punctuation characters taken from the input; it is the input itself when the input has no punctuation |
| Text.StripConcat | bib2csv.py:102 | deleting punctuation distributes over concatenation |
| Text.StripListStr | bib2csv.py:101-102 | deleting punctuation from `str(names)` leaves each name stripped, separated by single spaces: brackets, quotes, commas and escapes all vanish |
| Text.Join | bib2csv.py:132 | Python's `sep.join(parts)`; no contract of its own, read through Text.JoinPrefix, Text.JoinMerge and Text.JoinAvoids, and through the splitter's round trips Text.SplitJoin and Text.JoinSplit |
| Text.Repr | bib2csv.py:101 | Python's `repr` of a string: single quotes unless the string holds a single quote and no double quote, with the backslash and the chosen quote escaped; no contract of its own, read through Text.StripListStr |
| Text.ListStr | bib2csv.py:101 | `str` of a list of strings: the `repr`s, ", "-joined inside brackets; no contract of its own, read through Text.StripListStr |
| Row.AccumulateAuthors | bib2csv.py:97-107 | the author loop, opening quote first and ", " between names; no contract of its own, read through Row.AccumulateIsJoin |
| Row.AuthorCell | bib2csv.py:97-107 | the author cell, empty without an author role; no contract of its own, read through Row.AuthorCellQuoted, Row.AuthorCellDegenerate and Row.AuthorCellAvoids |
| Row.DisplayName | bib2csv.py:101-102 | one author's text: `str` of the first names, a space, `str` of the last names, punctuation deleted; no contract of its own, read through Row.DisplayNameParts |
| Row.DisplayNameParts | bib2csv.py:101-102 | an author's display text is the stripped first names, a space, then the stripped last names |
| Row.AccumulateIsJoin | bib2csv.py:100-106 | once the opening quote is written, the author loop's accumulation equals a ", "-join of the display names |
| Row.AuthorCellQuoted | bib2csv.py:99-107 | with at least one author, the author cell is the ", "-joined display names inside one pair of double quotes |
| Row.AuthorCellDegenerate | bib2csv.py:99-107 | without an author role the cell is empty; with an empty author list only the closing quote is written |
| Row.AuthorCellAvoids | bib2csv.py:99-107 | a character that is in no name and is not a quote, comma or space never appears in the author cell |
| Row.Inner | bib2csv.py:114-118 | Python's `title[1:-1]`, empty for strings shorter than two characters; no contract of its own, read through Row.TitleUnwraps and Row.TitleCellLength |
| Row.TitleCell | bib2csv.py:114-118 | the title cell, empty without a title field; no contract of its own, read through Row.TitleCellLength |
| Row.TitleUnwraps | bib2csv.py:114-117 | a title wrapped in any two characters loses exactly those two characters |
| Row.TitleCellLength | bib2csv.py:114-117 | the title cell is two characters shorter than the title, or empty for titles shorter than two characters (Python slicing) |
| Row.ResolveJournal | bib2csv.py:121-126 | journal resolution succeeds exactly when the name is non-empty and, if it starts with a backslash, its code is in the table |
| Row.ResolveExpands | bib2csv.py:124-125 | backslash plus a table code resolves to the table's full name |
| Row.ResolveUnknown | bib2csv.py:124-125 | backslash plus a code missing from the table fails with that code |
| Row.ResolveVerbatim | bib2csv.py:124-126 | a non-empty name not starting with a backslash is kept verbatim |
| Row.MetaPartsFrom | bib2csv.py:128-130 | the sub-part loop over the volume, number, pages and month keys; no contract of its own, read through Row.MetaPartsFromSpec |
| Row.SubPart | bib2csv.py:130 | one sub-part: the key's first letter, a colon and the value; no contract of its own, read through Row.MetaPartsFromSpec |
| Row.MetaPart | bib2csv.py:129-130 | one iteration of the sub-part loop: the sub-part when the key is present, nothing otherwise; no contract of its own, read through Row.MetaPartsUnrolled |
| Row.MetaParts | bib2csv.py:128-130 | the sub-part loop as the journal cell uses it, written out over volume, number, pages and month; no contract of its own, read through Row.MetaPartsUnrolled, Row.MetaPartsEmpty and Row.JournalCellParts |
| Row.PresentFromSpec | bib2csv.py:128-130 | the positions the sub-part loop visits are exactly the present keys, in strictly increasing order |
| Row.MetaPartsFromSpec | bib2csv.py:128-130 | the i-th journal sub-part is "first letter of the i-th present key, colon, value", so the sub-parts follow the order volume, number, pages, month |
| Row.MetaPartsUnrolled | bib2csv.py:128-130 | the loop over the four keys equals its four iterations in order |
| Row.MetaPartsEmpty | bib2csv.py:128-130 | an entry with none of the four keys has no sub-part |
| Row.JournalHead | bib2csv.py:120-126 | the journal name part succeeds exactly when the journal field is absent or resolvable, and holds one name when the field is present and none otherwise; that name is the table's full name for a backslash code and the field itself otherwise |
| Row.JournalCell | bib2csv.py:120-134 | the journal cell exists exactly when the journal is resolvable; it is always wrapped in double quotes; it is `""` for an entry without journal-related fields |
| Row.JournalCellParts | bib2csv.py:120-134 | a resolvable journal cell is the resolved name followed by one sub-part per present key, in key order, ", "-joined inside double quotes; the i-th sub-part is the first letter of the i-th present key, a colon and its value |
| Row.FieldOrEmpty | bib2csv.py:110-111 | a field's value, or nothing when the entry lacks it, as the year and doi writes do; no contract of its own, read through Row.RowReadsBack and Row.RowEndsWithDoi |
| Row.LeadingCells | bib2csv.py:97-118 | the author, year and title cells with their separators, written before the journal lookup; no contract of its own, read through Row.RowStartsWithLeadingCells and Driver.EmitOutcome |
| Row.Render | bib2csv.py:107-139 | the bytes of a row from its five cells; no contract of its own, read through Row.RenderIsJoin, Row.ParseRender and Row.RenderParse |
| Row.CellsOf | bib2csv.py:94-139 | the five cells of an entry exist exactly when its journal resolves |
| Row.FormatRow | bib2csv.py:94-139 | a row is produced exactly when the journal resolves, and it ends with a newline |
| Row.RenderIsJoin | bib2csv.py:107-139 | a row is five pieces joined by tabs, the first four ending in a space, then a newline |
| Row.ParseRender | bib2csv.py:107-139 | reading a row back gives its five cells when no cell holds a tab |
| Row.RenderParse | bib2csv.py:107-139 | any line that reads as a row renders back to exactly that line |
| Row.RowStartsWithLeadingCells | bib2csv.py:107-118 | a row starts with the author, year and title cells written before the journal lookup |
| Row.NoAuthorsRowStart | bib2csv.py:99-108 | an entry without authors gives a row that starts with " \t" |
| Row.RowEndsWithDoi | bib2csv.py:135-139 | every row ends with " \t", the doi (empty when absent) and a newline |
| Row.JournalCellTabFree | bib2csv.py:120-134 | without tabs in the field values and table names, the journal cell holds no tab |
| Row.RowReadsBack | bib2csv.py:94-139 | without tabs in the input, a row reads back as exactly the author, year, title, journal and doi cells |
| Driver.Emit | bib2csv.py:94-139 | what one entry leaves in the output; no contract of its own, read through Driver.EmitOutcome |
| Driver.Rows | bib2csv.py:94-139 | the entry loop, ended by the first failing entry; no contract of its own, read through Driver.RowsAppend, Driver.RowsErrorFree and Driver.RowsFailure |
| Driver.EmitOutcome | bib2csv.py:94-139 | an entry's output always starts with its author, year and title cells; it carries no error exactly when the journal resolves; an empty journal field gives the index error and only a missing backslash code gives the key error, for that code; after an error only the leading cells are written |
| Driver.RowsAppend | bib2csv.py:94-139 | the rows of a concatenation of entries that all format are the rows of each part in turn |
| Driver.RowsErrorFree | bib2csv.py:94-139 | the entry loop finishes without an error exactly when every entry formats |
| Driver.RowsFailure | bib2csv.py:94-139 | an error comes from the first failing entry; the output holds the rows before it followed by what the failing entry wrote |
| Driver.HeaderUnless | bib2csv.py:79-82 | the header line unless headless, nothing otherwise; no contract of its own, read through Driver.ExplicitOutputHeaderOnce and Driver.DerivedOutputsSeparate |
| Driver.Convert | bib2csv.py:79-82 | one conversion: the header unless headless, then the rows; no contract of its own, read through Driver.ExplicitStep and Driver.DerivedOutputsSeparate |
| Driver.Select | bib2csv.py:156-172 | the choice of output file and its removal; no contract of its own, read through Driver.ExplicitStep and Driver.RunFromTouchesOnlyTargets |
| Driver.Step | bib2csv.py:156-172 | one loop iteration; no contract of its own, read through Driver.ExplicitStep |
| Driver.RunFrom | bib2csv.py:156-172 | the loop, ended by the first error; no contract of its own, read through Driver.LaterInputsAppendRows and Driver.StopsAtMissing |
| Driver.Run | bib2csv.py:156-172 | a whole run from the files present, with `first_run` set; no contract of its own, read through Driver.ExplicitOutputHeaderOnce, Driver.ExplicitOutputIgnoresOldFiles and Driver.ExplicitOutputRerun |
| Driver.ExplicitStep | bib2csv.py:159-167 | with `-o`, the first input starts from an emptied file and writes the header unless headless; a later input only appends its rows |
| Driver.LaterInputsAppendRows | bib2csv.py:159-172 | for later inputs that all convert, the `-o` file grows by the rows of each input, in order, and the run ends without error |
| Driver.Appended | bib2csv.py:73-139 | what later inputs add to the `-o` file: each input's rows until a missing input or a failing entry stops the run; no contract of its own, read through Driver.LaterInputsAppend and Driver.AppendedAllRows |
| Driver.AppendedAllRows | bib2csv.py:94-139 | when every input converts, what the inputs add is all their rows |
| Driver.LaterInputsAppend | bib2csv.py:159-172 | after the first input, the `-o` file only grows, by what the further inputs add, also when the run stops at a missing input or a failing entry |
| Driver.ExplicitOutputContents | bib2csv.py:156-172 | with `-o`, after any run the file is empty if the first input is missing, and otherwise holds the header (unless headless) once at the top, then what the inputs add up to where the run stopped |
| Driver.ExplicitOutputHeaderOnce | bib2csv.py:156-172 | with `-o` and inputs that all convert, the output is the header at most once (never when headless) followed by every input's rows in input order |
| Driver.Bib2Csv | bib2csv.py:156-172 | the driver loop over the row formatter with a given abbreviation table; no contract of its own, read through Driver.Bib2CsvHeaderOnce |
| Driver.Bib2CsvHeaderOnce | bib2csv.py:79-82 | the same for the real formatter: when every journal resolves, the header appears once at the top, then all rows |
| Driver.RunFromAgrees | bib2csv.py:159-167 | with `-o`, what the run does to the output depends only on first_run, headless and the output's current contents |
| Driver.ExplicitOutputIgnoresOldFiles | bib2csv.py:162-165 | with `-o`, and inputs read independently of the files (no output path is also an input path), the output and error after a run do not depend on the files present before it |
| Driver.ExplicitOutputRerun | bib2csv.py:156-172 | running the same `-o` conversion twice leaves the output as one run does: no duplicated rows |
| Driver.RunFromTouchesOnlyTargets | bib2csv.py:168-172 | without `-o`, a run leaves alone every file that is not a derived output of one of its inputs |
| Driver.DerivedOutputsSeparate | bib2csv.py:168-172 | without `-o`, with distinct derived names and inputs that all convert, each input's output holds the header (unless headless) and that input's rows only |
| Driver.EmptyOutputIsDerived | bib2csv.py:159 | an empty `-o` value behaves exactly as if no output was given |
| Driver.StopsAtMissing | bib2csv.py:73-77 | a missing input ends the run with its path once the earlier inputs have converted; later inputs are never read; its output file exists, and without `-o` it is its own emptied derived file |
| Driver.ResolvableConverts | bib2csv.py:120-126 | inputs whose journals all resolve convert without error |
| Args.DefaultSplitIntoCharacters | bib2csv.py:146 | with no input path, the parser's string default makes the loop visit ten one-character paths and never "sample.bib" |
| Args.PathsAreNamedFiles | bib2csv.py:146 | with the corrected default, every visited path was given or is the default file; the default is visited when nothing was given; every given path is visited |
| Args.InputPathsDiffer | bib2csv.py:146 | the written and corrected path lists agree exactly when some input path is given |
| Args.InputPathsAsWritten | bib2csv.py:146 | the path list as the argument declaration yields it: the given paths, or the characters of the string default; no contract of its own, read through Args.DefaultSplitIntoCharacters |
| Args.InputPaths | bib2csv.py:146 | the corrected path list: the given paths, or the default file alone; no contract of its own, read through Args.PathsAreNamedFiles and Args.InputPathsDiffer |
| Args.Sources | bib2csv.py:146-157 | the inputs the loop visits as written: with paths given, exactly those paths in order; with none, ten one-character paths starting with "s" and never "sample.bib"; each paired with what parsing it yields |
| Args.SourcesIntended | bib2csv.py:146-157 | the corrected program's inputs: "sample.bib" alone when nothing is given, and otherwise the same inputs as the program as written |
| Args.Invoke | bib2csv.py:146-172 | the program as written for any abbreviation table; no contract of its own, read through Args.MissingDefaultStops |
| Args.InvokeIntended | bib2csv.py:146-172 | the corrected program for any abbreviation table; no contract of its own, read through Args.MissingDefaultStopsIntended |
| Args.Program | bib2csv.py:10-66 | the whole program as written, run with the 55-entry abbreviation table; no contract of its own, read through Args.MissingDefaultStops |
| Args.ProgramIntended | bib2csv.py:146-172 | the corrected program, run with the 55-entry abbreviation table; no contract of its own, read through Args.MissingDefaultStopsIntended |
| Args.MissingDefaultStops | bib2csv.py:146-172 | as written, with no input given and no file named "s", the program stops reporting "s" as missing, whether or not "sample.bib" exists; without `-o` it leaves an emptied derived output for "s" |
| Args.MissingDefaultStopsIntended | bib2csv.py:146-172 | with the corrected default, no input given and no "sample.bib", the program stops reporting "sample.bib" as missing |
| Samples.AuthorSample | bib2csv.py:99-107 | the authors Jane Doe and J.R. Smith give the cell `"Jane Doe, JR Smith"` |
| Samples.TitleSample | bib2csv.py:114-117 | the title `{A Study of X}` gives `A Study of X` |
| Samples.JournalSample | bib2csv.py:120-134 | `\apj` with volume 12 and pages 45-50 gives `"Astrophysical Journal, v:12, p:45-50"` |
| Samples.EmptyJournalSample | bib2csv.py:127-134 | an entry without journal-related fields gives `""` |

## Left out

- BibTeX parsing is not modelled. Entries arrive already parsed.
  - Field keys are taken in lower case; the parser's case-insensitive field
    lookup is not modelled.
  - Entries come in file order.
  - A person carries only the first-name and last-name lists, the only
    parts the formatter reads.
- Text.Repr: control and non-printable characters are escaped by Python as
  `\t`, `\xNN` and the like; the model escapes only the backslash and the
  chosen quote. In Python such a character in a name leaves letters such as
  `x07` in the author cell after punctuation is deleted, so
  `Row.AuthorCellAvoids` and `Text.StripListStr` hold for the modelled `repr`
  only.
- Inputs are read through `parse`, fixed before the run. An output path
  (derived or `-o`) that is also an input path is not modelled: in the
  source, removing and reopening that output empties the input before it is
  parsed.
- File system and I/O are abstracted.
  - Files are a map from path to contents.
  - `os.path.isfile` is the `None` entries of a `Source`.
  - Opening a file for appending creates it empty.
  - Partial writes before an exception are kept in the output. Buffering
    and flushing are not modelled.
  - The message printed before `sys.exit` is not modelled.
- `os.path.splitext(input)[0] + '.csv'` is the `derive` parameter.
  Path-string manipulation is left out, and `DerivedOutputsSeparate`
  assumes distinct derived names.
- Argument parsing is not modelled beyond the input-path list.
  - `-o` is an `Option<string>`.
  - `--headless` is a boolean.
- The journal table is a constant map, and the formatter's lemmas are
  stated for any table.
- Samples.JournalSample: stated for any table holding the `apj` entry
  rather than for the constant table itself, because a lookup in the
  55-key literal is too costly for the solver.
- An empty author list writes a lone closing quote. This is modelled as
  written (`Row.AuthorCellDegenerate`), although the parser never yields an
  empty role.
- The `-o` file is removed before the first input of every run
  (bib2csv.py:162-165), so a rerun leaves the same output
  (`Driver.ExplicitOutputRerun`).

## Findings

| source | as written | input that shows it | evidently intended | confidence | as-written member | corrected member |
|---|---|---|---|---|---|---|
| bib2csv.py:146 | the positional argument declares `nargs='*'` with `default="sample.bib"`; with no path given, argparse returns the default string itself, so the loop iterates over its characters | running the tool with no input path: it visits "s", reports that the file does not exist and exits, after creating `s.csv` | convert `sample.bib` when no input path is given | not executed; high (documented argparse behaviour for a non-list default) | Args.MissingDefaultStops | Args.MissingDefaultStopsIntended |
