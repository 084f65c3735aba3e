/**
  The command line of bib2csv: the input paths (zero or more, with
  "sample.bib" declared as the default), the optional output path and the
  headless flag. The program as written (`Program`) walks the characters of
  the default when no path is given; `ProgramIntended` is the same program
  with the default the declaration evidently means, the list of that one file.
 */
module Args {
  import opened Wrappers
  import opened Row
  import opened Driver
  import Journals

  const DefaultInput: string := "sample.bib"

  /**
    The input paths as the argument declaration yields them: with no path on
    the command line the parser hands back the default string itself rather
    than a list holding it, so the loop walks its characters one by one.
   */
  function InputPathsAsWritten(given: seq<string>): seq<string>
  {
    if given == [] then seq(|DefaultInput|, i requires 0 <= i < |DefaultInput| => [DefaultInput[i]]) else given
  }

  /**
    With no input given, the loop visits the ten one-character paths "s",
    "a", ... : a path neither given nor the default, and never the default.
   */
  lemma DefaultSplitIntoCharacters()
    ensures |InputPathsAsWritten([])| == 10
    ensures InputPathsAsWritten([])[0] == "s"
    ensures forall p :: p in InputPathsAsWritten([]) ==> |p| == 1
    ensures DefaultInput !in InputPathsAsWritten([])
  {
    var r := InputPathsAsWritten([]);
    assert forall p :: p in r ==> |p| == 1;
  }

  /** The input paths as intended: the given ones, or the default file alone. */
  function InputPaths(given: seq<string>): seq<string>
  {
    if given == [] then [DefaultInput] else given
  }

  /**
    The loop visits at least one path; each is one the user gave or the
    default file, which is visited when nothing was given; and every given
    path is visited.
   */
  lemma PathsAreNamedFiles(given: seq<string>)
    ensures |InputPaths(given)| >= 1
    ensures forall p :: p in InputPaths(given) ==> p in given || p == DefaultInput
    ensures given == [] ==> DefaultInput in InputPaths(given)
    ensures forall p :: p in given ==> p in InputPaths(given)
  {
  }

  /** The two readings differ only when no input is given. */
  lemma InputPathsDiffer(given: seq<string>)
    ensures InputPaths(given) == InputPathsAsWritten(given) <==> given != []
  {
    if given == [] {
      assert |InputPathsAsWritten([])| == 10;
    }
  }

  /** The inputs at the given paths, in order, each with what the parser makes of the file there. */
  function SourcesAt(paths: seq<string>, parse: string -> Option<seq<Entry>>): seq<Source>
  {
    seq(|paths|, i requires 0 <= i < |paths| => Source(paths[i], parse(paths[i])))
  }

  /**
    The inputs the loop visits, as written: the given paths in order, or, with
    none given, ten one-character paths starting with "s" and never
    "sample.bib"; each is paired with what the parser makes of it.
   */
  function Sources(given: seq<string>, parse: string -> Option<seq<Entry>>): (r: seq<Source>)
    ensures forall i :: 0 <= i < |r| ==> r[i].entries == parse(r[i].path)
    ensures given == [] ==> |r| == 10 && r[0] == Source("s", parse("s"))
    ensures given == [] ==> forall i :: 0 <= i < |r| ==> |r[i].path| == 1 && r[i].path != DefaultInput
    ensures given != [] ==> |r| == |given| && forall i :: 0 <= i < |r| ==> r[i] == Source(given[i], parse(given[i]))
  {
    DefaultSplitIntoCharacters();
    SourcesAt(InputPathsAsWritten(given), parse)
  }

  /**
    The inputs the loop would visit with the corrected default: "sample.bib"
    alone when nothing is given, and otherwise exactly the inputs as written.
   */
  function SourcesIntended(given: seq<string>, parse: string -> Option<seq<Entry>>): (r: seq<Source>)
    ensures given == [] ==> r == [Source(DefaultInput, parse(DefaultInput))]
    ensures given != [] ==> r == Sources(given, parse)
  {
    SourcesAt(InputPaths(given), parse)
  }

  /** A full invocation as written: parse the inputs the loop visits, then convert them. */
  function Invoke(given: seq<string>, output: Option<string>, headless: bool, derive: string -> string,
                  parse: string -> Option<seq<Entry>>, files: map<string, string>,
                  table: map<string, string>): (map<string, string>, Option<RunError>)
  {
    Bib2Csv(output, headless, derive, Sources(given, parse), files, table)
  }

  /** A full invocation with the corrected default. */
  function InvokeIntended(given: seq<string>, output: Option<string>, headless: bool, derive: string -> string,
                          parse: string -> Option<seq<Entry>>, files: map<string, string>,
                          table: map<string, string>): (map<string, string>, Option<RunError>)
  {
    Bib2Csv(output, headless, derive, SourcesIntended(given, parse), files, table)
  }

  /** The program as written, with its own abbreviation table. */
  function Program(given: seq<string>, output: Option<string>, headless: bool, derive: string -> string,
                   parse: string -> Option<seq<Entry>>, files: map<string, string>): (map<string, string>, Option<RunError>)
  {
    Invoke(given, output, headless, derive, parse, files, Journals.Abbreviations)
  }

  /** The program with the corrected default, with its own abbreviation table. */
  function ProgramIntended(given: seq<string>, output: Option<string>, headless: bool, derive: string -> string,
                           parse: string -> Option<seq<Entry>>, files: map<string, string>): (map<string, string>, Option<RunError>)
  {
    InvokeIntended(given, output, headless, derive, parse, files, Journals.Abbreviations)
  }

  /**
    As written, with no input given the program looks for a file named "s";
    when there is none it stops there with that path, even if "sample.bib"
    exists, and without `-o` it leaves behind the emptied derived output of "s".
   */
  lemma MissingDefaultStops(output: Option<string>, headless: bool, derive: string -> string,
                            parse: string -> Option<seq<Entry>>, files: map<string, string>)
    requires parse("s").None?
    ensures Program([], output, headless, derive, parse, files).1 == Some(MissingInput("s"))
    ensures !Explicit(output) ==>
      var fin := Program([], output, headless, derive, parse, files).0;
      derive("s") in fin && fin[derive("s")] == ""
  {
    var emit := e => Emit(e, Journals.Abbreviations);
    var srcs := Sources([], parse);
    DefaultSplitIntoCharacters();
    assert srcs[0] == Source("s", None);
    assert AllConvert(srcs[..0], emit);
    StopsAtMissing(State(true, headless, files), output, derive, srcs, emit, 0);
  }

  /**
    With the corrected default, no input given and no "sample.bib" present,
    the program stops at "sample.bib".
   */
  lemma MissingDefaultStopsIntended(output: Option<string>, headless: bool, derive: string -> string,
                                    parse: string -> Option<seq<Entry>>, files: map<string, string>)
    requires parse(DefaultInput).None?
    ensures ProgramIntended([], output, headless, derive, parse, files).1 == Some(MissingInput(DefaultInput))
  {
    var emit := e => Emit(e, Journals.Abbreviations);
    var srcs := SourcesIntended([], parse);
    assert srcs[0] == Source(DefaultInput, None);
    assert AllConvert(srcs[..0], emit);
    StopsAtMissing(State(true, headless, files), output, derive, srcs, emit, 0);
  }
}
