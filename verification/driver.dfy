/**
  The driver of bib2csv: for each input it selects the output file, clears
  it when needed, writes the header unless running headless, and appends one
  row per entry. With an explicit output path every input goes to that one
  file and only the first input may write the header; without it each input
  gets its own freshly cleared file.

  Files are modelled as a map from path to contents; a path absent from the
  map is a file that does not exist.
 */
module Driver {
  import opened Wrappers
  import opened Row

  /** The header line: note the tab comes before the space here, unlike in the rows. */
  const Header: string := "author\t year\t title\t journal\t doi\n"

  /** An input path and what the parser made of it; None when no regular file is at the path. */
  datatype Source = Source(path: string, entries: Option<seq<Entry>>)

  datatype RunError =
    | MissingInput(path: string)      // the existence check prints a message and exits
    | BadEntry(error: FormatError)    // an exception escapes the row formatter

  /** Text appended to the output, and the error that cut it short, if any. */
  datatype Written = Written(text: string, error: Option<FormatError>)

  /**
    What the formatter leaves in the output for one entry: its row, or, when
    the row fails, the cells written before its journal was looked at.
   */
  function Emit(e: Entry, table: map<string, string>): Written
  {
    match FormatRow(e, table)
    case Success(row) => Written(row, None)
    case Failure(err) => Written(LeadingCells(e), Some(err))
  }

  /**
    The text the entries leave in the output, in order; the first entry whose
    emission carries an error ends it. `emit` is the per-entry formatter.
   */
  function Rows(entries: seq<Entry>, emit: Entry -> Written): Written
  {
    if entries == [] then Written("", None)
    else
      var w := emit(entries[0]);
      if w.error.Some? then w
      else
        var rest := Rows(entries[1..], emit);
        Written(w.text + rest.text, rest.error)
  }

  predicate AllEmit(entries: seq<Entry>, emit: Entry -> Written)
  {
    forall i :: 0 <= i < |entries| ==> emit(entries[i]).error.None?
  }

  /** The rows of a list that emits completely are followed seamlessly by the rows of what comes after. */
  lemma {:induction false} RowsAppend(a: seq<Entry>, b: seq<Entry>, emit: Entry -> Written)
    requires AllEmit(a, emit)
    ensures Rows(a + b, emit) == Written(Rows(a, emit).text + Rows(b, emit).text, Rows(b, emit).error)
  {
    if a == [] {
      assert a + b == b;
    } else {
      assert (a + b)[0] == a[0];
      assert (a + b)[1..] == a[1..] + b;
      RowsAppend(a[1..], b, emit);
    }
  }

  /** No error is reported exactly when every entry emits without one. */
  lemma {:induction false} RowsErrorFree(entries: seq<Entry>, emit: Entry -> Written)
    ensures Rows(entries, emit).error.None? <==> AllEmit(entries, emit)
  {
    if entries != [] {
      RowsErrorFree(entries[1..], emit);
      if emit(entries[0]).error.None? {
        assert forall i :: 1 <= i < |entries| ==> entries[i] == entries[1..][i - 1];
      }
    }
  }

  /**
    Entry `i` is where the emission stops: the entries before it emit
    completely, its error is the one reported, and the text is theirs
    followed by what entry `i` left.
   */
  predicate FailsAt(entries: seq<Entry>, emit: Entry -> Written, i: int)
  {
    && 0 <= i < |entries|
    && AllEmit(entries[..i], emit)
    && emit(entries[i]).error == Rows(entries, emit).error
    && Rows(entries, emit).text == Rows(entries[..i], emit).text + emit(entries[i]).text
  }

  /** Where the tail stops, the whole list stops one position later, when its first entry emits. */
  lemma FailsAtCons(entries: seq<Entry>, emit: Entry -> Written, j: int)
    requires entries != [] && emit(entries[0]).error.None? && FailsAt(entries[1..], emit, j)
    ensures FailsAt(entries, emit, j + 1)
  {
    var tail := entries[1..];
    var prefix := entries[..j + 1];
    assert prefix == [entries[0]] + tail[..j];
    assert AllEmit(prefix, emit);
    RowsAppend([entries[0]], tail[..j], emit);
    assert Rows([entries[0]], emit).text == emit(entries[0]).text;
  }

  /** An error comes from the first entry that fails. */
  lemma {:induction false} RowsFailure(entries: seq<Entry>, emit: Entry -> Written)
    requires Rows(entries, emit).error.Some?
    ensures exists i :: FailsAt(entries, emit, i)
  {
    if emit(entries[0]).error.Some? {
      assert entries[..0] == [];
      assert FailsAt(entries, emit, 0);
    } else {
      RowsFailure(entries[1..], emit);
      var j :| FailsAt(entries[1..], emit, j);
      FailsAtCons(entries, emit, j);
    }
  }

  function HeaderUnless(headless: bool): string
  {
    if headless then "" else Header
  }

  /** What one conversion appends once its input is known to exist: the header unless headless, then the rows. */
  function Convert(entries: seq<Entry>, headless: bool, emit: Entry -> Written): Written
  {
    var rows := Rows(entries, emit);
    Written(HeaderUnless(headless) + rows.text, rows.error)
  }

  /** The driver's loop state: `first_run`, the headless flag, and the file system. */
  datatype State = State(firstRun: bool, headless: bool, files: map<string, string>)

  /** Contents of a file; opening a missing file for appending creates it empty. */
  function Contents(files: map<string, string>, path: string): string
  {
    if path in files then files[path] else ""
  }

  /** An output path given on the command line counts only when it is not empty. */
  predicate Explicit(output: Option<string>)
  {
    output.Some? && output.value != ""
  }

  /**
    The output file for one input and the state once it is prepared. An
    explicit output is removed before the first input only; every later input
    runs headless. A derived output is removed before its input.
   */
  function Select(st: State, output: Option<string>, derive: string -> string, path: string): (string, State)
  {
    if Explicit(output) then
      var o := output.value;
      if st.firstRun then (o, st.(firstRun := false, files := st.files - {o}))
      else (o, st.(headless := true))
    else
      var t := derive(path);
      (t, st.(files := st.files - {t}))
  }

  /** One iteration of the driver loop, ending in the conversion of one input. */
  function Step(st: State, output: Option<string>, derive: string -> string, src: Source,
                emit: Entry -> Written): (State, Option<RunError>)
  {
    var (target, st1) := Select(st, output, derive, src.path);
    var existing := Contents(st1.files, target);
    match src.entries
    case None => (st1.(files := st1.files[target := existing]), Some(MissingInput(src.path)))
    case Some(es) =>
      var w := Convert(es, st1.headless, emit);
      (st1.(files := st1.files[target := existing + w.text]),
       if w.error.Some? then Some(BadEntry(w.error.value)) else None)
  }

  /** The driver loop from a given state; the first error ends the run. */
  function RunFrom(st: State, output: Option<string>, derive: string -> string, srcs: seq<Source>,
                   emit: Entry -> Written): (State, Option<RunError>)
    decreases |srcs|
  {
    if srcs == [] then (st, None)
    else
      var (st1, err) := Step(st, output, derive, srcs[0], emit);
      if err.Some? then (st1, err) else RunFrom(st1, output, derive, srcs[1..], emit)
  }

  /** A whole run over the inputs, starting from the files already present. */
  function Run(output: Option<string>, headless: bool, derive: string -> string, srcs: seq<Source>,
               files: map<string, string>, emit: Entry -> Written): (map<string, string>, Option<RunError>)
  {
    var (st, err) := RunFrom(State(true, headless, files), output, derive, srcs, emit);
    (st.files, err)
  }

  // ----------------------------------------------------------------------
  // Properties of whole runs

  /** Every input exists and every one of its entries formats. */
  predicate AllConvert(srcs: seq<Source>, emit: Entry -> Written)
  {
    forall i :: 0 <= i < |srcs| ==> srcs[i].entries.Some? && AllEmit(srcs[i].entries.value, emit)
  }

  lemma AllConvertTail(srcs: seq<Source>, emit: Entry -> Written)
    requires srcs != [] && AllConvert(srcs, emit)
    ensures AllConvert(srcs[1..], emit)
  {
    forall i | 0 <= i < |srcs| - 1
      ensures srcs[1..][i].entries.Some? && AllEmit(srcs[1..][i].entries.value, emit)
    {
      assert srcs[1..][i] == srcs[i + 1];
    }
  }

  /** The rows of an input, empty for a missing one. */
  function RowsOf(src: Source, emit: Entry -> Written): string
  {
    if src.entries.Some? then Rows(src.entries.value, emit).text else ""
  }

  /** The rows of all inputs, input after input. */
  function AllRows(srcs: seq<Source>, emit: Entry -> Written): string
  {
    if srcs == [] then "" else RowsOf(srcs[0], emit) + AllRows(srcs[1..], emit)
  }

  lemma AppendAssoc(a: string, b: string, c: string)
    ensures a + b + c == a + (b + c)
  {
  }

  /** A step that raises nothing hands over to the rest of the loop. */
  lemma RunFromCons(st: State, output: Option<string>, derive: string -> string, srcs: seq<Source>,
                    emit: Entry -> Written)
    requires srcs != [] && Step(st, output, derive, srcs[0], emit).1 == None
    ensures RunFrom(st, output, derive, srcs, emit)
         == RunFrom(Step(st, output, derive, srcs[0], emit).0, output, derive, srcs[1..], emit)
  {
  }

  /**
    One input converted into the explicit output: the first input starts from
    an emptied file and writes the header unless headless; a later input
    appends its rows only.
   */
  lemma ExplicitStep(st: State, o: string, derive: string -> string, src: Source, emit: Entry -> Written)
    requires o != "" && src.entries.Some? && AllEmit(src.entries.value, emit)
    ensures Step(st, Some(o), derive, src, emit).1 == None
    ensures !Step(st, Some(o), derive, src, emit).0.firstRun
    ensures Contents(Step(st, Some(o), derive, src, emit).0.files, o)
         == if st.firstRun then HeaderUnless(st.headless) + RowsOf(src, emit)
            else Contents(st.files, o) + RowsOf(src, emit)
  {
    RowsErrorFree(src.entries.value, emit);
  }

  /** After the first input, the explicit output only grows by the rows of each further input. */
  lemma {:induction false} LaterInputsAppendRows(st: State, o: string, derive: string -> string,
                                                 srcs: seq<Source>, emit: Entry -> Written)
    requires o != "" && !st.firstRun && AllConvert(srcs, emit)
    ensures RunFrom(st, Some(o), derive, srcs, emit).1 == None
    ensures Contents(RunFrom(st, Some(o), derive, srcs, emit).0.files, o) == Contents(st.files, o) + AllRows(srcs, emit)
    decreases |srcs|
  {
    if srcs != [] {
      var st1 := Step(st, Some(o), derive, srcs[0], emit).0;
      ExplicitStep(st, o, derive, srcs[0], emit);
      AllConvertTail(srcs, emit);
      LaterInputsAppendRows(st1, o, derive, srcs[1..], emit);
      RunFromCons(st, Some(o), derive, srcs, emit);
      assert AllRows(srcs, emit) == RowsOf(srcs[0], emit) + AllRows(srcs[1..], emit);
      AppendAssoc(Contents(st.files, o), RowsOf(srcs[0], emit), AllRows(srcs[1..], emit));
    }
  }

  /**
    With an explicit output and inputs that all convert, the output holds
    the header at most once, at the top (never when headless), followed by
    the rows of every input in input order; whatever the file held before
    the run is gone.
   */
  lemma ExplicitOutputHeaderOnce(o: string, headless: bool, derive: string -> string, srcs: seq<Source>,
                                 files: map<string, string>, emit: Entry -> Written)
    requires o != "" && |srcs| > 0 && AllConvert(srcs, emit)
    ensures Run(Some(o), headless, derive, srcs, files, emit).1 == None
    ensures Contents(Run(Some(o), headless, derive, srcs, files, emit).0, o)
         == HeaderUnless(headless) + AllRows(srcs, emit)
  {
    var st0 := State(true, headless, files);
    var st1 := Step(st0, Some(o), derive, srcs[0], emit).0;
    ExplicitStep(st0, o, derive, srcs[0], emit);
    AllConvertTail(srcs, emit);
    LaterInputsAppendRows(st1, o, derive, srcs[1..], emit);
    RunFromCons(st0, Some(o), derive, srcs, emit);
    assert AllRows(srcs, emit) == RowsOf(srcs[0], emit) + AllRows(srcs[1..], emit);
    AppendAssoc(HeaderUnless(headless), RowsOf(srcs[0], emit), AllRows(srcs[1..], emit));
    assert Run(Some(o), headless, derive, srcs, files, emit).0 == RunFrom(st0, Some(o), derive, srcs, emit).0.files;
  }

  /**
    What the inputs add to the explicit output once the first input is done:
    the rows of each input in turn, until a missing input (which adds
    nothing) or a failing entry (whose rows stop after its leading cells)
    ends the run.
   */
  function Appended(srcs: seq<Source>, emit: Entry -> Written): string
    decreases |srcs|
  {
    if srcs == [] then ""
    else
      match srcs[0].entries
      case None => ""
      case Some(es) =>
        var w := Rows(es, emit);
        if w.error.Some? then w.text else w.text + Appended(srcs[1..], emit)
  }

  /** With all inputs converting, what they add is all their rows. */
  lemma {:induction false} AppendedAllRows(srcs: seq<Source>, emit: Entry -> Written)
    requires AllConvert(srcs, emit)
    ensures Appended(srcs, emit) == AllRows(srcs, emit)
    decreases |srcs|
  {
    if srcs != [] {
      RowsErrorFree(srcs[0].entries.value, emit);
      AllConvertTail(srcs, emit);
      AppendedAllRows(srcs[1..], emit);
    }
  }

  /**
    After the first input, the explicit output only grows, by what the
    further inputs add, whether or not the run ends early.
   */
  lemma {:induction false} LaterInputsAppend(st: State, o: string, derive: string -> string,
                                             srcs: seq<Source>, emit: Entry -> Written)
    requires o != "" && !st.firstRun
    ensures Contents(RunFrom(st, Some(o), derive, srcs, emit).0.files, o) == Contents(st.files, o) + Appended(srcs, emit)
    ensures !RunFrom(st, Some(o), derive, srcs, emit).0.firstRun
    decreases |srcs|
  {
    if srcs != [] {
      var (st1, err) := Step(st, Some(o), derive, srcs[0], emit);
      if err == None {
        var w := Rows(srcs[0].entries.value, emit);
        assert Contents(st1.files, o) == Contents(st.files, o) + w.text;
        LaterInputsAppend(st1, o, derive, srcs[1..], emit);
        RunFromCons(st, Some(o), derive, srcs, emit);
        AppendAssoc(Contents(st.files, o), w.text, Appended(srcs[1..], emit));
      }
    }
  }

  /**
    The explicit output after any run: empty when the first input is
    missing; otherwise the header (unless headless) once, at the top, then
    what the inputs add, up to where the run stopped.
   */
  lemma ExplicitOutputContents(o: string, headless: bool, derive: string -> string, srcs: seq<Source>,
                               files: map<string, string>, emit: Entry -> Written)
    requires o != "" && |srcs| > 0
    ensures srcs[0].entries.None? ==> Contents(Run(Some(o), headless, derive, srcs, files, emit).0, o) == ""
    ensures srcs[0].entries.Some? ==>
      Contents(Run(Some(o), headless, derive, srcs, files, emit).0, o) == HeaderUnless(headless) + Appended(srcs, emit)
  {
    var st0 := State(true, headless, files);
    var (st1, err) := Step(st0, Some(o), derive, srcs[0], emit);
    assert Run(Some(o), headless, derive, srcs, files, emit).0 == RunFrom(st0, Some(o), derive, srcs, emit).0.files;
    if err == None {
      var w := Rows(srcs[0].entries.value, emit);
      assert Contents(st1.files, o) == HeaderUnless(headless) + w.text;
      LaterInputsAppend(st1, o, derive, srcs[1..], emit);
      RunFromCons(st0, Some(o), derive, srcs, emit);
      AppendAssoc(HeaderUnless(headless), w.text, Appended(srcs[1..], emit));
    }
  }

  /** Two states that agree on everything the explicit output depends on. */
  predicate AgreeOn(a: State, b: State, o: string)
  {
    a.firstRun == b.firstRun && a.headless == b.headless && Contents(a.files, o) == Contents(b.files, o)
  }

  /** With an explicit output, the run's effect on that output depends only on the agreed parts of the state. */
  lemma {:induction false} RunFromAgrees(a: State, b: State, o: string, derive: string -> string,
                                         srcs: seq<Source>, emit: Entry -> Written)
    requires o != "" && AgreeOn(a, b, o)
    ensures AgreeOn(RunFrom(a, Some(o), derive, srcs, emit).0, RunFrom(b, Some(o), derive, srcs, emit).0, o)
    ensures RunFrom(a, Some(o), derive, srcs, emit).1 == RunFrom(b, Some(o), derive, srcs, emit).1
    decreases |srcs|
  {
    if srcs != [] {
      var (a1, ea) := Step(a, Some(o), derive, srcs[0], emit);
      var (b1, eb) := Step(b, Some(o), derive, srcs[0], emit);
      assert AgreeOn(a1, b1, o) && ea == eb;
      if ea.None? {
        RunFromAgrees(a1, b1, o, derive, srcs[1..], emit);
      }
    }
  }

  /**
    With an explicit output, the output after a run does not depend on the
    files present before it: the first input clears the output. Running the
    same conversion twice therefore leaves the same output, not duplicated rows.
   */
  lemma ExplicitOutputIgnoresOldFiles(o: string, headless: bool, derive: string -> string, srcs: seq<Source>,
                                      files1: map<string, string>, files2: map<string, string>,
                                      emit: Entry -> Written)
    requires o != "" && |srcs| > 0
    ensures Contents(Run(Some(o), headless, derive, srcs, files1, emit).0, o)
         == Contents(Run(Some(o), headless, derive, srcs, files2, emit).0, o)
    ensures Run(Some(o), headless, derive, srcs, files1, emit).1 == Run(Some(o), headless, derive, srcs, files2, emit).1
  {
    var a := State(true, headless, files1);
    var b := State(true, headless, files2);
    var (a1, ea) := Step(a, Some(o), derive, srcs[0], emit);
    var (b1, eb) := Step(b, Some(o), derive, srcs[0], emit);
    assert AgreeOn(a1, b1, o) && ea == eb;
    if ea.None? {
      RunFromAgrees(a1, b1, o, derive, srcs[1..], emit);
    }
  }

  /** Running a conversion with an explicit output twice leaves the output as one run does. */
  lemma ExplicitOutputRerun(o: string, headless: bool, derive: string -> string, srcs: seq<Source>,
                            files: map<string, string>, emit: Entry -> Written)
    requires o != "" && |srcs| > 0
    ensures var once := Run(Some(o), headless, derive, srcs, files, emit).0;
      Contents(Run(Some(o), headless, derive, srcs, once, emit).0, o) == Contents(once, o)
  {
    var once := Run(Some(o), headless, derive, srcs, files, emit).0;
    ExplicitOutputIgnoresOldFiles(o, headless, derive, srcs, once, files, emit);
  }

  /** The derived output names of the inputs are pairwise different. */
  predicate DistinctTargets(srcs: seq<Source>, derive: string -> string)
  {
    forall i, j :: 0 <= i < j < |srcs| ==> derive(srcs[i].path) != derive(srcs[j].path)
  }

  /** The derived names of the inputs after the first differ pairwise and from the first one's. */
  lemma DistinctTargetsTail(srcs: seq<Source>, derive: string -> string)
    requires srcs != [] && DistinctTargets(srcs, derive)
    ensures DistinctTargets(srcs[1..], derive)
    ensures forall i :: 0 <= i < |srcs[1..]| ==> derive(srcs[1..][i].path) != derive(srcs[0].path)
  {
    forall i, j | 0 <= i < j < |srcs| - 1
      ensures derive(srcs[1..][i].path) != derive(srcs[1..][j].path)
    {
      assert srcs[1..][i] == srcs[i + 1] && srcs[1..][j] == srcs[j + 1];
    }
    forall i | 0 <= i < |srcs| - 1
      ensures derive(srcs[1..][i].path) != derive(srcs[0].path)
    {
      assert srcs[1..][i] == srcs[i + 1];
    }
  }

  /** Without an explicit output, a run only touches the derived outputs of its inputs. */
  lemma {:induction false} RunFromTouchesOnlyTargets(st: State, derive: string -> string, srcs: seq<Source>,
                                                     emit: Entry -> Written, p: string)
    requires forall i :: 0 <= i < |srcs| ==> derive(srcs[i].path) != p
    ensures p in RunFrom(st, None, derive, srcs, emit).0.files <==> p in st.files
    ensures p in st.files ==> RunFrom(st, None, derive, srcs, emit).0.files[p] == st.files[p]
    ensures RunFrom(st, None, derive, srcs, emit).0.headless == st.headless
    decreases |srcs|
  {
    if srcs != [] {
      var (st1, err) := Step(st, None, derive, srcs[0], emit);
      if err.None? {
        RunFromTouchesOnlyTargets(st1, derive, srcs[1..], emit, p);
      }
    }
  }

  /**
    Without an explicit output, when every input converts and the derived
    names differ, each input's own output holds the header (unless headless)
    and that input's rows, whatever was there before.
   */
  lemma {:induction false} DerivedOutputsSeparate(st: State, derive: string -> string, srcs: seq<Source>,
                                                  emit: Entry -> Written)
    requires AllConvert(srcs, emit) && DistinctTargets(srcs, derive)
    ensures RunFrom(st, None, derive, srcs, emit).1 == None
    ensures forall i :: 0 <= i < |srcs| ==>
      Contents(RunFrom(st, None, derive, srcs, emit).0.files, derive(srcs[i].path))
        == HeaderUnless(st.headless) + RowsOf(srcs[i], emit)
    decreases |srcs|
  {
    if srcs != [] {
      var (st1, err) := Step(st, None, derive, srcs[0], emit);
      var rest := srcs[1..];
      var final := RunFrom(st, None, derive, srcs, emit).0;
      RowsErrorFree(srcs[0].entries.value, emit);
      assert err == None;
      assert st1.headless == st.headless;
      var t0 := derive(srcs[0].path);
      assert Contents(st1.files, t0) == HeaderUnless(st.headless) + RowsOf(srcs[0], emit);
      AllConvertTail(srcs, emit);
      DistinctTargetsTail(srcs, derive);
      DerivedOutputsSeparate(st1, derive, rest, emit);
      RunFromTouchesOnlyTargets(st1, derive, rest, emit, t0);
      assert final == RunFrom(st1, None, derive, rest, emit).0;
      forall i | 0 <= i < |srcs|
        ensures Contents(final.files, derive(srcs[i].path)) == HeaderUnless(st.headless) + RowsOf(srcs[i], emit)
      {
        if i > 0 {
          assert srcs[i] == rest[i - 1];
        }
      }
    }
  }

  /** An empty output path falls back to the derived outputs, exactly as if none was given. */
  lemma {:induction false} EmptyOutputIsDerived(st: State, derive: string -> string, srcs: seq<Source>,
                                                emit: Entry -> Written)
    ensures RunFrom(st, Some(""), derive, srcs, emit) == RunFrom(st, None, derive, srcs, emit)
    decreases |srcs|
  {
    if srcs != [] {
      var (st1, err) := Step(st, None, derive, srcs[0], emit);
      assert Step(st, Some(""), derive, srcs[0], emit) == (st1, err);
      EmptyOutputIsDerived(st1, derive, srcs[1..], emit);
    }
  }

  /** A missing input stops the step with its path and leaves its output file in place. */
  lemma StepMissing(st: State, output: Option<string>, derive: string -> string, src: Source, emit: Entry -> Written)
    requires src.entries.None?
    ensures Step(st, output, derive, src, emit).1 == Some(MissingInput(src.path))
    ensures Explicit(output) ==> output.value in Step(st, output, derive, src, emit).0.files
    ensures !Explicit(output) ==>
      var fin := Step(st, output, derive, src, emit).0.files;
      derive(src.path) in fin && fin[derive(src.path)] == ""
  {
  }

  /**
    A missing input ends the run with its path once every earlier input has
    converted: no later input is read, and its output file exists. Without
    `-o` that file is its own freshly emptied derived output.
   */
  lemma {:induction false} StopsAtMissing(st: State, output: Option<string>, derive: string -> string,
                                          srcs: seq<Source>, emit: Entry -> Written, k: nat)
    requires k < |srcs| && srcs[k].entries.None? && AllConvert(srcs[..k], emit)
    ensures RunFrom(st, output, derive, srcs, emit).1 == Some(MissingInput(srcs[k].path))
    ensures RunFrom(st, output, derive, srcs, emit) == RunFrom(st, output, derive, srcs[..k + 1], emit)
    ensures Explicit(output) ==> output.value in RunFrom(st, output, derive, srcs, emit).0.files
    ensures !Explicit(output) ==>
      var fin := RunFrom(st, output, derive, srcs, emit).0.files;
      derive(srcs[k].path) in fin && fin[derive(srcs[k].path)] == ""
    decreases k
  {
    if k > 0 {
      var st1 := Step(st, output, derive, srcs[0], emit).0;
      assert srcs[..k][0] == srcs[0];
      RowsErrorFree(srcs[0].entries.value, emit);
      assert Step(st, output, derive, srcs[0], emit).1 == None;
      AllConvertTail(srcs[..k], emit);
      assert srcs[1..][..k - 1] == srcs[..k][1..];
      assert srcs[1..][k - 1] == srcs[k];
      assert RunFrom(st, output, derive, srcs, emit) == RunFrom(st1, output, derive, srcs[1..], emit);
      StopsAtMissing(st1, output, derive, srcs[1..], emit, k - 1);
      assert srcs[..k + 1][1..] == srcs[1..][..k];
    } else {
      assert RunFrom(st, output, derive, srcs, emit) == Step(st, output, derive, srcs[0], emit);
      StepMissing(st, output, derive, srcs[0], emit);
    }
  }

  /**
    What one entry leaves in the output: it always starts with the cells
    written before the journal lookup; it carries no error exactly when the
    journal resolves; an empty journal field raises the index error and a
    backslash code missing from the table raises the key error for that code,
    and after either only the leading cells are in the output.
   */
  lemma EmitOutcome(e: Entry, table: map<string, string>)
    ensures LeadingCells(e) <= Emit(e, table).text
    ensures Emit(e, table).error.None? <==> JournalResolvable(e.fields, table)
    ensures Emit(e, table).error == Some(EmptyJournal) <==> "journal" in e.fields && e.fields["journal"] == ""
    ensures (Emit(e, table).error.Some? && Emit(e, table).error.value.UnknownAbbreviation?) <==>
      ("journal" in e.fields && e.fields["journal"] != "" && e.fields["journal"][0] == '\\'
       && e.fields["journal"][1..] !in table)
    ensures Emit(e, table).error.Some? && Emit(e, table).error.value.UnknownAbbreviation? ==>
      Emit(e, table).error.value.code == e.fields["journal"][1..]
    ensures Emit(e, table).error.Some? ==> Emit(e, table).text == LeadingCells(e)
  {
    if FormatRow(e, table).Success? {
      RowStartsWithLeadingCells(e, table);
    }
  }

  /** The whole program: the driver loop over the row formatter with the given abbreviation table. */
  function Bib2Csv(output: Option<string>, headless: bool, derive: string -> string, srcs: seq<Source>,
                   files: map<string, string>, table: map<string, string>): (map<string, string>, Option<RunError>)
  {
    Run(output, headless, derive, srcs, files, e => Emit(e, table))
  }

  /** Every entry of every input exists and has a journal that resolves. */
  predicate AllResolvable(srcs: seq<Source>, table: map<string, string>)
  {
    forall i :: 0 <= i < |srcs| ==> (
      && srcs[i].entries.Some?
      && forall j :: 0 <= j < |srcs[i].entries.value| ==> JournalResolvable(srcs[i].entries.value[j].fields, table))
  }

  lemma ResolvableConverts(srcs: seq<Source>, table: map<string, string>)
    requires AllResolvable(srcs, table)
    ensures AllConvert(srcs, e => Emit(e, table))
  {
    forall i, j | 0 <= i < |srcs| && 0 <= j < |srcs[i].entries.value|
      ensures Emit(srcs[i].entries.value[j], table).error.None?
    {
      var e := srcs[i].entries.value[j];
      assert JournalResolvable(e.fields, table);
      EmitOutcome(e, table);
    }
  }

  /**
    bib2csv with an explicit output and inputs whose journals all resolve:
    the output is the header (unless headless) and then every row, input
    after input.
   */
  lemma Bib2CsvHeaderOnce(o: string, headless: bool, derive: string -> string, srcs: seq<Source>,
                          files: map<string, string>, table: map<string, string>)
    requires o != "" && |srcs| > 0 && AllResolvable(srcs, table)
    ensures Bib2Csv(Some(o), headless, derive, srcs, files, table).1 == None
    ensures Contents(Bib2Csv(Some(o), headless, derive, srcs, files, table).0, o)
         == HeaderUnless(headless) + AllRows(srcs, e => Emit(e, table))
  {
    ResolvableConverts(srcs, table);
    ExplicitOutputHeaderOnce(o, headless, derive, srcs, files, e => Emit(e, table));
  }
}
