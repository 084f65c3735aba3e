/**
  The per-entry row formatter of bib2csv. One parsed BibTeX entry becomes one
  text line of five cells: authors, year, title, journal, doi. Each of the
  first four cells is closed by a space and a tab, the doi cell by a newline.
 */
module Row {
  import opened Wrappers
  import opened Text

  /**
    One person of a role, as the BibTeX parser delivers it: the lists of
    first names and of last names (the other name parts are never read).
   */
  datatype Person = Person(firstNames: seq<string>, lastNames: seq<string>)

  /** No first or last name of the person holds `c`. */
  predicate NameAvoids(p: Person, c: char)
  {
    && (forall j :: 0 <= j < |p.firstNames| ==> c !in p.firstNames[j])
    && (forall j :: 0 <= j < |p.lastNames| ==> c !in p.lastNames[j])
  }

  /** A parsed entry: its fields (keys in lower case) and its person roles ("author", ...). */
  datatype Entry = Entry(fields: map<string, string>, persons: map<string, seq<Person>>)

  datatype FormatError =
    | UnknownAbbreviation(code: string)  // the table lookup raises KeyError
    | EmptyJournal                       // reading the first character of "" raises IndexError

  /** The value of a field, or the empty string when the entry lacks it. */
  function FieldOrEmpty(fields: map<string, string>, key: string): string
  {
    if key in fields then fields[key] else ""
  }

  /** Wraps `s` in double quotes; dropping the outer characters gives `s` back. */
  function Quote(s: string): (r: string)
    ensures |r| == |s| + 2 && r[0] == '"' && r[|r| - 1] == '"' && r[1..|r| - 1] == s
  {
    "\"" + s + "\""
  }

  // ----------------------------------------------------------------------
  // Authors

  /** `str` of the first-name list, a space, `str` of the last-name list, with every ASCII punctuation character removed. */
  function DisplayName(p: Person): string
  {
    StripPunctuation(ListStr(p.firstNames) + " " + ListStr(p.lastNames))
  }

  function DisplayNames(ps: seq<Person>): seq<string>
  {
    seq(|ps|, i requires 0 <= i < |ps| => DisplayName(ps[i]))
  }

  lemma DisplayNamesCons(ps: seq<Person>)
    requires |ps| > 0
    ensures DisplayNames(ps) == [DisplayName(ps[0])] + DisplayNames(ps[1..])
  {
  }

  /** The author text as the loop builds it: the first name opens a quote, each later one follows ", ". */
  function AccumulateAuthors(acc: string, ps: seq<Person>): string
    decreases |ps|
  {
    if ps == [] then acc
    else
      var name := DisplayName(ps[0]);
      AccumulateAuthors(if |acc| == 0 then "\"" + name else acc + ", " + name, ps[1..])
  }

  /** The author cell: the closing quote is written whenever the entry has an author role. */
  function AuthorCell(persons: map<string, seq<Person>>): string
  {
    if "author" in persons then AccumulateAuthors("", persons["author"]) + "\"" else ""
  }

  /**
    The brackets, quotes and commas of the two list renderings are all
    punctuation: what is left is each name stripped, the names of a list
    separated by single spaces, and one space between the two lists.
   */
  lemma DisplayNameParts(p: Person)
    ensures DisplayName(p) == Join(StripAll(p.firstNames), " ") + " " + Join(StripAll(p.lastNames), " ")
  {
    var first := ListStr(p.firstNames);
    var last := ListStr(p.lastNames);
    StripConcat(first + " ", last);
    StripConcat(first, " ");
    StripListStr(p.firstNames);
    StripListStr(p.lastNames);
    assert StripPunctuation(" ") == " ";
  }

  /** Once the quote is open, the loop appends ", name" for each person: it is a join. */
  lemma {:induction false} AccumulateIsJoin(acc: string, ps: seq<Person>)
    requires |acc| > 0
    ensures AccumulateAuthors(acc, ps) == Join([acc] + DisplayNames(ps), ", ")
    decreases |ps|
  {
    if ps == [] {
      assert [acc] + DisplayNames(ps) == [acc];
    } else {
      var name := DisplayName(ps[0]);
      var rest := DisplayNames(ps[1..]);
      assert AccumulateAuthors(acc, ps) == AccumulateAuthors(acc + ", " + name, ps[1..]);
      AccumulateIsJoin(acc + ", " + name, ps[1..]);
      JoinMerge(acc, name, rest, ", ");
      DisplayNamesCons(ps);
      assert [acc, name] + rest == [acc] + ([name] + rest);
    }
  }

  /** With at least one author the cell is the quoted, ", "-joined, punctuation-free names. */
  lemma AuthorCellQuoted(persons: map<string, seq<Person>>)
    requires "author" in persons && |persons["author"]| > 0
    ensures AuthorCell(persons) == Quote(Join(DisplayNames(persons["author"]), ", "))
  {
    var ps := persons["author"];
    var name := DisplayName(ps[0]);
    AccumulateIsJoin("\"" + name, ps[1..]);
    JoinPrefix("\"", name, DisplayNames(ps[1..]), ", ");
    assert [name] + DisplayNames(ps[1..]) == DisplayNames(ps);
  }

  /** Without an author role the cell is empty; with an empty author role it is a lone quote. */
  lemma AuthorCellDegenerate(persons: map<string, seq<Person>>)
    ensures "author" !in persons ==> AuthorCell(persons) == ""
    ensures "author" in persons && persons["author"] == [] ==> AuthorCell(persons) == "\""
  {
  }

  /** A character in none of the names, and not a space, is not in their stripped, space-joined form. */
  lemma NamesAvoid(names: seq<string>, c: char)
    requires c != ' ' && forall j :: 0 <= j < |names| ==> c !in names[j]
    ensures c !in Join(StripAll(names), " ")
  {
    forall j | 0 <= j < |names|
      ensures c !in StripAll(names)[j]
    {
      var r := StripPunctuation(names[j]);
      assert forall k :: 0 <= k < |r| ==> r[k] in names[j];
    }
    JoinAvoids(StripAll(names), " ", c);
  }

  /** A character in no name, and not a quote, comma or space, never shows up in the author cell. */
  lemma AuthorCellAvoids(persons: map<string, seq<Person>>, c: char)
    requires c !in "\", "
    requires "author" in persons ==> forall i :: 0 <= i < |persons["author"]| ==> NameAvoids(persons["author"][i], c)
    ensures c !in AuthorCell(persons)
  {
    if "author" in persons && |persons["author"]| > 0 {
      var ps := persons["author"];
      AuthorCellQuoted(persons);
      forall i | 0 <= i < |ps|
        ensures c !in DisplayNames(ps)[i]
      {
        DisplayNameParts(ps[i]);
        NamesAvoid(ps[i].firstNames, c);
        NamesAvoid(ps[i].lastNames, c);
      }
      JoinAvoids(DisplayNames(ps), ", ", c);
    }
  }

  // ----------------------------------------------------------------------
  // Title

  /** Python's t[1:-1]: all but the first and the last character, empty when there are fewer than two. */
  function Inner(t: string): string
  {
    if |t| < 2 then "" else t[1..|t| - 1]
  }

  function TitleCell(fields: map<string, string>): string
  {
    if "title" in fields then Inner(fields["title"]) else ""
  }

  /** The title cell undoes one layer of wrapping, whatever the two wrapping characters are. */
  lemma TitleUnwraps(fields: map<string, string>, open: char, body: string, close: char)
    requires "title" in fields && fields["title"] == [open] + body + [close]
    ensures TitleCell(fields) == body
  {
    assert fields["title"][1..|fields["title"]| - 1] == body;
  }

  /** The title cell has two characters fewer than the title, none when the title is shorter than two. */
  lemma TitleCellLength(fields: map<string, string>)
    requires "title" in fields
    ensures |TitleCell(fields)| == if |fields["title"]| < 2 then 0 else |fields["title"]| - 2
  {
  }

  // ----------------------------------------------------------------------
  // Journal

  /** A journal field can be written: it is non-empty and a backslash code is in the table. */
  predicate Resolvable(name: string, table: map<string, string>)
  {
    |name| > 0 && (name[0] == '\\' ==> name[1..] in table)
  }

  /** The first journal sub-part: a backslash code is expanded through the table, anything else kept. */
  function ResolveJournal(name: string, table: map<string, string>): (r: Result<string, FormatError>)
    ensures r.Success? <==> Resolvable(name, table)
  {
    if |name| == 0 then Failure(EmptyJournal)
    else if name[0] == '\\' then
      if name[1..] in table then Success(table[name[1..]]) else Failure(UnknownAbbreviation(name[1..]))
    else Success(name)
  }

  /** Abbreviating a table name as backslash + code and resolving it gives the full name back. */
  lemma ResolveExpands(code: string, table: map<string, string>)
    requires code in table
    ensures ResolveJournal("\\" + code, table) == Success(table[code])
  {
    assert ("\\" + code)[1..] == code;
  }

  /** A backslash code missing from the table is reported, with the code, and yields no name. */
  lemma ResolveUnknown(code: string, table: map<string, string>)
    requires code !in table
    ensures ResolveJournal("\\" + code, table) == Failure(UnknownAbbreviation(code))
  {
    assert ("\\" + code)[1..] == code;
  }

  /** A non-empty journal name not starting with a backslash is used verbatim. */
  lemma ResolveVerbatim(name: string, table: map<string, string>)
    requires |name| > 0 && name[0] != '\\'
    ensures ResolveJournal(name, table) == Success(name)
  {
  }

  /** The journal-related fields, in the order their sub-parts are appended. */
  const MetaKeys: seq<string> := ["volume", "number", "pages", "month"]

  predicate NonEmptyKeys(keys: seq<string>)
  {
    forall i :: 0 <= i < |keys| ==> |keys[i]| > 0
  }

  /** "<first letter of the key>:<value>" */
  function SubPart(key: string, value: string): string
    requires |key| > 0
  {
    [key[0]] + ":" + value
  }

  /** Positions in `keys`, from `from` on, of the keys the entry has. */
  function PresentFrom(fields: map<string, string>, keys: seq<string>, from: nat): seq<nat>
    decreases |keys| - from
  {
    if from >= |keys| then []
    else (if keys[from] in fields then [from] else []) + PresentFrom(fields, keys, from + 1)
  }

  /** Every listed position, from `from` on, is that of a key the entry has. */
  predicate OnlyPresent(fields: map<string, string>, keys: seq<string>, idx: seq<nat>, from: nat)
  {
    forall i :: 0 <= i < |idx| ==> from <= idx[i] < |keys| && keys[idx[i]] in fields
  }

  /** Every key the entry has, from `from` on, has its position listed. */
  predicate AllPresent(fields: map<string, string>, keys: seq<string>, idx: seq<nat>, from: nat)
  {
    forall k :: from <= k < |keys| && keys[k] in fields ==> k in idx
  }

  predicate StrictlyIncreasing(idx: seq<nat>)
  {
    forall i, j :: 0 <= i < j < |idx| ==> idx[i] < idx[j]
  }

  /** The positions are exactly those of the keys present, listed in increasing order. */
  lemma {:induction false} PresentFromSpec(fields: map<string, string>, keys: seq<string>, from: nat)
    ensures OnlyPresent(fields, keys, PresentFrom(fields, keys, from), from)
    ensures AllPresent(fields, keys, PresentFrom(fields, keys, from), from)
    ensures StrictlyIncreasing(PresentFrom(fields, keys, from))
    decreases |keys| - from
  {
    if from < |keys| {
      PresentFromSpec(fields, keys, from + 1);
      var rest := PresentFrom(fields, keys, from + 1);
      var idx := PresentFrom(fields, keys, from);
      assert forall i :: 0 <= i < |rest| ==> from < rest[i];
      if keys[from] in fields {
        assert idx == [from] + rest;
        assert forall i :: 1 <= i < |idx| ==> idx[i] == rest[i - 1];
        assert OnlyPresent(fields, keys, idx, from);
        assert StrictlyIncreasing(idx);
        assert AllPresent(fields, keys, idx, from) by {
          forall k | from <= k < |keys| && keys[k] in fields
            ensures k in idx
          {
            if k > from {
              assert k in rest;
            }
          }
        }
      } else {
        assert idx == rest;
        assert OnlyPresent(fields, keys, idx, from);
      }
    }
  }

  /** The loop over the journal-related keys: one sub-part per present key. */
  function MetaPartsFrom(fields: map<string, string>, keys: seq<string>, from: nat): seq<string>
    requires NonEmptyKeys(keys)
    decreases |keys| - from
  {
    if from >= |keys| then []
    else
      var key := keys[from];
      (if key in fields then [SubPart(key, fields[key])] else []) + MetaPartsFrom(fields, keys, from + 1)
  }

  /** The i-th sub-part belongs to the i-th present key, so sub-parts follow the order of `keys`. */
  lemma {:induction false} MetaPartsFromSpec(fields: map<string, string>, keys: seq<string>, from: nat)
    requires NonEmptyKeys(keys)
    ensures OnlyPresent(fields, keys, PresentFrom(fields, keys, from), from)
    ensures var idx := PresentFrom(fields, keys, from);
      var parts := MetaPartsFrom(fields, keys, from);
      && |parts| == |idx|
      && forall i :: 0 <= i < |idx| ==>
           idx[i] < |keys| && keys[idx[i]] in fields && parts[i] == SubPart(keys[idx[i]], fields[keys[idx[i]]])
    decreases |keys| - from
  {
    if from < |keys| {
      MetaPartsFromSpec(fields, keys, from + 1);
      PresentFromSpec(fields, keys, from + 1);
    }
  }

  /** The sub-parts for volume, number, pages and month, in that order, for the keys present. */
  function MetaParts(fields: map<string, string>): seq<string>
  {
    MetaPart(fields, "volume") + (MetaPart(fields, "number") + (MetaPart(fields, "pages") + MetaPart(fields, "month")))
  }

  /** One iteration of that loop: the sub-part of `key` if the entry has it. */
  function MetaPart(fields: map<string, string>, key: string): seq<string>
    requires |key| > 0
  {
    if key in fields then [SubPart(key, fields[key])] else []
  }

  /** Unrolling the loop over MetaKeys gives the four iterations in order. */
  lemma MetaPartsUnrolled(fields: map<string, string>)
    ensures NonEmptyKeys(MetaKeys) && MetaParts(fields) == MetaPartsFrom(fields, MetaKeys, 0)
  {
    var keys := MetaKeys;
    assert NonEmptyKeys(keys);
    assert MetaPartsFrom(fields, keys, 4) == [];
    assert MetaPartsFrom(fields, keys, 3) == MetaPart(fields, "month");
    assert MetaPartsFrom(fields, keys, 2) == MetaPart(fields, "pages") + MetaPartsFrom(fields, keys, 3);
    assert MetaPartsFrom(fields, keys, 1) == MetaPart(fields, "number") + MetaPartsFrom(fields, keys, 2);
    assert MetaPartsFrom(fields, keys, 0) == MetaPart(fields, "volume") + MetaPartsFrom(fields, keys, 1);
  }

  /** The entry has none of volume, number, pages, month. */
  predicate NoMetaFields(fields: map<string, string>)
  {
    forall i :: 0 <= i < |MetaKeys| ==> MetaKeys[i] !in fields
  }

  /** No journal-related key present: no sub-part. */
  lemma MetaPartsEmpty(fields: map<string, string>)
    ensures NoMetaFields(fields) ==> MetaParts(fields) == []
  {
    MetaPartsUnrolled(fields);
    MetaPartsFromSpec(fields, MetaKeys, 0);
    PresentFromSpec(fields, MetaKeys, 0);
  }

  /** The journal fields can be written: an absent journal field is fine, a present one must resolve. */
  predicate JournalResolvable(fields: map<string, string>, table: map<string, string>)
  {
    "journal" in fields ==> Resolvable(fields["journal"], table)
  }

  /** The first journal sub-part, when the entry has a journal field. */
  function JournalHead(fields: map<string, string>, table: map<string, string>): (r: Result<seq<string>, FormatError>)
    ensures r.Success? <==> JournalResolvable(fields, table)
    ensures r.Success? ==> |r.value| == if "journal" in fields then 1 else 0
    ensures r.Success? && "journal" in fields ==>
      var name := fields["journal"];
      r.value == [if name[0] == '\\' then table[name[1..]] else name]
  {
    if "journal" in fields then
      var name :- ResolveJournal(fields["journal"], table);
      Success([name])
    else Success([])
  }

  /** The journal cell: resolved name (if any) then the meta sub-parts, ", "-joined, always quoted. */
  function JournalCell(fields: map<string, string>, table: map<string, string>): (r: Result<string, FormatError>)
    ensures r.Success? <==> JournalResolvable(fields, table)
    ensures r.Success? ==> |r.value| >= 2 && r.value[0] == '"' && r.value[|r.value| - 1] == '"'
    ensures NoMetaFields(fields) && "journal" !in fields ==> r == Success("\"\"")
  {
    var head :- JournalHead(fields, table);
    var parts := head + MetaParts(fields);
    MetaPartsEmpty(fields);
    assert parts == [] ==> Quote(Join(parts, ", ")) == "\"\"";
    Success(Quote(Join(parts, ", ")))
  }

  /** `parts[i]` is the sub-part of the key at position `idx[i]`, for every `i`. */
  predicate SubPartsAt(fields: map<string, string>, keys: seq<string>, idx: seq<nat>, parts: seq<string>)
  {
    && |parts| == |idx|
    && forall i :: 0 <= i < |idx| ==>
         && idx[i] < |keys| && keys[idx[i]] in fields && |keys[idx[i]]| > 0
         && parts[i] == SubPart(keys[idx[i]], fields[keys[idx[i]]])
  }

  /**
    The sub-parts of an entry: one per present journal-related key, in the
    order volume, number, pages, month.
   */
  lemma MetaPartsAt(fields: map<string, string>)
    ensures var idx := PresentFrom(fields, MetaKeys, 0);
      && StrictlyIncreasing(idx)
      && OnlyPresent(fields, MetaKeys, idx, 0)
      && AllPresent(fields, MetaKeys, idx, 0)
      && SubPartsAt(fields, MetaKeys, idx, MetaParts(fields))
  {
    MetaPartsUnrolled(fields);
    MetaPartsFromSpec(fields, MetaKeys, 0);
    PresentFromSpec(fields, MetaKeys, 0);
  }

  /**
    What a resolvable journal cell holds: the journal name (if the field is
    present) followed by one sub-part per present journal-related key, in the
    order volume, number, pages, month, all ", "-joined inside double quotes.
   */
  lemma JournalCellParts(fields: map<string, string>, table: map<string, string>)
    requires JournalResolvable(fields, table)
    ensures var idx := PresentFrom(fields, MetaKeys, 0);
      var meta := MetaParts(fields);
      && JournalCell(fields, table).value == Quote(Join(JournalHead(fields, table).value + meta, ", "))
      && StrictlyIncreasing(idx)
      && OnlyPresent(fields, MetaKeys, idx, 0)
      && AllPresent(fields, MetaKeys, idx, 0)
      && SubPartsAt(fields, MetaKeys, idx, meta)
  {
    MetaPartsAt(fields);
  }

  // ----------------------------------------------------------------------
  // The row

  datatype Cells = Cells(author: string, year: string, title: string, journal: string, doi: string)

  /** The bytes of one row: four cells each closed by " \t", then the doi closed by a newline. */
  function Render(c: Cells): string
  {
    c.author + " \t" + c.year + " \t" + c.title + " \t" + c.journal + " \t" + c.doi + "\n"
  }

  /** What the formatter has written when it reaches the journal field. */
  function LeadingCells(e: Entry): string
  {
    AuthorCell(e.persons) + " \t" + FieldOrEmpty(e.fields, "year") + " \t" + TitleCell(e.fields) + " \t"
  }

  /** The five cells of an entry, or the error that stops the row. */
  function CellsOf(e: Entry, table: map<string, string>): (r: Result<Cells, FormatError>)
    ensures r.Success? <==> JournalResolvable(e.fields, table)
  {
    var journal :- JournalCell(e.fields, table);
    Success(Cells(AuthorCell(e.persons), FieldOrEmpty(e.fields, "year"), TitleCell(e.fields),
                  journal, FieldOrEmpty(e.fields, "doi")))
  }

  /** The row for one entry, or the error that stops it. */
  function FormatRow(e: Entry, table: map<string, string>): (r: Result<string, FormatError>)
    ensures r.Success? <==> JournalResolvable(e.fields, table)
    ensures r.Success? ==> |r.value| > 0 && r.value[|r.value| - 1] == '\n'
  {
    var c :- CellsOf(e, table);
    Success(Render(c))
  }

  // ----------------------------------------------------------------------
  // Reading a row back

  predicate EndsWithSpace(s: string)
  {
    |s| > 0 && s[|s| - 1] == ' '
  }

  function DropLast(s: string): string
  {
    if |s| == 0 then s else s[..|s| - 1]
  }

  /** Reads a row: a final newline, five tab-separated pieces, the first four ending in a space. */
  function ParseRow(line: string): Option<Cells>
  {
    if |line| == 0 || line[|line| - 1] != '\n' then None
    else
      var ps := Split(line[..|line| - 1], '\t');
      if |ps| == 5 && EndsWithSpace(ps[0]) && EndsWithSpace(ps[1]) && EndsWithSpace(ps[2]) && EndsWithSpace(ps[3])
      then Some(Cells(DropLast(ps[0]), DropLast(ps[1]), DropLast(ps[2]), DropLast(ps[3]), ps[4]))
      else None
  }

  predicate TabFree(c: Cells)
  {
    '\t' !in c.author && '\t' !in c.year && '\t' !in c.title && '\t' !in c.journal && '\t' !in c.doi
  }

  function Pieces(c: Cells): seq<string>
  {
    [c.author + " ", c.year + " ", c.title + " ", c.journal + " ", c.doi]
  }

  /** A row is its five pieces joined by tabs, then a newline. */
  lemma RenderIsJoin(c: Cells)
    ensures Render(c) == Join(Pieces(c), "\t") + "\n"
  {
    var d := [c.doi];
    var jd := [c.journal + " "] + d;
    var tjd := [c.title + " "] + jd;
    var ytjd := [c.year + " "] + tjd;
    assert Pieces(c) == [c.author + " "] + ytjd;
    assert Join(d, "\t") == c.doi;
    JoinCons(c.journal + " ", d, "\t");
    JoinCons(c.title + " ", jd, "\t");
    JoinCons(c.year + " ", tjd, "\t");
    JoinCons(c.author + " ", ytjd, "\t");
  }

  /** Reading back a rendered row gives its cells, as long as no cell holds a tab. */
  lemma ParseRender(c: Cells)
    requires TabFree(c)
    ensures ParseRow(Render(c)) == Some(c)
  {
    RenderIsJoin(c);
    var line := Render(c);
    assert line[..|line| - 1] == Join(Pieces(c), "\t");
    SplitJoin(Pieces(c), '\t');
    var p := Pieces(c);
    assert DropLast(p[0]) == c.author;
    assert DropLast(p[1]) == c.year;
    assert DropLast(p[2]) == c.title;
    assert DropLast(p[3]) == c.journal;
  }

  /** Whatever reads as a row renders back to exactly that line. */
  lemma RenderParse(line: string)
    requires ParseRow(line).Some?
    ensures Render(ParseRow(line).value) == line
  {
    var body := line[..|line| - 1];
    var ps := Split(body, '\t');
    var c := ParseRow(line).value;
    JoinSplit(body, '\t');
    assert Pieces(c) == ps by {
      assert DropLast(ps[0]) + " " == ps[0];
      assert DropLast(ps[1]) + " " == ps[1];
      assert DropLast(ps[2]) + " " == ps[2];
      assert DropLast(ps[3]) + " " == ps[3];
    }
    RenderIsJoin(c);
    assert body + "\n" == line;
  }

  // ----------------------------------------------------------------------
  // Properties of whole rows

  /** A row is the text up to the journal cell followed by the rest. */
  lemma RenderSplits(c: Cells)
    ensures Render(c) == (c.author + " \t" + c.year + " \t" + c.title + " \t") + (c.journal + " \t" + c.doi + "\n")
    ensures Render(c) == (c.author + " \t" + c.year + " \t" + c.title + " \t" + c.journal) + (" \t" + c.doi + "\n")
  {
  }

  /** A row ends with " \t", the doi cell and a newline. */
  lemma RenderEnds(c: Cells)
    ensures EndsWith(Render(c), " \t" + c.doi + "\n")
  {
    var front := c.author + " \t" + c.year + " \t" + c.title + " \t" + c.journal;
    var tail := " \t" + c.doi + "\n";
    RenderSplits(c);
    assert (front + tail)[|front|..] == tail;
  }

  /** A successful row starts with what was written before the journal was looked at. */
  lemma RowStartsWithLeadingCells(e: Entry, table: map<string, string>)
    requires FormatRow(e, table).Success?
    ensures LeadingCells(e) <= FormatRow(e, table).value
  {
    var c := CellsOf(e, table).value;
    assert LeadingCells(e) == c.author + " \t" + c.year + " \t" + c.title + " \t";
    RenderSplits(c);
  }

  /** An entry without authors gives a row that opens directly with the first " \t". */
  lemma NoAuthorsRowStart(e: Entry, table: map<string, string>)
    requires "author" !in e.persons && FormatRow(e, table).Success?
    ensures " \t" <= FormatRow(e, table).value
  {
    var row := FormatRow(e, table).value;
    var lead := LeadingCells(e);
    RowStartsWithLeadingCells(e, table);
    assert AuthorCell(e.persons) == "";
    assert |lead| >= 2 && lead[0] == ' ' && lead[1] == '\t';
    assert row[0] == ' ' && row[1] == '\t';
  }

  /** Every row ends with " \t", the doi (empty when absent), and a newline: no tab follows the doi. */
  lemma RowEndsWithDoi(e: Entry, table: map<string, string>)
    requires FormatRow(e, table).Success?
    ensures EndsWith(FormatRow(e, table).value, " \t" + FieldOrEmpty(e.fields, "doi") + "\n")
  {
    var c := CellsOf(e, table).value;
    var row := FormatRow(e, table).value;
    var d := FieldOrEmpty(e.fields, "doi");
    assert row == Render(c);
    assert d == c.doi;
    RenderEnds(c);
  }

  /** No field value, table name or author name holds a tab. */
  predicate EntryTabFree(e: Entry, table: map<string, string>)
  {
    && (forall k :: k in e.fields ==> '\t' !in e.fields[k])
    && (forall k :: k in table ==> '\t' !in table[k])
    && ("author" in e.persons ==>
          forall i :: 0 <= i < |e.persons["author"]| ==>
            NameAvoids(e.persons["author"][i], '\t'))
  }

  /** Without tabs in the input, the resolved journal name holds no tab. */
  lemma JournalHeadTabFree(e: Entry, table: map<string, string>)
    requires EntryTabFree(e, table) && JournalResolvable(e.fields, table)
    ensures forall i :: 0 <= i < |JournalHead(e.fields, table).value| ==> '\t' !in JournalHead(e.fields, table).value[i]
  {
    var fields := e.fields;
    var head := JournalHead(fields, table).value;
    if "journal" in fields {
      var name := fields["journal"];
      if name[0] == '\\' {
        assert head == [table[name[1..]]];
      } else {
        assert head == [name];
      }
    }
  }

  /** Sub-parts avoid a character that is not a colon, no key starts with, and no value holds. */
  lemma SubPartsAvoid(fields: map<string, string>, keys: seq<string>, idx: seq<nat>, parts: seq<string>, c: char)
    requires SubPartsAt(fields, keys, idx, parts) && c != ':'
    requires forall j :: 0 <= j < |keys| ==> |keys[j]| > 0 && keys[j][0] != c
    requires forall k :: k in fields ==> c !in fields[k]
    ensures forall i :: 0 <= i < |parts| ==> c !in parts[i]
  {
    forall i | 0 <= i < |parts|
      ensures c !in parts[i]
    {
      var key := keys[idx[i]];
      assert parts[i] == [key[0]] + ":" + fields[key];
    }
  }

  /** No journal-related key starts with a tab. */
  lemma MetaKeysTabFree()
    ensures forall j :: 0 <= j < |MetaKeys| ==> |MetaKeys[j]| > 0 && MetaKeys[j][0] != '\t'
  {
    var keys := MetaKeys;
    assert |keys| == 4;
    assert keys[0][0] == 'v' && keys[1][0] == 'n' && keys[2][0] == 'p' && keys[3][0] == 'm';
  }

  /** Without tabs in the field values, no journal sub-part holds a tab. */
  lemma MetaPartsTabFree(e: Entry, table: map<string, string>)
    requires EntryTabFree(e, table)
    ensures forall i :: 0 <= i < |MetaParts(e.fields)| ==> '\t' !in MetaParts(e.fields)[i]
  {
    MetaPartsAt(e.fields);
    MetaKeysTabFree();
    SubPartsAvoid(e.fields, MetaKeys, PresentFrom(e.fields, MetaKeys, 0), MetaParts(e.fields), '\t');
  }

  /** Quoting the ", "-join of two lists of parts keeps out a character none of the parts holds. */
  lemma QuotedJoinAvoids(head: seq<string>, meta: seq<string>, c: char)
    requires c != '"' && c != ',' && c != ' '
    requires forall i :: 0 <= i < |head| ==> c !in head[i]
    requires forall i :: 0 <= i < |meta| ==> c !in meta[i]
    ensures c !in Quote(Join(head + meta, ", "))
  {
    var parts := head + meta;
    forall i | 0 <= i < |parts|
      ensures c !in parts[i]
    {
      if i < |head| {
        assert parts[i] == head[i];
      } else {
        assert parts[i] == meta[i - |head|];
      }
    }
    JoinAvoids(parts, ", ", c);
    var joined := Join(parts, ", ");
    assert Quote(joined) == "\"" + joined + "\"";
  }

  /** Without tabs in the input, the journal cell holds no tab. */
  lemma JournalCellTabFree(e: Entry, table: map<string, string>)
    requires EntryTabFree(e, table) && JournalResolvable(e.fields, table)
    ensures '\t' !in JournalCell(e.fields, table).value
  {
    var head := JournalHead(e.fields, table).value;
    var meta := MetaParts(e.fields);
    JournalHeadTabFree(e, table);
    MetaPartsTabFree(e, table);
    QuotedJoinAvoids(head, meta, '\t');
    assert JournalCell(e.fields, table).value == Quote(Join(head + meta, ", "));
  }

  /**
    Without tabs in the input, a row reads back as exactly five cells: the
    author, year, title, journal and doi cells, so it holds exactly four
    " \t" separators and a final newline.
   */
  lemma RowReadsBack(e: Entry, table: map<string, string>)
    requires EntryTabFree(e, table) && JournalResolvable(e.fields, table)
    ensures FormatRow(e, table).Success?
    ensures ParseRow(FormatRow(e, table).value)
         == Some(Cells(AuthorCell(e.persons), FieldOrEmpty(e.fields, "year"), TitleCell(e.fields),
                       JournalCell(e.fields, table).value, FieldOrEmpty(e.fields, "doi")))
  {
    var c := Cells(AuthorCell(e.persons), FieldOrEmpty(e.fields, "year"), TitleCell(e.fields),
                   JournalCell(e.fields, table).value, FieldOrEmpty(e.fields, "doi"));
    AuthorCellAvoids(e.persons, '\t');
    JournalCellTabFree(e, table);
    if "title" in e.fields {
      var t := e.fields["title"];
      assert forall i :: 0 <= i < |Inner(t)| ==> Inner(t)[i] == t[i + 1];
    }
    assert TabFree(c);
    assert CellsOf(e, table) == Success(c);
    ParseRender(c);
  }
}
