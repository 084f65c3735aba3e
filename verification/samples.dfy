/** Worked cases of the row formatter on small entries. */
module Samples {
  import opened Wrappers
  import opened Text
  import opened Row

  /** A word without punctuation characters loses nothing. */
  lemma PlainWord(w: string)
    requires forall c :: c in w ==> !IsPunct(c)
    ensures StripPunctuation(w) == w
  {
    assert forall i :: 0 <= i < |w| ==> w[i] in w;
  }

  // The plain names of the samples lose nothing; one word per lemma keeps each proof small.
  lemma JaneKept() ensures StripPunctuation("Jane") == "Jane" { PlainWord("Jane"); }
  lemma DoeKept() ensures StripPunctuation("Doe") == "Doe" { PlainWord("Doe"); }
  lemma SmithKept() ensures StripPunctuation("Smith") == "Smith" { PlainWord("Smith"); }

  lemma InitialDropsDot(c: char)
    requires !IsPunct(c)
    ensures StripPunctuation([c, '.']) == [c]
  {
    assert [c, '.'][1..] == ".";
    assert StripPunctuation(".") == "";
  }

  lemma JaneDoe()
    ensures DisplayName(Person(["Jane"], ["Doe"])) == "Jane Doe"
  {
    calc {
      DisplayName(Person(["Jane"], ["Doe"]));
    == { DisplayNameParts(Person(["Jane"], ["Doe"])); }
      Join(StripAll(["Jane"]), " ") + " " + Join(StripAll(["Doe"]), " ");
    == { assert StripAll(["Jane"]) == [StripPunctuation("Jane")]; assert StripAll(["Doe"]) == [StripPunctuation("Doe")]; }
      StripPunctuation("Jane") + " " + StripPunctuation("Doe");
    == { JaneKept(); DoeKept(); }
      "Jane" + " " + "Doe";
    == { assert ("Jane" + " " + "Doe")[4] == ' '; }
      "Jane Doe";
    }
  }

  lemma Initials()
    ensures StripPunctuation("J.R.") == "JR"
  {
    assert "J.R." == "J." + "R.";
    StripConcat("J.", "R.");
    InitialDropsDot('J');
    InitialDropsDot('R');
  }

  lemma JRSmith()
    ensures DisplayName(Person(["J.R."], ["Smith"])) == "JR Smith"
  {
    calc {
      DisplayName(Person(["J.R."], ["Smith"]));
    == { DisplayNameParts(Person(["J.R."], ["Smith"])); }
      Join(StripAll(["J.R."]), " ") + " " + Join(StripAll(["Smith"]), " ");
    == { assert StripAll(["J.R."]) == [StripPunctuation("J.R.")]; assert StripAll(["Smith"]) == [StripPunctuation("Smith")]; }
      StripPunctuation("J.R.") + " " + StripPunctuation("Smith");
    == { Initials(); SmithKept(); }
      "JR" + " " + "Smith";
    == { assert ("JR" + " " + "Smith")[2] == ' '; }
      "JR Smith";
    }
  }

  lemma TwoDisplayNames()
    ensures DisplayNames([Person(["Jane"], ["Doe"]), Person(["J.R."], ["Smith"])]) == ["Jane Doe", "JR Smith"]
  {
    JaneDoe();
    JRSmith();
  }

  lemma TwoNamesJoined()
    ensures Quote(Join(["Jane Doe", "JR Smith"], ", ")) == "\"Jane Doe, JR Smith\""
  {
    calc {
      Quote(Join(["Jane Doe", "JR Smith"], ", "));
    == { assert Join(["Jane Doe", "JR Smith"], ", ") == "Jane Doe" + ", " + "JR Smith"; }
      "\"" + ("Jane Doe" + ", " + "JR Smith") + "\"";
    }
  }

  /** Two authors: punctuation is stripped from each name and the names are comma-joined inside one pair of quotes. */
  lemma AuthorSample()
    ensures AuthorCell(map["author" := [Person(["Jane"], ["Doe"]), Person(["J.R."], ["Smith"])]]) == "\"Jane Doe, JR Smith\""
  {
    var persons := map["author" := [Person(["Jane"], ["Doe"]), Person(["J.R."], ["Smith"])]];
    AuthorCellQuoted(persons);
    TwoDisplayNames();
    TwoNamesJoined();
  }

  /** A braced title loses its braces. */
  lemma TitleSample()
    ensures TitleCell(map["title" := "{A Study of X}"]) == "A Study of X"
  {
  }

  lemma ApjHead(table: map<string, string>)
    requires "apj" in table && table["apj"] == "Astrophysical Journal"
    ensures JournalHead(map["journal" := "\\apj", "volume" := "12", "pages" := "45-50"], table)
         == Success(["Astrophysical Journal"])
  {
    ResolveExpands("apj", table);
    assert "\\apj" == "\\" + "apj";
  }

  lemma VolumeAndPages()
    ensures MetaParts(map["journal" := "\\apj", "volume" := "12", "pages" := "45-50"]) == ["v:12", "p:45-50"]
  {
    var fields := map["journal" := "\\apj", "volume" := "12", "pages" := "45-50"];
    assert MetaPart(fields, "volume") == ["v:12"] by {
      assert SubPart("volume", "12") == "v:12";
    }
    assert MetaPart(fields, "number") == [];
    assert MetaPart(fields, "pages") == ["p:45-50"] by {
      assert SubPart("pages", "45-50") == "p:45-50";
    }
    assert MetaPart(fields, "month") == [];
  }

  /** A journal abbreviation is expanded and followed by the volume and the pages, in that order. */
  lemma JournalSample(table: map<string, string>)
    requires "apj" in table && table["apj"] == "Astrophysical Journal"
    ensures JournalCell(map["journal" := "\\apj", "volume" := "12", "pages" := "45-50"], table)
         == Success(Quote("Astrophysical Journal" + ", " + "v:12" + ", " + "p:45-50"))
  {
    var fields := map["journal" := "\\apj", "volume" := "12", "pages" := "45-50"];
    var parts := ["Astrophysical Journal", "v:12", "p:45-50"];
    ApjHead(table);
    VolumeAndPages();
    calc {
      JournalCell(fields, table);
    == { assert ["Astrophysical Journal"] + MetaParts(fields) == parts; }
      Success(Quote(Join(parts, ", ")));
    == { assert Join(parts, ", ") == "Astrophysical Journal" + ", " + ("v:12" + ", " + "p:45-50"); }
      Success(Quote("Astrophysical Journal" + ", " + ("v:12" + ", " + "p:45-50")));
    == { assert "Astrophysical Journal" + ", " + ("v:12" + ", " + "p:45-50")
             == "Astrophysical Journal" + ", " + "v:12" + ", " + "p:45-50"; }
      Success(Quote("Astrophysical Journal" + ", " + "v:12" + ", " + "p:45-50"));
    }
  }

  /** An entry without any journal-related field gets an empty quoted journal cell. */
  lemma EmptyJournalSample(table: map<string, string>)
    ensures JournalCell(map["year" := "2001"], table) == Success("\"\"")
  {
  }
}
