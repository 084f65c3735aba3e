/**
  String helpers the row formatter relies on: Python's `str.translate` with a
  deletion table of `string.punctuation`, `str.join`, and a splitter on a
  single character used to read rows back.
 */
module Text {

  /** Python's `string.punctuation`: the 32 ASCII punctuation characters. */
  const Punctuation: string := "!\"#$%&'()*+,-./:;<=>?@[\\]^_`{|}~"

  /** The punctuation characters fill four ranges of printable ASCII. */
  predicate IsPunct(c: char) {
    ('!' <= c <= '/') || (':' <= c <= '@') || ('[' <= c <= '`') || ('{' <= c <= '~')
  }

  /** The ranges hold exactly the characters of the listing. */
  lemma PunctuationRanges(c: char)
    ensures IsPunct(c) <==> c in Punctuation
  {
  }

  /** Deletes every ASCII punctuation character of `s`, keeping the others in order. */
  function StripPunctuation(s: string): (r: string)
    ensures |r| <= |s|
    ensures forall i :: 0 <= i < |r| ==> !IsPunct(r[i]) && r[i] in s
    ensures (forall i :: 0 <= i < |s| ==> !IsPunct(s[i])) ==> r == s
  {
    if s == [] then []
    else if IsPunct(s[0]) then StripPunctuation(s[1..])
    else [s[0]] + StripPunctuation(s[1..])
  }

  /** Stripping works character by character, so it distributes over concatenation. */
  lemma {:induction false} StripConcat(a: string, b: string)
    ensures StripPunctuation(a + b) == StripPunctuation(a) + StripPunctuation(b)
  {
    if a == [] {
      assert a + b == b;
    } else {
      assert (a + b)[0] == a[0];
      assert (a + b)[1..] == a[1..] + b;
      StripConcat(a[1..], b);
    }
  }

  // ----------------------------------------------------------------------
  // Python's `str` of a list of strings

  /** The quote `repr` puts around a string: double when the text holds a single quote and no double one. */
  function ReprQuote(s: string): char
  {
    if '\'' in s && '"' !in s then '"' else '\''
  }

  /** The inside of `repr`: each backslash and each occurrence of the chosen quote gets a backslash before it. */
  function Escape(s: string, q: char): string
  {
    if s == [] then []
    else (if s[0] == '\\' || s[0] == q then ['\\', s[0]] else [s[0]]) + Escape(s[1..], q)
  }

  /** Python's `repr` of a string. */
  function Repr(s: string): string
  {
    var q := ReprQuote(s);
    [q] + Escape(s, q) + [q]
  }

  function Reprs(items: seq<string>): seq<string>
  {
    seq(|items|, i requires 0 <= i < |items| => Repr(items[i]))
  }

  /** Python's `str` of a list of strings: the items' reprs, ", "-separated, in brackets. */
  function ListStr(items: seq<string>): string
  {
    "[" + Join(Reprs(items), ", ") + "]"
  }

  function StripAll(items: seq<string>): seq<string>
  {
    seq(|items|, i requires 0 <= i < |items| => StripPunctuation(items[i]))
  }

  /** Escaping only adds punctuation, so stripping forgets it. */
  lemma {:induction false} StripEscape(s: string, q: char)
    requires IsPunct(q)
    ensures StripPunctuation(Escape(s, q)) == StripPunctuation(s)
  {
    if s != [] {
      var head := if s[0] == '\\' || s[0] == q then ['\\', s[0]] else [s[0]];
      StripEscape(s[1..], q);
      StripConcat(head, Escape(s[1..], q));
      StripConcat([s[0]], s[1..]);
      assert [s[0]] + s[1..] == s;
      if s[0] == '\\' || s[0] == q {
        assert head == ['\\'] + [s[0]];
        StripConcat(['\\'], [s[0]]);
      }
    }
  }

  /** Stripping the repr of a string leaves what stripping the string leaves. */
  lemma StripRepr(s: string)
    ensures StripPunctuation(Repr(s)) == StripPunctuation(s)
  {
    var q := ReprQuote(s);
    StripConcat([q] + Escape(s, q), [q]);
    StripConcat([q], Escape(s, q));
    StripEscape(s, q);
  }

  /** Stripping a ", "-join keeps the stripped parts with the single space between them. */
  lemma {:induction false} StripCommaJoin(parts: seq<string>)
    ensures StripPunctuation(Join(parts, ", ")) == Join(StripAll(parts), " ")
    decreases |parts|
  {
    if |parts| == 1 {
    } else if |parts| > 1 {
      StripCommaJoin(parts[1..]);
      StripConcat(parts[0] + ", ", Join(parts[1..], ", "));
      StripConcat(parts[0], ", ");
      assert StripPunctuation(", ") == " ";
      assert StripAll(parts)[1..] == StripAll(parts[1..]);
    }
  }

  /** Stripping `str(items)` leaves the stripped items separated by single spaces. */
  lemma StripListStr(items: seq<string>)
    ensures StripPunctuation(ListStr(items)) == Join(StripAll(items), " ")
  {
    var body := Join(Reprs(items), ", ");
    StripConcat("[" + body, "]");
    StripConcat("[", body);
    StripCommaJoin(Reprs(items));
    forall i | 0 <= i < |items|
      ensures StripAll(Reprs(items))[i] == StripAll(items)[i]
    {
      StripRepr(items[i]);
    }
    assert StripAll(Reprs(items)) == StripAll(items);
  }

  /** `t` is a suffix of `s`. */
  predicate EndsWith(s: string, t: string)
  {
    |s| >= |t| && s[|s| - |t|..] == t
  }

  /** Python's `sep.join(parts)`. */
  function Join(parts: seq<string>, sep: string): string
  {
    if |parts| == 0 then ""
    else if |parts| == 1 then parts[0]
    else parts[0] + sep + Join(parts[1..], sep)
  }

  /** Joining a part in front of a non-empty list adds the part and one separator. */
  lemma JoinCons(p: string, rest: seq<string>, sep: string)
    requires |rest| > 0
    ensures Join([p] + rest, sep) == p + sep + Join(rest, sep)
  {
    assert ([p] + rest)[1..] == rest;
  }

  /** A prefix of the first part can be pulled out of the join. */
  lemma JoinPrefix(x: string, p: string, rest: seq<string>, sep: string)
    ensures Join([x + p] + rest, sep) == x + Join([p] + rest, sep)
  {
    assert ([x + p] + rest)[1..] == rest;
    assert ([p] + rest)[1..] == rest;
  }

  /** Two leading parts already glued by the separator join like separate parts. */
  lemma JoinMerge(a: string, b: string, rest: seq<string>, sep: string)
    ensures Join([a + sep + b] + rest, sep) == Join([a, b] + rest, sep)
  {
    assert ([a + sep + b] + rest)[1..] == rest;
    assert ([a, b] + rest)[1..] == [b] + rest;
    assert ([b] + rest)[1..] == rest;
  }

  /** A character absent from every part and from the separator is absent from the join. */
  lemma {:induction false} JoinAvoids(parts: seq<string>, sep: string, c: char)
    requires c !in sep
    requires forall i :: 0 <= i < |parts| ==> c !in parts[i]
    ensures c !in Join(parts, sep)
  {
    if |parts| > 1 {
      JoinAvoids(parts[1..], sep, c);
    }
  }

  /** Splits `s` at every occurrence of `sep`, like Python's `s.split(sep)`. */
  function Split(s: string, sep: char): (r: seq<string>)
    ensures |r| >= 1
    ensures forall i :: 0 <= i < |r| ==> sep !in r[i]
  {
    if s == [] then [""]
    else
      var rest := Split(s[1..], sep);
      if s[0] == sep then [""] + rest
      else [[s[0]] + rest[0]] + rest[1..]
  }

  /** A string free of the separator splits into itself. */
  lemma {:induction false} SplitWhole(s: string, sep: char)
    requires sep !in s
    ensures Split(s, sep) == [s]
  {
    if s != [] {
      SplitWhole(s[1..], sep);
      assert [s[0]] + s[1..] == s;
    }
  }

  /** Splitting stops at the first separator. */
  lemma {:induction false} SplitFirst(a: string, b: string, sep: char)
    requires sep !in a
    ensures Split(a + [sep] + b, sep) == [a] + Split(b, sep)
  {
    if a == [] {
      assert a + [sep] + b == [sep] + b;
      assert ([sep] + b)[1..] == b;
    } else {
      assert (a + [sep] + b)[1..] == a[1..] + [sep] + b;
      SplitFirst(a[1..], b, sep);
      assert [a[0]] + a[1..] == a;
    }
  }

  /** Splitting undoes joining when no part holds the separator. */
  lemma {:induction false} SplitJoin(parts: seq<string>, sep: char)
    requires |parts| >= 1
    requires forall i :: 0 <= i < |parts| ==> sep !in parts[i]
    ensures Split(Join(parts, [sep]), sep) == parts
  {
    if |parts| == 1 {
      SplitWhole(parts[0], sep);
    } else {
      SplitJoin(parts[1..], sep);
      SplitFirst(parts[0], Join(parts[1..], [sep]), sep);
      assert [parts[0]] + parts[1..] == parts;
    }
  }

  /** Joining undoes splitting, for every string. */
  lemma {:induction false} JoinSplit(s: string, sep: char)
    ensures Join(Split(s, sep), [sep]) == s
  {
    if s != [] {
      var rest := Split(s[1..], sep);
      JoinSplit(s[1..], sep);
      if s[0] == sep {
        assert ([""] + rest)[1..] == rest;
      } else {
        var r := [[s[0]] + rest[0]] + rest[1..];
        if |rest| == 1 {
          assert r == [[s[0]] + rest[0]];
        } else {
          assert r[1..] == rest[1..];
          assert Join(rest, [sep]) == rest[0] + [sep] + Join(rest[1..], [sep]);
        }
      }
    }
  }
}
