/** The event-list language by its characters: equations that determine what every text
    parses to, and everyday event lists. */
module EventSyntax {
  import opened Text
  import opened EventGrammar

  /** What may stand between groups: comma, space, tab, line breaks, form feed. */
  const SEPARATORS: set<int> := {0x2C, 0x20, 0x09, 0x0A, 0x0D, 0x0C}

  lemma {:induction false} SeparatorListed(c: char)
    ensures IsSeparator(c) <==> c as int in SEPARATORS
  {
  }

  /** The names in some comma-separated parts: each trimmed, the empty ones left out. */
  function Names(parts: seq<string>): seq<string> {
    if parts == [] then []
    else
      var name := Trim(parts[0]);
      (if name == "" then [] else [name]) + Names(parts[1..])
  }

  lemma {:induction false} OneName(w: string)
    ensures Names([w]) == NamesIn([w]) == NameIn(w)
  {
    hide Trim;
    assert [w][1..] == [] && [w][..0] == [];
    assert NamesIn([w]) == [] + NameIn(w);
    assert NameIn(w) + [] == NameIn(w);
  }

  lemma {:induction false} NamesSame(parts: seq<string>)
    ensures Names(parts) == NamesIn(parts)
    decreases |parts|
  {
    if parts == [] {
    } else {
      hide NamesIn, NameIn, Trim;
      NamesSplit([parts[0]], parts[1..]);
      NamesSame(parts[1..]);
      OneName(parts[0]);
      NamesFirst(parts);
      assert [parts[0]] + parts[1..] == parts;
    }
  }

  lemma {:induction false} NamesFirst(parts: seq<string>)
    requires parts != []
    ensures Names(parts) == NameIn(parts[0]) + Names(parts[1..])
  {
    hide Trim;
  }

  lemma {:induction false} NamesSplit(a: seq<string>, b: seq<string>)
    ensures NamesIn(a + b) == NamesIn(a) + NamesIn(b)
    decreases |b|
  {
    hide NameIn;
    if b == [] {
      assert a + b == a;
    } else {
      var n := |b| - 1;
      NamesSplit(a, b[..n]);
      assert (a + b)[..|a + b| - 1] == a + b[..n];
    }
  }

  function GroupOf(names: seq<string>): seq<Group> {
    if names == [] then [] else [names]
  }

  /** Nothing, and separators before anything, add no group. */
  lemma {:induction false} ParseSeparators(w: string, rest: string)
    requires forall c :: c in w ==> c as int in SEPARATORS
    ensures Parse("") == [] && Parse(w + rest) == Parse(rest)
  {
    forall c | c in w ensures IsSeparator(c) {
      SeparatorListed(c);
    }
    ParseSkip(w, rest);
  }

  /** Anything else that is not an opening bracket begins a bare name, which runs up to the
      next comma or opening bracket, or to the end; it is one group of its trimmed text. */
  lemma {:induction false} ParseBare(w: string, rest: string)
    requires w != "" && ',' !in w && '[' !in w && w[0] as int !in SEPARATORS
    requires rest == "" || rest[0] == ',' || rest[0] == '['
    ensures Parse(w + rest) == GroupOf(Names([w])) + Parse(rest)
  {
    hide Parse;
    SeparatorListed(w[0]);
    ParseBareThen(w, rest);
    OneName(w);
  }

  /** An opening bracket runs up to the next closing one, whatever lies between; it is one
      group of the names between its commas, or none. */
  lemma {:induction false} ParseBracketed(w: string, rest: string)
    requires ']' !in w
    ensures Parse("[" + w + "]" + rest) == GroupOf(Names(SplitOn(w, ','))) + Parse(rest)
  {
    hide Parse;
    assert "[" + w + "]" + rest == ['['] + (w + ([']'] + rest));
    ParseBracketThen(w, rest);
    NamesSame(SplitOn(w, ','));
  }

  /** A bracket that is never closed runs up to the end. */
  lemma {:induction false} ParseOpen(w: string)
    requires ']' !in w
    ensures Parse("[" + w) == GroupOf(Names(SplitOn(w, ',')))
  {
    hide Parse;
    assert "[" + w == ['['] + w;
    ParseUnclosed(w);
    NamesSame(SplitOn(w, ','));
  }

  /** Every text falls under one of these equations, with a shorter rest. */
  lemma {:induction false} ParseCases(s: string) returns (w: string, rest: string)
    requires s != ""
    ensures |rest| < |s|
    ensures || (s == w + rest && w != "" && forall c :: c in w ==> c as int in SEPARATORS)
            || (s == w + rest && w != "" && ',' !in w && '[' !in w && w[0] as int !in SEPARATORS
                && (rest == "" || rest[0] == ',' || rest[0] == '['))
            || (s == "[" + w + "]" + rest && ']' !in w)
            || (s == "[" + w && rest == "" && ']' !in w)
  {
    if s[0] as int in SEPARATORS {
      w, rest := [s[0]], s[1..];
      assert s == w + rest;
    } else if s[0] == '[' {
      w, rest := UpTo(s[1..], ']', ']');
      assert s == "[" + s[1..];
      if rest != "" {
        assert rest == "]" + rest[1..];
        assert s == "[" + w + "]" + rest[1..];
        rest := rest[1..];
      }
    } else {
      w, rest := UpTo(s[1..], ',', '[');
      w := [s[0]] + w;
      assert s == [s[0]] + s[1..] == w + rest;
    }
  }

  /** The text before the first of two characters, and what follows from there. */
  lemma {:induction false} UpTo(s: string, c: char, d: char) returns (w: string, rest: string)
    ensures s == w + rest && c !in w && d !in w
    ensures rest == "" || rest[0] == c || rest[0] == d
  {
    if s == "" || s[0] == c || s[0] == d {
      w, rest := "", s;
    } else {
      w, rest := UpTo(s[1..], c, d);
      assert s == [s[0]] + s[1..];
      w := [s[0]] + w;
    }
  }

  /** Event names as they are written every day: printable ASCII without comma, space and
      opening bracket. */
  ghost predicate Plain(n: string) {
    n != "" && forall c :: c in n ==> 0x21 <= c as int <= 0x7E && c != ',' && c != '['
  }

  /** A plain name is one group of itself, with any padding of spaces, tabs, line breaks and
      form feeds around it. */
  lemma {:induction false} PlainName(a: string, n: string, b: string)
    requires Plain(n)
    requires forall c :: c in a + b ==> c as int in {0x20, 0x09, 0x0A, 0x0D, 0x0C}
    ensures Parse(n) == [[n]] && Parse(a + n + b) == [[n]]
  {
    hide Parse, Trim;
    assert forall c :: c in a || c in b ==> c in a + b;
    assert n[0] in n && n[|n| - 1] in n;
    ParseSeparators(a, n + b);
    assert a + n + b == a + (n + b);
    BareName(n, b);
    BareName(n, "");
    assert n + "" == n;
  }

  lemma {:induction false} BareName(n: string, b: string)
    requires Plain(n) && forall c :: c in b ==> c as int in {0x20, 0x09, 0x0A, 0x0D, 0x0C}
    ensures Parse(n + b) == [[n]]
  {
    hide Parse, Trim;
    assert n[0] in n && n[|n| - 1] in n;
    ParseBare(n + b, "");
    ParseSeparators("", "");
    assert n + b + "" == n + b;
    TrimPadded("", n, b);
    assert "" + n + b == n + b;
    OneName(n + b);
    assert [[n]] + [] == [[n]];
  }

  /** The example of the parser's own documentation: the comma inside the bracket joins, the
      others separate; and a bracket needs no comma around it. */
  lemma {:induction false} DocumentedExample()
    ensures Parse("event1,[event2,event3],event4") == [["event1"], ["event2", "event3"], ["event4"]]
    ensures Parse("event1[event2,event3]event4") == [["event1"], ["event2", "event3"], ["event4"]]
  {
    hide Parse;
    ExampleInParts();
    assert "event1" + ("," + ("[" + "event2,event3" + "]" + ("," + "event4"))) == "event1,[event2,event3],event4";
    assert "event1" + ("[" + "event2,event3" + "]" + "event4") == "event1[event2,event3]event4";
  }

  lemma {:induction false} ExampleInParts()
    ensures Parse("event1" + ("," + ("[" + "event2,event3" + "]" + ("," + "event4")))) ==
              [["event1"], ["event2", "event3"], ["event4"]]
    ensures Parse("event1" + ("[" + "event2,event3" + "]" + "event4")) ==
              [["event1"], ["event2", "event3"], ["event4"]]
  {
    hide Parse, Names, SplitOn;
    PlainName("", "event4", "");
    ParseSeparators(",", "event4");
    TwoNames();
    ParseBracketed("event2,event3", "," + "event4");
    ParseBracketed("event2,event3", "event4");
    ParseSeparators(",", "[" + "event2,event3" + "]" + ("," + "event4"));
    OneTrimmed("event1");
    ParseBare("event1", "," + ("[" + "event2,event3" + "]" + ("," + "event4")));
    ParseBare("event1", "[" + "event2,event3" + "]" + "event4");
  }

  lemma {:induction false} OneTrimmed(n: string)
    requires Plain(n)
    ensures Names([n]) == [n]
  {
    hide Trim;
    assert n[0] in n && n[|n| - 1] in n;
    TrimPadded("", n, "");
    assert "" + n + "" == n;
    OneName(n);
  }

  lemma {:induction false} TwoNames()
    ensures Names(SplitOn("event2,event3", ',')) == ["event2", "event3"]
  {
    hide Trim, SplitOn, Names;
    SplitJoin(["event2", "event3"], ',');
    JoinTwo("event2", "event3");
    assert "event2" + [','] + "event3" == "event2,event3";
    OneTrimmed("event2");
    OneTrimmed("event3");
    NamesFirst(["event2", "event3"]);
    OneName("event2");
    assert ["event2", "event3"][1..] == ["event3"];
  }

  lemma {:induction false} JoinTwo(a: string, b: string)
    ensures JoinWith([a, b], ',') == a + [','] + b
  {
    assert [a, b][..1] == [a];
  }
}
