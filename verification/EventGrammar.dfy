/** The event-list language `event1,[event2,event3],event4`, defined one character at
    a time by a three-mode automaton that knows nothing about byte indices, together
    with a printer and the laws that relate the two.

    A parsed list is a sequence of groups and a group is the sequence of its event
    names; resolving names to counter configurations is `ParsePerf`'s business. */
module EventGrammar {
  import opened Prelude
  import opened Text

  type Group = seq<string>

  /** `u8::is_ascii_whitespace`: unlike `IsWhitespace`, no vertical tab and no non-ASCII. */
  predicate IsAsciiWhitespace(c: char) {
    c == ' ' || c == '\t' || c == '\n' || c == '\r' || c as int == 0x0C
  }

  predicate IsSeparator(c: char) {
    c == ',' || IsAsciiWhitespace(c)
  }

  datatype Mode = Between | InBare(text: string) | InBracket(text: string)

  datatype Scan = Scan(groups: seq<Group>, mode: Mode)

  /** The name that a stretch of text holds, if any. */
  function NameIn(text: string): seq<string> {
    if Trim(text) == "" then [] else [Trim(text)]
  }

  function NamesIn(parts: seq<string>): seq<string> {
    if parts == [] then [] else NamesIn(parts[..|parts| - 1]) + NameIn(parts[|parts| - 1])
  }

  /** A group is recorded only when it holds a name. */
  function Grouped(names: seq<string>): seq<Group> {
    if names == [] then [] else [names]
  }

  function BareGroup(text: string): seq<Group> {
    Grouped(NameIn(text))
  }

  function BracketGroup(text: string): seq<Group> {
    Grouped(NamesIn(SplitOn(text, ',')))
  }

  function Step(st: Scan, c: char): Scan {
    match st.mode
    case Between =>
      if IsSeparator(c) then st
      else if c == '[' then st.(mode := InBracket(""))
      else st.(mode := InBare([c]))
    case InBare(text) =>
      if c == ',' then Scan(st.groups + BareGroup(text), Between)
      else if c == '[' then Scan(st.groups + BareGroup(text), InBracket(""))
      else st.(mode := InBare(text + [c]))
    case InBracket(text) =>
      if c == ']' then Scan(st.groups + BracketGroup(text), Between)
      else st.(mode := InBracket(text + [c]))
  }

  function ScanFrom(st: Scan, s: string): Scan {
    if s == "" then st else Step(ScanFrom(st, s[..|s| - 1]), s[|s| - 1])
  }

  /** What the end of the input adds: an unclosed bracket counts as closed. */
  function AtEnd(mode: Mode): seq<Group> {
    match mode
    case Between => []
    case InBare(text) => BareGroup(text)
    case InBracket(text) => BracketGroup(text)
  }

  function Finish(st: Scan): seq<Group> {
    st.groups + AtEnd(st.mode)
  }

  const START := Scan([], Between)

  function Parse(s: string): seq<Group> {
    Finish(ScanFrom(START, s))
  }

  /** The input does not stop inside a bracket. */
  predicate EndsOutside(s: string) {
    !ScanFrom(START, s).mode.InBracket?
  }

  // ---- Running the automaton -------------------------------------------------------

  lemma {:induction false} ScanAppend(st: Scan, s: string, t: string)
    ensures ScanFrom(st, s + t) == ScanFrom(ScanFrom(st, s), t)
    decreases |t|
  {
    if t == "" {
      assert s + t == s;
    } else {
      var n := |t| - 1;
      ScanAppend(st, s, t[..n]);
      assert (s + t)[..|s + t| - 1] == s + t[..n];
    }
  }

  lemma {:induction false} ScanOne(st: Scan, c: char, t: string)
    ensures ScanFrom(st, [c]) == Step(st, c)
    ensures ScanFrom(st, [c] + t) == ScanFrom(Step(st, c), t)
  {
    assert [c][..0] == "";
    ScanAppend(st, [c], t);
  }

  /** Groups already found never influence what follows. */
  lemma {:induction false} ScanShift(gs: seq<Group>, mode: Mode, t: string)
    ensures var x := ScanFrom(Scan([], mode), t);
            ScanFrom(Scan(gs, mode), t) == Scan(gs + x.groups, x.mode)
    decreases |t|
  {
    if t == "" {
    } else {
      ScanShift(gs, mode, t[..|t| - 1]);
      var x := ScanFrom(Scan([], mode), t[..|t| - 1]);
      assert gs + (x.groups + BareGroup(if x.mode.Between? then "" else x.mode.text))
          == gs + x.groups + BareGroup(if x.mode.Between? then "" else x.mode.text);
      assert gs + (x.groups + BracketGroup(if x.mode.Between? then "" else x.mode.text))
          == gs + x.groups + BracketGroup(if x.mode.Between? then "" else x.mode.text);
    }
  }

  lemma {:induction false} SkipRun(gs: seq<Group>, w: string)
    requires forall c :: c in w ==> IsSeparator(c)
    ensures ScanFrom(Scan(gs, Between), w) == Scan(gs, Between)
  {
    if w == "" {
    } else {
      SkipRun(gs, w[..|w| - 1]);
    }
  }

  lemma {:induction false} BareRun(gs: seq<Group>, text: string, w: string)
    requires ',' !in w && '[' !in w
    ensures ScanFrom(Scan(gs, InBare(text)), w) == Scan(gs, InBare(text + w))
  {
    if w == "" {
      assert text + w == text;
    } else {
      BareRun(gs, text, w[..|w| - 1]);
      assert text + w == text + w[..|w| - 1] + [w[|w| - 1]];
    }
  }

  lemma {:induction false} BracketRun(gs: seq<Group>, text: string, w: string)
    requires ']' !in w
    ensures ScanFrom(Scan(gs, InBracket(text)), w) == Scan(gs, InBracket(text + w))
  {
    if w == "" {
      assert text + w == text;
    } else {
      BracketRun(gs, text, w[..|w| - 1]);
      assert text + w == text + w[..|w| - 1] + [w[|w| - 1]];
    }
  }

  /** What the rest of the input adds when it is read in a given mode. */
  function Remainder(mode: Mode, t: string): seq<Group> {
    Finish(ScanFrom(Scan([], mode), t))
  }

  lemma {:induction false} FinishShift(gs: seq<Group>, mode: Mode, t: string)
    ensures Finish(ScanFrom(Scan(gs, mode), t)) == gs + Remainder(mode, t)
  {
    ScanShift(gs, mode, t);
    var x := ScanFrom(Scan([], mode), t);
    assert gs + x.groups + AtEnd(x.mode) == gs + (x.groups + AtEnd(x.mode));
  }

  lemma {:induction false} RemainderRun(mode: Mode, w: string, t: string)
    ensures var x := ScanFrom(Scan([], mode), w);
            Remainder(mode, w + t) == x.groups + Remainder(x.mode, t)
  {
    var x := ScanFrom(Scan([], mode), w);
    ScanAppend(Scan([], mode), w, t);
    FinishShift(x.groups, x.mode, t);
  }

  lemma {:induction false} RemainderStep(mode: Mode, c: char, t: string)
    ensures var x := Step(Scan([], mode), c);
            Remainder(mode, [c] + t) == x.groups + Remainder(x.mode, t)
  {
    ScanOne(Scan([], mode), c, "");
    RemainderRun(mode, [c], t);
  }

  lemma {:induction false} ParseSkip(w: string, rest: string)
    requires forall c :: c in w ==> IsSeparator(c)
    ensures Parse(w + rest) == Parse(rest)
  {
    SkipRun([], w);
    RemainderRun(Between, w, rest);
  }

  /** A bare name runs up to the end, a comma or an opening bracket. */
  lemma {:induction false} ParseBareThen(w: string, rest: string)
    requires w != "" && ',' !in w && '[' !in w && !IsSeparator(w[0])
    requires rest == "" || rest[0] == ',' || rest[0] == '['
    ensures Parse(w + rest) == BareGroup(w) + Parse(rest)
  {
    hide BareGroup, BracketGroup;
    ScanBare(w);
    RemainderRun(Between, w, rest);
    if rest != "" {
      assert rest == [rest[0]] + rest[1..];
      RemainderStep(InBare(w), rest[0], rest[1..]);
      RemainderStep(Between, rest[0], rest[1..]);
    }
  }

  lemma {:induction false} ScanBare(w: string)
    requires w != "" && ',' !in w && '[' !in w && !IsSeparator(w[0])
    ensures ScanFrom(START, w) == Scan([], InBare(w))
  {
    assert w == [w[0]] + w[1..];
    assert w[0] in w;
    ScanOne(START, w[0], w[1..]);
    BareRun([], [w[0]], w[1..]);
  }

  /** A bracket runs up to its closing bracket, or to the end if there is none. */
  lemma {:induction false} ParseBracketThen(w: string, rest: string)
    requires ']' !in w
    ensures Parse(['['] + (w + ([']'] + rest))) == BracketGroup(w) + Parse(rest)
  {
    hide BareGroup, BracketGroup;
    RemainderStep(Between, '[', w + ([']'] + rest));
    BracketRun([], "", w);
    assert "" + w == w;
    RemainderRun(InBracket(""), w, [']'] + rest);
    RemainderStep(InBracket(w), ']', rest);
  }

  lemma {:induction false} ParseUnclosed(w: string)
    requires ']' !in w
    ensures Parse(['['] + w) == BracketGroup(w)
  {
    RemainderStep(Between, '[', w);
    BracketRun([], "", w);
    assert "" + w == w;
  }

  // ---- Joining arguments with commas -----------------------------------------------

  /** Outside a bracket a comma is a clean cut: nothing before it can affect what the
      text after it parses to. */
  lemma {:induction false} JoinHomomorphism(s: string, t: string)
    requires EndsOutside(s)
    ensures Parse(s + [','] + t) == Parse(s) + Parse(t)
    ensures EndsOutside(s + [','] + t) == EndsOutside(t)
  {
    var a := ScanFrom(START, s);
    ScanAppend(START, s + [','], t);
    ScanAppend(START, s, [',']);
    ScanOne(a, ',', "");
    assert Step(a, ',') == Scan(Parse(s), Between);
    ScanShift(Parse(s), Between, t);
  }

  /** Text that follows an open bracket is swallowed into the open group. */
  lemma {:induction false} OpenBracketSwallows(s: string)
    requires !EndsOutside(s)
    ensures |Parse(s + ",a,b")| > 0
    ensures var p := Parse(s + ",a,b"); |p[|p| - 1]| >= 2
  {
    var st := ScanFrom(START, s);
    var text := st.mode.text;
    ScanAppend(START, s, ",a,b");
    BracketRun(st.groups, text, ",a,b");
    assert text + [','] + "a" + [','] + "b" == text + ",a,b";
    SplitAppend(text, "a", ',');
    SplitAppend(text + [','] + "a", "b", ',');
    TwoMoreNames(SplitOn(text, ','));
  }

  /** The cut is clean for every continuation exactly when the text before it ends
      outside a bracket. */
  lemma {:induction false} JoinExact(s: string)
    ensures EndsOutside(s) <==> forall t :: Parse(s + [','] + t) == Parse(s) + Parse(t)
  {
    if EndsOutside(s) {
      forall t ensures Parse(s + [','] + t) == Parse(s) + Parse(t) {
        JoinHomomorphism(s, t);
      }
    } else {
      var t := "a,b";
      OpenBracketSwallows(s);
      assert s + [','] + t == s + ",a,b";
      LastOfAB();
      var r := Parse(s) + Parse(t);
      assert r[|r| - 1] == ["b"];
      assert Parse(s + [','] + t) != Parse(s) + Parse(t);
    }
  }

  lemma {:induction false} TwoMoreNames(p: seq<string>)
    ensures NamesIn(p + ["a"] + ["b"]) == NamesIn(p) + ["a"] + ["b"]
  {
    var q := p + ["a"] + ["b"];
    assert q[..|q| - 1] == p + ["a"] && (p + ["a"])[..|p|] == p;
    assert IsTrimmed("a") && IsTrimmed("b");
  }

  lemma {:induction false} LastOfAB()
    ensures Parse("a,b") == [["a"], ["b"]]
  {
    assert "a,b" == ['a'] + ([','] + "b");
    ScanOne(START, 'a', [','] + "b");
    ScanOne(Scan([], InBare("a")), ',', "b");
    ScanOne(Scan([["a"]], Between), 'b', "");
    assert ScanFrom(START, "a,b") == Scan([["a"]], InBare("b"));
  }

  /** Parsing a comma-joined argument list is parsing the arguments one by one. */
  lemma {:induction false} ParseJoined(args: seq<string>)
    requires forall k :: 0 <= k < |args| - 1 ==> EndsOutside(args[k])
    ensures Parse(JoinWith(args, ',')) == Flatten(seq(|args|, i requires 0 <= i < |args| => Parse(args[i])))
    ensures args != [] ==> EndsOutside(JoinWith(args, ',')) == EndsOutside(args[|args| - 1])
    decreases |args|
  {
    var parsed := seq(|args|, i requires 0 <= i < |args| => Parse(args[i]));
    if |args| == 1 {
      assert parsed == [Parse(args[0])];
      FlattenSingle(Parse(args[0]));
    } else if |args| > 1 {
      var n := |args| - 1;
      ParseJoined(args[..n]);
      assert parsed[..n] == seq(n, i requires 0 <= i < n => Parse(args[..n][i]));
      JoinHomomorphism(JoinWith(args[..n], ','), args[n]);
    }
  }

  // ---- Printing --------------------------------------------------------------------

  /** A singleton is bracketed only when its name holds an opening bracket. */
  function PrintGroup(g: Group): string {
    if |g| == 1 && '[' !in g[0] then g[0] else "[" + JoinWith(g, ',') + "]"
  }

  function Print(gs: seq<Group>): string {
    JoinWith(seq(|gs|, i requires 0 <= i < |gs| => PrintGroup(gs[i])), ',')
  }

  ghost predicate IsName(n: string) {
    n != "" && IsTrimmed(n) && ',' !in n
  }

  /** The groups that can be written down: a lone name must avoid one of the two
      brackets, a name with company must avoid the closing one. */
  ghost predicate Printable(g: Group) {
    && g != []
    && (forall n :: n in g ==> IsName(n))
    && ((|g| == 1 && '[' !in g[0]) || (forall n :: n in g ==> ']' !in n))
  }

  lemma {:induction false} NamesInOfNames(g: seq<string>)
    requires forall n :: n in g ==> IsName(n)
    ensures NamesIn(g) == g
  {
    if g == [] {
    } else {
      NamesInOfNames(g[..|g| - 1]);
      assert IsName(g[|g| - 1]) by { assert g[|g| - 1] in g; }
      TrimOfTrimmed(g[|g| - 1]);
    }
  }

  lemma {:induction false} JoinAvoids(parts: seq<string>, sep: char, c: char)
    requires c != sep && forall p :: p in parts ==> c !in p
    ensures c !in JoinWith(parts, sep)
  {
    if |parts| <= 1 {
    } else {
      JoinAvoids(parts[..|parts| - 1], sep, c);
    }
  }

  lemma {:induction false} ParseBareName(n: string)
    requires IsName(n) && '[' !in n
    ensures Parse(n) == [[n]] && EndsOutside(n)
  {
    assert n[0] in n;
    ScanBare(n);
    TrimOfTrimmed(n);
  }

  lemma {:induction false} ParseBracket(text: string)
    requires ']' !in text
    ensures Parse("[" + text + "]") == BracketGroup(text) && EndsOutside("[" + text + "]")
  {
    assert "[" + text + "]" == ['['] + (text + ([']'] + ""));
    ParseBracketThen(text, "");
    assert BracketGroup(text) + Parse("") == BracketGroup(text);
    ScanOpened(text);
    assert ("[" + text + "]")[..|text| + 1] == ['['] + text;
  }

  lemma {:induction false} ScanOpened(text: string)
    requires ']' !in text
    ensures ScanFrom(START, ['['] + text) == Scan([], InBracket(text))
  {
    ScanOne(START, '[', text);
    BracketRun([], "", text);
    assert "" + text == text;
  }

  lemma {:induction false} ParsePrintGroup(g: Group)
    requires Printable(g)
    ensures Parse(PrintGroup(g)) == [g] && EndsOutside(PrintGroup(g))
  {
    if |g| == 1 && '[' !in g[0] {
      assert IsName(g[0]) by { assert g[0] in g; }
      ParseBareName(g[0]);
      assert g == [g[0]];
    } else {
      JoinAvoids(g, ',', ']');
      ParseBracket(JoinWith(g, ','));
      SplitJoin(g, ',');
      NamesInOfNames(g);
    }
  }

  /** Parsing undoes printing. */
  lemma {:induction false} ParsePrint(gs: seq<Group>)
    requires forall g :: g in gs ==> Printable(g)
    ensures Parse(Print(gs)) == gs
  {
    var printed := seq(|gs|, i requires 0 <= i < |gs| => PrintGroup(gs[i]));
    forall k | 0 <= k < |gs| ensures Parse(printed[k]) == [gs[k]] && EndsOutside(printed[k]) {
      ParsePrintGroup(gs[k]);
    }
    ParseJoined(printed);
    var parsed := seq(|printed|, i requires 0 <= i < |printed| => Parse(printed[i]));
    assert forall k :: 0 <= k < |gs| ==> parsed[k] == [gs[k]];
    FlattenSingletons(parsed, gs);
  }

  lemma {:induction false} FlattenSingletons<T>(parsed: seq<seq<T>>, gs: seq<T>)
    requires |parsed| == |gs| && forall k :: 0 <= k < |gs| ==> parsed[k] == [gs[k]]
    ensures Flatten(parsed) == gs
    decreases |gs|
  {
    if gs == [] {
    } else {
      FlattenSingletons(parsed[..|gs| - 1], gs[..|gs| - 1]);
    }
  }

  // ---- What the parser can return --------------------------------------------------

  lemma {:induction false} NameInIsName(text: string)
    requires ',' !in text
    ensures forall n :: n in NameIn(text) ==> IsName(n) && forall c :: c in n ==> c in text
  {
    var a, b := TrimSplit(text);
    assert forall c :: c in Trim(text) ==> c in text;
  }

  lemma {:induction false} NamesInAreNames(parts: seq<string>, avoid: char)
    requires forall p :: p in parts ==> ',' !in p && avoid !in p
    ensures forall n :: n in NamesIn(parts) ==> IsName(n) && avoid !in n
  {
    if parts == [] {
    } else {
      NamesInAreNames(parts[..|parts| - 1], avoid);
      NameInIsName(parts[|parts| - 1]);
    }
  }

  lemma {:induction false} SplitAvoids(s: string, sep: char, c: char)
    requires c !in s
    ensures forall p :: p in SplitOn(s, sep) ==> c !in p
  {
    if s == "" {
    } else {
      SplitAvoids(s[..|s| - 1], sep, c);
    }
  }

  lemma {:induction false} BareGroupPrintable(text: string)
    requires ',' !in text && '[' !in text
    ensures forall g :: g in BareGroup(text) ==> Printable(g)
  {
    NameInIsName(text);
  }

  lemma {:induction false} BracketGroupPrintable(text: string)
    requires ']' !in text
    ensures forall g :: g in BracketGroup(text) ==> Printable(g)
  {
    JoinSplit(text, ',');
    SplitAvoids(text, ',', ']');
    NamesInAreNames(SplitOn(text, ','), ']');
  }

  ghost predicate ModeAvoids(mode: Mode) {
    match mode
    case Between => true
    case InBare(text) => ',' !in text && '[' !in text
    case InBracket(text) => ']' !in text
  }

  lemma {:induction false} ScanPrintable(s: string)
    ensures var st := ScanFrom(START, s);
            ModeAvoids(st.mode) && forall g :: g in st.groups ==> Printable(g)
  {
    if s == "" {
    } else {
      ScanPrintable(s[..|s| - 1]);
      var st := ScanFrom(START, s[..|s| - 1]);
      match st.mode
      case Between =>
      case InBare(text) => BareGroupPrintable(text);
      case InBracket(text) => BracketGroupPrintable(text);
    }
  }

  /** Every group the parser returns is printable: non-empty, with trimmed, non-empty,
      comma-free names. */
  lemma {:induction false} ParsePrintable(s: string)
    ensures forall g :: g in Parse(s) ==> Printable(g)
  {
    ScanPrintable(s);
    var st := ScanFrom(START, s);
    match st.mode
    case Between =>
    case InBare(text) => BareGroupPrintable(text);
    case InBracket(text) => BracketGroupPrintable(text);
  }

  /** Printing is a canonical form: it parses back to what the input parsed to. */
  lemma {:induction false} ParsePrintParse(s: string)
    ensures Parse(Print(Parse(s))) == Parse(s)
  {
    ParsePrintable(s);
    ParsePrint(Parse(s));
  }

  /** The parser's image is exactly the lists of printable groups. */
  lemma {:induction false} ParserImage(gs: seq<Group>)
    ensures (exists s :: Parse(s) == gs) <==> (forall g :: g in gs ==> Printable(g))
  {
    if s :| Parse(s) == gs {
      ParsePrintable(s);
    }
    if forall g :: g in gs ==> Printable(g) {
      ParsePrint(gs);
    }
  }

  // ---- Nothing is lost -------------------------------------------------------------

  predicate IsFiller(c: char) {
    c == ',' || c == '[' || c == ']' || IsWhitespace(c)
  }

  ghost predicate IsGap(g: string) {
    forall c :: c in g ==> IsFiller(c)
  }

  /** gap, name, gap, name, ..., gap. */
  function Weave(gaps: seq<string>, names: seq<string>): string
    requires |gaps| == |names| + 1
  {
    if names == [] then gaps[0]
    else
      var n := |names|;
      Weave(gaps[..n], names[..n - 1]) + names[n - 1] + gaps[n]
  }

  /** `s` is made of the names, in order and without overlap, with only commas,
      brackets and whitespace around them. */
  ghost predicate MadeOf(s: string, names: seq<string>) {
    exists gaps: seq<string> ::
      && |gaps| == |names| + 1
      && (forall g :: g in gaps ==> IsGap(g))
      && s == Weave(gaps, names)
  }

  lemma {:induction false} WeaveAppend(g: seq<string>, ns: seq<string>, h: seq<string>, ms: seq<string>)
    requires |g| == |ns| + 1 && |h| == |ms| + 1
    ensures var m := |ns|;
            Weave(g[..m] + [g[m] + h[0]] + h[1..], ns + ms) == Weave(g, ns) + Weave(h, ms)
    decreases |ms|
  {
    var m, k := |ns|, |ms|;
    var all := g[..m] + [g[m] + h[0]] + h[1..];
    if ms == [] {
      assert ns + ms == ns;
      if ns == [] {
      } else {
        assert all[..m] == g[..m];
      }
    } else {
      WeaveAppend(g, ns, h[..k], ms[..k - 1]);
      assert (ns + ms)[..|ns + ms| - 1] == ns + ms[..k - 1];
      assert all[..|ns + ms|] == g[..m] + [g[m] + h[..k][0]] + h[..k][1..];
      assert all[|ns + ms|] == h[k];
    }
  }

  lemma {:induction false} MadeOfAppend(s: string, ns: seq<string>, t: string, ms: seq<string>)
    requires MadeOf(s, ns) && MadeOf(t, ms)
    ensures MadeOf(s + t, ns + ms)
  {
    hide Weave;
    var g: seq<string> :| |g| == |ns| + 1 && (forall x :: x in g ==> IsGap(x)) && s == Weave(g, ns);
    var h: seq<string> :| |h| == |ms| + 1 && (forall x :: x in h ==> IsGap(x)) && t == Weave(h, ms);
    WeaveAppend(g, ns, h, ms);
    var m := |ns|;
    var all := g[..m] + [g[m] + h[0]] + h[1..];
    assert IsGap(g[m] + h[0]) by { assert IsGap(g[m]) && IsGap(h[0]); }
    forall x | x in all ensures IsGap(x) {
      if x !in g && x !in h {
        assert x == g[m] + h[0];
      }
    }
  }

  lemma {:induction false} GapMadeOf(g: string)
    requires IsGap(g)
    ensures MadeOf(g, [])
  {
    assert Weave([g], []) == g;
  }

  lemma {:induction false} NameMadeOf(text: string)
    ensures MadeOf(text, NameIn(text))
  {
    var a, b := TrimSplit(text);
    if Trim(text) == "" {
      GapMadeOf(text);
    } else {
      assert [a, b][..1] == [a] && [Trim(text)][..0] == [];
      assert Weave([a, b], [Trim(text)]) == text;
    }
  }

  lemma {:induction false} NamesMadeOf(parts: seq<string>)
    requires parts != []
    ensures MadeOf(JoinWith(parts, ','), NamesIn(parts))
    decreases |parts|
  {
    var n := |parts| - 1;
    NameMadeOf(parts[n]);
    if n == 0 {
      assert NamesIn(parts[..0]) == [];
      assert NamesIn(parts) == NameIn(parts[0]);
    } else {
      NamesMadeOf(parts[..n]);
      GapMadeOf([',']);
      MadeOfAppend(JoinWith(parts[..n], ','), NamesIn(parts[..n]), [','], []);
      assert NamesIn(parts[..n]) + [] == NamesIn(parts[..n]);
      MadeOfAppend(JoinWith(parts[..n], ',') + [','], NamesIn(parts[..n]), parts[n], NameIn(parts[n]));
    }
  }

  lemma {:induction false} TextMadeOf(mode: Mode)
    ensures MadeOf(Pending(mode), Flatten(AtEnd(mode)))
  {
    match mode
    case Between =>
      GapMadeOf("");
    case InBare(text) =>
      NameMadeOf(text);
      GroupedFlat(NameIn(text));
    case InBracket(text) =>
      JoinSplit(text, ',');
      NamesMadeOf(SplitOn(text, ','));
      GroupedFlat(NamesIn(SplitOn(text, ',')));
  }

  lemma {:induction false} GroupedFlat(names: seq<string>)
    ensures Flatten(Grouped(names)) == names
  {
    if names != [] {
      FlattenSingle(names);
    }
  }

  function Pending(mode: Mode): string {
    if mode.Between? then "" else mode.text
  }

  /** `done` holds the recorded names and `s` adds the text still being read. */
  ghost predicate Accounted(s: string, st: Scan, done: string) {
    s == done + Pending(st.mode) && MadeOf(done, Flatten(st.groups))
  }

  lemma {:induction false} ScanAccounts(s: string) returns (done: string)
    ensures Accounted(s, ScanFrom(START, s), done)
  {
    if s == "" {
      GapMadeOf("");
      done := "";
    } else {
      var n := |s| - 1;
      var before := ScanAccounts(s[..n]);
      done := StepAccounts(s[..n], ScanFrom(START, s[..n]), before, s[n]);
      assert s == s[..n] + [s[n]];
    }
  }

  lemma {:induction false} StepShape(st: Scan, c: char)
    ensures var next := Step(st, c);
            || (next.groups == st.groups && Pending(next.mode) == Pending(st.mode) + [c])
            || (next.groups == st.groups + AtEnd(st.mode) && Pending(next.mode) == "" && IsFiller(c))
  {
  }

  lemma {:induction false} CloseAccounts(s: string, st: Scan, done: string)
    requires Accounted(s, st, done)
    ensures MadeOf(s, Flatten(st.groups + AtEnd(st.mode)))
  {
    TextMadeOf(st.mode);
    FlattenAppend(st.groups, AtEnd(st.mode));
    MadeOfAppend(done, Flatten(st.groups), Pending(st.mode), Flatten(AtEnd(st.mode)));
  }

  lemma {:induction false} StepAccounts(s: string, st: Scan, before: string, c: char) returns (done: string)
    requires Accounted(s, st, before)
    ensures Accounted(s + [c], Step(st, c), done)
  {
    hide MadeOf, Step, Flatten, AtEnd;
    var next := Step(st, c);
    StepShape(st, c);
    if next.groups == st.groups && Pending(next.mode) == Pending(st.mode) + [c] {
      done := before;
      assert s + [c] == done + Pending(next.mode);
    } else {
      CloseAccounts(s, st, before);
      GapMadeOf([c]);
      MadeOfAppend(s, Flatten(next.groups), [c], []);
      assert Flatten(next.groups) + [] == Flatten(next.groups);
      done := s + [c];
      assert done == done + Pending(next.mode);
    }
  }

  /** Nothing is lost in parsing: the input is exactly the parsed names, in order and
      disjoint, separated by commas, brackets and whitespace only. */
  lemma {:induction false} NothingLost(s: string)
    ensures MadeOf(s, Flatten(Parse(s)))
  {
    var done := ScanAccounts(s);
    CloseAccounts(s, ScanFrom(START, s), done);
  }
}
