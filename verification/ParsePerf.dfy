/** `parse_event_groups`: the byte-index scanner, proved to return the groups of the
    character grammar with every name resolved, or the first resolution error.

    Resolving a name (`InternC` followed by `PerfConfig::from_pfm_string`) is foreign
    code; here it is any function from a name to an attribute or an error. */
module ParsePerf {
  import opened Prelude
  import opened Text
  import opened Utf8
  import opened EventGrammar

  datatype PerfConfig = PerfConfig(attr: nat, name: string)

  type Resolver<!E> = string -> Result<nat, E>

  /** Resolves names from left to right and stops at the first failure. */
  function ResolveNames<E>(names: seq<string>, pfm: Resolver<E>): (r: Result<seq<PerfConfig>, E>) {
    if names == [] then Ok([])
    else
      var n := |names| - 1;
      match ResolveNames(names[..n], pfm)
      case Err(e) => Err(e)
      case Ok(front) =>
        match pfm(names[n])
        case Err(e) => Err(e)
        case Ok(attr) => Ok(front + [PerfConfig(attr, names[n])])
  }

  function ResolveGroups<E>(gs: seq<Group>, pfm: Resolver<E>): Result<seq<seq<PerfConfig>>, E> {
    if gs == [] then Ok([])
    else
      var n := |gs| - 1;
      match ResolveGroups(gs[..n], pfm)
      case Err(e) => Err(e)
      case Ok(front) =>
        match ResolveNames(gs[n], pfm)
        case Err(e) => Err(e)
        case Ok(g) => Ok(front + [g])
  }

  /** `configs` is `names` with an attribute attached to each. */
  ghost predicate Resolves<E>(names: seq<string>, pfm: Resolver<E>, configs: seq<PerfConfig>) {
    |configs| == |names| && forall k :: 0 <= k < |names| ==>
      pfm(names[k]).Ok? && configs[k] == PerfConfig(pfm(names[k]).value, names[k])
  }

  /** `gs` with every name resolved, group for group. */
  ghost predicate ResolvesAll<E>(gs: seq<Group>, pfm: Resolver<E>, r: seq<seq<PerfConfig>>) {
    |r| == |gs| && forall k :: 0 <= k < |gs| ==> Resolves(gs[k], pfm, r[k])
  }

  ghost predicate AllResolve<E>(names: seq<string>, pfm: Resolver<E>) {
    forall k :: 0 <= k < |names| ==> pfm(names[k]).Ok?
  }

  /** `e` is the error of the first name that fails, and that name is number `k`. */
  ghost predicate FailsAt<E>(names: seq<string>, pfm: Resolver<E>, k: nat, e: E) {
    k < |names| && pfm(names[k]) == Err(e) && AllResolve(names[..k], pfm)
  }

  ghost predicate FirstFailure<E>(names: seq<string>, pfm: Resolver<E>, e: E) {
    exists k: nat :: FailsAt(names, pfm, k, e)
  }

  lemma {:induction false} AllResolveAppend<E>(a: seq<string>, b: seq<string>, pfm: Resolver<E>)
    ensures AllResolve(a + b, pfm) <==> AllResolve(a, pfm) && AllResolve(b, pfm)
  {
    if AllResolve(a + b, pfm) {
      assert forall k :: 0 <= k < |a| ==> a[k] == (a + b)[k];
      assert forall k :: 0 <= k < |b| ==> b[k] == (a + b)[k + |a|];
    }
  }

  lemma {:induction false} FailureAppend<E>(a: seq<string>, b: seq<string>, pfm: Resolver<E>, e: E)
    ensures FirstFailure(a + b, pfm, e) <==>
              FirstFailure(a, pfm, e) || (AllResolve(a, pfm) && FirstFailure(b, pfm, e))
  {
    if k: nat :| FailsAt(a + b, pfm, k, e) {
      if k < |a| {
        assert (a + b)[..k] == a[..k];
        assert FailsAt(a, pfm, k, e);
      } else {
        assert (a + b)[..k] == a + b[..k - |a|];
        AllResolveAppend(a, b[..k - |a|], pfm);
        assert FailsAt(b, pfm, k - |a|, e);
      }
    }
    if k: nat :| FailsAt(a, pfm, k, e) {
      assert (a + b)[..k] == a[..k];
      assert FailsAt(a + b, pfm, k, e);
    }
    if k: nat :| AllResolve(a, pfm) && FailsAt(b, pfm, k, e) {
      assert (a + b)[..|a| + k] == a + b[..k];
      AllResolveAppend(a, b[..k], pfm);
      assert FailsAt(a + b, pfm, |a| + k, e);
    }
  }

  lemma {:induction false} FailureOfOne<E>(name: string, pfm: Resolver<E>, e: E)
    ensures FirstFailure([name], pfm, e) <==> pfm(name) == Err(e)
  {
    if pfm(name) == Err(e) {
      assert FailsAt([name], pfm, 0, e);
    }
  }

  lemma {:induction false} ResolveNamesOk<E>(names: seq<string>, pfm: Resolver<E>)
    ensures ResolveNames(names, pfm).Ok? <==> AllResolve(names, pfm)
    ensures ResolveNames(names, pfm).Ok? ==> Resolves(names, pfm, ResolveNames(names, pfm).value)
  {
    if names == [] {
    } else {
      var n := |names| - 1;
      ResolveNamesOk(names[..n], pfm);
      AllResolveAppend(names[..n], [names[n]], pfm);
      assert names == names[..n] + [names[n]];
      assert AllResolve([names[n]], pfm) <==> pfm([names[n]][0]).Ok?;
    }
  }

  lemma {:induction false} ResolveNamesErr<E>(names: seq<string>, pfm: Resolver<E>, e: E)
    ensures ResolveNames(names, pfm) == Err(e) <==> FirstFailure(names, pfm, e)
  {
    if names == [] {
    } else {
      var n := |names| - 1;
      ResolveNamesErr(names[..n], pfm, e);
      ResolveNamesOk(names[..n], pfm);
      FailureAppend(names[..n], [names[n]], pfm, e);
      FailureOfOne(names[n], pfm, e);
      assert names == names[..n] + [names[n]];
    }
  }

  /** The parse succeeds exactly when every name resolves, and then the result has the
      parsed shape, name for name. */
  lemma {:induction false} ResolveGroupsOk<E>(gs: seq<Group>, pfm: Resolver<E>)
    ensures ResolveGroups(gs, pfm).Ok? <==> AllResolve(Flatten(gs), pfm)
    ensures ResolveGroups(gs, pfm).Ok? ==> ResolvesAll(gs, pfm, ResolveGroups(gs, pfm).value)
  {
    if gs == [] {
    } else {
      var n := |gs| - 1;
      ResolveGroupsOk(gs[..n], pfm);
      ResolveNamesOk(gs[n], pfm);
      AllResolveAppend(Flatten(gs[..n]), gs[n], pfm);
    }
  }

  /** A failed parse reports the first name, left to right across all groups, that does
      not resolve. */
  lemma {:induction false} ResolveGroupsErr<E>(gs: seq<Group>, pfm: Resolver<E>, e: E)
    ensures ResolveGroups(gs, pfm) == Err(e) <==> FirstFailure(Flatten(gs), pfm, e)
  {
    if gs == [] {
    } else {
      var n := |gs| - 1;
      ResolveGroupsErr(gs[..n], pfm, e);
      ResolveGroupsOk(gs[..n], pfm);
      ResolveNamesErr(gs[n], pfm, e);
      FailureAppend(Flatten(gs[..n]), gs[n], pfm, e);
    }
  }

  /** The first group that fails decides the result, whatever follows it. */
  lemma {:induction false} ResolveAppend<E>(a: seq<Group>, b: seq<Group>, pfm: Resolver<E>)
    ensures ResolveGroups(a + b, pfm) ==
              match ResolveGroups(a, pfm)
              case Err(e) => Err(e)
              case Ok(x) =>
                match ResolveGroups(b, pfm)
                case Err(e) => Err(e)
                case Ok(y) => Ok(x + y)
    decreases |b|
  {
    if b == [] {
      assert a + b == a;
      if ResolveGroups(a, pfm).Ok? {
        assert ResolveGroups(a, pfm).value + [] == ResolveGroups(a, pfm).value;
      }
    } else {
      var n := |b| - 1;
      ResolveAppend(a, b[..n], pfm);
      assert (a + b)[..|a + b| - 1] == a + b[..n];
      assert (a + b)[|a + b| - 1] == b[n];
      if ResolveGroups(a, pfm).Ok? && ResolveGroups(b[..n], pfm).Ok? && ResolveNames(b[n], pfm).Ok? {
        var x, y, z := ResolveGroups(a, pfm).value, ResolveGroups(b[..n], pfm).value, ResolveNames(b[n], pfm).value;
        assert x + y + [z] == x + (y + [z]);
      }
    }
  }

  /** Outside a bracket, parsing and resolving a comma-joined pair is parsing and
      resolving the first, then the second: configurations are concatenated, and an
      error of the first hides any error of the second. */
  lemma {:induction false} JoinResolves<E>(s: string, t: string, pfm: Resolver<E>)
    requires EndsOutside(s)
    ensures ResolveGroups(Parse(s + [','] + t), pfm) ==
              match ResolveGroups(Parse(s), pfm)
              case Err(e) => Err(e)
              case Ok(x) =>
                match ResolveGroups(Parse(t), pfm)
                case Err(e) => Err(e)
                case Ok(y) => Ok(x + y)
  {
    JoinHomomorphism(s, t);
    ResolveAppend(Parse(s), Parse(t), pfm);
  }

  /** Parses and resolves the arguments one after another; the first that fails decides. */
  function ResolveArgs<E>(args: seq<string>, pfm: Resolver<E>): Result<seq<seq<PerfConfig>>, E> {
    if args == [] then Ok([])
    else
      var n := |args| - 1;
      match ResolveArgs(args[..n], pfm)
      case Err(e) => Err(e)
      case Ok(x) =>
        match ResolveGroups(Parse(args[n]), pfm)
        case Err(e) => Err(e)
        case Ok(y) => Ok(x + y)
  }

  /** For any number of arguments of which only the last may leave a bracket open, parsing
      and resolving them joined is doing so one by one, errors included. */
  lemma {:induction false} JoinedArgs<E>(args: seq<string>, pfm: Resolver<E>)
    requires forall k :: 0 <= k < |args| - 1 ==> EndsOutside(args[k])
    ensures ResolveGroups(Parse(JoinWith(args, ',')), pfm) == ResolveArgs(args, pfm)
    decreases |args|
  {
    hide Parse, EndsOutside, ResolveGroups;
    if args == [] {
      NothingParsed(pfm);
    } else if |args| == 1 {
      OneArg(args[0], pfm);
      assert args == [args[0]];
    } else {
      var n := |args| - 1;
      JoinedArgs(args[..n], pfm);
      ParseJoined(args[..n]);
      assert args[..n][n - 1] == args[n - 1];
      JoinResolves(JoinWith(args[..n], ','), args[n], pfm);
    }
  }

  lemma {:induction false} NothingParsed<E>(pfm: Resolver<E>)
    ensures ResolveGroups(Parse(""), pfm) == Ok([])
  {
  }

  lemma {:induction false} OneArg<E>(arg: string, pfm: Resolver<E>)
    ensures ResolveArgs([arg], pfm) == ResolveGroups(Parse(arg), pfm)
  {
    hide Parse, ResolveGroups;
    assert [arg][..0] == [];
    assert ResolveArgs([arg][..0], pfm) == Ok([]);
    var r := ResolveGroups(Parse(arg), pfm);
    if r.Ok? {
      assert [] + r.value == r.value;
    }
  }

  /** The error reported is that of the first argument that has one. */
  lemma {:induction false} FirstBadArg<E>(args: seq<string>, pfm: Resolver<E>, e: E)
    ensures ResolveArgs(args, pfm) == Err(e) <==>
              exists k :: 0 <= k < |args| && ResolveGroups(Parse(args[k]), pfm) == Err(e)
                && forall j :: 0 <= j < k ==> ResolveGroups(Parse(args[j]), pfm).Ok?
    ensures ResolveArgs(args, pfm).Ok? <==> forall j :: 0 <= j < |args| ==> ResolveGroups(Parse(args[j]), pfm).Ok?
  {
    hide Parse, ResolveGroups;
    if args == [] {
    } else {
      var n := |args| - 1;
      FirstBadArg(args[..n], pfm, e);
      assert forall j :: 0 <= j < n ==> args[..n][j] == args[j];
    }
  }

  // ---- The scanner -----------------------------------------------------------------

  predicate IsSeparatorByte(b: byte) {
    b == 0x2C || b == 0x20 || b == 0x09 || b == 0x0A || b == 0x0D || b == 0x0C
  }

  /** The groups still to come when scanning resumes at byte `i` between groups. */
  ghost function Rest(s: string, i: nat): seq<Group>
    requires IsCharBoundary(Encode(s), i)
  {
    Parse(s[CharIndex(s, i)..])
  }

  /** Characters `start` to `i` of the string when both offsets are boundaries. */
  lemma {:induction false} SliceIsSubstring(s: string, start: nat, i: nat)
    requires start <= i <= |Encode(s)|
    requires IsCharBoundary(Encode(s), start) && IsCharBoundary(Encode(s), i)
    ensures CharIndex(s, start) <= CharIndex(s, i)
    ensures StrSlice(s, start, i) == s[CharIndex(s, start)..CharIndex(s, i)]
    ensures s[CharIndex(s, start)..] == StrSlice(s, start, i) + s[CharIndex(s, i)..]
  {
    OffsetMonotone(s, CharIndex(s, start), CharIndex(s, i));
  }

  /** A stretch of bytes without the ASCII byte `x` is a string without that character. */
  lemma {:induction false} ByteAvoids(t: string, x: char)
    requires x < 128 as char
    requires forall k :: 0 <= k < |Encode(t)| ==> Encode(t)[k] as int != x as int
    ensures x !in t
  {
    if x in t {
      LeadByteIn(t, x);
      assert false;
    }
  }

  lemma {:induction false} SeparatorChars(t: string)
    requires forall k :: 0 <= k < |Encode(t)| ==> IsSeparatorByte(Encode(t)[k])
    ensures forall c :: c in t ==> IsSeparator(c)
  {
    forall c | c in t ensures IsSeparator(c) {
      LeadByteIn(t, c);
      assert IsSeparatorByte(EncodeChar(c)[0]);
      assert c < 128 as char;
    }
  }

  lemma {:induction false} FirstNotSeparator(t: string)
    requires |Encode(t)| > 0 && !IsSeparatorByte(Encode(t)[0])
    ensures t != "" && !IsSeparator(t[0])
  {
    assert Encode(t)[0] == EncodeChar(t[0])[0];
  }

  /** Skipping separators leaves the groups still to come unchanged. */
  lemma {:induction false} SkipStep(s: string, start: nat, i: nat)
    requires start <= i <= |Encode(s)|
    requires IsCharBoundary(Encode(s), start) && IsCharBoundary(Encode(s), i)
    requires forall k :: start <= k < i ==> IsSeparatorByte(Encode(s)[k])
    ensures Rest(s, start) == Rest(s, i)
  {
    hide Encode, EncodeChar, CharIndex, StrSlice, Parse;
    SliceIsSubstring(s, start, i);
    var w := StrSlice(s, start, i);
    assert forall k :: 0 <= k < |Encode(w)| ==> Encode(w)[k] == Encode(s)[start + k];
    SeparatorChars(w);
    ParseSkip(w, s[CharIndex(s, i)..]);
  }

  lemma {:induction false} NothingLeft(s: string)
    ensures IsCharBoundary(Encode(s), |Encode(s)|) && Rest(s, |Encode(s)|) == []
  {
    var c := CharIndex(s, |Encode(s)|);
    assert s[..|s|] == s;
    OffsetMonotone(s, |s|, c);
  }

  /** The bytes `start..i` hold neither a comma nor an opening bracket, `start` is not a
      separator or `[`, and `i` is the end or such a byte: they are one bare group. */
  lemma {:induction false} BareStep(s: string, start: nat, i: nat)
    requires start < i <= |Encode(s)|
    requires IsCharBoundary(Encode(s), start) && IsCharBoundary(Encode(s), i)
    requires !IsSeparatorByte(Encode(s)[start])
    requires forall k :: start <= k < i ==> Encode(s)[k] != 0x2C && Encode(s)[k] != 0x5B
    requires i == |Encode(s)| || Encode(s)[i] == 0x2C || Encode(s)[i] == 0x5B
    ensures Rest(s, start) == Grouped(NameIn(StrSlice(s, start, i))) + Rest(s, i)
  {
    hide Encode, EncodeChar, CharIndex, StrSlice, Parse;
    SliceIsSubstring(s, start, i);
    var w := StrSlice(s, start, i);
    var rest := s[CharIndex(s, i)..];
    assert forall k :: 0 <= k < |Encode(w)| ==> Encode(w)[k] == Encode(s)[start + k];
    ByteAvoids(w, ',');
    ByteAvoids(w, '[');
    FirstNotSeparator(w);
    if i < |Encode(s)| {
      AsciiByteIsChar(s, i);
      assert rest[0] == ',' || rest[0] == '[';
    } else {
      NothingLeft(s);
      assert s[..|s|] == s;
      OffsetMonotone(s, |s|, CharIndex(s, i));
      assert rest == "";
    }
    ParseBareThen(w, rest);
  }

  /** The bytes `start..i` follow an opening bracket and hold no closing one. */
  ghost predicate InsideBracket(s: string, start: nat, i: nat) {
    && 1 <= start <= i <= |Encode(s)|
    && IsCharBoundary(Encode(s), start) && IsCharBoundary(Encode(s), i)
    && Encode(s)[start - 1] == 0x5B
    && forall k :: start <= k < i ==> Encode(s)[k] != 0x5D
  }

  lemma {:induction false} BracketText(s: string, start: nat, i: nat)
    requires InsideBracket(s, start, i)
    ensures ']' !in StrSlice(s, start, i)
    ensures IsCharBoundary(Encode(s), start - 1)
    ensures s[CharIndex(s, start - 1)..] == ['['] + (StrSlice(s, start, i) + s[CharIndex(s, i)..])
  {
    hide Encode, EncodeChar, CharIndex, StrSlice, Parse;
    SliceIsSubstring(s, start, i);
    SliceAvoids(s, start, i, ']');
    AsciiByteIsChar(s, start - 1);
    var c := CharIndex(s, start - 1);
    assert s[c..] == [s[c]] + s[c + 1..];
  }

  lemma {:induction false} SliceAvoids(s: string, start: nat, i: nat, x: char)
    requires start <= i <= |Encode(s)| && x < 128 as char
    requires IsCharBoundary(Encode(s), start) && IsCharBoundary(Encode(s), i)
    requires forall k :: start <= k < i ==> Encode(s)[k] as int != x as int
    ensures x !in StrSlice(s, start, i)
  {
    hide *;
    var w := StrSlice(s, start, i);
    assert forall k :: 0 <= k < |Encode(w)| ==> Encode(w)[k] == Encode(s)[start + k];
    ByteAvoids(w, x);
  }

  /** A bracket that ends at the closing bracket `i` is one bracketed group. */
  lemma {:induction false} ClosedBracketStep(s: string, start: nat, i: nat)
    requires InsideBracket(s, start, i)
    requires i < |Encode(s)| && Encode(s)[i] == 0x5D
    ensures IsCharBoundary(Encode(s), start - 1) && IsCharBoundary(Encode(s), i + 1)
    ensures Rest(s, start - 1) == Grouped(NamesIn(SplitOn(StrSlice(s, start, i), ','))) + Rest(s, i + 1)
  {
    hide Encode, EncodeChar, CharIndex, StrSlice, Parse;
    BracketText(s, start, i);
    AsciiByteIsChar(s, i);
    var d := CharIndex(s, i);
    assert s[d..] == [s[d]] + s[d + 1..];
    ParseBracketThen(StrSlice(s, start, i), s[d + 1..]);
  }

  /** A bracket that runs to the end of the input is one bracketed group too. */
  lemma {:induction false} OpenBracketStep(s: string, start: nat)
    requires InsideBracket(s, start, |Encode(s)|)
    ensures IsCharBoundary(Encode(s), start - 1)
    ensures Rest(s, start - 1) == Grouped(NamesIn(SplitOn(StrSlice(s, start, |Encode(s)|), ','))) + Rest(s, |Encode(s)|)
  {
    hide Encode, EncodeChar, CharIndex, StrSlice, Parse;
    var i := |Encode(s)|;
    BracketText(s, start, i);
    AsciiByteIsChar(s, start - 1);
    NothingLeft(s);
    assert s[..|s|] == s;
    OffsetMonotone(s, |s|, CharIndex(s, i));
    var w := StrSlice(s, start, i);
    assert s[CharIndex(s, start - 1)..] == ['['] + w;
    ParseUnclosed(w);
  }

  /** The state between two groups: `found` parsed and resolved, the rest from byte `i`. */
  ghost predicate Progress<E>(s: string, pfm: Resolver<E>, i: nat, found: seq<Group>, groups: seq<seq<PerfConfig>>) {
    && i <= |Encode(s)| && IsCharBoundary(Encode(s), i)
    && Parse(s) == found + Rest(s, i)
    && ResolveGroups(found, pfm) == Ok(groups)
  }

  lemma {:induction false} StartProgress<E>(s: string, pfm: Resolver<E>)
    ensures Progress(s, pfm, 0, [], [])
  {
    assert s[CharIndex(s, 0)..] == s;
    assert [] + Rest(s, 0) == Rest(s, 0);
  }

  lemma {:induction false} EndProgress<E>(s: string, pfm: Resolver<E>, found: seq<Group>, groups: seq<seq<PerfConfig>>)
    requires Progress(s, pfm, |Encode(s)|, found, groups)
    ensures ResolveGroups(Parse(s), pfm) == Ok(groups)
  {
    NothingLeft(s);
    assert found + [] == found;
  }

  /** What recording (or failing to resolve) one more group means for the whole list. */
  lemma {:induction false} Record<E>(all: seq<Group>, found: seq<Group>, names: seq<string>, rest: seq<Group>,
                  pfm: Resolver<E>, groups: seq<seq<PerfConfig>>)
    requires all == found + ([names] + rest)
    requires ResolveGroups(found, pfm) == Ok(groups)
    ensures all == (found + [names]) + rest
    ensures match ResolveNames(names, pfm)
            case Err(e) => ResolveGroups(all, pfm) == Err(e)
            case Ok(g) => ResolveGroups(found + [names], pfm) == Ok(groups + [g])
  {
    assert all == (found + [names]) + rest;
    assert (found + [names])[..|found|] == found;
    ResolveAppend(found + [names], rest, pfm);
  }

  lemma {:induction false} SkipProgress<E>(s: string, pfm: Resolver<E>, start: nat, i: nat, found: seq<Group>,
                                           groups: seq<seq<PerfConfig>>)
    requires Progress(s, pfm, start, found, groups) && start <= i <= |Encode(s)| && IsCharBoundary(Encode(s), i)
    requires forall k :: start <= k < i ==> IsSeparatorByte(Encode(s)[k])
    ensures Progress(s, pfm, i, found, groups)
  {
    hide Encode, Parse, ResolveGroups, Rest;
    SkipStep(s, start, i);
  }

  lemma {:induction false} RecordProgress<E>(s: string, pfm: Resolver<E>, here: nat, i: nat, found: seq<Group>,
                                             groups: seq<seq<PerfConfig>>, names: seq<string>)
    requires Progress(s, pfm, here, found, groups) && i <= |Encode(s)| && IsCharBoundary(Encode(s), i)
    requires Rest(s, here) == Grouped(names) + Rest(s, i)
    ensures names == [] ==> Progress(s, pfm, i, found, groups)
    ensures names != [] ==>
              match ResolveNames(names, pfm)
              case Err(e) => ResolveGroups(Parse(s), pfm) == Err(e)
              case Ok(g) => Progress(s, pfm, i, found + [names], groups + [g])
  {
    hide Encode, Parse, ResolveGroups, ResolveNames, Rest;
    if names == [] {
      assert [] + Rest(s, i) == Rest(s, i);
    } else {
      Record(Parse(s), found, names, Rest(s, i), pfm, groups);
    }
  }

  /** Parse "event1,[event2,event3],event4": top-level commas separate groups, brackets
      group several events together. Every slice is taken on character boundaries. */
  method ParseEventGroups<E>(s: string, pfm: Resolver<E>) returns (r: Result<seq<seq<PerfConfig>>, E>)
    ensures r == ResolveGroups(Parse(s), pfm)
  {
    hide Encode, EncodeChar, CharIndex, StrSlice, Parse, Rest, Progress, ResolveGroups, ResolveNames, Grouped, NamesIn, NameIn;
    var b := Encode(s);
    var groups: seq<seq<PerfConfig>> := [];
    var i: nat := 0;
    ghost var found: seq<Group> := [];
    StartProgress(s, pfm);

    while true
      invariant b == Encode(s) && i <= |b| && IsCharBoundary(b, i)
      invariant Progress(s, pfm, i, found, groups)
      decreases |b| - i
    {
      ghost var from := i;
      while i < |b| && IsSeparatorByte(b[i])
        invariant from <= i <= |b| && IsCharBoundary(b, i)
        invariant forall k :: from <= k < i ==> IsSeparatorByte(b[k])
      {
        AsciiByteIsChar(s, i);
        i := i + 1;
      }
      SkipProgress(s, pfm, from, i, found, groups);

      if i >= |b| {
        EndProgress(s, pfm, found, groups);
        return Ok(groups);
      }

      ghost var here := i;
      var names: seq<string>;
      if b[i] == 0x5B {
        AsciiByteIsChar(s, i);
        i := i + 1; // consume '['
        var start := i;
        while i < |b| && b[i] != 0x5D
          invariant start <= i <= |b|
          invariant forall k :: start <= k < i ==> b[k] != 0x5D
        {
          i := i + 1;
        }
        if i < |b| {
          AsciiByteIsChar(s, i);
        }
        var inner := StrSlice(s, start, i);
        if i < |b| {
          ClosedBracketStep(s, start, i);
          i := i + 1; // consume ']'
        } else {
          OpenBracketStep(s, start);
        }
        names := NamesIn(SplitOn(inner, ','));
      } else {
        var start := i;
        while i < |b| && b[i] != 0x2C && b[i] != 0x5B
          invariant start <= i <= |b|
          invariant i == start ==> b[i] != 0x2C && b[i] != 0x5B
          invariant forall k :: start <= k < i ==> b[k] != 0x2C && b[k] != 0x5B
        {
          i := i + 1;
        }
        if i < |b| {
          AsciiByteIsChar(s, i);
        }
        BareStep(s, start, i);
        names := NameIn(StrSlice(s, start, i));
      }

      RecordProgress(s, pfm, here, i, found, groups, names);
      if names != [] {
        match ResolveNames(names, pfm)
        case Err(e) =>
          return Err(e);
        case Ok(group) =>
          groups := groups + [group];
          found := found + [names];
      }
    }
  }
}
