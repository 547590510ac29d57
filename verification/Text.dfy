/** Splitting and joining text at one separator character, and trimming: the string
    operations shared by the event parser and the table files. */
module Text {
  /** `str::split`: always at least one part. */
  function SplitOn(s: string, sep: char): (parts: seq<string>)
    ensures |parts| >= 1
  {
    if s == "" then
      [""]
    else
      var n := |s| - 1;
      var front := SplitOn(s[..n], sep);
      var m := |front| - 1;
      if s[n] == sep then front + [""] else front[..m] + [front[m] + [s[n]]]
  }

  /** `[String]::join` with a one-character separator. */
  function JoinWith(parts: seq<string>, sep: char): string {
    if parts == [] then ""
    else if |parts| == 1 then parts[0]
    else JoinWith(parts[..|parts| - 1], sep) + [sep] + parts[|parts| - 1]
  }

  lemma {:induction false} SplitExtend(s: string, t: string, sep: char)
    requires sep !in t
    ensures var p := SplitOn(s, sep); var m := |p| - 1;
            SplitOn(s + t, sep) == p[..m] + [p[m] + t]
    decreases |t|
  {
    var p := SplitOn(s, sep);
    var m := |p| - 1;
    if t == "" {
      assert s + t == s && p[m] + t == p[m];
    } else {
      var n := |t| - 1;
      SplitExtend(s, t[..n], sep);
      assert (s + t)[..|s + t| - 1] == s + t[..n];
      assert (p[m] + t[..n]) + [t[n]] == p[m] + t;
    }
  }

  lemma {:induction false} SplitAppend(s: string, t: string, sep: char)
    requires sep !in t
    ensures SplitOn(s + [sep] + t, sep) == SplitOn(s, sep) + [t]
  {
    assert (s + [sep])[..|s|] == s;
    SplitExtend(s + [sep], t, sep);
    assert "" + t == t;
  }

  lemma {:induction false} SplitSingle(s: string, sep: char)
    requires sep !in s
    ensures SplitOn(s, sep) == [s]
  {
    SplitExtend("", s, sep);
    assert "" + s == s;
  }

  /** Splitting undoes joining when no part holds the separator. */
  lemma {:induction false} SplitJoin(parts: seq<string>, sep: char)
    requires parts != []
    requires forall p :: p in parts ==> sep !in p
    ensures SplitOn(JoinWith(parts, sep), sep) == parts
    decreases |parts|
  {
    hide SplitOn;
    var n := |parts| - 1;
    if n == 0 {
      SplitSingle(parts[0], sep);
    } else {
      SplitJoin(parts[..n], sep);
      SplitAppend(JoinWith(parts[..n], sep), parts[n], sep);
    }
  }

  /** Joining with one more part, or with a longer last part. */
  lemma {:induction false} JoinGrows(front: seq<string>, sep: char, c: char)
    requires front != []
    ensures JoinWith(front + [""], sep) == JoinWith(front, sep) + [sep]
    ensures var m := |front| - 1; JoinWith(front[..m] + [front[m] + [c]], sep) == JoinWith(front, sep) + [c]
  {
    var m := |front| - 1;
    assert (front + [""])[..m + 1] == front;
    assert (front[..m] + [front[m] + [c]])[..m] == front[..m];
  }

  /** The parts of a split hold no separator and joining them gives the text back. */
  lemma {:induction false} JoinSplit(s: string, sep: char)
    ensures JoinWith(SplitOn(s, sep), sep) == s
    ensures forall p :: p in SplitOn(s, sep) ==> sep !in p
  {
    hide JoinWith;
    if s == "" {
      JoinOne("", sep);
    } else {
      var n := |s| - 1;
      JoinSplit(s[..n], sep);
      JoinGrows(SplitOn(s[..n], sep), sep, s[n]);
      assert s == s[..n] + [s[n]];
    }
  }

  lemma {:induction false} JoinOne(s: string, sep: char)
    ensures JoinWith([s], sep) == s
  {
  }

  /** The White_Space property used by `str::trim`. */
  predicate IsWhitespace(c: char) {
    var x := c as int;
    9 <= x <= 13 || x == 0x20 || x == 0x85 || x == 0xA0 || x == 0x1680 || 0x2000 <= x <= 0x200A
    || x == 0x2028 || x == 0x2029 || x == 0x202F || x == 0x205F || x == 0x3000
  }

  function TrimStart(s: string): string {
    if s != "" && IsWhitespace(s[0]) then TrimStart(s[1..]) else s
  }

  function TrimEnd(s: string): string {
    if s != "" && IsWhitespace(s[|s| - 1]) then TrimEnd(s[..|s| - 1]) else s
  }

  /** `str::trim`. */
  function Trim(s: string): string {
    TrimEnd(TrimStart(s))
  }

  predicate IsTrimmed(s: string) {
    s == "" || (!IsWhitespace(s[0]) && !IsWhitespace(s[|s| - 1]))
  }

  ghost predicate AllWhitespace(s: string) {
    forall c :: c in s ==> IsWhitespace(c)
  }

  lemma {:induction false} TrimStartSplit(s: string) returns (a: string)
    ensures s == a + TrimStart(s) && AllWhitespace(a)
    ensures TrimStart(s) == "" || !IsWhitespace(TrimStart(s)[0])
  {
    if s != "" && IsWhitespace(s[0]) {
      var b := TrimStartSplit(s[1..]);
      a := [s[0]] + b;
    } else {
      a := "";
    }
  }

  lemma {:induction false} TrimEndSplit(s: string) returns (b: string)
    ensures s == TrimEnd(s) + b && AllWhitespace(b)
    ensures TrimEnd(s) == "" || !IsWhitespace(TrimEnd(s)[|TrimEnd(s)| - 1])
  {
    if s != "" && IsWhitespace(s[|s| - 1]) {
      var a := TrimEndSplit(s[..|s| - 1]);
      b := a + [s[|s| - 1]];
    } else {
      b := "";
    }
  }

  /** Trimming cuts whitespace off both ends and leaves none there. */
  lemma {:induction false} TrimSplit(s: string) returns (a: string, b: string)
    ensures s == a + Trim(s) + b && AllWhitespace(a) && AllWhitespace(b)
    ensures IsTrimmed(Trim(s))
  {
    a := TrimStartSplit(s);
    b := TrimEndSplit(TrimStart(s));
    assert Trim(s) != "" ==> Trim(s)[0] == TrimStart(s)[0];
  }

  lemma {:induction false} TrimOfTrimmed(s: string)
    requires IsTrimmed(s)
    ensures Trim(s) == s
  {
  }

  // ---- Trimming, by code points ----------------------------------------------------

  /** The code points with the White_Space property, as Unicode lists them. */
  const WHITE_SPACE: set<int> := {
    0x09, 0x0A, 0x0B, 0x0C, 0x0D, 0x20, 0x85, 0xA0, 0x1680,
    0x2000, 0x2001, 0x2002, 0x2003, 0x2004, 0x2005, 0x2006, 0x2007, 0x2008, 0x2009, 0x200A,
    0x2028, 0x2029, 0x202F, 0x205F, 0x3000
  }

  /** Every character has a code point of the list. */
  ghost predicate Blank(s: string) {
    forall c :: c in s ==> c as int in WHITE_SPACE
  }

  lemma {:induction false} WhitespaceListed(c: char)
    ensures IsWhitespace(c) <==> c as int in WHITE_SPACE
  {
  }

  lemma {:induction false} TrimStartDrops(a: string, t: string)
    requires AllWhitespace(a)
    ensures TrimStart(a + t) == TrimStart(t)
  {
    hide IsWhitespace;
    if a == "" {
      assert a + t == t;
    } else {
      assert a[0] in a && (a + t)[1..] == a[1..] + t;
      TrimStartDrops(a[1..], t);
    }
  }

  lemma {:induction false} TrimEndDrops(t: string, b: string)
    requires AllWhitespace(b)
    ensures TrimEnd(t + b) == TrimEnd(t)
    decreases |b|
  {
    hide IsWhitespace;
    if b == "" {
      assert t + b == t;
    } else {
      var n := |b| - 1;
      assert b[n] in b && (t + b)[..|t + b| - 1] == t + b[..n];
      TrimEndDrops(t, b[..n]);
    }
  }

  /** Trimming takes off exactly the listed code points at both ends: of text between such
      padding it leaves what neither begins nor ends with one. */
  lemma {:induction false} TrimPadded(a: string, n: string, b: string)
    requires Blank(a) && Blank(b)
    requires n != "" ==> n[0] as int !in WHITE_SPACE && n[|n| - 1] as int !in WHITE_SPACE
    ensures Trim(a + n + b) == n
  {
    hide IsWhitespace, TrimStart, TrimEnd;
    forall c ensures IsWhitespace(c) <==> c as int in WHITE_SPACE {
      WhitespaceListed(c);
    }
    assert a + n + b == a + (n + b);
    TrimStartDrops(a, n + b);
    if n == "" {
      TrimStartDrops(b, "");
      assert n + b == b && b + "" == b;
      TrimNothing();
    } else {
      StartsTrimmed(n + b);
      TrimEndDrops(n, b);
      EndsTrimmed(n);
    }
  }

  lemma {:induction false} TrimNothing()
    ensures TrimStart("") == "" && TrimEnd("") == ""
  {
  }

  lemma {:induction false} StartsTrimmed(s: string)
    requires s != "" && !IsWhitespace(s[0])
    ensures TrimStart(s) == s
  {
  }

  lemma {:induction false} EndsTrimmed(s: string)
    requires s != "" && !IsWhitespace(s[|s| - 1])
    ensures TrimEnd(s) == s
  {
  }
}
