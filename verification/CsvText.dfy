/** The three output tables and their text: a header line, then one line per row with
    its fields in decimal, separated by commas. */
module CsvText {
  import opened Prelude
  import opened Text

  datatype EventRow = EventRow(readId: nat, count: nat, eventId: nat)
  datatype ReadRow = ReadRow(readId: nat, timestamp: nat, timeRunning: nat, timeEnabled: nat)
  datatype DescRow = DescRow(eventId: nat, name: string, tid: int)

  const EVENT_HEADER := "read_id,count,event_id"
  const READ_HEADER := "read_id,timestamp,time_running,time_enabled"
  const DESC_HEADER := "event_id,name,pid"

  // ---- Decimals --------------------------------------------------------------------

  function DigitChar(d: nat): char
    requires d < 10
  {
    '0' + d as char
  }

  function Decimal(n: nat): (s: string)
    ensures s != ""
  {
    if n < 10 then [DigitChar(n)] else Decimal(n / 10) + [DigitChar(n % 10)]
  }

  function SignedDecimal(i: int): string {
    if i < 0 then ['-'] + Decimal(-i) else Decimal(i)
  }

  function ReadDecimal(s: string): Option<nat> {
    if s == "" then None
    else
      var c := s[|s| - 1];
      if !('0' <= c <= '9') then None
      else if |s| == 1 then Some(c as nat - '0' as nat)
      else
        match ReadDecimal(s[..|s| - 1])
        case None => None
        case Some(n) => Some(10 * n + (c as nat - '0' as nat))
  }

  function ReadSigned(s: string): Option<int> {
    if s != "" && s[0] == '-' then
      match ReadDecimal(s[1..])
      case None => None
      case Some(n) => var i: int := n; Some(-i)
    else
      match ReadDecimal(s)
      case None => None
      case Some(n) => Some(n)
  }

  ghost predicate IsField(s: string) {
    ',' !in s && '\n' !in s
  }

  lemma {:induction false} DecimalRoundTrip(n: nat)
    ensures ReadDecimal(Decimal(n)) == Some(n)
    ensures IsField(Decimal(n)) && '-' !in Decimal(n)
  {
    if n >= 10 {
      DecimalRoundTrip(n / 10);
      assert Decimal(n)[..|Decimal(n)| - 1] == Decimal(n / 10);
    }
  }

  lemma {:induction false} SignedRoundTrip(i: int)
    ensures ReadSigned(SignedDecimal(i)) == Some(i) && IsField(SignedDecimal(i))
  {
    if i < 0 {
      DecimalRoundTrip(-i);
    } else {
      DecimalRoundTrip(i);
      assert Decimal(i)[0] in Decimal(i);
    }
  }

  // ---- Lines and files -------------------------------------------------------------

  function Line(fields: seq<string>): string {
    JoinWith(fields, ',') + ['\n']
  }

  function Lines(rows: seq<seq<string>>): string {
    if rows == [] then "" else Lines(rows[..|rows| - 1]) + Line(rows[|rows| - 1])
  }

  function FileText(header: string, rows: seq<seq<string>>): string {
    header + ['\n'] + Lines(rows)
  }

  /** The fields of each line after the header; the text must end with a newline. */
  function ReadFields(text: string): Option<seq<seq<string>>> {
    var lines := SplitOn(text, '\n');
    if |lines| < 2 || lines[|lines| - 1] != "" then None
    else Some(FieldsOf(lines[1..|lines| - 1]))
  }

  function FieldsOf(lines: seq<string>): (rows: seq<seq<string>>)
    ensures |rows| == |lines|
    ensures forall k :: 0 <= k < |lines| ==> rows[k] == SplitOn(lines[k], ',')
  {
    seq(|lines|, k requires 0 <= k < |lines| => SplitOn(lines[k], ','))
  }

  function ReadRows<T>(rows: seq<seq<string>>, dec: seq<string> -> Option<T>): Option<seq<T>> {
    if rows == [] then Some([])
    else
      match ReadRows(rows[..|rows| - 1], dec)
      case None => None
      case Some(front) =>
        match dec(rows[|rows| - 1])
        case None => None
        case Some(r) => Some(front + [r])
  }

  function EventFields(r: EventRow): seq<string> {
    [Decimal(r.readId), Decimal(r.count), Decimal(r.eventId)]
  }

  function ReadRowFields(r: ReadRow): seq<string> {
    [Decimal(r.readId), Decimal(r.timestamp), Decimal(r.timeRunning), Decimal(r.timeEnabled)]
  }

  function DescFields(r: DescRow): seq<string> {
    [Decimal(r.eventId), r.name, SignedDecimal(r.tid)]
  }

  function ToEvent(f: seq<string>): Option<EventRow> {
    if |f| != 3 then None
    else
      match (ReadDecimal(f[0]), ReadDecimal(f[1]), ReadDecimal(f[2]))
      case (Some(a), Some(b), Some(c)) => Some(EventRow(a, b, c))
      case _ => None
  }

  function ToRead(f: seq<string>): Option<ReadRow> {
    if |f| != 4 then None
    else
      match (ReadDecimal(f[0]), ReadDecimal(f[1]), ReadDecimal(f[2]), ReadDecimal(f[3]))
      case (Some(a), Some(b), Some(c), Some(d)) => Some(ReadRow(a, b, c, d))
      case _ => None
  }

  function ToDesc(f: seq<string>): Option<DescRow> {
    if |f| != 3 then None
    else
      match (ReadDecimal(f[0]), ReadSigned(f[2]))
      case (Some(a), Some(c)) => Some(DescRow(a, f[1], c))
      case _ => None
  }

  function AllFields<T>(rows: seq<T>, enc: T -> seq<string>): (fs: seq<seq<string>>)
    ensures |fs| == |rows| && forall k :: 0 <= k < |rows| ==> fs[k] == enc(rows[k])
  {
    seq(|rows|, k requires 0 <= k < |rows| => enc(rows[k]))
  }

  function EventText(rows: seq<EventRow>): string {
    FileText(EVENT_HEADER, AllFields(rows, EventFields))
  }

  function ReadText(rows: seq<ReadRow>): string {
    FileText(READ_HEADER, AllFields(rows, ReadRowFields))
  }

  function DescText(rows: seq<DescRow>): string {
    FileText(DESC_HEADER, AllFields(rows, DescFields))
  }

  function ReadTable<T>(text: string, dec: seq<string> -> Option<T>): Option<seq<T>> {
    match ReadFields(text)
    case None => None
    case Some(rows) => ReadRows(rows, dec)
  }

  // ---- Round trips -----------------------------------------------------------------

  ghost predicate IsRow(fields: seq<string>) {
    fields != [] && forall f :: f in fields ==> IsField(f)
  }

  lemma {:induction false} FieldsAvoidNewline(fields: seq<string>)
    requires forall f :: f in fields ==> '\n' !in f
    ensures '\n' !in JoinWith(fields, ',')
  {
    if |fields| <= 1 {
    } else {
      FieldsAvoidNewline(fields[..|fields| - 1]);
    }
  }

  function Joined(rows: seq<seq<string>>): (lines: seq<string>)
    ensures |lines| == |rows| && forall k :: 0 <= k < |rows| ==> lines[k] == JoinWith(rows[k], ',')
  {
    seq(|rows|, k requires 0 <= k < |rows| => JoinWith(rows[k], ','))
  }

  /** Splitting a file at newlines gives the header, the joined lines and an empty end. */
  lemma {:induction false} SplitFile(header: string, rows: seq<seq<string>>)
    requires '\n' !in header
    requires forall k :: 0 <= k < |rows| ==> '\n' !in JoinWith(rows[k], ',')
    ensures SplitOn(FileText(header, rows), '\n') == [header] + Joined(rows) + [""]
    decreases |rows|
  {
    hide SplitOn, JoinWith;
    if rows == [] {
      SplitSingle(header, '\n');
      assert FileText(header, rows) == header + ['\n'] + "";
      SplitAppend(header, "", '\n');
    } else {
      var n := |rows| - 1;
      SplitFile(header, rows[..n]);
      assert Joined(rows) == Joined(rows[..n]) + [JoinWith(rows[n], ',')];
      var before := FileText(header, rows[..n]);
      var line := JoinWith(rows[n], ',');
      assert FileText(header, rows) == before + line + ['\n'] + "";
      SplitLine(before, line, [header] + Joined(rows[..n]));
    }
  }

  lemma {:induction false} SplitLine(before: string, line: string, parts: seq<string>)
    requires SplitOn(before, '\n') == parts + [""] && '\n' !in line
    ensures SplitOn(before + line + ['\n'] + "", '\n') == parts + [line] + [""]
  {
    hide SplitOn;
    SplitExtend(before, line, '\n');
    assert (parts + [""])[..|parts|] == parts && "" + line == line;
    SplitAppend(before + line, "", '\n');
  }

  lemma {:induction false} FieldsRoundTrip(header: string, rows: seq<seq<string>>)
    requires '\n' !in header
    requires forall k :: 0 <= k < |rows| ==> IsRow(rows[k])
    ensures ReadFields(FileText(header, rows)) == Some(rows)
  {
    forall k | 0 <= k < |rows|
      ensures '\n' !in JoinWith(rows[k], ',') && SplitOn(JoinWith(rows[k], ','), ',') == rows[k]
    {
      FieldsAvoidNewline(rows[k]);
      SplitJoin(rows[k], ',');
    }
    SplitFile(header, rows);
    var lines := SplitOn(FileText(header, rows), '\n');
    assert lines[1..|lines| - 1] == Joined(rows);
    assert FieldsOf(lines[1..|lines| - 1]) == rows;
  }

  lemma {:induction false} RowsRoundTrip<T>(rows: seq<T>, enc: T -> seq<string>, dec: seq<string> -> Option<T>)
    requires forall k :: 0 <= k < |rows| ==> dec(enc(rows[k])) == Some(rows[k])
    ensures ReadRows(AllFields(rows, enc), dec) == Some(rows)
    decreases |rows|
  {
    if rows == [] {
    } else {
      var n := |rows| - 1;
      RowsRoundTrip(rows[..n], enc, dec);
      assert AllFields(rows, enc)[..n] == AllFields(rows[..n], enc);
      assert AllFields(rows, enc)[n] == enc(rows[n]);
      assert rows == rows[..n] + [rows[n]];
    }
  }

  /** Reading the event file back gives exactly the rows written. */
  lemma {:induction false} EventRoundTrip(rows: seq<EventRow>)
    ensures ReadTable(EventText(rows), ToEvent) == Some(rows)
  {
    forall k | 0 <= k < |rows|
      ensures IsRow(EventFields(rows[k])) && ToEvent(EventFields(rows[k])) == Some(rows[k])
    {
      DecimalRoundTrip(rows[k].readId);
      DecimalRoundTrip(rows[k].count);
      DecimalRoundTrip(rows[k].eventId);
    }
    FieldsRoundTrip(EVENT_HEADER, AllFields(rows, EventFields));
    RowsRoundTrip(rows, EventFields, ToEvent);
  }

  lemma {:induction false} ReadRowRoundTrip(r: ReadRow)
    ensures IsRow(ReadRowFields(r)) && ToRead(ReadRowFields(r)) == Some(r)
  {
    hide Decimal, ReadDecimal;
    DecimalRoundTrip(r.readId);
    DecimalRoundTrip(r.timestamp);
    DecimalRoundTrip(r.timeRunning);
    DecimalRoundTrip(r.timeEnabled);
  }

  /** Reading the read file back gives exactly the rows written. */
  lemma {:induction false} ReadRoundTrip(rows: seq<ReadRow>)
    ensures ReadTable(ReadText(rows), ToRead) == Some(rows)
  {
    forall k | 0 <= k < |rows|
      ensures IsRow(ReadRowFields(rows[k])) && ToRead(ReadRowFields(rows[k])) == Some(rows[k])
    {
      ReadRowRoundTrip(rows[k]);
    }
    FieldsRoundTrip(READ_HEADER, AllFields(rows, ReadRowFields));
    RowsRoundTrip(rows, ReadRowFields, ToRead);
  }

  lemma {:induction false} DescRowRoundTrip(r: DescRow)
    ensures ToDesc(DescFields(r)) == Some(r)
    ensures IsRow(DescFields(r)) <==> IsField(r.name)
  {
    DecimalRoundTrip(r.eventId);
    SignedRoundTrip(r.tid);
    assert r.name == DescFields(r)[1];
  }

  function CountOf(s: string, c: char): nat {
    if s == "" then 0 else CountOf(s[..|s| - 1], c) + (if s[|s| - 1] == c then 1 else 0)
  }

  lemma {:induction false} CountAppend(s: string, t: string, c: char)
    ensures CountOf(s + t, c) == CountOf(s, c) + CountOf(t, c)
    decreases |t|
  {
    if t == "" {
      assert s + t == s;
    } else {
      CountAppend(s, t[..|t| - 1], c);
      assert (s + t)[..|s + t| - 1] == s + t[..|t| - 1];
    }
  }

  lemma {:induction false} CountZero(s: string, c: char)
    ensures CountOf(s, c) == 0 <==> c !in s
  {
    if s == "" {
    } else {
      CountZero(s[..|s| - 1], c);
      assert s == s[..|s| - 1] + [s[|s| - 1]];
    }
  }

  lemma {:induction false} SplitCount(s: string, sep: char)
    ensures |SplitOn(s, sep)| == CountOf(s, sep) + 1
  {
    if s == "" {
    } else {
      SplitCount(s[..|s| - 1], sep);
    }
  }

  lemma {:induction false} JoinThreeCount(a: string, b: string, d: string, c: char)
    ensures JoinWith([a, b, d], ',') == a + [','] + b + [','] + d
    ensures CountOf(JoinWith([a, b, d], ','), c) ==
              CountOf(a, c) + CountOf(b, c) + CountOf(d, c) + (if c == ',' then 2 else 0)
  {
    assert [a, b, d][..2] == [a, b] && [a, b][..1] == [a];
    assert JoinWith([a, b], ',') == a + [','] + b;
    assert JoinWith([a, b, d], ',') == JoinWith([a, b], ',') + [','] + d;
    CountAppend(a + [','] + b + [','], d, c);
    CountAppend(a + [','] + b, [','], c);
    CountAppend(a + [','], b, c);
    CountAppend(a, [','], c);
    CountOne(',', c);
  }

  lemma {:induction false} CountOne(x: char, c: char)
    ensures CountOf([x], c) == if x == c then 1 else 0
  {
    assert [x][..0] == "";
  }

  lemma {:induction false} DescCount(r: DescRow, c: char)
    requires c == ',' || c == '\n'
    ensures CountOf(JoinWith(DescFields(r), ','), c) == CountOf(r.name, c) + (if c == ',' then 2 else 0)
  {
    JoinThreeCount(Decimal(r.eventId), r.name, SignedDecimal(r.tid), c);
    DecimalRoundTrip(r.eventId);
    SignedRoundTrip(r.tid);
    CountZero(Decimal(r.eventId), c);
    CountZero(SignedDecimal(r.tid), c);
  }

  lemma {:induction false} LinesCountStep(rows: seq<DescRow>, r: DescRow)
    ensures CountOf(Lines(AllFields(rows + [r], DescFields)), '\n') ==
              CountOf(Lines(AllFields(rows, DescFields)), '\n') + CountOf(r.name, '\n') + 1
  {
    hide DescFields, JoinWith;
    var before, line := Lines(AllFields(rows, DescFields)), JoinWith(DescFields(r), ',');
    assert AllFields(rows + [r], DescFields)[..|rows|] == AllFields(rows, DescFields);
    assert Lines(AllFields(rows + [r], DescFields)) == before + (line + ['\n']);
    CountAppend(before, line + ['\n'], '\n');
    CountAppend(line, ['\n'], '\n');
    CountOne('\n', '\n');
    DescCount(r, '\n');
  }

  /** Newlines of the description lines: one each, and those inside the names. */
  lemma {:induction false} LinesCount(rows: seq<DescRow>)
    ensures CountOf(Lines(AllFields(rows, DescFields)), '\n') >= |rows|
    ensures CountOf(Lines(AllFields(rows, DescFields)), '\n') == |rows| <==>
              forall k :: 0 <= k < |rows| ==> '\n' !in rows[k].name
    decreases |rows|
  {
    if rows == [] {
    } else {
      hide Lines, CountOf;
      var front, r := rows[..|rows| - 1], rows[|rows| - 1];
      assert rows == front + [r];
      LinesCount(front);
      LinesCountStep(front, r);
      CountZero(r.name, '\n');
    }
  }

  lemma {:induction false} ReadRowsLength<T>(rows: seq<seq<string>>, dec: seq<string> -> Option<T>)
    ensures ReadRows(rows, dec).Some? ==> |ReadRows(rows, dec).value| == |rows|
    ensures ReadRows(rows, dec).Some? ==> forall k :: 0 <= k < |rows| ==> dec(rows[k]).Some?
  {
    if rows == [] {
    } else {
      ReadRowsLength(rows[..|rows| - 1], dec);
    }
  }

  /** A description file that reads back as the rows written has no newline in a name:
      it would be one line too long. */
  lemma {:induction false} DescNoNewline(rows: seq<DescRow>)
    requires ReadTable(DescText(rows), ToDesc) == Some(rows)
    ensures forall k :: 0 <= k < |rows| ==> '\n' !in rows[k].name
  {
    var text := DescText(rows);
    var body := Lines(AllFields(rows, DescFields));
    SplitCount(text, '\n');
    CountAppend(DESC_HEADER + ['\n'], body, '\n');
    CountAppend(DESC_HEADER, ['\n'], '\n');
    CountOne('\n', '\n');
    CountZero(DESC_HEADER, '\n');
    ReadRowsLength(ReadFields(text).value, ToDesc);
    LinesCount(rows);
  }

  lemma {:induction false} ThreeFields(f: seq<string>)
    requires ToDesc(f).Some?
    ensures |f| == 3
  {
  }

  /** Nor a comma: its line would have one field too many. */
  lemma {:induction false} DescNoComma(rows: seq<DescRow>)
    requires ReadTable(DescText(rows), ToDesc) == Some(rows)
    requires forall k :: 0 <= k < |rows| ==> '\n' !in rows[k].name
    ensures forall k :: 0 <= k < |rows| ==> ',' !in rows[k].name
  {
    hide DescFields, JoinWith, SplitOn, ToDesc, CountOf;
    var fields := AllFields(rows, DescFields);
    forall k | 0 <= k < |rows| ensures '\n' !in JoinWith(fields[k], ',') {
      DescCount(rows[k], '\n');
      CountZero(rows[k].name, '\n');
      CountZero(JoinWith(fields[k], ','), '\n');
    }
    SplitFile(DESC_HEADER, fields);
    var lines := SplitOn(DescText(rows), '\n');
    ReadRowsLength(ReadFields(DescText(rows)).value, ToDesc);
    forall k | 0 <= k < |rows| ensures ',' !in rows[k].name {
      assert lines[1..|lines| - 1][k] == JoinWith(fields[k], ',');
      SplitCount(JoinWith(fields[k], ','), ',');
      ThreeFields(SplitOn(JoinWith(fields[k], ','), ','));
      DescCount(rows[k], ',');
      CountZero(rows[k].name, ',');
    }
  }

  /** The description file reads back as the rows written exactly when no event name
      holds a comma or a newline. */
  lemma {:induction false} DescRoundTrip(rows: seq<DescRow>)
    ensures ReadTable(DescText(rows), ToDesc) == Some(rows) <==>
              forall k :: 0 <= k < |rows| ==> IsField(rows[k].name)
  {
    if forall k :: 0 <= k < |rows| ==> IsField(rows[k].name) {
      forall k | 0 <= k < |rows|
        ensures IsRow(DescFields(rows[k])) && ToDesc(DescFields(rows[k])) == Some(rows[k])
      {
        DescRowRoundTrip(rows[k]);
      }
      FieldsRoundTrip(DESC_HEADER, AllFields(rows, DescFields));
      RowsRoundTrip(rows, DescFields, ToDesc);
    }
    if ReadTable(DescText(rows), ToDesc) == Some(rows) {
      DescNoNewline(rows);
      DescNoComma(rows);
    }
  }

  // ---- The text, character by character --------------------------------------------

  function Power10(n: nat): nat {
    if n == 0 then 1 else 10 * Power10(n - 1)
  }

  lemma {:induction false} PowerPositive(n: nat)
    ensures Power10(n) > 0
  {
    if n == 0 {
    } else {
      PowerPositive(n - 1);
    }
  }

  /** What a string of decimal digits is worth, digit by digit. */
  function Worth(s: string): int {
    if s == "" then 0 else (s[0] as int - 0x30) * Power10(|s| - 1) + Worth(s[1..])
  }

  lemma {:induction false} WorthSnoc(s: string, c: char)
    ensures Worth(s + [c]) == 10 * Worth(s) + (c as int - 0x30)
  {
    if s == "" {
      assert [c][1..] == "";
    } else {
      WorthSnoc(s[1..], c);
      assert (s + [c])[1..] == s[1..] + [c];
      assert Power10(|s|) == 10 * Power10(|s| - 1);
    }
  }

  /** A number is written in decimal: digits of the right worth, the first of which is a zero
      only in the number zero. */
  lemma {:induction false} DecimalIs(n: nat)
    ensures Worth(Decimal(n)) == n
    ensures forall c :: c in Decimal(n) ==> 0x30 <= c as int <= 0x39
    ensures Decimal(n)[0] as int == 0x30 ==> n == 0
  {
    if n < 10 {
      assert Decimal(n)[1..] == "";
    } else {
      DecimalIs(n / 10);
      WorthSnoc(Decimal(n / 10), DigitChar(n % 10));
    }
  }

  /** A row is its fields between commas and a newline. */
  lemma {:induction false} LineThree(a: string, b: string, c: string)
    ensures Line([a, b, c]) == a + "," + b + "," + c + "\n"
  {
    assert [a, b, c][..2] == [a, b] && [a, b][..1] == [a];
    assert JoinWith([a, b], ',') == a + [','] + b;
    assert JoinWith([a, b, c], ',') == a + [','] + b + [','] + c;
  }

  lemma {:induction false} LineFour(a: string, b: string, c: string, d: string)
    ensures Line([a, b, c, d]) == a + "," + b + "," + c + "," + d + "\n"
  {
    LineThree(a, b, c);
    assert [a, b, c, d][..3] == [a, b, c];
    assert JoinWith([a, b, c, d], ',') == JoinWith([a, b, c], ',') + [','] + d;
    assert JoinWith([a, b, c], ',') == a + "," + b + "," + c by {
      assert Line([a, b, c])[..|Line([a, b, c])| - 1] == JoinWith([a, b, c], ',');
      assert (a + "," + b + "," + c + "\n")[..|a + "," + b + "," + c + "\n"| - 1] == a + "," + b + "," + c;
    }
  }

  lemma {:induction false} TextSnoc<T>(header: string, rows: seq<T>, r: T, enc: T -> seq<string>)
    ensures FileText(header, AllFields<T>([], enc)) == header + "\n"
    ensures FileText(header, AllFields(rows + [r], enc)) == FileText(header, AllFields(rows, enc)) + Line(enc(r))
  {
    assert AllFields(rows + [r], enc)[..|rows|] == AllFields(rows, enc);
    assert AllFields<T>([], enc) == [];
    assert header + ['\n'] + "" == header + "\n";
  }

  /** The three files, header by header and column by column. */
  lemma {:induction false} FileLayout(es: seq<EventRow>, e: EventRow, rs: seq<ReadRow>, r: ReadRow,
                                      ds: seq<DescRow>, d: DescRow)
    ensures EventText([]) == "read_id,count,event_id\n"
    ensures EventText(es + [e]) ==
              EventText(es) + (Decimal(e.readId) + "," + Decimal(e.count) + "," + Decimal(e.eventId) + "\n")
    ensures ReadText([]) == "read_id,timestamp,time_running,time_enabled\n"
    ensures ReadText(rs + [r]) ==
              ReadText(rs) + (Decimal(r.readId) + "," + Decimal(r.timestamp) + "," + Decimal(r.timeRunning) + ","
                              + Decimal(r.timeEnabled) + "\n")
    ensures DescText([]) == "event_id,name,pid\n"
    ensures DescText(ds + [d]) ==
              DescText(ds) + (Decimal(d.eventId) + "," + d.name + ","
                              + (if d.tid < 0 then "-" + Decimal(-d.tid) else Decimal(d.tid)) + "\n")
  {
    hide FileText, Line, Decimal;
    TextSnoc(EVENT_HEADER, es, e, EventFields);
    TextSnoc(READ_HEADER, rs, r, ReadRowFields);
    TextSnoc(DESC_HEADER, ds, d, DescFields);
    LineThree(Decimal(e.readId), Decimal(e.count), Decimal(e.eventId));
    LineFour(Decimal(r.readId), Decimal(r.timestamp), Decimal(r.timeRunning), Decimal(r.timeEnabled));
    LineThree(Decimal(d.eventId), d.name, SignedDecimal(d.tid));
  }
}
