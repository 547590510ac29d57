/** Runs in which the collector's tables do not say what happened: a short read, an event
    whose id cannot be queried, and an event name with a newline. */
module CollectorFailures {
  import opened Prelude
  import opened Text
  import opened CsvText
  import opened EventGrammar
  import opened ParsePerf
  import opened PerfEvents
  import opened Collector
  import opened CollectorLaws
  import opened CollectorTables

  /** Opens a thread whose every descriptor request is answered with `fd` and `id`. */
  function OpenEvent(tid: int, fd: int, id: u64, queryable: bool): Op {
    Open(tid, (group: nat, member: nat) => Opened(fd, id, queryable))
  }

  /** The collector when one more thread has its one event open. */
  function WithThread(c: Col, config: PerfConfig, tid: int, fd: int, id: u64, queryable: bool, stamp: nat): Col {
    c.(os := Os(c.os.fds[fd := PerfEvent(id, tid, config.attr, -1, queryable)], c.os.used + {id}),
       groups := c.groups[tid := [PerfStatGroup([PerfStat(fd, config.name)])]],
       session := c.session[tid := stamp],
       descRows := c.descRows + (if queryable then [DescRow(id, config.name, tid)] else []))
  }

  lemma {:induction false} OpensOne(c: Col, config: PerfConfig, tid: int, fd: int, id: u64, queryable: bool, stamp: nat)
    requires c.configs == [[config]] && tid !in c.groups
    requires fd >= 0 && fd !in c.os.fds && id !in c.os.used
    ensures Apply(c, OpenEvent(tid, fd, id, queryable), stamp) == WithThread(c, config, tid, fd, id, queryable, stamp)
  {
    hide OpenGroups, DescsOf, Stats;
    var opens, p := OpenEvent(tid, fd, id, queryable).opens, PerfStat(fd, config.name);
    var d := WithThread(c, config, tid, fd, id, queryable, stamp);
    OpensGroups(c.os, config, tid, opens);
    OneStat(p);
    OneDesc(d.os, tid, p);
  }

  lemma {:induction false} OneStat(p: PerfStat)
    ensures Stats([PerfStatGroup([p])]) == [p]
  {
    assert [PerfStatGroup([p])][..0] == [];
    assert [] + [p] == [p];
  }

  lemma {:induction false} OneDesc(os: Os, tid: int, p: PerfStat)
    ensures DescsOf(os, tid, [p]) == DescOf(os, tid, p)
  {
    assert [p][..0] == [];
    assert [] + DescOf(os, tid, p) == DescOf(os, tid, p);
  }

  lemma {:induction false} OpensGroups(os: Os, config: PerfConfig, tid: int, opens: Opens)
    requires opens(0, 0).Opened? && opens(0, 0).fd >= 0 && opens(0, 0).fd !in os.fds && opens(0, 0).id !in os.used
    ensures var a := opens(0, 0);
            OpenGroups(os, [[config]], tid, opens, 1) ==
              (Os(os.fds[a.fd := PerfEvent(a.id, tid, config.attr, -1, a.queryable)], os.used + {a.id}),
               [PerfStatGroup([PerfStat(a.fd, config.name)])])
  {
    hide OpenGroup;
    var a := opens(0, 0);
    OpensGroup(os, config, tid, AnswersFor(opens, 0));
    assert OpenGroups(os, [[config]], tid, opens, 0) == (os, []);
    assert [] + [PerfStatGroup([PerfStat(a.fd, config.name)])] == [PerfStatGroup([PerfStat(a.fd, config.name)])];
  }

  lemma {:induction false} OpensGroup(os: Os, config: PerfConfig, tid: int, answers: nat -> OpenAnswer)
    requires answers(0).Opened? && answers(0).fd >= 0 && answers(0).fd !in os.fds && answers(0).id !in os.used
    ensures var a := answers(0);
            OpenGroup(os, [config], tid, answers) ==
              (Os(os.fds[a.fd := PerfEvent(a.id, tid, config.attr, -1, a.queryable)], os.used + {a.id}),
               Result.Ok(PerfStatGroup([PerfStat(a.fd, config.name)])))
  {
    assert OpenMembers(os, [config], tid, answers, 0) == Opening(os, [], None);
    assert [] + [PerfStat(answers(0).fd, config.name)] == [PerfStat(answers(0).fd, config.name)];
  }

  lemma {:induction false} RunSnoc(configs: seq<seq<PerfConfig>>, ops: seq<Op>, op: Op)
    ensures Run(Init(configs), ops + [op]) == Apply(Run(Init(configs), ops), op, |ops|)
  {
    hide Apply;
    assert (ops + [op])[..|ops|] == ops;
  }

  lemma {:induction false} RunOne(config: PerfConfig, tid: int, fd: int, id: u64, queryable: bool)
    requires fd >= 0
    ensures Run(Init([[config]]), [OpenEvent(tid, fd, id, queryable)]) ==
              WithThread(Init([[config]]), config, tid, fd, id, queryable, 0)
  {
    hide Apply;
    RunSnoc([[config]], [], OpenEvent(tid, fd, id, queryable));
    assert [] + [OpenEvent(tid, fd, id, queryable)] == [OpenEvent(tid, fd, id, queryable)];
    OpensOne(Init([[config]]), config, tid, fd, id, queryable, 0);
  }

  // ---- A newline in a name ---------------------------------------------------------

  /** Every name with a newline that can be written bare reaches the description file of
      the first thread that is announced, and that file does not read back. */
  lemma {:induction false} NewlineBreaksFile<E>(name: string, pfm: Resolver<E>, tid: int, fd: int, id: u64)
    requires IsName(name) && '[' !in name && '\n' in name && pfm(name).Ok? && fd >= 0
    ensures ResolveGroups(Parse(name), pfm) == Result.Ok([[PerfConfig(pfm(name).value, name)]])
    ensures var c := Run(Init([[PerfConfig(pfm(name).value, name)]]), [OpenEvent(tid, fd, id, true)]);
            c.descRows == [DescRow(id, name, tid)] && ReadTable(DescText(c.descRows), ToDesc) != Some(c.descRows)
  {
    hide ReadTable, DescText, Run;
    var config := PerfConfig(pfm(name).value, name);
    ParseBareName(name);
    ResolveOne(name, pfm);
    RunOne(config, tid, fd, id, true);
    DescRoundTrip([DescRow(id, name, tid)]);
    assert !IsField([DescRow(id, name, tid)][0].name);
  }

  lemma {:induction false} ResolveOne<E>(name: string, pfm: Resolver<E>)
    requires pfm(name).Ok?
    ensures ResolveGroups([[name]], pfm) == Result.Ok([[PerfConfig(pfm(name).value, name)]])
  {
    hide ResolveGroups;
    ResolveGroupsOk([[name]], pfm);
    FlattenSingle([name]);
    assert AllResolve([name], pfm);
    var r := ResolveGroups([[name]], pfm).value;
    assert Resolves([[name]][0], pfm, r[0]);
    assert r[0] == [PerfConfig(pfm(name).value, name)] && r == [r[0]];
  }

  /** Such names exist, and brackets let them through as well. */
  lemma {:induction false} NewlineIsParsed()
    ensures IsName("a\nb") && '[' !in "a\nb" && '\n' in "a\nb"
    ensures Parse("a\nb") == [["a\nb"]] && Parse("[" + "a\nb" + "]") == [["a\nb"]]
  {
    hide Parse, SplitOn, NamesIn, Trim;
    var n := "a\nb";
    assert n[0] == 'a' && n[1] == '\n' && n[2] == 'b';
    ParseBareName(n);
    ParseBracket(n);
    SplitSingle(n, ',');
    assert IsName(n) ==> forall m :: m in [n] ==> IsName(m);
    NamesInOfNames([n]);
  }

  // ---- An id that cannot be queried ------------------------------------------------

  /** A whole read of a one-event group. */
  function WholeAnswer(timestamp: nat, time: u64, value: u64): ReadAnswer {
    ReadAnswer(timestamp, (i: nat) => 0, Counted(time, time, (k: nat) => value, 40))
  }

  /** What reading the one event of a thread logs. */
  lemma {:induction false} ReadsOne(c: Col, config: PerfConfig, tid: int, fd: int, id: u64, queryable: bool,
                                    session: nat, readings: Readings)
    requires tid in c.groups && c.groups[tid] == [PerfStatGroup([PerfStat(fd, config.name)])]
    requires fd in c.os.fds && c.os.fds[fd].id == id && c.os.fds[fd].queryable == queryable
    requires tid in c.session && c.session[tid] == session
    ensures var block := ThreadBlock(c, tid, readings);
            && |block| == 1 && |block[0].memory| == 40
            && block[0].tid == tid && block[0].members == [Member(config.name, id, queryable)]
            && block[0].timestamp == readings(fd).timestamp
            && (readings(fd).outcome.Counted? ==>
                  var o := readings(fd).outcome;
                  && block[0].outcome.Values? && block[0].outcome.length == o.length
                  && block[0].outcome.record.timeEnabled == o.timeEnabled
                  && block[0].outcome.record.timeRunning == o.timeRunning
                  && block[0].outcome.record.entries[0].value == o.count(0))
  {
    var g := PerfStatGroup([PerfStat(fd, config.name)]);
    assert Members(c.os, g) == [Member(config.name, id, queryable)];
  }

  lemma {:induction false} FlushOneThread(c: Col, tid: int, readings: Readings)
    requires c.groups.Keys == {tid}
    ensures FlushAll(c, [tid], readings).log == c.log + ThreadBlock(c, tid, readings)
  {
    hide ThreadBlock, FlushAll, Tabulated, Sorted;
    FlushEffect(c, [tid], readings);
    assert IsOrder([tid], {tid});
    assert [tid][..0] == [];
    assert FlushBlock(c, [tid], readings) == [] + ThreadBlock(c, tid, readings);
  }

  /** When the id query of an event fails, what was read of it joins to nothing. */
  lemma {:induction false} UnqueryableLosesName(name: string)
    ensures var c := Run(Init([[PerfConfig(0, name)]]),
                         [OpenEvent(7, 3, 100, false)] + [Op.Flush([7], (fd: int) => WholeAnswer(10, 5, 42))]);
            && JoinTables(c.eventRows, c.readRows, c.descRows) == [None]
            && Measured(c.log) == [Some(Sample(100, 7, name, 42, 10, 5, 5))]
  {
    hide Run, Trusted, JoinTables, FlushAll, ThreadBlock, Apply, OpenEvent, AttemptBase.WellFormed;
    var config, readings := PerfConfig(0, name), (fd: int) => WholeAnswer(10, 5, 42);
    var ops := [OpenEvent(7, 3, 100, false)] + [Op.Flush([7], readings)];
    var c := Run(Init([[config]]), ops);
    RunSnoc([[config]], [OpenEvent(7, 3, 100, false)], Op.Flush([7], readings));
    RunOne(config, 7, 3, 100, false);
    var b := WithThread(Init([[config]]), config, 7, 3, 100, false, 0);
    assert Apply(b, Op.Flush([7], readings), 1) == FlushAll(b, [7], readings) by { FlushIsFlush(b, [7], readings, 1); }
    assert b.groups.Keys == {7};
    FlushOneThread(b, 7, readings);
    ReadsOne(b, config, 7, 3, 100, false, 0, readings);
    var a := ThreadBlock(b, 7, readings)[0];
    assert c.log == [a];
    OneInLog(a);
    Lossless([[config]], ops);
    assert a.Whole();
    assert SamplesOf(a) == [None] && MeasuredBy(a) == [Some(Sample(100, 7, name, 42, 10, 5, 5))];
  }

  lemma {:induction false} FlushIsFlush(c: Col, order: seq<int>, readings: Readings, stamp: nat)
    ensures Apply(c, Op.Flush(order, readings), stamp) == FlushAll(c, order, readings)
  {
    hide FlushAll;
  }

  lemma {:induction false} OneInLog(a: Attempt)
    ensures History([a]) == SamplesOf(a) && Measured([a]) == MeasuredBy(a)
  {
    hide SamplesOf, MeasuredBy;
    assert [a][..0] == [];
    assert [] + SamplesOf(a) == SamplesOf(a) && [] + MeasuredBy(a) == MeasuredBy(a);
  }

  // ---- A short read ----------------------------------------------------------------

  /** A read that delivers nothing of a record with these counts. */
  function EmptyAnswer(timestamp: nat, time: u64, value: u64): ReadAnswer {
    ReadAnswer(timestamp, (i: nat) => 0, Counted(time, time, (k: nat) => value, 0))
  }

  /** Thread 1 is read whole, thread 2 right after it without getting a byte. */
  function SecondEmpty(): Readings {
    (fd: int) => if fd == 3 then WholeAnswer(10, 5, 42) else EmptyAnswer(20, 6, 7)
  }

  function TwoThreads(): seq<Op> {
    [OpenEvent(1, 3, 100, true)] + [OpenEvent(2, 4, 200, true)] + [Op.Flush([1, 2], SecondEmpty())]
  }

  /** The collector when both threads have been announced. */
  function BothOpen(config: PerfConfig): Col {
    WithThread(WithThread(Init([[config]]), config, 1, 3, 100, true, 0), config, 2, 4, 200, true, 1)
  }

  lemma {:induction false} RunTwo(config: PerfConfig)
    ensures Run(Init([[config]]), TwoThreads()) == FlushAll(BothOpen(config), [1, 2], SecondEmpty())
  {
    hide Apply, FlushAll, SecondEmpty;
    RunOne(config, 1, 3, 100, true);
    RunSnoc([[config]], [OpenEvent(1, 3, 100, true)], OpenEvent(2, 4, 200, true));
    OpensOne(WithThread(Init([[config]]), config, 1, 3, 100, true, 0), config, 2, 4, 200, true, 1);
    RunSnoc([[config]], [OpenEvent(1, 3, 100, true)] + [OpenEvent(2, 4, 200, true)], Op.Flush([1, 2], SecondEmpty()));
    FlushIsFlush(BothOpen(config), [1, 2], SecondEmpty(), 2);
  }

  lemma {:induction false} FlushTwo(c: Col, readings: Readings)
    requires c.groups.Keys == {1, 2}
    ensures FlushAll(c, [1, 2], readings).log == c.log + ThreadBlock(c, 1, readings) + ThreadBlock(c, 2, readings)
  {
    hide ThreadBlock, FlushAll, Tabulated, Sorted;
    FlushEffect(c, [1, 2], readings);
    assert IsOrder([1, 2], {1, 2});
    var one, two := ThreadBlock(c, 1, readings), ThreadBlock(c, 2, readings);
    assert [1, 2][..1] == [1] && [1][..0] == [];
    assert FlushBlock(c, [1], readings) == [] + one;
    assert FlushBlock(c, [1, 2], readings) == one + two;
    assert c.log + one + two == c.log + (one + two);
  }

  lemma {:induction false} SecondEmptyAnswers()
    ensures SecondEmpty()(3) == WholeAnswer(10, 5, 42) && SecondEmpty()(4) == EmptyAnswer(20, 6, 7)
  {
  }

  /** Attempts on both threads: what the first delivered stays in the buffer, so the second
      is written under the first one's event. */
  lemma {:induction false} ShortReadMisattributes(name: string)
    ensures var c := Run(Init([[PerfConfig(0, name)]]), TwoThreads());
            && JoinTables(c.eventRows, c.readRows, c.descRows) ==
                 [Some(Sample(100, 1, name, 42, 10, 5, 5)), Some(Sample(100, 1, name, 42, 20, 5, 5))]
            && Measured(c.log) ==
                 [Some(Sample(100, 1, name, 42, 10, 5, 5)), Some(Sample(200, 2, name, 7, 20, 6, 6))]
  {
    hide Run, JoinTables, RowsAt, BufferOf, Undisturbed, TwoThreads, SamplesOf, MeasuredBy, Measured,
         AttemptBase.WellFormed;
    var configs := [[PerfConfig(0, name)]];
    var c := Run(Init(configs), TwoThreads());
    var a, b := TwoAttempts(name);
    TrustedIffWhole(a);
    assert Undisturbed(c.log[0], BufferOf(c.log[..0]));
    JoinedAttempt(configs, TwoThreads(), 0);
    EmptyReadMisattributes(configs, TwoThreads(), 1);
    RunTabulated(configs, TwoThreads());
    TwoRows(c.log, c.readRows, c.descRows);
    OneSample(a);
    OneSample(b);
    OneSample(Stamped(a, b.timestamp));
  }

  lemma {:induction false} TwoAttempts(name: string) returns (a: Attempt, b: Attempt)
    ensures Run(Init([[PerfConfig(0, name)]]), TwoThreads()).log == [a, b]
    ensures a.tid == 1 && a.members == [Member(name, 100, true)] && a.timestamp == 10 && a.Whole()
    ensures b.tid == 2 && b.members == [Member(name, 200, true)] && b.timestamp == 20
    ensures a.outcome.Values? && a.outcome.record.timeEnabled == a.outcome.record.timeRunning == 5
    ensures a.outcome.record.entries[0].value == 42
    ensures b.outcome.Values? && b.outcome.record.timeEnabled == b.outcome.record.timeRunning == 6
    ensures b.outcome.record.entries[0].value == 7 && b.outcome.length == 0
  {
    hide Run, FlushAll, ThreadBlock, TwoThreads, SecondEmpty, AttemptBase.WellFormed;
    SecondEmptyAnswers();
    var config := PerfConfig(0, name);
    var both := BothOpen(config);
    RunTwo(config);
    assert both.groups.Keys == {1, 2};
    FlushTwo(both, SecondEmpty());
    ReadsOne(both, config, 1, 3, 100, true, 0, SecondEmpty());
    ReadsOne(both, config, 2, 4, 200, true, 1, SecondEmpty());
    a, b := ThreadBlock(both, 1, SecondEmpty())[0], ThreadBlock(both, 2, SecondEmpty())[0];
    assert [] + [a] + [b] == [a, b];
  }

  function Stamped(a: Attempt, timestamp: nat): Attempt {
    a.(timestamp := timestamp)
  }

  lemma {:induction false} OneSample(a: Attempt)
    requires |a.members| == 1 && a.members[0].queryable && a.outcome.Values?
    ensures SamplesOf(a) == MeasuredBy(a) == [Some(SampleOf(a, 0))]
  {
  }

  /** A log of two attempts, in terms of each one's rows. */
  lemma {:induction false} TwoRows(log: seq<Attempt>, readRows: seq<ReadRow>, descRows: seq<DescRow>)
    requires |log| == 2
    ensures JoinTables(EventTableOf(log), readRows, descRows) ==
              JoinTables(RowsAt(log, 0), readRows, descRows) + JoinTables(RowsAt(log, 1), readRows, descRows)
    ensures Measured(log) == MeasuredBy(log[0]) + MeasuredBy(log[1])
  {
    hide EventRowsOf, BufferOf, MeasuredBy, AttemptBase.WellFormed, JoinRow;
    assert log[..2] == log && log[..2][..1] == log[..1] && log[..1][..0] == log[..0] == [];
    assert EventTableOf(log[..1]) == [] + RowsAt(log, 0);
    assert EventTableOf(log) == RowsAt(log, 0) + RowsAt(log, 1);
    assert Measured(log[..1]) == [] + MeasuredBy(log[0]);
    JoinAppend(RowsAt(log, 0), RowsAt(log, 1), readRows, descRows);
  }

  // ---- A short read that does no harm ----------------------------------------------

  function SameAgain(): seq<Op> {
    [OpenEvent(1, 3, 100, true)] + [Op.Flush([1], (fd: int) => WholeAnswer(10, 5, 42))]
      + [Op.Flush([1], (fd: int) => EmptyAnswer(20, 5, 42))]
  }

  lemma {:induction false} SameAttempts(name: string) returns (a: Attempt, b: Attempt)
    ensures Run(Init([[PerfConfig(0, name)]]), SameAgain()).log == [a, b]
    ensures a.members == b.members == [Member(name, 100, true)] && a.tid == b.tid == 1
    ensures a.timestamp == 10 && a.Whole() && a.outcome.Values?
    ensures a.outcome.record.timeEnabled == a.outcome.record.timeRunning == 5
    ensures a.outcome.record.entries[0].value == 42
    ensures b.timestamp == 20 && b.outcome.Values? && b.outcome.length == 0 && !b.Whole()
    ensures b.outcome.record.timeEnabled == b.outcome.record.timeRunning == 5
    ensures b.outcome.record.entries[0].value == 42
  {
    hide Run, FlushAll, ThreadBlock, Apply, OpenEvent, Tabulated, AttemptBase.WellFormed;
    var config := PerfConfig(0, name);
    var one, two := (fd: int) => WholeAnswer(10, 5, 42), (fd: int) => EmptyAnswer(20, 5, 42);
    var c := WithThread(Init([[config]]), config, 1, 3, 100, true, 0);
    var d := FlushAll(c, [1], one);
    RunOne(config, 1, 3, 100, true);
    RunSnoc([[config]], [OpenEvent(1, 3, 100, true)], Op.Flush([1], one));
    RunSnoc([[config]], [OpenEvent(1, 3, 100, true)] + [Op.Flush([1], one)], Op.Flush([1], two));
    FlushIsFlush(c, [1], one, 1);
    FlushIsFlush(d, [1], two, 2);
    assert c.groups.Keys == {1};
    FlushEffect(c, [1], one);
    FlushOneThread(c, 1, one);
    FlushOneThread(d, 1, two);
    ReadsOne(c, config, 1, 3, 100, true, 0, one);
    ReadsOne(d, config, 1, 3, 100, true, 0, two);
    a, b := ThreadBlock(c, 1, one)[0], ThreadBlock(d, 1, two)[0];
    assert [] + [a] + [b] == [a, b];
  }

  /** Whole reads are not necessary for right tables: a read that delivers nothing is
      recorded correctly when the counters have not moved since the one before. */
  lemma {:induction false} ShortReadMayBeRight(name: string)
    ensures var c := Run(Init([[PerfConfig(0, name)]]), SameAgain());
            && JoinTables(c.eventRows, c.readRows, c.descRows) == Measured(c.log)
            && exists a :: a in c.log && !a.Whole()
  {
    hide Run, JoinTables, RowsAt, BufferOf, Undisturbed, SameAgain, SamplesOf, MeasuredBy, Measured,
         AttemptBase.WellFormed;
    var configs := [[PerfConfig(0, name)]];
    var c := Run(Init(configs), SameAgain());
    var a, b := SameAttempts(name);
    TrustedIffWhole(a);
    assert Undisturbed(c.log[0], BufferOf(c.log[..0]));
    JoinedAttempt(configs, SameAgain(), 0);
    EmptyReadMisattributes(configs, SameAgain(), 1);
    RunTabulated(configs, SameAgain());
    TwoRows(c.log, c.readRows, c.descRows);
    OneSample(a);
    OneSample(b);
    OneSample(Stamped(a, b.timestamp));
    assert b in c.log;
  }
}
