/** `State`: the collector with its mutable fields, its reader and its files, each method
    proved to do what the corresponding function of `Collector` says. */
module CollectorState {
  import opened CsvText
  import opened CsvOutput
  import opened ParsePerf
  import opened PerfEvents
  import opened GroupRecord
  import opened GroupReader
  import opened Collector
  import opened CollectorLaws

  lemma {:induction false} LogAllAppend(c: Col, a: seq<Attempt>, b: seq<Attempt>)
    ensures LogAll(c, a + b) == LogAll(LogAll(c, a), b)
    decreases |b|
  {
    if b == [] {
      assert a + b == a;
    } else {
      LogAllAppend(c, a, b[..|b| - 1]);
      assert (a + b)[..|a + b| - 1] == a + b[..|b| - 1];
    }
  }

  class State {
    const eventConfigs: seq<seq<PerfConfig>>
    const reader: PerfGroupReader
    const csv: CsvWriter
    var groups: map<int, seq<PerfStatGroup>>
    var readId: nat
    var os: Os
    ghost var log: seq<Attempt>
    ghost var session: map<int, nat>

    ghost predicate Valid()
      reads this, reader, csv
    {
      reader.Valid() && csv.Valid() && session.Keys == groups.Keys
    }

    /** The collector as a value. */
    ghost function View(): Col
      reads this, csv, reader, reader.data
    {
      Col(eventConfigs, groups, readId, csv.eventRows, csv.readRows, csv.descRows, reader.Contents(), os, log, session)
    }

    constructor (configs: seq<seq<PerfConfig>>)
      ensures Valid() && View() == Init(configs)
      ensures fresh(reader) && fresh(csv) && reader.data == null
    {
      eventConfigs := configs;
      reader := new PerfGroupReader();
      csv := new CsvWriter.Open();
      groups, readId := map[], 0;
      os := Os(map[], {});
      log, session := [], map[];
    }

    method OpenTid(tid: int, opens: Opens, ghost stamp: nat)
      requires Valid()
      modifies this, csv
      ensures Valid() && View() == Collector.OpenTid(old(View()), tid, opens, stamp)
    {
      hide CsvWriter.Valid, PerfGroupReader.Valid, OpenGroups, DescsOf, DescOf, Stats, Collector.OpenTid;
      if tid in groups {
        AlreadyOpenView(View(), tid, opens, stamp);
        return;
      }
      ghost var before := View();
      var tidGroups := OpenConfigured(tid, opens);
      WriteDescriptions(tidGroups, tid);
      groups := groups[tid := tidGroups];
      session := session[tid := stamp];
      OpenedView(before, tid, opens, stamp);
    }

    /** The `filter_map` of `open_tid`: every configured group that can be opened. */
    method OpenConfigured(tid: int, opens: Opens) returns (tidGroups: seq<PerfStatGroup>)
      modifies `os
      ensures (os, tidGroups) == OpenGroups(old(os), eventConfigs, tid, opens, |eventConfigs|)
    {
      hide OpenGroup;
      tidGroups := [];
      for i := 0 to |eventConfigs|
        invariant (os, tidGroups) == OpenGroups(old(os), eventConfigs, tid, opens, i)
      {
        var after, group := NewGroup(os, eventConfigs[i], tid, AnswersFor(opens, i));
        os := after;
        if group.Ok? {
          tidGroups := tidGroups + [group.value];
        }
      }
    }

    /** The loops of `open_tid` that write the event descriptions. */
    method WriteDescriptions(tidGroups: seq<PerfStatGroup>, tid: int)
      requires csv.Valid()
      modifies csv
      ensures csv.Valid()
      ensures csv.descRows == old(csv.descRows) + DescsOf(os, tid, Stats(tidGroups))
      ensures csv.eventRows == old(csv.eventRows) && csv.readRows == old(csv.readRows)
    {
      hide EventText, ReadText, DescText, DescsOf;
      assert DescsOf(os, tid, Stats([])) == [] by { NoDescs(os, tid); }
      for i := 0 to |tidGroups|
        invariant csv.Valid()
        invariant csv.descRows == old(csv.descRows) + DescsOf(os, tid, Stats(tidGroups[..i]))
        invariant csv.eventRows == old(csv.eventRows) && csv.readRows == old(csv.readRows)
      {
        assert tidGroups[..i + 1] == tidGroups[..i] + [tidGroups[i]];
        StatsAppend(tidGroups[..i], tidGroups[i]);
        WriteGroupDescriptions(tidGroups[i].fds, tid, Stats(tidGroups[..i]), old(csv.descRows));
      }
      assert tidGroups[..|tidGroups|] == tidGroups;
    }

    method WriteGroupDescriptions(stats: seq<PerfStat>, tid: int, ghost done: seq<PerfStat>, ghost rows: seq<DescRow>)
      requires csv.Valid() && csv.descRows == rows + DescsOf(os, tid, done)
      modifies csv
      ensures csv.Valid() && csv.descRows == rows + DescsOf(os, tid, done + stats)
      ensures csv.eventRows == old(csv.eventRows) && csv.readRows == old(csv.readRows)
    {
      hide EventText, ReadText, DescText, DescsOf;
      assert done + stats[..0] == done;
      for j := 0 to |stats|
        invariant csv.Valid() && csv.descRows == rows + DescsOf(os, tid, done + stats[..j])
        invariant csv.eventRows == old(csv.eventRows) && csv.readRows == old(csv.readRows)
      {
        var member := MemberOf(os, stats[j]);
        if member.queryable {
          csv.WriteDesc(member.id, member.name, tid);
        }
        assert done + stats[..j + 1] == (done + stats[..j]) + [stats[j]];
        OneMoreDesc(os, tid, done + stats[..j], stats[j]);
      }
      assert stats[..|stats|] == stats;
    }

    /** Reads each group once, in order, through the shared buffer. */
    method FlushGroups(gs: seq<PerfStatGroup>, tid: int, ghost stamp: nat, readings: Readings)
      requires Valid()
      modifies this, reader, reader.data, csv
      ensures Valid() && View() == LogAll(old(View()), AttemptsOn(os, tid, stamp, gs, readings))
      ensures os == old(os) && (reader.data == old(reader.data) || fresh(reader.data))
    {
      hide CsvWriter.Valid, PerfGroupReader.Valid, AttemptOn, AttemptsOn, Logged;
      ghost var block := AttemptsOn(os, tid, stamp, gs, readings);
      for k := 0 to |gs|
        invariant Valid() && View() == LogAll(old(View()), block[..k])
        invariant os == old(os)
        invariant reader.data == old(reader.data) || fresh(reader.data)
      {
        FlushOne(gs[k], tid, stamp, k, readings);
        assert block[..k + 1][..k] == block[..k] && block[..k + 1][k] == block[k];
      }
      assert block[..|gs|] == block;
    }

    /** The body of that loop. */
    method FlushOne(group: PerfStatGroup, tid: int, ghost stamp: nat, ghost index: nat, readings: Readings)
      requires Valid()
      modifies this, reader, reader.data, csv
      ensures Valid() && View() == Logged(old(View()), AttemptOn(os, tid, stamp, index, group, readings))
      ensures os == old(os) && (reader.data == old(reader.data) || fresh(reader.data))
    {
      hide CsvWriter.Valid, PerfGroupReader.Valid, DecodeRecord, EncodeRecord, KernelRecord, Landed;
      var id := readId;
      readId := readId + 1;
      var answer := readings(group.fds[0].fd);
      ghost var attempt := AttemptOn(os, tid, stamp, index, group, readings);
      var outcome := OutcomeOf(os, group, answer.outcome);
      var result := reader.ReadGroup(|group.fds|, answer.memory, KernelAnswer(outcome));
      match result {
        case Ok(record) =>
          WriteRecord(id, answer.timestamp, record);
        case Err(e) =>
          assert csv.readRows + [] == csv.readRows && csv.eventRows + [] == csv.eventRows;
      }
      log := log + [attempt];
    }

    /** Writes the rows of one successful read. */
    method WriteRecord(id: nat, timestamp: nat, record: Record)
      requires csv.Valid()
      modifies csv
      ensures csv.Valid() && csv.descRows == old(csv.descRows)
      ensures csv.readRows == old(csv.readRows) + [ReadRow(id, timestamp, record.timeRunning, record.timeEnabled)]
      ensures csv.eventRows == old(csv.eventRows) + RecordRows(id, record)
    {
      hide EventText, ReadText, DescText;
      csv.WriteRead(id, timestamp, record.timeRunning, record.timeEnabled);
      ghost var rows := RecordRows(id, record);
      for j := 0 to |record.entries|
        invariant csv.Valid() && csv.descRows == old(csv.descRows)
        invariant csv.readRows == old(csv.readRows) + [ReadRow(id, timestamp, record.timeRunning, record.timeEnabled)]
        invariant csv.eventRows == old(csv.eventRows) + rows[..j]
      {
        csv.WriteEvent(id, record.entries[j].value, record.entries[j].id);
        assert rows[..j + 1] == rows[..j] + [rows[j]];
      }
      assert rows[..|record.entries|] == rows;
    }

    method CloseTid(tid: int, readings: Readings)
      requires Valid()
      modifies this, reader, reader.data, csv
      ensures Valid() && View() == Collector.CloseTid(old(View()), tid, readings)
      ensures reader.data == old(reader.data) || fresh(reader.data)
    {
      hide CsvWriter.Valid, PerfGroupReader.Valid, LogAll, AttemptsOn, Stats, CloseAll, Collector.CloseTid;
      if tid in groups {
        var gs := groups[tid];
        ghost var before := View();
        ghost var block := ThreadBlock(before, tid, readings);
        FlushGroups(gs, tid, session[tid], readings);
        LogAllEffect(before, block);
        groups := groups - {tid};
        session := session - {tid};
        os := CloseAll(os, Stats(gs));
        ClosedView(before, tid, readings);
      } else {
        NotOpenView(View(), tid, readings);
      }
    }

    /** Walks the map in whatever order it has. */
    method FlushAll(order: seq<int>, readings: Readings)
      requires Valid()
      modifies this, reader, reader.data, csv
      ensures Valid() && View() == Collector.FlushAll(old(View()), order, readings)
      ensures reader.data == old(reader.data) || fresh(reader.data)
    {
      hide CsvWriter.Valid, PerfGroupReader.Valid, LogAll, AttemptsOn, FlushBlock;
      ghost var before := View();
      var walk := WalkOrder(order, groups.Keys);
      LogNothing(before, readings);
      for k := 0 to |walk|
        invariant Valid() && View() == LogAll(before, FlushBlock(before, walk[..k], readings))
        invariant SameButLog(before, View())
        invariant reader.data == old(reader.data) || fresh(reader.data)
      {
        var tid := walk[k];
        ghost var block := ThreadBlock(before, tid, readings);
        ghost var now := View();
        FlushGroups(groups[tid], tid, session[tid], readings);
        LogAllEffect(now, block);
        LogOneThread(before, walk, k, readings);
      }
      assert walk[..|walk|] == walk;
    }
  }

  lemma {:induction false} OpenedView(c: Col, tid: int, opens: Opens, stamp: nat)
    requires tid !in c.groups
    ensures var (os, gs) := OpenGroups(c.os, c.configs, tid, opens, |c.configs|);
            Collector.OpenTid(c, tid, opens, stamp) ==
              Col(c.configs, c.groups[tid := gs], c.readId, c.eventRows, c.readRows,
                  c.descRows + DescsOf(os, tid, Stats(gs)), c.buffer, os, c.log, c.session[tid := stamp])
  {
    hide OpenGroups, DescsOf, Stats;
  }

  lemma {:induction false} AlreadyOpenView(c: Col, tid: int, opens: Opens, stamp: nat)
    requires tid in c.groups
    ensures Collector.OpenTid(c, tid, opens, stamp) == c
  {
  }

  lemma {:induction false} ClosedView(c: Col, tid: int, readings: Readings)
    requires tid in c.groups
    ensures var d := LogAll(c, ThreadBlock(c, tid, readings));
            Collector.CloseTid(c, tid, readings) ==
              Col(d.configs, c.groups - {tid}, d.readId, d.eventRows, d.readRows, d.descRows, d.buffer,
                  CloseAll(c.os, Stats(c.groups[tid])), d.log, c.session - {tid})
  {
    hide LogAll, ThreadBlock, CloseAll, Stats;
  }

  lemma {:induction false} NotOpenView(c: Col, tid: int, readings: Readings)
    requires tid !in c.groups
    ensures Collector.CloseTid(c, tid, readings) == c
  {
    hide LogAll, ThreadBlock, CloseAll, Stats;
  }

  lemma {:induction false} NoDescs(os: Os, tid: int)
    ensures DescsOf(os, tid, Stats([])) == []
  {
  }

  lemma {:induction false} OneMoreDesc(os: Os, tid: int, stats: seq<PerfStat>, p: PerfStat)
    ensures DescsOf(os, tid, stats + [p]) == DescsOf(os, tid, stats) + DescOf(os, tid, p)
  {
    assert (stats + [p])[..|stats|] == stats;
  }

  lemma {:induction false} LogNothing(c: Col, readings: Readings)
    ensures LogAll(c, FlushBlock(c, [], readings)) == c
  {
  }

  lemma {:induction false} LogOneThread(c: Col, walk: seq<int>, k: nat, readings: Readings)
    requires k < |walk|
    ensures LogAll(LogAll(c, FlushBlock(c, walk[..k], readings)), ThreadBlock(c, walk[k], readings)) ==
              LogAll(c, FlushBlock(c, walk[..k + 1], readings))
  {
    hide LogAll, ThreadBlock;
    assert walk[..k + 1][..k] == walk[..k];
    LogAllAppend(c, FlushBlock(c, walk[..k], readings), ThreadBlock(c, walk[k], readings));
  }
}
