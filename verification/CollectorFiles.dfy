/** From the written files back to the measurements: the text of the three tables, read
    back and joined, gives the history of everything that was read. */
module CollectorFiles {
  import opened Prelude
  import opened CsvText
  import opened EventGrammar
  import opened ParsePerf
  import opened PerfEvents
  import opened Collector
  import opened CollectorLaws
  import opened CollectorTables

  ghost predicate ConfigName(configs: seq<seq<PerfConfig>>, name: string) {
    exists k, m :: 0 <= k < |configs| && 0 <= m < |configs[k]| && configs[k][m].name == name
  }

  lemma {:induction false} FollowPrefix(os: Os, configs: seq<seq<PerfConfig>>, n: nat, tid: int,
                                        gs: seq<PerfStatGroup>, index: seq<nat>)
    requires FollowConfigs(os, configs, n, tid, gs, index) && gs != []
    ensures FollowConfigs(os, configs, n, tid, gs[..|gs| - 1], index[..|gs| - 1])
  {
    hide InConfigOrder;
    var m := |gs| - 1;
    var front, kept := gs[..m], index[..m];
    assert forall k :: 0 <= k < m ==> front[k] == gs[k] && kept[k] == index[k];
    assert forall k :: 0 <= k < |front| ==> kept[k] < n <= |configs|;
    assert forall i, j :: 0 <= i < j < |front| ==> kept[i] < kept[j];
    assert forall k :: 0 <= k < |front| ==>
          |front[k].fds| == |configs[kept[k]]| && InConfigOrder(os, configs[kept[k]], tid, front[k].fds);
  }

  lemma {:induction false} StatsNamed(os: Os, configs: seq<seq<PerfConfig>>, n: nat, tid: int,
                                      gs: seq<PerfStatGroup>, index: seq<nat>)
    requires FollowConfigs(os, configs, n, tid, gs, index)
    ensures forall p :: p in Stats(gs) ==> ConfigName(configs, p.name)
    decreases |gs|
  {
    if gs == [] {
    } else {
      var m := |gs| - 1;
      FollowPrefix(os, configs, n, tid, gs, index);
      StatsNamed(os, configs, n, tid, gs[..m], index[..m]);
      forall p | p in gs[m].fds ensures ConfigName(configs, p.name) {
        var j :| 0 <= j < |gs[m].fds| && gs[m].fds[j] == p;
        assert configs[index[m]][j].name == p.name;
      }
    }
  }

  lemma {:induction false} DescsNamed(os: Os, tid: int, stats: seq<PerfStat>)
    ensures forall r :: r in DescsOf(os, tid, stats) ==> exists p :: p in stats && p.name == r.name
  {
    if stats == [] {
    } else {
      var front, last := stats[..|stats| - 1], stats[|stats| - 1];
      DescsNamed(os, tid, front);
      assert last in stats && forall p :: p in front ==> p in stats;
      forall r | r in DescsOf(os, tid, stats) ensures exists p :: p in stats && p.name == r.name {
        if r in DescsOf(os, tid, front) {
          var p :| p in front && p.name == r.name;
        } else {
          assert r in DescOf(os, tid, last);
        }
      }
    }
  }

  /** Every name in the description table is the name of a configured event. */
  lemma {:induction false} RunNames(configs: seq<seq<PerfConfig>>, ops: seq<Op>)
    ensures forall r :: r in Run(Init(configs), ops).descRows ==> ConfigName(configs, r.name)
  {
    if ops == [] {
    } else {
      hide ConfigName, OpenGroups, DescsOf, FlushAll;
      RunNames(configs, ops[..|ops| - 1]);
      RunOwns(configs, ops[..|ops| - 1]);
      var c := Run(Init(configs), ops[..|ops| - 1]);
      match ops[|ops| - 1]
      case Open(tid, opens) =>
        var (after, gs) := OpenGroups(c.os, configs, tid, opens, |configs|);
        var index := OpenGroupsFollow(c.os, configs, tid, opens, |configs|);
        StatsNamed(after, configs, |configs|, tid, gs, index);
        DescsNamed(after, tid, Stats(gs));
      case Close(tid, readings) => CloseEffect(c, tid, readings);
      case Flush(order, readings) => FlushEffect(c, order, readings);
      case Nothing =>
    }
  }

  /** Every configured name comes from the event list, comma-free and cut out of its text. */
  lemma {:induction false} ParsedNames<E>(s: string, pfm: Resolver<E>, configs: seq<seq<PerfConfig>>, name: string)
    requires ResolveGroups(Parse(s), pfm) == Ok(configs) && ConfigName(configs, name)
    ensures ',' !in name && forall c :: c in name ==> c in s
  {
    ResolveGroupsOk(Parse(s), pfm);
    var k, m :| 0 <= k < |configs| && 0 <= m < |configs[k]| && configs[k][m].name == name;
    assert Resolves(Parse(s)[k], pfm, configs[k]);
    assert Parse(s)[k][m] == name;
    ParsePrintable(s);
    assert Printable(Parse(s)[k]) && name in Parse(s)[k];
    assert IsName(name);
    FlattenHas(Parse(s), k, name);
    NothingLost(s);
    var gaps: seq<string> :| |gaps| == |Flatten(Parse(s))| + 1 && (forall g :: g in gaps ==> IsGap(g))
                             && s == Weave(gaps, Flatten(Parse(s)));
    WeaveHas(gaps, Flatten(Parse(s)), name);
  }

  lemma {:induction false} FlattenHas<T>(pieces: seq<seq<T>>, k: nat, x: T)
    requires k < |pieces| && x in pieces[k]
    ensures x in Flatten(pieces)
  {
    if k < |pieces| - 1 {
      FlattenHas(pieces[..|pieces| - 1], k, x);
    }
  }

  lemma {:induction false} WeaveHas(gaps: seq<string>, names: seq<string>, name: string)
    requires |gaps| == |names| + 1 && name in names
    ensures forall c :: c in name ==> c in Weave(gaps, names)
    decreases |names|
  {
    var n := |names|;
    if names[n - 1] != name {
      assert names == names[..n - 1] + [names[n - 1]];
      WeaveHas(gaps[..n], names[..n - 1], name);
    }
  }

  /** Whatever is done with configurations parsed from an event list, the description file
      reads back exactly when no newline sits inside a name that was described; the other
      two files always read back. */
  lemma {:induction false} FilesReadBack<E>(s: string, pfm: Resolver<E>, configs: seq<seq<PerfConfig>>, ops: seq<Op>)
    requires ResolveGroups(Parse(s), pfm) == Ok(configs)
    ensures var c := Run(Init(configs), ops);
            && ReadTable(EventText(c.eventRows), ToEvent) == Some(c.eventRows)
            && ReadTable(ReadText(c.readRows), ToRead) == Some(c.readRows)
            && (ReadTable(DescText(c.descRows), ToDesc) == Some(c.descRows) <==>
                  forall k :: 0 <= k < |c.descRows| ==> '\n' !in c.descRows[k].name)
  {
    var c := Run(Init(configs), ops);
    hide Run, ReadTable, EventText, ReadText, DescText;
    EventRoundTrip(c.eventRows);
    ReadRoundTrip(c.readRows);
    DescRoundTrip(c.descRows);
    RunNames(configs, ops);
    forall k | 0 <= k < |c.descRows| ensures ',' !in c.descRows[k].name {
      assert c.descRows[k] in c.descRows;
      ParsedNames(s, pfm, configs, c.descRows[k].name);
    }
  }

  /** When the event list holds no newline, reading the three files back and joining them
      reconstructs the history of measurements if no read was disturbed, and everything the
      kernel counted exactly if, moreover, every event read has a queryable id. */
  lemma {:induction false} FilesReconstruct<E>(s: string, pfm: Resolver<E>, configs: seq<seq<PerfConfig>>, ops: seq<Op>)
    requires ResolveGroups(Parse(s), pfm) == Ok(configs) && '\n' !in s
    ensures var c := Run(Init(configs), ops);
            match (ReadTable(EventText(c.eventRows), ToEvent), ReadTable(ReadText(c.readRows), ToRead),
                   ReadTable(DescText(c.descRows), ToDesc))
            case (Some(events), Some(readRows), Some(descs)) =>
              && (Trusted(c.log) ==> JoinTables(events, readRows, descs) == History(c.log))
              && (JoinTables(events, readRows, descs) == Measured(c.log) <==>
                    Trusted(c.log) && forall a, m :: a in c.log && a.outcome.Values? && m in a.members ==> m.queryable)
            case _ => false
  {
    var c := Run(Init(configs), ops);
    hide Run, ReadTable, EventText, ReadText, DescText, JoinTables, Trusted, History, Measured;
    FilesReadBack(s, pfm, configs, ops);
    Lossless(configs, ops);
    LosslessIff(configs, ops);
    RunNames(configs, ops);
    forall k | 0 <= k < |c.descRows| ensures '\n' !in c.descRows[k].name {
      assert c.descRows[k] in c.descRows;
      ParsedNames(s, pfm, configs, c.descRows[k].name);
    }
  }
}
