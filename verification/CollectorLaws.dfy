/** What holds of the collector after every sequence of operations: who owns the open
    descriptors, how the tables relate to the history of reads, and how often each
    group was read. */
module CollectorLaws {
  import opened Prelude
  import opened CsvText
  import opened ParsePerf
  import opened PerfEvents
  import opened Collector

  // ---- Logging a block of attempts -------------------------------------------------

  /** What the shared buffer holds after some attempts. */
  function BufferOf(log: seq<Attempt>): seq<byte> {
    if log == [] then [] else BufferAfter(BufferOf(log[..|log| - 1]), log[|log| - 1])
  }

  function ReadTableOf(log: seq<Attempt>): seq<ReadRow> {
    if log == [] then []
    else
      var front := log[..|log| - 1];
      ReadTableOf(front) + ReadRowsOf(|front|, BufferOf(front), log[|front|])
  }

  function EventTableOf(log: seq<Attempt>): seq<EventRow> {
    if log == [] then []
    else
      var front := log[..|log| - 1];
      EventTableOf(front) + EventRowsOf(|front|, BufferOf(front), log[|front|])
  }

  /** The read counter counts the attempts; the buffer and both tables are functions of
      the log. */
  ghost predicate Tabulated(c: Col) {
    && c.readId == |c.log|
    && c.buffer == BufferOf(c.log)
    && c.readRows == ReadTableOf(c.log)
    && c.eventRows == EventTableOf(c.log)
  }

  /** Everything but the counter, the buffer, the log and the two tables it feeds. */
  ghost predicate SameButLog(c: Col, d: Col) {
    && c.configs == d.configs && c.groups == d.groups && c.descRows == d.descRows
    && c.os == d.os && c.session == d.session
  }

  lemma {:induction false} LoggedEffect(c: Col, a: Attempt)
    ensures SameButLog(c, Logged(c, a)) && Logged(c, a).log == c.log + [a]
    ensures Tabulated(c) ==> Tabulated(Logged(c, a))
  {
    hide ReadRowsOf, EventRowsOf, BufferAfter;
    assert (c.log + [a])[..|c.log|] == c.log;
  }

  lemma {:induction false} LogAllEffect(c: Col, block: seq<Attempt>)
    ensures SameButLog(c, LogAll(c, block)) && LogAll(c, block).log == c.log + block
    ensures Tabulated(c) ==> Tabulated(LogAll(c, block))
    decreases |block|
  {
    hide Logged, Tabulated, AttemptBase.WellFormed;
    if block == [] {
      assert c.log + block == c.log;
    } else {
      var n := |block| - 1;
      LogAllEffect(c, block[..n]);
      var before := LogAll(c, block[..n]);
      assert block == block[..n] + [block[n]];
      assert c.log + block == before.log + [block[n]];
      LoggedEffect(before, block[n]);
    }
  }

  /** What each operation does to everything except the tables. */
  lemma {:induction false} CloseEffect(c: Col, tid: int, readings: Readings)
    ensures var d := CloseTid(c, tid, readings);
            && d.log == c.log + ThreadBlock(c, tid, readings)
            && d.descRows == c.descRows && d.configs == c.configs
            && (tid !in c.groups ==> d == c)
            && (tid in c.groups ==>
                  && d.groups == c.groups - {tid} && d.session == c.session - {tid}
                  && d.os == CloseAll(c.os, Stats(c.groups[tid])))
            && (Tabulated(c) ==> Tabulated(d))
  {
    LogAllEffect(c, ThreadBlock(c, tid, readings));
    assert tid !in c.groups ==> c.log + ThreadBlock(c, tid, readings) == c.log;
  }

  lemma {:induction false} FlushEffect(c: Col, order: seq<int>, readings: Readings)
    ensures var d := FlushAll(c, order, readings);
            && SameButLog(c, d)
            && d.log == c.log + FlushBlock(c, WalkOrder(order, c.groups.Keys), readings)
            && (Tabulated(c) ==> Tabulated(d))
  {
    LogAllEffect(c, FlushBlock(c, WalkOrder(order, c.groups.Keys), readings));
  }

  lemma {:induction false} RunTabulated(configs: seq<seq<PerfConfig>>, ops: seq<Op>)
    ensures Tabulated(Run(Init(configs), ops))
  {
    hide CloseTid, FlushAll, FlushBlock, ThreadBlock, OpenGroups, Stats, CloseAll, BufferAfter, ReadRowsOf, EventRowsOf;
    if ops == [] {
    } else {
      RunTabulated(configs, ops[..|ops| - 1]);
      var before := Run(Init(configs), ops[..|ops| - 1]);
      match ops[|ops| - 1]
      case Open(tid, opens) =>
      case Close(tid, readings) => CloseEffect(before, tid, readings);
      case Flush(order, readings) => FlushEffect(before, order, readings);
      case Nothing =>
    }
  }

  // ---- Descriptors -----------------------------------------------------------------

  lemma {:induction false} StatsAppend(gs: seq<PerfStatGroup>, g: PerfStatGroup)
    ensures Stats(gs + [g]) == Stats(gs) + g.fds
  {
    assert (gs + [g])[..|gs|] == gs;
  }

  lemma {:induction false} AddsUsed(a: Os, b: Os, c: Os, tid: int, stats: seq<PerfStat>)
    requires Adds(a, b, tid, stats) && b.fds == c.fds && b.used <= c.used
    ensures Adds(a, c, tid, stats)
  {
  }

  lemma {:induction false} OpenGroupsAdds(os: Os, configs: seq<seq<PerfConfig>>, tid: int, opens: Opens, n: nat)
    requires n <= |configs|
    ensures var (after, gs) := OpenGroups(os, configs, tid, opens, n); Adds(os, after, tid, Stats(gs))
  {
    hide Adds, OpenGroup;
    if n == 0 {
      AddsNothing(os, tid);
    } else {
      OpenGroupsAdds(os, configs, tid, opens, n - 1);
      var (before, gs) := OpenGroups(os, configs, tid, opens, n - 1);
      var answers := AnswersFor(opens, n - 1);
      OpenGroupEffect(before, configs[n - 1], tid, answers);
      var (after, r) := OpenGroup(before, configs[n - 1], tid, answers);
      if r.Ok? {
        AddsAppend(os, before, after, tid, Stats(gs), r.value.fds);
        StatsAppend(gs, r.value);
      } else {
        AddsUsed(os, before, after, tid, Stats(gs));
      }
    }
  }

  /** The groups of a thread are configured groups in configured order, each complete:
      group `k` is configuration `index[k]`, one descriptor per event. */
  ghost predicate FollowConfigs(os: Os, configs: seq<seq<PerfConfig>>, n: nat, tid: int,
                                gs: seq<PerfStatGroup>, index: seq<nat>) {
    && |index| == |gs|
    && (forall k :: 0 <= k < |gs| ==> index[k] < n <= |configs|)
    && (forall i, j :: 0 <= i < j < |gs| ==> index[i] < index[j])
    && (forall k :: 0 <= k < |gs| ==>
          |gs[k].fds| == |configs[index[k]]| && InConfigOrder(os, configs[index[k]], tid, gs[k].fds))
  }

  lemma {:induction false} InConfigOrderKept(a: Os, b: Os, configs: seq<PerfConfig>, tid: int, stats: seq<PerfStat>)
    requires InConfigOrder(a, configs, tid, stats)
    requires forall fd :: fd in a.fds ==> fd in b.fds && b.fds[fd] == a.fds[fd]
    ensures InConfigOrder(b, configs, tid, stats)
  {
  }

  lemma {:induction false} OpenGroupsFollow(os: Os, configs: seq<seq<PerfConfig>>, tid: int, opens: Opens, n: nat)
    returns (index: seq<nat>)
    requires n <= |configs|
    ensures var (after, gs) := OpenGroups(os, configs, tid, opens, n);
            FollowConfigs(after, configs, n, tid, gs, index)
  {
    if n == 0 {
      index := [];
    } else {
      hide OpenGroup, InConfigOrder, FollowConfigs;
      var before := OpenGroupsFollow(os, configs, tid, opens, n - 1);
      var (mid, gs) := OpenGroups(os, configs, tid, opens, n - 1);
      var answers := AnswersFor(opens, n - 1);
      OpenGroupEffect(mid, configs[n - 1], tid, answers);
      OpenGroupOrder(mid, configs[n - 1], tid, answers);
      var (after, r) := OpenGroup(mid, configs[n - 1], tid, answers);
      FollowKept(mid, after, configs, n, tid, gs, before);
      if r.Ok? {
        index := before + [n - 1];
        FollowMore(after, configs, n, tid, gs, before, r.value);
      } else {
        index := before;
      }
    }
  }

  lemma {:induction false} FollowKept(a: Os, b: Os, configs: seq<seq<PerfConfig>>, n: nat, tid: int,
                                      gs: seq<PerfStatGroup>, index: seq<nat>)
    requires 0 < n <= |configs| && FollowConfigs(a, configs, n - 1, tid, gs, index)
    requires forall fd :: fd in a.fds ==> fd in b.fds && b.fds[fd] == a.fds[fd]
    ensures FollowConfigs(b, configs, n - 1, tid, gs, index) && FollowConfigs(b, configs, n, tid, gs, index)
  {
    hide InConfigOrder;
    forall k | 0 <= k < |gs| ensures InConfigOrder(b, configs[index[k]], tid, gs[k].fds) {
      InConfigOrderKept(a, b, configs[index[k]], tid, gs[k].fds);
    }
  }

  lemma {:induction false} FollowMore(os: Os, configs: seq<seq<PerfConfig>>, n: nat, tid: int,
                                      gs: seq<PerfStatGroup>, index: seq<nat>, g: PerfStatGroup)
    requires 0 < n <= |configs| && FollowConfigs(os, configs, n - 1, tid, gs, index)
    requires |g.fds| == |configs[n - 1]| && InConfigOrder(os, configs[n - 1], tid, g.fds)
    ensures FollowConfigs(os, configs, n, tid, gs + [g], index + [n - 1])
  {
    hide InConfigOrder;
  }

  /** The open descriptors are exactly those of the live threads, each held once. */
  ghost predicate Owns(groups: map<int, seq<PerfStatGroup>>, os: Os) {
    && (forall tid :: tid in groups ==> Distinct(Stats(groups[tid])))
    && (forall tid, p :: tid in groups && p in Stats(groups[tid]) ==> p.fd in os.fds && os.fds[p.fd].tid == tid)
    && (forall fd :: fd in os.fds ==> os.fds[fd].tid in groups && fd in FdsOf(Stats(groups[os.fds[fd].tid])))
  }

  lemma {:induction false} OwnsOpen(groups: map<int, seq<PerfStatGroup>>, os: Os, after: Os, tid: int, gs: seq<PerfStatGroup>)
    requires Owns(groups, os) && tid !in groups && Adds(os, after, tid, Stats(gs))
    ensures Owns(groups[tid := gs], after)
  {
    var all := groups[tid := gs];
    forall fd | fd in after.fds
      ensures after.fds[fd].tid in all && fd in FdsOf(Stats(all[after.fds[fd].tid]))
    {
      if fd in FdsOf(Stats(gs)) {
        var p :| p in Stats(gs) && p.fd == fd;
      }
    }
  }

  lemma {:induction false} OwnsClose(groups: map<int, seq<PerfStatGroup>>, os: Os, tid: int)
    requires Owns(groups, os) && tid in groups
    ensures Owns(groups - {tid}, CloseAll(os, Stats(groups[tid])))
  {
    var rest, after := groups - {tid}, CloseAll(os, Stats(groups[tid]));
    forall t, p | t in rest && p in Stats(rest[t]) ensures p.fd in after.fds && after.fds[p.fd].tid == t {
      assert os.fds[p.fd].tid == t;
      assert forall q :: q in Stats(groups[tid]) ==> os.fds[q.fd].tid == tid;
      assert p.fd !in FdsOf(Stats(groups[tid]));
    }
  }

  lemma {:induction false} RunOwns(configs: seq<seq<PerfConfig>>, ops: seq<Op>)
    ensures var c := Run(Init(configs), ops); Owns(c.groups, c.os) && c.configs == configs
  {
    if ops == [] {
    } else {
      hide Owns, Adds, OpenGroups;
      RunOwns(configs, ops[..|ops| - 1]);
      var c := Run(Init(configs), ops[..|ops| - 1]);
      match ops[|ops| - 1]
      case Open(tid, opens) =>
        var (after, gs) := OpenGroups(c.os, c.configs, tid, opens, |c.configs|);
        OpenGroupsAdds(c.os, c.configs, tid, opens, |c.configs|);
        if tid !in c.groups {
          OwnsOpen(c.groups, c.os, after, tid, gs);
        }
      case Close(tid, readings) =>
        CloseEffect(c, tid, readings);
        if tid in c.groups {
          OwnsClose(c.groups, c.os, tid);
        }
      case Flush(order, readings) =>
        FlushEffect(c, order, readings);
      case Nothing =>
    }
  }

  lemma {:induction false} StatsMember(gs: seq<PerfStatGroup>, k: nat, p: PerfStat)
    requires k < |gs| && p in gs[k].fds
    ensures p in Stats(gs)
  {
    if k < |gs| - 1 {
      StatsMember(gs[..|gs| - 1], k, p);
    }
  }

  /** Some choice of the configured groups, in configured order, each complete. */
  ghost predicate Follows(os: Os, configs: seq<seq<PerfConfig>>, tid: int, gs: seq<PerfStatGroup>) {
    exists index :: FollowConfigs(os, configs, |configs|, tid, gs, index)
  }

  lemma {:induction false} FollowsKept(a: Os, b: Os, configs: seq<seq<PerfConfig>>, tid: int, gs: seq<PerfStatGroup>)
    requires Follows(a, configs, tid, gs)
    requires forall p :: p in Stats(gs) && p.fd in a.fds ==> p.fd in b.fds && b.fds[p.fd] == a.fds[p.fd]
    ensures Follows(b, configs, tid, gs)
  {
    hide InConfigOrder, Stats;
    var index :| FollowConfigs(a, configs, |configs|, tid, gs, index);
    forall k | 0 <= k < |gs| ensures InConfigOrder(b, configs[index[k]], tid, gs[k].fds) {
      forall p | p in gs[k].fds ensures p in Stats(gs) {
        StatsMember(gs, k, p);
      }
      InOrderOfKept(a, b, configs[index[k]], tid, gs[k].fds);
    }
    assert FollowConfigs(b, configs, |configs|, tid, gs, index);
  }

  lemma {:induction false} InOrderOfKept(a: Os, b: Os, configs: seq<PerfConfig>, tid: int, stats: seq<PerfStat>)
    requires InConfigOrder(a, configs, tid, stats)
    requires forall p :: p in stats && p.fd in a.fds ==> p.fd in b.fds && b.fds[p.fd] == a.fds[p.fd]
    ensures InConfigOrder(b, configs, tid, stats)
  {
    assert forall k :: 0 <= k < |stats| ==> stats[k] in stats;
  }

  /** After every sequence of operations the groups of every live thread are configured
      groups in configured order, each with one descriptor per event, led by its first. */
  lemma {:induction false} LiveGroupsFollow(configs: seq<seq<PerfConfig>>, ops: seq<Op>)
    ensures var c := Run(Init(configs), ops);
            forall tid :: tid in c.groups ==> Follows(c.os, configs, tid, c.groups[tid])
  {
    hide Follows, FollowConfigs, Owns, Stats, OpenGroups, FlushAll, CloseTid;
    if ops == [] {
    } else {
      var n := |ops| - 1;
      LiveGroupsFollow(configs, ops[..n]);
      RunOwns(configs, ops[..n]);
      var c := Run(Init(configs), ops[..n]);
      match ops[n]
      case Open(tid, opens) =>
        if tid !in c.groups {
          OpenFollows(c, tid, opens, n);
        }
      case Close(tid, readings) =>
        CloseEffect(c, tid, readings);
        if tid in c.groups {
          CloseFollows(c, tid);
        }
      case Flush(order, readings) => FlushEffect(c, order, readings);
      case Nothing =>
    }
  }

  lemma {:induction false} OpenFollows(c: Col, tid: int, opens: Opens, stamp: nat)
    requires tid !in c.groups && forall t :: t in c.groups ==> Follows(c.os, c.configs, t, c.groups[t])
    ensures var d := OpenTid(c, tid, opens, stamp);
            forall t :: t in d.groups ==> Follows(d.os, c.configs, t, d.groups[t])
  {
    hide Follows, FollowConfigs, Stats, OpenGroups;
    var (after, gs) := OpenGroups(c.os, c.configs, tid, opens, |c.configs|);
    OpenGroupsAdds(c.os, c.configs, tid, opens, |c.configs|);
    var index := OpenGroupsFollow(c.os, c.configs, tid, opens, |c.configs|);
    SomeChoice(after, c.configs, tid, gs, index);
    forall t | t in c.groups ensures Follows(after, c.configs, t, c.groups[t]) {
      FollowsKept(c.os, after, c.configs, t, c.groups[t]);
    }
  }

  lemma {:induction false} SomeChoice(os: Os, configs: seq<seq<PerfConfig>>, tid: int, gs: seq<PerfStatGroup>,
                                      index: seq<nat>)
    requires FollowConfigs(os, configs, |configs|, tid, gs, index)
    ensures Follows(os, configs, tid, gs)
  {
    hide FollowConfigs;
  }

  lemma {:induction false} CloseFollows(c: Col, tid: int)
    requires Owns(c.groups, c.os) && tid in c.groups
    requires forall t :: t in c.groups ==> Follows(c.os, c.configs, t, c.groups[t])
    ensures var os := CloseAll(c.os, Stats(c.groups[tid]));
            forall t :: t in c.groups - {tid} ==> Follows(os, c.configs, t, c.groups[t])
  {
    hide Follows, Stats;
    var os := CloseAll(c.os, Stats(c.groups[tid]));
    forall t | t in c.groups - {tid} ensures Follows(os, c.configs, t, c.groups[t]) {
      forall p | p in Stats(c.groups[t]) ensures p.fd in os.fds && os.fds[p.fd] == c.os.fds[p.fd] {
        assert c.os.fds[p.fd].tid == t;
        assert forall q :: q in Stats(c.groups[tid]) ==> c.os.fds[q.fd].tid == tid;
        assert p.fd !in FdsOf(Stats(c.groups[tid]));
      }
      FollowsKept(c.os, os, c.configs, t, c.groups[t]);
    }
  }

  /** No two places in the groups of the live threads hold the same descriptor. */
  ghost predicate HeldOnce(groups: map<int, seq<PerfStatGroup>>) {
    forall t, u, i, j ::
      t in groups && u in groups && 0 <= i < |Stats(groups[t])| && 0 <= j < |Stats(groups[u])| ==>
        (Stats(groups[t])[i].fd == Stats(groups[u])[j].fd ==> t == u && i == j)
  }

  /** Descriptor conservation: after every sequence of operations the open descriptors
      are exactly those of the live threads' groups, each held in one place. */
  lemma {:induction false} FdConservation(configs: seq<seq<PerfConfig>>, ops: seq<Op>)
    ensures var c := Run(Init(configs), ops);
            && HeldOnce(c.groups)
            && forall fd :: fd in c.os.fds <==> exists tid :: tid in c.groups && fd in FdsOf(Stats(c.groups[tid]))
  {
    RunOwns(configs, ops);
    var c := Run(Init(configs), ops);
    forall t, u, i, j | t in c.groups && u in c.groups
        && 0 <= i < |Stats(c.groups[t])| && 0 <= j < |Stats(c.groups[u])|
      ensures Stats(c.groups[t])[i].fd == Stats(c.groups[u])[j].fd ==> t == u && i == j
    {
      assert Stats(c.groups[t])[i] in Stats(c.groups[t]) && Stats(c.groups[u])[j] in Stats(c.groups[u]);
    }
  }

  /** Closing a thread releases all of its descriptors and no others. */
  lemma {:induction false} CloseReleases(configs: seq<seq<PerfConfig>>, ops: seq<Op>, tid: int, readings: Readings)
    ensures var c := Run(Init(configs), ops);
            var d := CloseTid(c, tid, readings);
            forall fd :: fd in c.os.fds && fd !in d.os.fds <==>
              tid in c.groups && fd in FdsOf(Stats(c.groups[tid]))
    ensures forall fd :: fd in CloseTid(Run(Init(configs), ops), tid, readings).os.fds ==>
              fd in Run(Init(configs), ops).os.fds
  {
    RunOwns(configs, ops);
    CloseEffect(Run(Init(configs), ops), tid, readings);
  }
}
