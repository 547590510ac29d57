/** What the announcement of a thread opens: exactly the configured groups all of whose
    requests the kernel grants, in order, and the descriptions of what can be queried. */
module CollectorOpens {
  import opened Prelude
  import opened CsvText
  import opened ParsePerf
  import opened PerfEvents
  import opened PerfGrants
  import opened Collector
  import opened CollectorLaws
  import opened CollectorSessions

  /** The descriptors held when the turn of configuration `k` comes: those that were held,
      and those of the groups opened before it. */
  function OsBefore(os: Os, configs: seq<seq<PerfConfig>>, tid: int, opens: Opens, k: nat): Os
    requires k <= |configs|
  {
    if k == 0 then os
    else OpenGroup(OsBefore(os, configs, tid, opens, k - 1), configs[k - 1], tid, AnswersFor(opens, k - 1)).0
  }

  /** None of the requests of configuration `k` fails. */
  ghost predicate ConfigOpens(os: Os, configs: seq<seq<PerfConfig>>, tid: int, opens: Opens, k: nat)
    requires k < |configs|
  {
    configs[k] != [] && Granted(OsBefore(os, configs, tid, opens, k), AnswersFor(opens, k), |configs[k]|)
  }

  /** Group `g` has one descriptor per event of configuration `k`, in order, each under its
      event's name and the one that the kernel gave for it. */
  ghost predicate IsConfig(g: PerfStatGroup, configs: seq<seq<PerfConfig>>, opens: Opens, k: nat)
    requires k < |configs|
  {
    |g.fds| == |configs[k]| && forall m :: 0 <= m < |configs[k]| ==>
      && g.fds[m].name == configs[k][m].name
      && opens(k, m).Opened? && g.fds[m].fd == opens(k, m).fd
  }

  /** `gs` are the configurations number `index[0]`, `index[1]`, ...: all those below `n` none
      of whose requests failed, and no other, in their order. */
  ghost predicate Chosen(os: Os, configs: seq<seq<PerfConfig>>, tid: int, opens: Opens, n: nat,
                         gs: seq<PerfStatGroup>, index: seq<nat>)
    requires n <= |configs|
  {
    && |index| == |gs|
    && (forall k :: 0 <= k < |index| ==> index[k] < n && IsConfig(gs[k], configs, opens, index[k]))
    && (forall i, j :: 0 <= i < j < |index| ==> index[i] < index[j])
    && (forall k :: 0 <= k < n ==> (k in index <==> ConfigOpens(os, configs, tid, opens, k)))
  }

  lemma {:induction false} OneConfig(os: Os, configs: seq<seq<PerfConfig>>, tid: int, opens: Opens, k: nat)
    requires k < |configs|
    ensures var (after, r) := OpenGroup(OsBefore(os, configs, tid, opens, k), configs[k], tid, AnswersFor(opens, k));
            && after == OsBefore(os, configs, tid, opens, k + 1)
            && (r.Ok? <==> ConfigOpens(os, configs, tid, opens, k))
            && (r.Ok? ==> IsConfig(r.value, configs, opens, k))
  {
    hide OpenGroup, Granted, Holds;
    OpenGroupIff(OsBefore(os, configs, tid, opens, k), configs[k], tid, AnswersFor(opens, k));
  }

  lemma {:induction false} ChosenMore(os: Os, configs: seq<seq<PerfConfig>>, tid: int, opens: Opens, n: nat,
                                      gs: seq<PerfStatGroup>, index: seq<nat>, g: PerfStatGroup)
    requires n < |configs| && Chosen(os, configs, tid, opens, n, gs, index)
    ensures !ConfigOpens(os, configs, tid, opens, n) ==> Chosen(os, configs, tid, opens, n + 1, gs, index)
    ensures ConfigOpens(os, configs, tid, opens, n) && IsConfig(g, configs, opens, n) ==>
              Chosen(os, configs, tid, opens, n + 1, gs + [g], index + [n])
  {
    hide ConfigOpens, IsConfig;
    assert n !in index;
  }

  lemma {:induction false} OpenGroupsChoose(os: Os, configs: seq<seq<PerfConfig>>, tid: int, opens: Opens, n: nat)
    returns (index: seq<nat>)
    requires n <= |configs|
    ensures var (after, gs) := OpenGroups(os, configs, tid, opens, n);
            after == OsBefore(os, configs, tid, opens, n) && Chosen(os, configs, tid, opens, n, gs, index)
  {
    hide OpenGroup, ConfigOpens, IsConfig, Chosen, OsBefore;
    if n == 0 {
      NothingChosen(os, configs, tid, opens);
      index := [];
    } else {
      index := OpenGroupsChoose(os, configs, tid, opens, n - 1);
      var (before, gs) := OpenGroups(os, configs, tid, opens, n - 1);
      OneConfig(os, configs, tid, opens, n - 1);
      match OpenGroup(before, configs[n - 1], tid, AnswersFor(opens, n - 1)).1 {
        case Ok(g) =>
          ChosenMore(os, configs, tid, opens, n - 1, gs, index, g);
          index := index + [n - 1];
        case Err(_) =>
          ChosenMore(os, configs, tid, opens, n - 1, gs, index, PerfStatGroup([PerfStat(0, "")]));
      }
    }
  }

  lemma {:induction false} NothingChosen(os: Os, configs: seq<seq<PerfConfig>>, tid: int, opens: Opens)
    ensures OsBefore(os, configs, tid, opens, 0) == os && Chosen(os, configs, tid, opens, 0, [], [])
  {
  }

  /** `gs` is what the configurations open, exactly. */
  ghost predicate OpensExactly(c: Col, tid: int, opens: Opens, gs: seq<PerfStatGroup>) {
    exists index :: Chosen(c.os, c.configs, tid, opens, |c.configs|, gs, index)
  }

  /** The announcement of an unknown thread opens exactly the configurations none of whose
      requests fail; that of a known one does nothing. */
  lemma {:induction false} OpenTidOpens(c: Col, tid: int, opens: Opens, stamp: nat)
    ensures var d := OpenTid(c, tid, opens, stamp);
            && (tid in c.groups ==> d == c)
            && (tid !in c.groups ==>
                  && d.groups.Keys == c.groups.Keys + {tid}
                  && (forall t :: t in c.groups ==> d.groups[t] == c.groups[t])
                  && OpensExactly(c, tid, opens, d.groups[tid]))
  {
    hide OpenGroups, Chosen, DescsOf, Stats;
    if tid !in c.groups {
      var index := OpenGroupsChoose(c.os, c.configs, tid, opens, |c.configs|);
    }
  }

  /** What a session reads is what its announcement opened, for as long as it is open. */
  lemma {:induction false} SessionGroups(configs: seq<seq<PerfConfig>>, ops: seq<Op>, o: nat)
    requires OpensAt(configs, ops, o)
    ensures OpensExactly(Run(Init(configs), ops[..o]), ops[o].tid, ops[o].opens, GroupsAt(configs, ops, o))
    ensures StillOpen(ops, o, |ops|) ==>
              var c := Run(Init(configs), ops);
              ops[o].tid in c.groups && c.groups[ops[o].tid] == GroupsAt(configs, ops, o)
  {
    hide OpenGroups, Chosen, Count, FlushesWhileOpen, StillOpen;
    var c := Run(Init(configs), ops[..o]);
    var index := OpenGroupsChoose(c.os, c.configs, ops[o].tid, ops[o].opens, |c.configs|);
    TrackedRun(configs, ops, o, |ops|);
    assert ops[..|ops|] == ops;
  }

  // ---- When every open succeeds ----------------------------------------------------

  predicate Requested(configs: seq<seq<PerfConfig>>, k: int, m: int) {
    0 <= k < |configs| && 0 <= m < |configs[k]|
  }

  /** Every request is answered with a descriptor and an event id of its own, none of them
      in use. */
  ghost predicate AllSucceed(os: Os, configs: seq<seq<PerfConfig>>, opens: Opens) {
    && (forall k: nat, m: nat :: Requested(configs, k, m) ==>
          && opens(k, m).Opened? && opens(k, m).fd >= 0
          && opens(k, m).fd !in os.fds && opens(k, m).id !in os.used)
    && (forall k: nat, m: nat, l: nat, n: nat ::
          Requested(configs, k, m) && Requested(configs, l, n) && (k != l || m != n) ==>
            opens(k, m).fd != opens(l, n).fd && opens(k, m).id != opens(l, n).id)
  }

  ghost predicate GivenFd(configs: seq<seq<PerfConfig>>, opens: Opens, n: nat, fd: int) {
    exists k: nat, m: nat :: k < n && Requested(configs, k, m) && opens(k, m).Opened? && opens(k, m).fd == fd
  }

  ghost predicate GivenId(configs: seq<seq<PerfConfig>>, opens: Opens, n: nat, id: u64) {
    exists k: nat, m: nat :: k < n && Requested(configs, k, m) && opens(k, m).Opened? && opens(k, m).id == id
  }

  /** Only descriptors and ids of earlier configurations have been added. */
  ghost predicate OnlyGiven(os: Os, before: Os, configs: seq<seq<PerfConfig>>, opens: Opens, n: nat) {
    && (forall fd :: fd in before.fds ==> fd in os.fds || GivenFd(configs, opens, n, fd))
    && (forall id :: id in before.used ==> id in os.used || GivenId(configs, opens, n, id))
  }

  lemma {:induction false} NextGranted(os: Os, before: Os, configs: seq<seq<PerfConfig>>, opens: Opens, n: nat)
    requires n < |configs| && AllSucceed(os, configs, opens) && OnlyGiven(os, before, configs, opens, n)
    ensures Granted(before, AnswersFor(opens, n), |configs[n]|)
  {
    forall m: nat | m < |configs[n]|
      ensures opens(n, m).Opened? && opens(n, m).fd >= 0
      ensures opens(n, m).fd !in before.fds && opens(n, m).id !in before.used
    {
      assert Requested(configs, n, m);
    }
    forall i, j | 0 <= i < j < |configs[n]|
      ensures opens(n, i).fd != opens(n, j).fd && opens(n, i).id != opens(n, j).id
    {
      assert Requested(configs, n, i) && Requested(configs, n, j);
    }
  }

  lemma {:induction false} OnlyGivenMore(os: Os, before: Os, after: Os, configs: seq<seq<PerfConfig>>, tid: int,
                                         opens: Opens, n: nat)
    requires n < |configs| && OnlyGiven(os, before, configs, opens, n)
    requires Holds(before, after, configs[n], tid, AnswersFor(opens, n), |configs[n]|)
    ensures OnlyGiven(os, after, configs, opens, n + 1)
  {
    hide HoldsNew;
    forall fd | fd in after.fds ensures fd in os.fds || GivenFd(configs, opens, n + 1, fd) {
      if fd !in before.fds {
        var m :| 0 <= m < |configs[n]| && AnswersFor(opens, n)(m).Opened? && AnswersFor(opens, n)(m).fd == fd;
        assert Requested(configs, n, m);
      }
    }
    forall id | id in after.used ensures id in os.used || GivenId(configs, opens, n + 1, id) {
      if id !in before.used {
        var m :| 0 <= m < |configs[n]| && AnswersFor(opens, n)(m).Opened? && AnswersFor(opens, n)(m).id == id;
        assert Requested(configs, n, m);
      }
    }
  }

  lemma {:induction false} OpenGroupsAll(os: Os, configs: seq<seq<PerfConfig>>, tid: int, opens: Opens, n: nat)
    requires n <= |configs| && AllSucceed(os, configs, opens) && forall k :: 0 <= k < |configs| ==> configs[k] != []
    ensures var (after, gs) := OpenGroups(os, configs, tid, opens, n);
            && OnlyGiven(os, after, configs, opens, n)
            && |gs| == n && forall k :: 0 <= k < n ==> IsConfig(gs[k], configs, opens, k)
  {
    hide AllSucceed, OnlyGiven, IsConfig, OpenGroup, Holds, Granted, Named;
    if n == 0 {
      assert OnlyGiven(os, os, configs, opens, 0) by { NothingGiven(os, configs, opens); }
    } else {
      OpenGroupsAll(os, configs, tid, opens, n - 1);
      var (before, gs) := OpenGroups(os, configs, tid, opens, n - 1);
      NextGranted(os, before, configs, opens, n - 1);
      OpenGroupIff(before, configs[n - 1], tid, AnswersFor(opens, n - 1));
      var (after, r) := OpenGroup(before, configs[n - 1], tid, AnswersFor(opens, n - 1));
      OnlyGivenMore(os, before, after, configs, tid, opens, n - 1);
      NamedIsConfig(r.value, configs, opens, n - 1);
    }
  }

  lemma {:induction false} NothingGiven(os: Os, configs: seq<seq<PerfConfig>>, opens: Opens)
    ensures OnlyGiven(os, os, configs, opens, 0)
  {
  }

  lemma {:induction false} NamedIsConfig(g: PerfStatGroup, configs: seq<seq<PerfConfig>>, opens: Opens, k: nat)
    requires k < |configs| && Named(g.fds, configs[k], AnswersFor(opens, k), |configs[k]|)
    ensures IsConfig(g, configs, opens, k)
  {
  }

  /** When every open succeeds, the thread gets every configured group, whatever its size:
      group `k` is configuration `k`, event by event. */
  lemma {:induction false} OpensAll(c: Col, tid: int, opens: Opens, stamp: nat)
    requires tid !in c.groups && AllSucceed(c.os, c.configs, opens)
    requires forall k :: 0 <= k < |c.configs| ==> c.configs[k] != []
    ensures var d := OpenTid(c, tid, opens, stamp);
            && tid in d.groups && |d.groups[tid]| == |c.configs|
            && forall k :: 0 <= k < |c.configs| ==> IsConfig(d.groups[tid][k], c.configs, opens, k)
  {
    hide OpenGroups, IsConfig, AllSucceed, DescsOf;
    OpenGroupsAll(c.os, c.configs, tid, opens, |c.configs|);
  }

  // ---- Descriptions ----------------------------------------------------------------

  /** The row that describes a descriptor of a thread, as the kernel knows it. */
  function RowFor(os: Os, tid: int, p: PerfStat): DescRow
    requires p.fd in os.fds
  {
    DescRow(os.fds[p.fd].id, p.name, tid)
  }

  ghost predicate Queryable(os: Os, p: PerfStat) {
    p.fd in os.fds && os.fds[p.fd].queryable
  }

  lemma {:induction false} DescsAre(os: Os, tid: int, stats: seq<PerfStat>)
    ensures forall r :: r in DescsOf(os, tid, stats) <==>
              exists p :: p in stats && Queryable(os, p) && r == RowFor(os, tid, p)
    ensures (forall p :: p in stats ==> Queryable(os, p)) ==>
              && |DescsOf(os, tid, stats)| == |stats|
              && forall k :: 0 <= k < |stats| ==>
                   Queryable(os, stats[k]) && DescsOf(os, tid, stats)[k] == RowFor(os, tid, stats[k])
    decreases |stats|
  {
    if stats == [] {
    } else {
      var front, last := stats[..|stats| - 1], stats[|stats| - 1];
      assert stats == front + [last];
      DescsAre(os, tid, front);
      OneDescIs(os, tid, last);
    }
  }

  lemma {:induction false} OneDescIs(os: Os, tid: int, p: PerfStat)
    ensures DescOf(os, tid, p) == if Queryable(os, p) then [RowFor(os, tid, p)] else []
  {
  }

  /** What an announcement adds to the description table: one row for each descriptor opened
      whose id can be queried, with its event id, name and thread; when all can be, in the
      order of the descriptors. */
  lemma {:induction false} OpenTidDescribes(c: Col, tid: int, opens: Opens, stamp: nat)
    requires tid !in c.groups
    ensures var d := OpenTid(c, tid, opens, stamp);
            var stats := Stats(d.groups[tid]);
            var added := d.descRows[|c.descRows|..];
            && c.descRows <= d.descRows
            && (forall r :: r in added <==> exists p :: p in stats && Queryable(d.os, p) && r == RowFor(d.os, tid, p))
            && ((forall p :: p in stats ==> Queryable(d.os, p)) ==>
                  && |added| == |stats|
                  && forall k :: 0 <= k < |stats| ==>
                       Queryable(d.os, stats[k]) && added[k] == RowFor(d.os, tid, stats[k]))
  {
    hide OpenGroups, DescsOf, Stats, Queryable, RowFor;
    var (os, gs) := OpenGroups(c.os, c.configs, tid, opens, |c.configs|);
    DescsAre(os, tid, Stats(gs));
    var d := OpenTid(c, tid, opens, stamp);
    assert d.descRows[|c.descRows|..] == DescsOf(os, tid, Stats(gs));
  }
}
