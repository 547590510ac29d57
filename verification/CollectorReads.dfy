/** What a flush and a close read, in terms of the groups and descriptors of the live
    threads and of the kernel's answers alone. */
module CollectorReads {
  import opened Prelude
  import opened ParsePerf
  import opened PerfEvents
  import opened GroupRecord
  import opened Collector
  import opened CollectorLaws
  import opened CollectorSessions

  /** Attempt `a` names event `k` of its group as the descriptor opened for it: its name,
      its event id, and whether that can be queried. */
  ghost predicate NamesEvent(os: Os, a: Attempt, g: PerfStatGroup, k: nat)
    requires k < |g.fds|
  {
    && k < |a.members|
    && g.fds[k].fd in os.fds
    && a.members[k].name == g.fds[k].name
    && a.members[k].id == os.fds[g.fds[k].fd].id
    && a.members[k].queryable == os.fds[g.fds[k].fd].queryable
  }

  /** Attempt `a` took what the kernel answered on the leader of group `g`. */
  ghost predicate Took(a: Attempt, g: PerfStatGroup, answer: ReadAnswer) {
    && a.timestamp == answer.timestamp
    && (forall i :: 0 <= i < |a.memory| ==> a.memory[i] == answer.memory(i))
    && match answer.outcome
       case ReadFailed(errno) => a.outcome == Failed(errno)
       case Counted(enabled, running, count, length) =>
         && a.outcome.Values?
         && a.outcome.length == length
         && a.outcome.record.timeEnabled == enabled
         && a.outcome.record.timeRunning == running
         && |a.outcome.record.entries| == |g.fds|
         && forall k :: 0 <= k < |g.fds| ==> a.outcome.record.entries[k].value == count(k)
  }

  /** `a` is a read of group number `a.group` of thread `a.tid`, through its own leader. */
  ghost predicate ReadsGroup(c: Col, a: Attempt, readings: Readings) {
    && a.tid in c.groups && a.group < |c.groups[a.tid]|
    && var g := c.groups[a.tid][a.group];
       && |a.members| == |g.fds|
       && (forall k :: 0 <= k < |g.fds| ==> NamesEvent(c.os, a, g, k))
       && Took(a, g, readings(g.fds[0].fd))
  }

  // ---- One thread ------------------------------------------------------------------

  /** The attempts of a block on one thread: its groups, each once, in order. */
  ghost predicate CoversThread(c: Col, tid: int, block: seq<Attempt>) {
    if tid in c.groups
    then |block| == |c.groups[tid]| && forall k :: 0 <= k < |block| ==> block[k].tid == tid && block[k].group == k
    else block == []
  }

  lemma {:induction false} ThreadReads(c: Col, tid: int, readings: Readings)
    requires Owns(c.groups, c.os)
    ensures CoversThread(c, tid, ThreadBlock(c, tid, readings))
    ensures forall a :: a in ThreadBlock(c, tid, readings) ==> ReadsGroup(c, a, readings)
  {
    if tid in c.groups {
      forall k: nat | k < |c.groups[tid]| ensures ReadsGroup(c, ThreadBlock(c, tid, readings)[k], readings) {
        OneRead(c, tid, k, readings);
      }
    }
  }

  lemma {:induction false} OneRead(c: Col, tid: int, k: nat, readings: Readings)
    requires Owns(c.groups, c.os) && tid in c.groups && k < |c.groups[tid]|
    ensures ReadsGroup(c, ThreadBlock(c, tid, readings)[k], readings)
  {
    var g := c.groups[tid][k];
    forall j: nat | j < |g.fds| ensures g.fds[j].fd in c.os.fds {
      StatsMember(c.groups[tid], k, g.fds[j]);
    }
  }

  /** A close reads each group of its thread once, in order, each through its own leader. */
  lemma {:induction false} CloseReads(configs: seq<seq<PerfConfig>>, ops: seq<Op>, tid: int, readings: Readings)
    ensures var c := Run(Init(configs), ops);
            var d := CloseTid(c, tid, readings);
            && c.log <= d.log
            && CoversThread(c, tid, d.log[|c.log|..])
            && forall a :: a in d.log[|c.log|..] ==> ReadsGroup(c, a, readings)
  {
    hide ThreadBlock, CloseTid, ReadsGroup, CoversThread, Owns, Run, AttemptBase.WellFormed;
    var c := Run(Init(configs), ops);
    RunOwns(configs, ops);
    CloseEffect(c, tid, readings);
    ThreadReads(c, tid, readings);
    assert CloseTid(c, tid, readings).log[|c.log|..] == ThreadBlock(c, tid, readings);
  }

  // ---- Every thread ----------------------------------------------------------------

  /** Some attempt of the block is on group `g` of thread `t`. */
  ghost predicate Visits(block: seq<Attempt>, t: int, g: nat) {
    exists i :: 0 <= i < |block| && block[i].tid == t && block[i].group == g
  }

  /** The threads of `order` in that order, each with its groups in order: every pair of a
      thread and a group has an attempt, no two attempts have the same pair, and a later
      attempt is on a later thread of the order or on a later group. */
  ghost predicate Walks(c: Col, order: seq<int>, block: seq<Attempt>) {
    && (forall t, g: nat :: t in order && t in c.groups && g < |c.groups[t]| ==>
          Visits(block, t, g))
    && (forall i :: 0 <= i < |block| ==> block[i].tid in order)
    && (forall i, j :: 0 <= i < j < |block| ==>
          if block[i].tid == block[j].tid then block[i].group < block[j].group
          else Before(order, block[i].tid, block[j].tid))
  }

  predicate Before(order: seq<int>, t: int, u: int) {
    exists x, y :: 0 <= x < y < |order| && order[x] == t && order[y] == u
  }

  lemma {:induction false} BeforeMore(order: seq<int>, last: int, t: int, u: int)
    ensures Before(order, t, u) ==> Before(order + [last], t, u)
    ensures t in order ==> Before(order + [last], t, last)
  {
    var all := order + [last];
    if Before(order, t, u) {
      var x, y :| 0 <= x < y < |order| && order[x] == t && order[y] == u;
      assert all[x] == t && all[y] == u;
    }
    if t in order {
      var x :| 0 <= x < |order| && order[x] == t;
      assert all[x] == t && all[|order|] == last;
    }
  }

  lemma {:induction false} WalkMore(c: Col, front: seq<int>, last: int, a: seq<Attempt>, b: seq<Attempt>)
    requires Walks(c, front, a) && CoversThread(c, last, b) && last !in front
    ensures Walks(c, front + [last], a + b)
  {
    hide Before, AttemptBase.WellFormed;
    var order, block := front + [last], a + b;
    forall t, g: nat | t in order && t in c.groups && g < |c.groups[t]|
      ensures Visits(block, t, g)
    {
      if t == last {
        assert block[|a| + g] == b[g];
      } else {
        assert Visits(a, t, g);
        var i :| 0 <= i < |a| && a[i].tid == t && a[i].group == g;
        assert block[i] == a[i];
      }
    }
    forall i, j | 0 <= i < j < |block|
      ensures if block[i].tid == block[j].tid then block[i].group < block[j].group
              else Before(order, block[i].tid, block[j].tid)
    {
      BeforeMore(front, last, block[i].tid, block[j].tid);
    }
  }

  lemma {:induction false} FlushBlockWalks(c: Col, order: seq<int>, readings: Readings)
    requires Owns(c.groups, c.os)
    requires forall i, j :: 0 <= i < j < |order| ==> order[i] != order[j]
    ensures Walks(c, order, FlushBlock(c, order, readings))
    ensures forall a :: a in FlushBlock(c, order, readings) ==> ReadsGroup(c, a, readings)
    decreases |order|
  {
    hide ThreadBlock, Owns, ReadsGroup, CoversThread, AttemptBase.WellFormed;
    if order == [] {
    } else {
      var front, last := order[..|order| - 1], order[|order| - 1];
      assert order == front + [last];
      FlushBlockWalks(c, front, readings);
      ThreadReads(c, last, readings);
      hide Walks;
      WalkMore(c, front, last, FlushBlock(c, front, readings), ThreadBlock(c, last, readings));
    }
  }

  // ---- Every descriptor ------------------------------------------------------------

  /** No two descriptors ever hold the same event id. */
  ghost predicate OwnIds(os: Os) {
    && (forall fd :: fd in os.fds ==> os.fds[fd].id in os.used)
    && (forall fd, other :: fd in os.fds && other in os.fds && os.fds[fd].id == os.fds[other].id ==> fd == other)
  }

  lemma {:induction false} OwnIdsAdded(os: Os, after: Os, tid: int, stats: seq<PerfStat>)
    requires OwnIds(os) && Adds(os, after, tid, stats)
    ensures OwnIds(after)
  {
    forall fd, other | fd in after.fds && other in after.fds && after.fds[fd].id == after.fds[other].id
      ensures fd == other
    {
      if fd !in os.fds && other !in os.fds {
        var p :| p in stats && p.fd == fd;
        var q :| q in stats && q.fd == other;
        var i :| 0 <= i < |stats| && stats[i] == p;
        var j :| 0 <= j < |stats| && stats[j] == q;
      }
    }
  }

  lemma {:induction false} RunOwnIds(configs: seq<seq<PerfConfig>>, ops: seq<Op>)
    ensures OwnIds(Run(Init(configs), ops).os)
  {
    hide Adds, OpenGroups, FlushAll, CloseTid, Stats, Tabulated;
    if ops == [] {
    } else {
      var n := |ops| - 1;
      RunOwnIds(configs, ops[..n]);
      var c := Run(Init(configs), ops[..n]);
      match ops[n]
      case Open(tid, opens) =>
        OpenGroupsAdds(c.os, c.configs, tid, opens, |c.configs|);
        var (after, gs) := OpenGroups(c.os, c.configs, tid, opens, |c.configs|);
        OwnIdsAdded(c.os, after, tid, Stats(gs));
      case Close(tid, readings) => CloseEffect(c, tid, readings);
      case Flush(order, readings) => FlushEffect(c, order, readings);
      case Nothing =>
    }
  }

  predicate HasId(a: Attempt, id: u64) {
    exists k :: 0 <= k < |a.members| && a.members[k].id == id
  }

  lemma {:induction false} NotInFront(front: seq<PerfStat>, back: seq<PerfStat>, p: PerfStat, j: nat)
    requires Distinct(front + back) && p in front && j < |back|
    ensures p.fd != back[j].fd
  {
    var x :| 0 <= x < |front| && front[x] == p;
    assert (front + back)[x] == p && (front + back)[|front| + j] == back[j];
  }

  /** The groups of a thread share no descriptor. */
  lemma {:induction false} OneGroupEach(gs: seq<PerfStatGroup>, a: nat, i: nat, b: nat, j: nat)
    requires Distinct(Stats(gs)) && a <= b < |gs| && i < |gs[a].fds| && j < |gs[b].fds|
    requires gs[a].fds[i].fd == gs[b].fds[j].fd
    ensures a == b
  {
    var n := |gs| - 1;
    var front := Stats(gs[..n]);
    assert Stats(gs) == front + gs[n].fds;
    forall x, y | 0 <= x < y < |front| ensures front[x].fd != front[y].fd {
      assert Stats(gs)[x] == front[x] && Stats(gs)[y] == front[y];
    }
    if b < n {
      OneGroupEach(gs[..n], a, i, b, j);
    } else if a < n {
      StatsMember(gs[..n], a, gs[..n][a].fds[i]);
      NotInFront(front, gs[n].fds, gs[a].fds[i], j);
      assert false;
    }
  }

  lemma {:induction false} StatInGroup(gs: seq<PerfStatGroup>, p: PerfStat) returns (g: nat, k: nat)
    requires p in Stats(gs)
    ensures g < |gs| && k < |gs[g].fds| && gs[g].fds[k] == p
  {
    var n := |gs| - 1;
    if p in gs[n].fds {
      g := n;
      k :| 0 <= k < |gs[n].fds| && gs[n].fds[k] == p;
    } else {
      g, k := StatInGroup(gs[..n], p);
    }
  }

  /** The event id of descriptor `fd` is read in attempt `i` and in no other. */
  ghost predicate ReadOnlyIn(block: seq<Attempt>, id: u64, i: int) {
    && 0 <= i < |block| && HasId(block[i], id)
    && forall j :: 0 <= j < |block| && HasId(block[j], id) ==> j == i
  }

  /** Attempts that name the same open descriptor are on the same group. */
  lemma {:induction false} SameGroup(c: Col, a: Attempt, b: Attempt, readings: Readings, id: u64)
    requires Owns(c.groups, c.os) && OwnIds(c.os) && ReadsGroup(c, a, readings) && ReadsGroup(c, b, readings)
    requires HasId(a, id) && HasId(b, id)
    ensures a.tid == b.tid && a.group == b.group
  {
    hide Took, Distinct, Stats;
    var i :| 0 <= i < |a.members| && a.members[i].id == id;
    var j :| 0 <= j < |b.members| && b.members[j].id == id;
    var g, h := c.groups[a.tid][a.group], c.groups[b.tid][b.group];
    assert NamesEvent(c.os, a, g, i) && NamesEvent(c.os, b, h, j);
    assert g.fds[i].fd == h.fds[j].fd;
    StatsMember(c.groups[a.tid], a.group, g.fds[i]);
    StatsMember(c.groups[b.tid], b.group, h.fds[j]);
    assert a.tid == b.tid;
    if a.group <= b.group {
      OneGroupEach(c.groups[a.tid], a.group, i, b.group, j);
    } else {
      OneGroupEach(c.groups[a.tid], b.group, j, a.group, i);
    }
  }

  lemma {:induction false} IdReadOnce(c: Col, order: seq<int>, block: seq<Attempt>, readings: Readings, fd: int)
    returns (i: int)
    requires Owns(c.groups, c.os) && OwnIds(c.os) && Walks(c, order, block)
    requires forall t :: t in c.groups ==> t in order
    requires forall a :: a in block ==> ReadsGroup(c, a, readings)
    requires fd in c.os.fds
    ensures ReadOnlyIn(block, c.os.fds[fd].id, i)
  {
    hide ReadsGroup, HasId, Stats, Distinct, OwnIds, AttemptBase.WellFormed;
    var tid, id := c.os.fds[fd].tid, c.os.fds[fd].id;
    var p :| p in Stats(c.groups[tid]) && p.fd == fd;
    var g, k := StatInGroup(c.groups[tid], p);
    assert Visits(block, tid, g);
    i :| 0 <= i < |block| && block[i].tid == tid && block[i].group == g;
    assert block[i] in block;
    NamesIt(c, block[i], readings, k);
    forall j | 0 <= j < |block| && HasId(block[j], id) ensures j == i {
      assert block[j] in block;
      SameGroup(c, block[i], block[j], readings, id);
    }
  }

  lemma {:induction false} NamesIt(c: Col, a: Attempt, readings: Readings, k: nat)
    requires ReadsGroup(c, a, readings) && k < |c.groups[a.tid][a.group].fds|
    ensures var fd := c.groups[a.tid][a.group].fds[k].fd; fd in c.os.fds && HasId(a, c.os.fds[fd].id)
  {
    assert NamesEvent(c.os, a, c.groups[a.tid][a.group], k);
  }

  /** A flush, in every reachable state and for every walk: each attempt it makes is a read
      of its own group through that group's leader, the threads come in the order of the walk
      and their groups in order, none left out, and the event id of every open descriptor is
      read in exactly one attempt. */
  lemma {:induction false} FlushReads(configs: seq<seq<PerfConfig>>, ops: seq<Op>, order: seq<int>, readings: Readings)
    ensures var c := Run(Init(configs), ops);
            var d := FlushAll(c, order, readings);
            && c.log <= d.log
            && (forall a :: a in d.log[|c.log|..] ==> ReadsGroup(c, a, readings))
            && (IsOrder(order, c.groups.Keys) ==> Walks(c, order, d.log[|c.log|..]))
            && (forall fd :: fd in c.os.fds ==> exists i :: ReadOnlyIn(d.log[|c.log|..], c.os.fds[fd].id, i))
  {
    hide FlushBlock, FlushAll, ReadsGroup, Walks, Owns, OwnIds, Run, AttemptBase.WellFormed;
    var c := Run(Init(configs), ops);
    var walk := WalkOrder(order, c.groups.Keys);
    RunOwns(configs, ops);
    RunOwnIds(configs, ops);
    FlushEffect(c, order, readings);
    FlushBlockWalks(c, walk, readings);
    var block := FlushAll(c, order, readings).log[|c.log|..];
    assert block == FlushBlock(c, walk, readings);
    forall fd | fd in c.os.fds ensures exists i :: ReadOnlyIn(block, c.os.fds[fd].id, i) {
      var i := IdReadOnce(c, walk, block, readings, fd);
    }
  }
}
