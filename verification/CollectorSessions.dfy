/** How often each group is read, over whole runs: once per flush while its thread is
    registered and exactly once more at the end, whatever order the flushes walk in. */
module CollectorSessions {
  import opened ParsePerf
  import opened PerfEvents
  import opened Collector
  import opened CollectorLaws

  /** Attempts on group number `g` of the session that operation `o` opened. */
  function Count(log: seq<Attempt>, o: nat, g: nat): nat {
    if log == [] then 0
    else
      var a := log[|log| - 1];
      Count(log[..|log| - 1], o, g) + (if a.session == o && a.group == g then 1 else 0)
  }

  lemma {:induction false} CountAppend(a: seq<Attempt>, b: seq<Attempt>, o: nat, g: nat)
    ensures Count(a + b, o, g) == Count(a, o, g) + Count(b, o, g)
    decreases |b|
  {
    if b == [] {
      assert a + b == a;
    } else {
      CountAppend(a, b[..|b| - 1], o, g);
      assert (a + b)[..|a + b| - 1] == a + b[..|b| - 1];
    }
  }

  lemma {:induction false} CountOnThread(os: Os, tid: int, session: nat, gs: seq<PerfStatGroup>, readings: Readings,
                                         o: nat, g: nat)
    ensures Count(AttemptsOn(os, tid, session, gs, readings), o, g) ==
              if session == o && g < |gs| then 1 else 0
    decreases |gs|
  {
    if gs == [] {
    } else {
      var n := |gs| - 1;
      CountOnThread(os, tid, session, gs[..n], readings, o, g);
      assert AttemptsOn(os, tid, session, gs, readings)[..n] == AttemptsOn(os, tid, session, gs[..n], readings);
    }
  }

  /** Live threads have sessions, one each, opened by earlier operations. */
  ghost predicate Sessions(c: Col, n: nat) {
    && c.session.Keys == c.groups.Keys
    && (forall t :: t in c.session ==> c.session[t] < n)
    && (forall t, u :: t in c.session && u in c.session && c.session[t] == c.session[u] ==> t == u)
  }

  lemma {:induction false} RunSessions(configs: seq<seq<PerfConfig>>, ops: seq<Op>)
    ensures Sessions(Run(Init(configs), ops), |ops|)
  {
    hide CloseTid, FlushAll, FlushBlock, ThreadBlock, OpenGroups, DescsOf, Stats, CloseAll, Tabulated;
    if ops == [] {
    } else {
      var n := |ops| - 1;
      RunSessions(configs, ops[..n]);
      var c := Run(Init(configs), ops[..n]);
      match ops[n]
      case Open(tid, opens) =>
      case Close(tid, readings) => CloseEffect(c, tid, readings);
      case Flush(order, readings) => FlushEffect(c, order, readings);
      case Nothing =>
    }
  }

  lemma {:induction false} CountThreadBlock(c: Col, n: nat, tid: int, readings: Readings, o: nat, g: nat)
    requires Sessions(c, n)
    ensures Count(ThreadBlock(c, tid, readings), o, g) ==
              if tid in c.groups && c.session[tid] == o && g < |c.groups[tid]| then 1 else 0
  {
    if tid in c.groups {
      CountOnThread(c.os, tid, c.session[tid], c.groups[tid], readings, o, g);
    }
  }

  /** A walk reads the groups of session `o` once if its thread is visited, else never. */
  lemma {:induction false} CountFlushBlock(c: Col, n: nat, order: seq<int>, readings: Readings, o: nat, g: nat)
    requires Sessions(c, n)
    requires forall i, j :: 0 <= i < j < |order| ==> order[i] != order[j]
    ensures (forall t :: t in order && t in c.groups ==> c.session[t] != o) ==>
              Count(FlushBlock(c, order, readings), o, g) == 0
    ensures forall t :: t in order && t in c.groups && c.session[t] == o ==>
              Count(FlushBlock(c, order, readings), o, g) == if g < |c.groups[t]| then 1 else 0
    decreases |order|
  {
    hide ThreadBlock, AttemptBase.WellFormed;
    if order == [] {
    } else {
      var front, last := order[..|order| - 1], order[|order| - 1];
      CountFlushBlock(c, n, front, readings, o, g);
      CountThreadBlock(c, n, last, readings, o, g);
      CountAppend(FlushBlock(c, front, readings), ThreadBlock(c, last, readings), o, g);
      assert order == front + [last];
      assert last !in front;
    }
  }

  // ---- Sessions of a run -----------------------------------------------------------

  /** Operation `o` opens a session. */
  ghost predicate OpensAt(configs: seq<seq<PerfConfig>>, ops: seq<Op>, o: nat) {
    o < |ops| && ops[o].Open? && ops[o].tid !in Run(Init(configs), ops[..o]).groups
  }

  /** The groups that operation `o` opened. */
  function GroupsAt(configs: seq<seq<PerfConfig>>, ops: seq<Op>, o: nat): seq<PerfStatGroup>
    requires o < |ops| && ops[o].Open?
  {
    var c := Run(Init(configs), ops[..o]);
    OpenGroups(c.os, c.configs, ops[o].tid, ops[o].opens, |c.configs|).1
  }

  predicate ClosesFor(ops: seq<Op>, o: nat, j: nat)
    requires o < |ops| && ops[o].Open? && j < |ops|
  {
    ops[j].Close? && ops[j].tid == ops[o].tid
  }

  /** No operation between `o` and `k` closes the thread that `o` opened. */
  predicate StillOpen(ops: seq<Op>, o: nat, k: nat)
    requires o < k <= |ops| && ops[o].Open?
  {
    forall j :: o < j < k ==> !ClosesFor(ops, o, j)
  }

  /** Flushes between `o` and `k` that find the session of `o` still open. */
  function FlushesWhileOpen(ops: seq<Op>, o: nat, k: nat): nat
    requires o < k <= |ops| && ops[o].Open?
  {
    if k == o + 1 then 0
    else FlushesWhileOpen(ops, o, k - 1) + (if StillOpen(ops, o, k - 1) && ops[k - 1].Flush? then 1 else 0)
  }

  /** The session `o` of thread `tid` with groups `gs`: `live` or not, and each of its groups
      read `times` times so far. */
  ghost predicate Track(c: Col, tid: int, o: nat, gs: seq<PerfStatGroup>, live: bool, times: nat) {
    && (live ==> tid in c.groups && c.groups[tid] == gs && tid in c.session && c.session[tid] == o)
    && (!live ==> forall t :: t in c.session ==> c.session[t] != o)
    && (forall g: nat :: Count(c.log, o, g) == if g < |gs| then times else 0)
  }

  /** What the first `k` operations leave of the session that `o` opened. */
  ghost predicate Tracked(configs: seq<seq<PerfConfig>>, ops: seq<Op>, o: nat, k: nat)
    requires o < k <= |ops| && ops[o].Open?
  {
    Track(Run(Init(configs), ops[..k]), ops[o].tid, o, GroupsAt(configs, ops, o), StillOpen(ops, o, k),
          FlushesWhileOpen(ops, o, k) + (if StillOpen(ops, o, k) then 0 else 1))
  }

  lemma {:induction false} NoEarlyAttempts(configs: seq<seq<PerfConfig>>, ops: seq<Op>)
    ensures forall a :: a in Run(Init(configs), ops).log ==> a.session < |ops|
  {
    hide CloseTid, FlushAll, FlushBlock, OpenGroups, DescsOf, Stats, CloseAll, Tabulated;
    if ops == [] {
    } else {
      var n := |ops| - 1;
      NoEarlyAttempts(configs, ops[..n]);
      RunSessions(configs, ops[..n]);
      var c := Run(Init(configs), ops[..n]);
      match ops[n]
      case Open(tid, opens) =>
      case Close(tid, readings) => CloseEffect(c, tid, readings);
      case Flush(order, readings) =>
        FlushEffect(c, order, readings);
        FlushBlockSessions(c, n, WalkOrder(order, c.groups.Keys), readings);
      case Nothing =>
    }
  }

  lemma {:induction false} FlushBlockSessions(c: Col, n: nat, order: seq<int>, readings: Readings)
    requires Sessions(c, n)
    ensures forall a :: a in FlushBlock(c, order, readings) ==>
              a.tid in c.groups && a.session == c.session[a.tid] && a.group < |c.groups[a.tid]|
  {
    if order == [] {
    } else {
      FlushBlockSessions(c, n, order[..|order| - 1], readings);
    }
  }

  lemma {:induction false} CountNone(log: seq<Attempt>, o: nat, g: nat)
    requires forall a :: a in log ==> a.session != o
    ensures Count(log, o, g) == 0
  {
    if log == [] {
    } else {
      CountNone(log[..|log| - 1], o, g);
    }
  }

  lemma {:induction false} TrackedAtOpen(configs: seq<seq<PerfConfig>>, ops: seq<Op>, o: nat)
    requires OpensAt(configs, ops, o)
    ensures Tracked(configs, ops, o, o + 1)
  {
    var c := Run(Init(configs), ops[..o]);
    assert ops[..o + 1][..o] == ops[..o];
    NoEarlyAttempts(configs, ops[..o]);
    forall g: nat ensures Count(c.log, o, g) == 0 {
      CountNone(c.log, o, g);
    }
  }

  lemma {:induction false} TrackOpen(c: Col, k: nat, t: int, opens: Opens, tid: int, o: nat, gs: seq<PerfStatGroup>,
                                     live: bool, times: nat)
    requires Track(c, tid, o, gs, live, times) && o < k
    ensures Track(OpenTid(c, t, opens, k), tid, o, gs, live, times)
  {
    hide OpenGroups, Count, DescsOf;
  }

  lemma {:induction false} TrackClose(c: Col, k: nat, t: int, readings: Readings, tid: int, o: nat,
                                      gs: seq<PerfStatGroup>, live: bool, times: nat)
    requires Track(c, tid, o, gs, live, times) && Sessions(c, k)
    ensures Track(CloseTid(c, t, readings), tid, o, gs, live && t != tid, times + (if live && t == tid then 1 else 0))
  {
    hide CloseTid, Count, Sessions, ThreadBlock, Stats, CloseAll, Tabulated;
    CloseEffect(c, t, readings);
    CountClose(c, k, t, readings, o);
  }

  lemma {:induction false} TrackFlush(c: Col, k: nat, order: seq<int>, readings: Readings, tid: int, o: nat,
                                      gs: seq<PerfStatGroup>, live: bool, times: nat)
    requires Track(c, tid, o, gs, live, times) && Sessions(c, k)
    ensures Track(FlushAll(c, order, readings), tid, o, gs, live, times + (if live then 1 else 0))
  {
    hide FlushAll, Count, Sessions, FlushBlock, Tabulated;
    FlushEffect(c, order, readings);
    CountFlush(c, k, order, readings, o);
  }

  lemma {:induction false} TrackApply(c: Col, k: nat, op: Op, tid: int, o: nat, gs: seq<PerfStatGroup>, live: bool,
                                      times: nat)
    requires Track(c, tid, o, gs, live, times) && Sessions(c, k) && o < k
    ensures var closes := op.Close? && op.tid == tid;
            Track(Apply(c, op, k), tid, o, gs, live && !closes,
                  times + (if live && (closes || op.Flush?) then 1 else 0))
  {
    hide OpenTid, CloseTid, FlushAll, Track, Sessions;
    match op
    case Open(t, opens) => TrackOpen(c, k, t, opens, tid, o, gs, live, times);
    case Close(t, readings) => TrackClose(c, k, t, readings, tid, o, gs, live, times);
    case Flush(order, readings) => TrackFlush(c, k, order, readings, tid, o, gs, live, times);
    case Nothing =>
  }

  /** A close reads the groups of session `o` once if that is the session it closes. */
  lemma {:induction false} CountClose(c: Col, n: nat, tid: int, readings: Readings, o: nat)
    requires Sessions(c, n)
    ensures c.session.Keys == c.groups.Keys
    ensures forall t, u :: t in c.session && u in c.session && c.session[t] == c.session[u] ==> t == u
    ensures forall g: nat :: Count(CloseTid(c, tid, readings).log, o, g) == Count(c.log, o, g) +
              if tid in c.groups && c.session[tid] == o && g < |c.groups[tid]| then 1 else 0
  {
    hide ThreadBlock, CloseTid, Count;
    CloseEffect(c, tid, readings);
    forall g: nat
      ensures Count(CloseTid(c, tid, readings).log, o, g) == Count(c.log, o, g) +
                if tid in c.groups && c.session[tid] == o && g < |c.groups[tid]| then 1 else 0
    {
      CountAppend(c.log, ThreadBlock(c, tid, readings), o, g);
      CountThreadBlock(c, n, tid, readings, o, g);
    }
  }

  /** A flush reads the groups of session `o` once if it is still live. */
  lemma {:induction false} CountFlush(c: Col, n: nat, order: seq<int>, readings: Readings, o: nat)
    requires Sessions(c, n)
    ensures (forall t :: t in c.session ==> c.session[t] != o) ==>
              forall g: nat :: Count(FlushAll(c, order, readings).log, o, g) == Count(c.log, o, g)
    ensures forall t, g: nat :: t in c.groups && t in c.session && c.session[t] == o ==>
              Count(FlushAll(c, order, readings).log, o, g) == Count(c.log, o, g) +
                if g < |c.groups[t]| then 1 else 0
  {
    hide FlushBlock, FlushAll, Count;
    FlushEffect(c, order, readings);
    var walk := WalkOrder(order, c.groups.Keys);
    forall g: nat
      ensures (forall t :: t in c.session ==> c.session[t] != o) ==>
                Count(FlushAll(c, order, readings).log, o, g) == Count(c.log, o, g)
      ensures forall t :: t in c.groups && t in c.session && c.session[t] == o ==>
                Count(FlushAll(c, order, readings).log, o, g) == Count(c.log, o, g) +
                  if g < |c.groups[t]| then 1 else 0
    {
      CountAppend(c.log, FlushBlock(c, walk, readings), o, g);
      CountFlushBlock(c, n, walk, readings, o, g);
    }
  }

  lemma {:induction false} TrackedRun(configs: seq<seq<PerfConfig>>, ops: seq<Op>, o: nat, k: nat)
    requires OpensAt(configs, ops, o) && o < k <= |ops|
    ensures Tracked(configs, ops, o, k)
    decreases k
  {
    hide GroupsAt, Track, Sessions, Apply;
    if k == o + 1 {
      TrackedAtOpen(configs, ops, o);
    } else {
      var n := k - 1;
      TrackedRun(configs, ops, o, n);
      assert ops[..k][..n] == ops[..n];
      RunSessions(configs, ops[..n]);
      TrackApply(Run(Init(configs), ops[..n]), n, ops[n], ops[o].tid, o, GroupsAt(configs, ops, o),
                 StillOpen(ops, o, n), FlushesWhileOpen(ops, o, n) + (if StillOpen(ops, o, n) then 0 else 1));
      assert StillOpen(ops, o, k) <==> StillOpen(ops, o, n) && !ClosesFor(ops, o, n);
    }
  }

  /** Session accounting, over every sequence of operations: each group that a session
      opened has been read once for every flush while the session was open, and once
      more if it has been closed. No other group of the session was ever read. */
  lemma {:induction false} SessionAccounting(configs: seq<seq<PerfConfig>>, ops: seq<Op>, o: nat, g: nat)
    requires OpensAt(configs, ops, o)
    ensures Count(Run(Init(configs), ops).log, o, g) ==
              if g >= |GroupsAt(configs, ops, o)| then 0
              else FlushesWhileOpen(ops, o, |ops|) + (if StillOpen(ops, o, |ops|) then 0 else 1)
  {
    TrackedRun(configs, ops, o, |ops|);
    assert ops[..|ops|] == ops;
  }

  /** When the last operation is a flush, every group of every session has been read once
      per earlier flush during the session and exactly one last time: at its close, or at
      that final flush. */
  lemma {:induction false} FinalFlushAccounting(configs: seq<seq<PerfConfig>>, ops: seq<Op>, o: nat, g: nat)
    requires OpensAt(configs, ops, o) && ops[|ops| - 1].Flush?
    requires g < |GroupsAt(configs, ops, o)|
    ensures o < |ops| - 1 && Count(Run(Init(configs), ops).log, o, g) == FlushesWhileOpen(ops, o, |ops| - 1) + 1
  {
    hide Run, Count, GroupsAt, FlushesWhileOpen, StillOpen;
    SessionAccounting(configs, ops, o, g);
    LastFlush(ops, o);
  }

  /** A final flush is either one more read of an open session or comes after its close. */
  lemma {:induction false} LastFlush(ops: seq<Op>, o: nat)
    requires o < |ops| - 1 && ops[o].Open? && ops[|ops| - 1].Flush?
    ensures FlushesWhileOpen(ops, o, |ops|) + (if StillOpen(ops, o, |ops|) then 0 else 1) ==
              FlushesWhileOpen(ops, o, |ops| - 1) + 1
  {
    var n := |ops| - 1;
    assert !ClosesFor(ops, o, n);
    assert StillOpen(ops, o, n + 1) <==> StillOpen(ops, o, n);
  }

  /** Every live thread and every attempt belongs to a session of the run. */
  ghost predicate Attributed(configs: seq<seq<PerfConfig>>, ops: seq<Op>, c: Col) {
    && (forall t :: t in c.session ==> OpensAt(configs, ops, c.session[t]) && ops[c.session[t]].tid == t)
    && (forall a :: a in c.log ==> OpensAt(configs, ops, a.session) && ops[a.session].tid == a.tid)
  }

  lemma {:induction false} AttributedLater(configs: seq<seq<PerfConfig>>, ops: seq<Op>, op: Op, c: Col)
    requires Attributed(configs, ops, c)
    ensures Attributed(configs, ops + [op], c)
  {
    hide Run;
    forall o: nat | OpensAt(configs, ops, o)
      ensures OpensAt(configs, ops + [op], o) && (ops + [op])[o] == ops[o]
    {
      assert (ops + [op])[..o] == ops[..o];
    }
  }

  lemma {:induction false} RunAttempts(configs: seq<seq<PerfConfig>>, ops: seq<Op>)
    ensures Attributed(configs, ops, Run(Init(configs), ops))
  {
    hide OpensAt, CloseTid, FlushAll, FlushBlock, ThreadBlock, OpenGroups, DescsOf, Stats, CloseAll, Tabulated;
    if ops == [] {
    } else {
      var n := |ops| - 1;
      RunAttempts(configs, ops[..n]);
      RunSessions(configs, ops[..n]);
      var c := Run(Init(configs), ops[..n]);
      AttributedLater(configs, ops[..n], ops[n], c);
      assert ops == ops[..n] + [ops[n]];
      match ops[n]
      case Open(tid, opens) =>
        if tid !in c.groups {
          NewSession(configs, ops);
        }
      case Close(tid, readings) =>
        CloseEffect(c, tid, readings);
        ThreadBlockSessions(c, tid, readings);
        AttributedBlock(configs, ops, c, CloseTid(c, tid, readings), ThreadBlock(c, tid, readings));
      case Flush(order, readings) =>
        var walk := WalkOrder(order, c.groups.Keys);
        FlushEffect(c, order, readings);
        FlushBlockSessions(c, n, walk, readings);
        AttributedBlock(configs, ops, c, FlushAll(c, order, readings), FlushBlock(c, walk, readings));
      case Nothing =>
    }
  }

  lemma {:induction false} ThreadBlockSessions(c: Col, tid: int, readings: Readings)
    requires c.session.Keys == c.groups.Keys
    ensures forall a :: a in ThreadBlock(c, tid, readings) ==> a.tid in c.session && a.session == c.session[a.tid]
  {
  }

  lemma {:induction false} AttributedBlock(configs: seq<seq<PerfConfig>>, ops: seq<Op>, c: Col, d: Col, block: seq<Attempt>)
    requires Attributed(configs, ops, c) && d.log == c.log + block
    requires forall t :: t in d.session ==> t in c.session && d.session[t] == c.session[t]
    requires forall a :: a in block ==> a.tid in c.session && a.session == c.session[a.tid]
    ensures Attributed(configs, ops, d)
  {
    hide OpensAt;
  }

  lemma {:induction false} NewSession(configs: seq<seq<PerfConfig>>, ops: seq<Op>)
    requires ops != [] && ops[|ops| - 1].Open?
    requires ops[|ops| - 1].tid !in Run(Init(configs), ops[..|ops| - 1]).groups
    ensures OpensAt(configs, ops, |ops| - 1)
  {
  }

  /** Nothing is read outside a session: every attempt names an operation that opened the
      thread it reads. */
  lemma {:induction false} AttemptsBelongToSessions(configs: seq<seq<PerfConfig>>, ops: seq<Op>, a: Attempt)
    requires a in Run(Init(configs), ops).log
    ensures OpensAt(configs, ops, a.session) && ops[a.session].tid == a.tid
  {
    RunAttempts(configs, ops);
  }

  // ---- One flush -------------------------------------------------------------------

  /** `d` is `c` with a contiguous block of further attempts, in bijection with the pairs
      (live thread, group): each attempt is on such a pair, each pair has exactly one. */
  ghost predicate ReadsEachGroupOnce(c: Col, d: Col) {
    && |c.log| <= |d.log| && d.log[..|c.log|] == c.log && d.readId == |d.log|
    && (forall a :: a in d.log[|c.log|..] ==>
          a.tid in c.groups && a.tid in c.session && a.session == c.session[a.tid] && a.group < |c.groups[a.tid]|)
    && (forall tid, g: nat :: tid in c.groups && g < |c.groups[tid]| ==>
          tid in c.session && Count(d.log[|c.log|..], c.session[tid], g) == 1)
  }

  /** For every walk, a flush reads each group of each live thread exactly once and numbers
      the reads contiguously. */
  lemma {:induction false} FlushBijection(configs: seq<seq<PerfConfig>>, ops: seq<Op>, order: seq<int>, readings: Readings)
    ensures ReadsEachGroupOnce(Run(Init(configs), ops), FlushAll(Run(Init(configs), ops), order, readings))
  {
    RunSessions(configs, ops);
    RunTabulated(configs, ops);
    FlushReadsOnce(Run(Init(configs), ops), |ops|, order, readings);
  }

  lemma {:induction false} FlushReadsOnce(c: Col, n: nat, order: seq<int>, readings: Readings)
    requires Sessions(c, n) && Tabulated(c)
    ensures ReadsEachGroupOnce(c, FlushAll(c, order, readings))
  {
    hide FlushBlock, FlushAll, Count, ThreadBlock, Tabulated, WalkOrder, AttemptBase.WellFormed;
    var walk := WalkOrder(order, c.groups.Keys);
    FlushEffect(c, order, readings);
    FlushBlockSessions(c, n, walk, readings);
    assert FlushAll(c, order, readings).log[|c.log|..] == FlushBlock(c, walk, readings);
    forall tid, g: nat | tid in c.groups && g < |c.groups[tid]|
      ensures Count(FlushBlock(c, walk, readings), c.session[tid], g) == 1
    {
      CountFlushBlock(c, n, walk, readings, c.session[tid], g);
    }
  }
}
