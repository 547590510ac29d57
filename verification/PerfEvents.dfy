/** Perf event descriptors and the kernel's table of them. The kernel is an explicit
    value: what it answers to each system call is an input, and the only contract is
    that a new descriptor is unused and a new event id was never given out before (an
    answer that breaks the contract is read as a failed call). */
module PerfEvents {
  import opened Prelude
  import opened ParsePerf

  datatype PerfStat = PerfStat(fd: int, name: string)

  datatype PerfStatGroupBase = PerfStatGroup(fds: seq<PerfStat>)

  /** A group is never empty (`NonEmpty<PerfStat<T>>`). */
  type PerfStatGroup = g: PerfStatGroupBase | g.fds != [] witness PerfStatGroup([PerfStat(0, "")])

  /** One open descriptor, as the kernel knows it. `queryable` tells whether the id query
      (`PERF_EVENT_IOC_ID`) on it succeeds. */
  datatype PerfEvent = PerfEvent(id: u64, tid: int, attr: nat, leader: int, queryable: bool)

  datatype Os = Os(fds: map<int, PerfEvent>, used: set<u64>)

  datatype OpenAnswer = OpenFailed(errno: int) | Opened(fd: int, id: u64, queryable: bool)

  datatype GroupError = Io(errno: int) | Empty

  /** `perf_event_open(2)`. */
  function PerfEventOpen(os: Os, attr: nat, tid: int, leader: int, a: OpenAnswer): (Os, Result<int, int>) {
    match a
    case OpenFailed(errno) => (os, Err(errno))
    case Opened(fd, id, queryable) =>
      if fd < 0 || fd in os.fds || id in os.used then (os, Err(-1))
      else (Os(os.fds[fd := PerfEvent(id, tid, attr, leader, queryable)], os.used + {id}), Ok(fd))
  }

  function FdsOf(stats: seq<PerfStat>): set<int> {
    set p | p in stats :: p.fd
  }

  /** Dropping the owners of descriptors closes them. */
  function CloseAll(os: Os, stats: seq<PerfStat>): Os {
    os.(fds := os.fds - FdsOf(stats))
  }

  // ---- Opening one group -----------------------------------------------------------

  datatype Opening = Opening(os: Os, stats: seq<PerfStat>, failure: Option<int>)

  /** The first `n` configurations, opened in order until one fails. */
  function OpenMembers(os: Os, configs: seq<PerfConfig>, tid: int, answers: nat -> OpenAnswer, n: nat): (r: Opening)
    requires n <= |configs|
    ensures r.failure.None? ==> |r.stats| == n
  {
    if n == 0 then Opening(os, [], None)
    else
      var before := OpenMembers(os, configs, tid, answers, n - 1);
      if before.failure.Some? then before
      else
        var leader := if n == 1 then -1 else before.stats[0].fd;
        match PerfEventOpen(before.os, configs[n - 1].attr, tid, leader, answers(n - 1))
        case (after, Err(errno)) => Opening(after, before.stats, Some(errno))
        case (after, Ok(fd)) => Opening(after, before.stats + [PerfStat(fd, configs[n - 1].name)], None)
  }

  /** `PerfStatGroup::new`: the first event leads the group, the others join it; a failure
      drops what was opened so far. */
  function OpenGroup(os: Os, configs: seq<PerfConfig>, tid: int, answers: nat -> OpenAnswer)
    : (Os, Result<PerfStatGroup, GroupError>)
  {
    if configs == [] then (os, Err(Empty))
    else
      var r := OpenMembers(os, configs, tid, answers, |configs|);
      match r.failure
      case Some(errno) => (CloseAll(r.os, r.stats), Err(Io(errno)))
      case None => (r.os, Ok(PerfStatGroup(r.stats)))
  }

  /** `PerfStatGroup::new`, statement by statement. */
  method NewGroup(os: Os, configs: seq<PerfConfig>, tid: int, answers: nat -> OpenAnswer)
    returns (after: Os, r: Result<PerfStatGroup, GroupError>)
    ensures (after, r) == OpenGroup(os, configs, tid, answers)
  {
    if configs == [] {
      return os, Err(Empty);
    }
    var (os1, first) := PerfEventOpen(os, configs[0].attr, tid, -1, answers(0));
    if first.Err? {
      assert OpenMembers(os, configs, tid, answers, 1) == Opening(os1, [], Some(first.error));
      FailureSticks(os, configs, tid, answers, 1, |configs|);
      assert os1 == CloseAll(os1, []);
      return os1, Err(Io(first.error));
    }
    var leader := first.value;
    var collected := [PerfStat(leader, configs[0].name)];
    after := os1;
    assert OpenMembers(os, configs, tid, answers, 0) == Opening(os, [], None);
    for i := 1 to |configs|
      invariant OpenMembers(os, configs, tid, answers, i) == Opening(after, collected, None)
      invariant collected[0].fd == leader
    {
      var (next, attempt) := PerfEventOpen(after, configs[i].attr, tid, leader, answers(i));
      if attempt.Err? {
        FailureSticks(os, configs, tid, answers, i + 1, |configs|);
        return CloseAll(next, collected), Err(Io(attempt.error));
      }
      after := next;
      collected := collected + [PerfStat(attempt.value, configs[i].name)];
    }
    r := Ok(PerfStatGroup(collected));
  }

  /** After a failure no further descriptor is asked for. */
  lemma {:induction false} FailureSticks(os: Os, configs: seq<PerfConfig>, tid: int, answers: nat -> OpenAnswer,
                                         i: nat, n: nat)
    requires i <= n <= |configs| && OpenMembers(os, configs, tid, answers, i).failure.Some?
    ensures OpenMembers(os, configs, tid, answers, n) == OpenMembers(os, configs, tid, answers, i)
    decreases n - i
  {
    if i < n {
      FailureSticks(os, configs, tid, answers, i, n - 1);
    }
  }

  // ---- What opening does to the descriptor table -----------------------------------

  ghost predicate Distinct(stats: seq<PerfStat>) {
    forall i, j :: 0 <= i < j < |stats| ==> stats[i].fd != stats[j].fd
  }

  /** `after` is `before` plus exactly the descriptors of `stats`, all new, all attached
      to `tid`, with event ids never used before and different from one another. */
  ghost predicate Adds(before: Os, after: Os, tid: int, stats: seq<PerfStat>) {
    && (forall fd :: fd in before.fds ==> fd in after.fds && after.fds[fd] == before.fds[fd])
    && (forall fd :: fd in after.fds ==> fd in before.fds || fd in FdsOf(stats))
    && (forall p :: p in stats ==>
          && p.fd !in before.fds && p.fd in after.fds
          && after.fds[p.fd].tid == tid
          && after.fds[p.fd].id !in before.used && after.fds[p.fd].id in after.used)
    && Distinct(stats)
    && (forall i, j :: 0 <= i < j < |stats| ==> after.fds[stats[i].fd].id != after.fds[stats[j].fd].id)
    && before.used <= after.used
  }

  lemma {:induction false} AddsNothing(os: Os, tid: int)
    ensures Adds(os, os, tid, [])
  {
  }

  lemma {:induction false} AddsAppend(a: Os, b: Os, c: Os, tid: int, s: seq<PerfStat>, t: seq<PerfStat>)
    requires Adds(a, b, tid, s) && Adds(b, c, tid, t)
    ensures Adds(a, c, tid, s + t)
  {
    assert forall p :: p in s ==> p in s + t;
    assert forall p :: p in t ==> p in s + t;
    assert FdsOf(s + t) == FdsOf(s) + FdsOf(t);
    forall i, j | 0 <= i < j < |s + t|
      ensures (s + t)[i].fd != (s + t)[j].fd && c.fds[(s + t)[i].fd].id != c.fds[(s + t)[j].fd].id
    {
      if i < |s| && j >= |s| {
        assert s[i] in s && t[j - |s|] in t;
      }
    }
  }

  lemma {:induction false} OpenAdds(os: Os, attr: nat, tid: int, leader: int, a: OpenAnswer, name: string)
    ensures match PerfEventOpen(os, attr, tid, leader, a)
            case (after, Err(_)) => after == os
            case (after, Ok(fd)) =>
              && Adds(os, after, tid, [PerfStat(fd, name)])
              && after.fds[fd].attr == attr && after.fds[fd].leader == leader
  {
    match PerfEventOpen(os, attr, tid, leader, a)
    case (after, Err(_)) =>
    case (after, Ok(fd)) =>
      assert PerfStat(fd, name) in [PerfStat(fd, name)];
  }

  lemma {:induction false} OpenMembersAdds(os: Os, configs: seq<PerfConfig>, tid: int, answers: nat -> OpenAnswer, n: nat)
    requires n <= |configs|
    ensures var r := OpenMembers(os, configs, tid, answers, n); Adds(os, r.os, tid, r.stats)
  {
    hide Adds, PerfEventOpen;
    if n == 0 {
      AddsNothing(os, tid);
    } else {
      OpenMembersAdds(os, configs, tid, answers, n - 1);
      var before := OpenMembers(os, configs, tid, answers, n - 1);
      if before.failure.None? {
        var leader := if n == 1 then -1 else before.stats[0].fd;
        OpenAdds(before.os, configs[n - 1].attr, tid, leader, answers(n - 1), configs[n - 1].name);
        match PerfEventOpen(before.os, configs[n - 1].attr, tid, leader, answers(n - 1))
        case (after, Err(_)) =>
        case (after, Ok(fd)) =>
          AddsAppend(os, before.os, after, tid, before.stats, [PerfStat(fd, configs[n - 1].name)]);
      }
    }
  }

  /** Opening then dropping leaves no descriptor behind. */
  lemma {:induction false} CloseUndoes(before: Os, after: Os, tid: int, stats: seq<PerfStat>)
    requires Adds(before, after, tid, stats)
    ensures CloseAll(after, stats).fds == before.fds
  {
    var closed := CloseAll(after, stats).fds;
    forall fd ensures fd in closed <==> fd in before.fds {
      if fd in FdsOf(stats) {
        var p :| p in stats && p.fd == fd;
      }
    }
    assert closed.Keys == before.fds.Keys;
    assert forall fd :: fd in before.fds ==> closed[fd] == before.fds[fd];
    assert closed == before.fds;
  }

  /** A group that opens owns one new descriptor per configuration; one that fails
      partway leaves the descriptor table as it was. */
  lemma {:induction false} OpenGroupEffect(os: Os, configs: seq<PerfConfig>, tid: int, answers: nat -> OpenAnswer)
    ensures var (after, r) := OpenGroup(os, configs, tid, answers);
            && (r.Err? ==> after.fds == os.fds && os.used <= after.used)
            && (r.Ok? ==> Adds(os, after, tid, r.value.fds))
  {
    if configs != [] {
      OpenMembersAdds(os, configs, tid, answers, |configs|);
      var r := OpenMembers(os, configs, tid, answers, |configs|);
      CloseUndoes(os, r.os, tid, r.stats);
    }
  }

  /** Descriptor `k` counts configuration `k` for thread `tid`, under its name, in the
      group led by descriptor 0. */
  ghost predicate InConfigOrder(os: Os, configs: seq<PerfConfig>, tid: int, stats: seq<PerfStat>) {
    |stats| <= |configs| && forall k :: 0 <= k < |stats| ==>
      && stats[k].name == configs[k].name
      && stats[k].fd in os.fds
      && os.fds[stats[k].fd].attr == configs[k].attr
      && os.fds[stats[k].fd].tid == tid
      && os.fds[stats[k].fd].leader == if k == 0 then -1 else stats[0].fd
  }

  lemma {:induction false} OneMoreInOrder(os: Os, configs: seq<PerfConfig>, tid: int, stats: seq<PerfStat>, a: OpenAnswer)
    requires |stats| < |configs| && InConfigOrder(os, configs, tid, stats)
    ensures var n := |stats|;
            match PerfEventOpen(os, configs[n].attr, tid, if n == 0 then -1 else stats[0].fd, a)
            case (after, Err(_)) => InConfigOrder(after, configs, tid, stats)
            case (after, Ok(fd)) => InConfigOrder(after, configs, tid, stats + [PerfStat(fd, configs[n].name)])
  {
  }

  lemma {:induction false} OpenMembersOrder(os: Os, configs: seq<PerfConfig>, tid: int, answers: nat -> OpenAnswer, n: nat)
    requires n <= |configs|
    ensures var r := OpenMembers(os, configs, tid, answers, n); InConfigOrder(r.os, configs, tid, r.stats)
  {
    if n == 0 {
    } else {
      hide InConfigOrder, PerfEventOpen;
      OpenMembersOrder(os, configs, tid, answers, n - 1);
      var before := OpenMembers(os, configs, tid, answers, n - 1);
      if before.failure.None? {
        OneMoreInOrder(before.os, configs, tid, before.stats, answers(n - 1));
      }
    }
  }

  /** A group opens all or nothing, one descriptor per configuration in their order. */
  lemma {:induction false} OpenGroupOrder(os: Os, configs: seq<PerfConfig>, tid: int, answers: nat -> OpenAnswer)
    ensures var (after, r) := OpenGroup(os, configs, tid, answers);
            && (r.Ok? ==> |r.value.fds| == |configs| && InConfigOrder(after, configs, tid, r.value.fds))
            && (r.Err? ==> (r.error.Empty? <==> configs == []))
  {
    OpenMembersOrder(os, configs, tid, answers, |configs|);
  }
}
