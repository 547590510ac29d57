/** Which requests for perf descriptors succeed, in terms of the kernel's answers alone. */
module PerfGrants {
  import opened Prelude
  import opened ParsePerf
  import opened PerfEvents

  /** The first `n` answers each give a descriptor and an event id that nothing holds. */
  ghost predicate Granted(os: Os, answers: nat -> OpenAnswer, n: nat) {
    && (forall m :: 0 <= m < n ==>
          && answers(m).Opened? && answers(m).fd >= 0
          && answers(m).fd !in os.fds && answers(m).id !in os.used)
    && (forall i, j :: 0 <= i < j < n ==> answers(i).fd != answers(j).fd && answers(i).id != answers(j).id)
  }

  ghost predicate GivesFd(answers: nat -> OpenAnswer, n: nat, fd: int) {
    exists m :: 0 <= m < n && answers(m).Opened? && answers(m).fd == fd
  }

  ghost predicate GivesId(answers: nat -> OpenAnswer, n: nat, id: u64) {
    exists m :: 0 <= m < n && answers(m).Opened? && answers(m).id == id
  }

  /** What the kernel knows of descriptor `m` of a group: it counts configuration `m` for
      `tid`, in the group of the first. */
  function Entry(configs: seq<PerfConfig>, tid: int, answers: nat -> OpenAnswer, m: nat): PerfEvent
    requires m < |configs| && answers(0).Opened? && answers(m).Opened?
  {
    PerfEvent(answers(m).id, tid, configs[m].attr, if m == 0 then -1 else answers(0).fd, answers(m).queryable)
  }

  /** `after` holds what `os` held, the first `n` descriptors granted, and no other. */
  ghost predicate Holds(os: Os, after: Os, configs: seq<PerfConfig>, tid: int, answers: nat -> OpenAnswer, n: nat)
    requires n <= |configs|
  {
    && (forall fd :: fd in after.fds <==> fd in os.fds || GivesFd(answers, n, fd))
    && (forall fd :: fd in os.fds ==> fd in after.fds && after.fds[fd] == os.fds[fd])
    && (forall id :: id in after.used <==> id in os.used || GivesId(answers, n, id))
    && HoldsNew(after, configs, tid, answers, n)
  }

  ghost predicate HoldsNew(after: Os, configs: seq<PerfConfig>, tid: int, answers: nat -> OpenAnswer, n: nat)
    requires n <= |configs|
  {
    forall m :: 0 <= m < n ==>
      && answers(0).Opened? && answers(m).Opened?
      && answers(m).fd in after.fds
      && after.fds[answers(m).fd] == Entry(configs, tid, answers, m)
  }

  /** One descriptor per configuration, in order, under its name. */
  ghost predicate Named(stats: seq<PerfStat>, configs: seq<PerfConfig>, answers: nat -> OpenAnswer, n: nat)
    requires n <= |configs|
  {
    |stats| == n && forall m :: 0 <= m < n ==>
      answers(m).Opened? && stats[m] == PerfStat(answers(m).fd, configs[m].name)
  }

  /** Answer `m` is the first that is no grant, and this is the error it stands for. */
  ghost predicate Denied(os: Os, answers: nat -> OpenAnswer, n: nat, errno: int) {
    exists m :: 0 <= m < n && DeniedAt(os, answers, m, errno)
  }

  ghost predicate DeniedAt(os: Os, answers: nat -> OpenAnswer, m: nat, errno: int) {
    && Granted(os, answers, m) && !Granted(os, answers, m + 1)
    && errno == if answers(m).OpenFailed? then answers(m).errno else -1
  }

  lemma {:induction false} GrantedPrefix(os: Os, answers: nat -> OpenAnswer, m: nat, n: nat)
    requires m <= n && Granted(os, answers, n)
    ensures Granted(os, answers, m)
  {
  }

  lemma {:induction false} GivesMore(answers: nat -> OpenAnswer, n: nat)
    requires answers(n).Opened?
    ensures forall fd :: GivesFd(answers, n + 1, fd) <==> GivesFd(answers, n, fd) || fd == answers(n).fd
    ensures forall id :: GivesId(answers, n + 1, id) <==> GivesId(answers, n, id) || id == answers(n).id
  {
  }

  /** A next answer is a grant exactly when nothing holds its descriptor or its id by then. */
  lemma {:induction false} GrantedMore(os: Os, before: Os, configs: seq<PerfConfig>, tid: int,
                                       answers: nat -> OpenAnswer, n: nat)
    requires n < |configs| && Granted(os, answers, n) && Holds(os, before, configs, tid, answers, n)
    ensures Granted(os, answers, n + 1) <==>
              answers(n).Opened? && answers(n).fd >= 0 && answers(n).fd !in before.fds && answers(n).id !in before.used
  {
    hide HoldsNew;
    var a := answers(n);
    if Granted(os, answers, n + 1) {
      if GivesFd(answers, n, a.fd) {
        assert false;
      }
      if GivesId(answers, n, a.id) {
        assert false;
      }
    }
    if a.Opened? && a.fd >= 0 && a.fd !in before.fds && a.id !in before.used {
      forall i | 0 <= i < n ensures answers(i).fd != a.fd && answers(i).id != a.id {
        assert GivesFd(answers, n, answers(i).fd) && GivesId(answers, n, answers(i).id);
      }
    }
  }

  lemma {:induction false} HoldsMore(os: Os, before: Os, configs: seq<PerfConfig>, tid: int,
                                     answers: nat -> OpenAnswer, n: nat)
    requires n < |configs| && Holds(os, before, configs, tid, answers, n)
    requires answers(0).Opened? && answers(n).Opened? && answers(n).fd !in before.fds
    ensures var after := Os(before.fds[answers(n).fd := Entry(configs, tid, answers, n)], before.used + {answers(n).id});
            Holds(os, after, configs, tid, answers, n + 1)
  {
    hide GivesFd, GivesId, Entry;
    GivesMore(answers, n);
  }

  /** One more request in a group all of whose requests were granted so far. */
  lemma {:induction false} OneMoreGrant(os: Os, before: Os, configs: seq<PerfConfig>, tid: int,
                                        answers: nat -> OpenAnswer, n: nat)
    requires n < |configs| && Granted(os, answers, n) && Holds(os, before, configs, tid, answers, n)
    requires n > 0 ==> answers(0).Opened?
    ensures var leader := if n == 0 then -1 else answers(0).fd;
            var (after, r) := PerfEventOpen(before, configs[n].attr, tid, leader, answers(n));
            if Granted(os, answers, n + 1)
            then r == Result.Ok(answers(n).fd) && Holds(os, after, configs, tid, answers, n + 1)
            else after == before && r == Result.Err(if answers(n).OpenFailed? then answers(n).errno else -1)
  {
    hide Granted, Holds;
    GrantedMore(os, before, configs, tid, answers, n);
    if Granted(os, answers, n + 1) {
      HoldsMore(os, before, configs, tid, answers, n);
    }
  }

  lemma {:induction false} LeaderNamed(stats: seq<PerfStat>, configs: seq<PerfConfig>, answers: nat -> OpenAnswer, n: nat)
    requires 0 < n <= |configs| && Named(stats, configs, answers, n)
    ensures answers(0).Opened? && |stats| == n && stats[0].fd == answers(0).fd
  {
  }

  lemma {:induction false} NamedMore(os: Os, stats: seq<PerfStat>, configs: seq<PerfConfig>,
                                     answers: nat -> OpenAnswer, n: nat)
    requires n < |configs| && Named(stats, configs, answers, n) && Granted(os, answers, n + 1)
    ensures answers(n).Opened?
    ensures Named(stats + [PerfStat(answers(n).fd, configs[n].name)], configs, answers, n + 1)
  {
  }

  lemma {:induction false} HoldsNothing(os: Os, configs: seq<PerfConfig>, tid: int, answers: nat -> OpenAnswer)
    ensures Granted(os, answers, 0) && Holds(os, os, configs, tid, answers, 0) && Named([], configs, answers, 0)
  {
  }

  /** Opening the members of a group succeeds exactly when all answers are grants; the error
      is that of the first that is not. */
  lemma {:induction false} OpenMembersIff(os: Os, configs: seq<PerfConfig>, tid: int, answers: nat -> OpenAnswer, n: nat)
    requires n <= |configs|
    ensures var r := OpenMembers(os, configs, tid, answers, n);
            && (r.failure.None? <==> Granted(os, answers, n))
            && (r.failure.None? ==>
                  Holds(os, r.os, configs, tid, answers, n) && Named(r.stats, configs, answers, n))
            && (r.failure.Some? ==> Denied(os, answers, n, r.failure.value))
  {
    hide Granted, Holds, PerfEventOpen, Denied, Named;
    if n == 0 {
      HoldsNothing(os, configs, tid, answers);
    } else {
      OpenMembersIff(os, configs, tid, answers, n - 1);
      var before := OpenMembers(os, configs, tid, answers, n - 1);
      if before.failure.None? {
        if n > 1 {
          LeaderNamed(before.stats, configs, answers, n - 1);
        }
        OneMoreGrant(os, before.os, configs, tid, answers, n - 1);
        if Granted(os, answers, n) {
          NamedMore(os, before.stats, configs, answers, n - 1);
        } else {
          DenyHere(os, answers, n - 1);
        }
      } else {
        DeniedLater(os, answers, n - 1, before.failure.value);
      }
    }
  }

  lemma {:induction false} DenyHere(os: Os, answers: nat -> OpenAnswer, n: nat)
    requires Granted(os, answers, n) && !Granted(os, answers, n + 1)
    ensures Denied(os, answers, n + 1, if answers(n).OpenFailed? then answers(n).errno else -1)
  {
    hide Granted;
    assert DeniedAt(os, answers, n, if answers(n).OpenFailed? then answers(n).errno else -1);
  }

  lemma {:induction false} DeniedLater(os: Os, answers: nat -> OpenAnswer, n: nat, errno: int)
    requires Denied(os, answers, n, errno)
    ensures Denied(os, answers, n + 1, errno) && !Granted(os, answers, n + 1)
  {
    hide Granted;
    var m :| 0 <= m < n && DeniedAt(os, answers, m, errno);
    if Granted(os, answers, n + 1) {
      GrantedPrefix(os, answers, m + 1, n + 1);
    }
  }

  /** A group opens exactly when it is not empty and every one of its requests is granted,
      and then holds exactly the descriptors granted, in order; otherwise it reports the
      first refusal and leaves the descriptors as they were. */
  lemma {:induction false} OpenGroupIff(os: Os, configs: seq<PerfConfig>, tid: int, answers: nat -> OpenAnswer)
    ensures var (after, r) := OpenGroup(os, configs, tid, answers);
            && (r.Ok? <==> configs != [] && Granted(os, answers, |configs|))
            && (r.Ok? ==>
                  && Named(r.value.fds, configs, answers, |configs|)
                  && Holds(os, after, configs, tid, answers, |configs|))
            && (r.Err? ==> after.fds == os.fds)
            && (r.Err? ==> if configs == [] then r.error == GroupError.Empty
                           else r.error.Io? && Denied(os, answers, |configs|, r.error.errno))
  {
    hide Granted, Holds, Named, Denied, OpenMembers;
    OpenMembersIff(os, configs, tid, answers, |configs|);
    OpenGroupEffect(os, configs, tid, answers);
  }
}
