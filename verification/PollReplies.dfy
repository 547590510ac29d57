/** What each reply of a handler does to the run and to its source, in terms of the calls
    made, their flag bits (0x1 readable, 0x8 error, 0x10 hangup) and their replies alone. */
module PollReplies {
  import opened Poll

  /** Readable, in error or hung up. */
  predicate Reported(flags: bv32) {
    flags & (0x1 | 0x18) != 0
  }

  /** The call asks for the end: a stop, or an error of a source that has not hung up. */
  predicate Cut<I>(c: Call<I>) {
    c.reply == Reply.Ok(Stop) || (c.reply.Failed? && c.flags & 0x18 == 0)
  }

  function CutVerdict<I>(c: Call<I>): Verdict {
    if c.reply.Failed? then Error(c.reply.error) else Stopped
  }

  /** The call takes its source out: a removal, or anything but a stop of one that has hung
      up. */
  predicate Gone<I>(c: Call<I>) {
    c.reply == Reply.Ok(Remove) || (c.flags & 0x18 != 0 && c.reply != Reply.Ok(Stop))
  }

  ghost predicate TakenOut<I>(calls: seq<Call<I>>, key: nat) {
    exists c :: c in calls && c.key == key && Gone(c)
  }

  /** No call before the last asks for the end; if the last one does, it decides the verdict,
      and otherwise the handlers have not ended the run. */
  ghost predicate LastDecides<I>(calls: seq<Call<I>>, verdict: Verdict) {
    && (forall i :: 0 <= i < |calls| - 1 ==> !Cut(calls[i]))
    && (calls != [] && Cut(calls[|calls| - 1]) ==> verdict == CutVerdict(calls[|calls| - 1]))
  }

  ghost predicate NoCut<I>(calls: seq<Call<I>>) {
    forall c :: c in calls ==> !Cut(c)
  }

  /** The sources left are those the run started with but for the ones taken out, and every
      call was of a source it started with, reported readable, in error or hung up. */
  ghost predicate SourcesLeft<C, I>(start: PollState<C, I>, q: PollState<C, I>) {
    && (forall k :: k in q.sources <==> k in start.sources && !TakenOut(q.calls, k))
    && (forall k :: k in q.sources ==> q.sources[k] == start.sources[k])
    && (forall c :: c in q.calls ==>
          c.key in start.sources && c.fd == start.sources[c.key].fd && Reported(c.flags))
  }

  ghost predicate Reached<C, I>(start: PollState<C, I>, q: PollState<C, I>, verdict: Verdict) {
    && Agree(q.sources, q.interest)
    && SourcesLeft(start, q)
    && LastDecides(q.calls, verdict)
    && (verdict == Next || verdict == Blocked ==> NoCut(q.calls))
  }

  // ---- One event -------------------------------------------------------------------

  lemma {:induction false} Bits(flags: bv32)
    ensures IsIgnored(flags) <==> !Reported(flags)
    ensures IsHangup(flags) <==> flags & 0x18 != 0
  {
  }

  lemma {:induction false} TakenOutMore<I>(calls: seq<Call<I>>, c: Call<I>, key: nat)
    ensures TakenOut(calls + [c], key) <==> TakenOut(calls, key) || (c.key == key && Gone(c))
  {
    assert forall d :: d in calls + [c] <==> d in calls || d == c;
  }

  lemma {:induction false} LastDecidesMore<I>(calls: seq<Call<I>>, c: Call<I>, verdict: Verdict)
    requires NoCut(calls) && (Cut(c) ==> verdict == CutVerdict(c))
    ensures LastDecides(calls + [c], verdict) && (!Cut(c) ==> NoCut(calls + [c]))
  {
    hide Cut;
    var all := calls + [c];
    forall i | 0 <= i < |all| - 1 ensures !Cut(all[i]) {
      assert calls[i] in calls;
    }
    assert forall d :: d in all <==> d in calls || d == c;
  }

  /** The call that handling an event makes, if it makes one, and what comes of it. */
  lemma {:induction false} HandleReplies<C, I>(p: PollState<C, I>, ev: Event<I>)
    requires ev.key in p.sources
    ensures var (q, v) := HandleEvent(p, ev);
            if !Reported(ev.flags) then q == p && v == Next
            else
              var c := Call(p.sources[ev.key].fd, ev.key, ev.flags, ev.input,
                            p.sources[ev.key].handler(p.ctx, ev.input).1);
              && q.calls == p.calls + [c]
              && q.ctx == p.sources[ev.key].handler(p.ctx, ev.input).0
              && v == (if Cut(c) then CutVerdict(c) else Next)
              && q.sources == (if Gone(c) then p.sources - {ev.key} else p.sources)
  {
    Bits(ev.flags);
  }

  lemma {:induction false} HandleReached<C, I>(start: PollState<C, I>, p: PollState<C, I>, ev: Event<I>)
    requires Reached(start, p, Next) && ev.key in p.sources
    ensures Reached(start, HandleEvent(p, ev).0, HandleEvent(p, ev).1)
  {
    hide Cut, Gone, LastDecides, NoCut, TakenOut, HandleEvent;
    HandleReplies(p, ev);
    HandleEventAgrees(p, ev);
    var (q, v) := HandleEvent(p, ev);
    if Reported(ev.flags) {
      var c := q.calls[|p.calls|];
      LastDecidesMore(p.calls, c, v);
      forall k ensures TakenOut(q.calls, k) <==> TakenOut(p.calls, k) || (c.key == k && Gone(c)) {
        TakenOutMore(p.calls, c, k);
      }
      assert forall d :: d in q.calls <==> d in p.calls || d == c;
    }
  }

  // ---- One batch -------------------------------------------------------------------

  /** `at` are the places in the batch of the events that were called: each readable, in
      error or hung up, in order, with the flags and the input of its event; an event like
      that is left out only after a call that asked for the end. */
  ghost predicate CalledAt<I>(events: seq<Event<I>>, calls: seq<Call<I>>, at: seq<nat>) {
    && |at| == |calls|
    && (forall j :: 0 <= j < |at| ==> Answers(events, calls[j], at[j]))
    && (forall i, j :: 0 <= i < j < |at| ==> at[i] < at[j])
    && (forall i :: 0 <= i < |events| && Reported(events[i].flags) && i !in at ==> AfterCut(calls, at, i))
  }

  /** Call `c` is of the event at place `i`. */
  ghost predicate Answers<I>(events: seq<Event<I>>, c: Call<I>, i: nat) {
    && i < |events|
    && c.key == events[i].key && c.flags == events[i].flags && c.input == events[i].input
    && Reported(c.flags)
  }

  /** The last call asked for the end, and place `i` comes after it. */
  predicate AfterCut<I>(calls: seq<Call<I>>, at: seq<nat>, i: nat)
    requires |at| == |calls|
  {
    calls != [] && Cut(calls[|calls| - 1]) && i > at[|at| - 1]
  }

  /** The places in a batch that begins one event earlier. */
  function Later(at: seq<nat>): (later: seq<nat>)
    ensures |later| == |at| && forall k :: 0 <= k < |at| ==> later[k] == at[k] + 1
  {
    seq(|at|, k requires 0 <= k < |at| => at[k] + 1)
  }

  lemma {:induction false} NotLater(at: seq<nat>, i: nat)
    requires i > 0 && i !in Later(at)
    ensures i - 1 !in at
  {
    assert forall k :: 0 <= k < |at| ==> Later(at)[k] in Later(at);
  }

  /** A first event that is not called. */
  lemma {:induction false} IgnoredFirst<I>(events: seq<Event<I>>, calls: seq<Call<I>>, at: seq<nat>)
    requires events != [] && CalledAt(events[1..], calls, at) && !Reported(events[0].flags)
    ensures CalledAt(events, calls, Later(at))
  {
    hide Cut, Reported, Later;
    var all := Later(at);
    forall j | 0 <= j < |all| ensures Answers(events, calls[j], all[j]) {
      assert Answers(events[1..], calls[j], at[j]);
    }
    forall i | 0 <= i < |events| && Reported(events[i].flags) && i !in all ensures AfterCut(calls, all, i) {
      NotLater(at, i);
      assert events[1..][i - 1] == events[i];
      assert AfterCut(calls, at, i - 1);
    }
  }

  /** A first event that is called and lets the batch go on. */
  lemma {:induction false} CalledFirst<I>(events: seq<Event<I>>, calls: seq<Call<I>>, at: seq<nat>, c: Call<I>)
    requires events != [] && CalledAt(events[1..], calls, at) && Reported(events[0].flags)
    requires c.key == events[0].key && c.flags == events[0].flags && c.input == events[0].input
    ensures CalledAt(events, [c] + calls, [0] + Later(at))
  {
    hide Cut, Reported, Later, AfterCut, Answers;
    var all, made := [0] + Later(at), [c] + calls;
    forall j | 0 <= j < |all| ensures Answers(events, made[j], all[j]) {
      AnswersShifted(events, calls, at, c, j);
    }
    forall i | 0 <= i < |events| && Reported(events[i].flags) && i !in all ensures AfterCut(made, all, i) {
      assert all[0] in all;
      MissedLater(events, calls, at, i);
      AfterCutShifted(calls, at, c, i);
    }
  }

  lemma {:induction false} AnswersShifted<I>(events: seq<Event<I>>, calls: seq<Call<I>>, at: seq<nat>, c: Call<I>, j: nat)
    requires events != [] && CalledAt(events[1..], calls, at) && Reported(events[0].flags) && j <= |at|
    requires c.key == events[0].key && c.flags == events[0].flags && c.input == events[0].input
    ensures Answers(events, ([c] + calls)[j], ([0] + Later(at))[j])
  {
    hide Reported, Cut, AfterCut;
    if j > 0 {
      assert Answers(events[1..], calls[j - 1], at[j - 1]);
    }
  }

  lemma {:induction false} AfterCutShifted<I>(calls: seq<Call<I>>, at: seq<nat>, c: Call<I>, i: nat)
    requires |at| == |calls| && i > 0 && AfterCut(calls, at, i - 1)
    ensures AfterCut([c] + calls, [0] + Later(at), i)
  {
    hide Cut;
  }

  lemma {:induction false} MissedLater<I>(events: seq<Event<I>>, calls: seq<Call<I>>, at: seq<nat>, i: nat)
    requires 0 < i < |events| && CalledAt(events[1..], calls, at)
    requires Reported(events[i].flags) && i !in [0] + Later(at)
    ensures AfterCut(calls, at, i - 1)
  {
    hide Cut, Reported, Later, AfterCut, Answers;
    assert forall x :: x in Later(at) ==> x in [0] + Later(at);
    NotLater(at, i);
    assert events[1..][i - 1] == events[i];
  }

  lemma {:induction false} OnlyFirst<I>(events: seq<Event<I>>, c: Call<I>) returns (all: seq<nat>)
    requires events != [] && Reported(events[0].flags) && Cut(c)
    requires c.key == events[0].key && c.flags == events[0].flags && c.input == events[0].input
    ensures CalledAt(events, [c], all)
  {
    all := [0];
  }

  lemma {:induction false} DispatchReplies<C, I>(start: PollState<C, I>, p: PollState<C, I>, events: seq<Event<I>>)
    returns (at: seq<nat>)
    requires Reached(start, p, Next) && Dispatchable(p.sources, events)
    ensures var (q, v) := Dispatch(p, events);
            && Reached(start, q, v)
            && p.calls <= q.calls && CalledAt(events, q.calls[|p.calls|..], at)
            && v == EndOf(p.calls, q.calls)
    decreases |events|
  {
    hide Cut, Gone, Reached, HandleEvent, CalledAt, EndOf, Reported;
    if events == [] {
      at := [];
      assert p.calls[|p.calls|..] == [];
      NothingCalled(p.calls);
    } else {
      ReachedAgrees(start, p, Next);
      HandleReplies(p, events[0]);
      HandleReached(start, p, events[0]);
      HandleEventAgrees(p, events[0]);
      var (q, v) := HandleEvent(p, events[0]);
      if !Reported(events[0].flags) {
        var later := DispatchReplies(start, q, events[1..]);
        at := Later(later);
        IgnoredFirst(events, Dispatch(q, events[1..]).0.calls[|p.calls|..], later);
      } else {
        var c := q.calls[|p.calls|];
        assert q.calls == p.calls + [c];
        EndOfOne(p.calls, c);
        if Cut(c) {
          CutEnds(c);
          at := OnlyFirst(events, c);
          assert q.calls[|p.calls|..] == [c];
        } else {
          var later := DispatchReplies(start, q, events[1..]);
          at := [0] + Later(later);
          var calls := Dispatch(q, events[1..]).0.calls;
          assert calls[|p.calls|..] == [c] + calls[|q.calls|..];
          CalledFirst(events, calls[|q.calls|..], later, c);
          EndOfMore(p.calls, c, calls);
        }
      }
    }
  }

  /** How the calls made after `before` end the batch. */
  function EndOf<I>(before: seq<Call<I>>, after: seq<Call<I>>): Verdict {
    if |after| > |before| && Cut(after[|after| - 1]) then CutVerdict(after[|after| - 1]) else Next
  }

  lemma {:induction false} CutEnds<I>(c: Call<I>)
    requires Cut(c)
    ensures CutVerdict(c) != Next
  {
  }

  lemma {:induction false} EndOfOne<I>(before: seq<Call<I>>, c: Call<I>)
    ensures EndOf(before, before + [c]) == if Cut(c) then CutVerdict(c) else Next
  {
    hide Cut;
  }

  lemma {:induction false} EndOfMore<I>(before: seq<Call<I>>, c: Call<I>, after: seq<Call<I>>)
    requires before + [c] <= after && !Cut(c)
    ensures EndOf(before, after) == EndOf(before + [c], after)
  {
    hide Cut;
    if |after| == |before| + 1 {
      assert after[|before|] == c;
    }
  }

  lemma {:induction false} ReachedAgrees<C, I>(start: PollState<C, I>, p: PollState<C, I>, v: Verdict)
    requires Reached(start, p, v)
    ensures Agree(p.sources, p.interest)
  {
  }

  lemma {:induction false} NothingCalled<I>(before: seq<Call<I>>)
    ensures CalledAt<I>([], [], []) && EndOf(before, before) == Next
  {
  }

  // ---- One wait --------------------------------------------------------------------

  /** A batch as `epoll_wait` may report it: registered descriptors, each once, ten at most. */
  ghost predicate MayReport<C, I>(p: PollState<C, I>, ready: seq<Ready<I>>) {
    && |ready| <= 10
    && (forall i :: 0 <= i < |ready| ==> ready[i].fd in p.interest)
    && (forall i, j :: 0 <= i < j < |ready| ==> ready[i].fd != ready[j].fd)
  }

  /** `at` are the places in the report of the descriptors whose handlers were called. */
  ghost predicate ReadyAt<I>(ready: seq<Ready<I>>, calls: seq<Call<I>>, at: seq<nat>) {
    && |at| == |calls|
    && (forall j :: 0 <= j < |at| ==>
          && at[j] < |ready|
          && calls[j].fd == ready[at[j]].fd && calls[j].flags == ready[at[j]].flags
          && calls[j].input == ready[at[j]].input && Reported(calls[j].flags))
    && (forall i, j :: 0 <= i < j < |at| ==> at[i] < at[j])
    && (forall i :: 0 <= i < |ready| && Reported(ready[i].flags) && i !in at ==> AfterCut(calls, at, i))
  }

  lemma {:induction false} ReadyCalled<C, I>(p: PollState<C, I>, q: PollState<C, I>, ready: seq<Ready<I>>,
                                             calls: seq<Call<I>>, at: seq<nat>)
    requires Agree(p.sources, p.interest) && MayReport(p, ready)
    requires CalledAt(Deliver(p.interest, ready), calls, at)
    requires forall c :: c in calls ==> c.key in p.sources && c.fd == p.sources[c.key].fd
    ensures ReadyAt(ready, calls, at)
  {
    hide Cut, Reported, AfterCut;
    assert ValidBatch(p.interest, ready);
    forall j | 0 <= j < |at| ensures at[j] < |ready| && calls[j].fd == ready[at[j]].fd {
      assert Answers(Deliver(p.interest, ready), calls[j], at[j]);
      assert calls[j] in calls;
    }
  }

  /** What `poll_once` does with each thing the wait may return. */
  lemma {:induction false} WaitReplies<C, I>(p: PollState<C, I>, wait: Wait<I>, rest: seq<Wait<I>>)
    returns (at: seq<nat>)
    requires Agree(p.sources, p.interest) && (wait.Batch? ==> MayReport(p, wait.ready))
    ensures var (q, v, left) := PollOnce(p, [wait] + rest);
            match wait
            case Interrupted => (q, v, left) == PollOnce(p, rest)
            case WaitFailed(errno) => q == p && v == Error(errno) && left == rest
            case Batch(ready) =>
              && left == rest
              && p.calls <= q.calls
              && ReadyAt(ready, q.calls[|p.calls|..], at)
              && v == (if EndOf(p.calls, q.calls) == Next && q.sources == map[] then Stopped
                       else EndOf(p.calls, q.calls))
  {
    hide Cut, Gone, Deliver, CalledAt, ReadyAt, MayReport, Dispatch, EndOf, Reported;
    at := [];
    assert ([wait] + rest)[0] == wait && ([wait] + rest)[1..] == rest;
    match wait {
      case Interrupted =>
      case WaitFailed(_) =>
      case Batch(ready) =>
        at := BatchReplies(p, ready);
    }
  }

  /** Calls made earlier play no part in a dispatch. */
  lemma {:induction false} DispatchFrom<C, I>(p: PollState<C, I>, events: seq<Event<I>>, before: seq<Call<I>>)
    requires Agree(p.sources, p.interest) && Dispatchable(p.sources, events)
    ensures var (q, v) := Dispatch(p, events);
            Dispatch(p.(calls := before + p.calls), events) == (q.(calls := before + q.calls), v)
    decreases |events|
  {
    hide Removes, Ends, IsIgnored;
    if events == [] {
    } else {
      HandleEventAgrees(p, events[0]);
      HandleFrom(p, events[0], before);
      var (q, v) := HandleEvent(p, events[0]);
      if v == Next {
        DispatchFrom(q, events[1..], before);
      }
    }
  }

  lemma {:induction false} HandleFrom<C, I>(p: PollState<C, I>, ev: Event<I>, before: seq<Call<I>>)
    requires ev.key in p.sources
    ensures var (q, v) := HandleEvent(p, ev);
            HandleEvent(p.(calls := before + p.calls), ev) == (q.(calls := before + q.calls), v)
  {
    hide Removes, Ends, IsIgnored;
    if !IsIgnored(ev.flags) {
      var reply := p.sources[ev.key].handler(p.ctx, ev.input).1;
      var c := Call(p.sources[ev.key].fd, ev.key, ev.flags, ev.input, reply);
      assert before + p.calls + [c] == before + (p.calls + [c]);
    }
  }

  lemma {:induction false} BatchReplies<C, I>(p: PollState<C, I>, ready: seq<Ready<I>>) returns (at: seq<nat>)
    requires Agree(p.sources, p.interest) && MayReport(p, ready)
    ensures Dispatchable(p.sources, Deliver(p.interest, ready))
    ensures var (q, v) := Dispatch(p, Deliver(p.interest, ready));
            && p.calls <= q.calls
            && ReadyAt(ready, q.calls[|p.calls|..], at)
            && v == EndOf(p.calls, q.calls)
  {
    hide Cut, Gone, Deliver, CalledAt, ReadyAt, MayReport, Dispatch, TakenOut, EndOf, Reported;
    var start, events := p.(calls := []), Deliver(p.interest, ready);
    DeliverDispatchable(p.sources, p.interest, ready);
    StartReached(start);
    at := DispatchReplies(start, start, events);
    var (q, v) := Dispatch(start, events);
    DispatchFrom(start, events, p.calls);
    assert p.calls + [] == p.calls && (p.calls + q.calls)[|p.calls|..] == q.calls && q.calls[0..] == q.calls;
    ReadyCalled(p, q, ready, q.calls, at);
    EndOfFrom(p.calls, q.calls);
  }

  lemma {:induction false} EndOfFrom<I>(before: seq<Call<I>>, calls: seq<Call<I>>)
    ensures EndOf(before, before + calls) == EndOf([], calls)
  {
    hide Cut;
  }

  lemma {:induction false} StartReached<C, I>(start: PollState<C, I>)
    requires Agree(start.sources, start.interest) && start.calls == []
    ensures Reached(start, start, Next)
  {
  }

  // ---- Whole runs ------------------------------------------------------------------

  /** Why a run ended: a call asked for it, the wait failed, or no source was left. */
  ghost predicate Explained<C, I>(q: PollState<C, I>, verdict: Verdict, waits: seq<Wait<I>>) {
    match verdict
    case Stopped =>
      (q.calls != [] && q.calls[|q.calls| - 1].reply == Reply.Ok(Stop)) || q.sources == map[]
    case Error(e) =>
      || (q.calls != [] && q.calls[|q.calls| - 1].reply == Failed(e) && q.calls[|q.calls| - 1].flags & 0x18 == 0)
      || WaitFailed(e) in waits
    case _ => true
  }

  lemma {:induction false} PollOnceReached<C, I>(start: PollState<C, I>, p: PollState<C, I>, waits: seq<Wait<I>>)
    requires Reached(start, p, Next)
    ensures var (q, v, rest) := PollOnce(p, waits);
            && Reached(start, q, v) && Explained(q, v, waits)
            && forall w :: w in rest ==> w in waits
    decreases |waits|
  {
    hide SourcesLeft, LastDecides, NoCut, Deliver, Dispatch, CalledAt, Agree;
    StillNoCut(p.calls, PollOnce(p, waits).1);
    if waits == [] {
    } else {
      assert forall w :: w in waits[1..] ==> w in waits;
      match waits[0] {
        case Interrupted => PollOnceReached(start, p, waits[1..]);
        case WaitFailed(_) =>
        case Batch(ready) =>
          DeliverDispatchable(p.sources, p.interest, ready);
          DispatchAgrees(p, Deliver(p.interest, ready));
          var at := DispatchReplies(start, p, Deliver(p.interest, ready));
          var (q, v) := Dispatch(p, Deliver(p.interest, ready));
          if v == Next {
            StillNoCut(q.calls, Stopped);
          }
      }
    }
  }

  lemma {:induction false} StillNoCut<I>(calls: seq<Call<I>>, verdict: Verdict)
    requires NoCut(calls)
    ensures LastDecides(calls, verdict)
  {
    hide Cut;
    assert forall i :: 0 <= i < |calls| ==> calls[i] in calls;
  }

  lemma {:induction false} RunReached<C, I>(start: PollState<C, I>, p: PollState<C, I>, waits: seq<Wait<I>>)
    requires Agree(p.sources, p.interest) && Reached(start, p, Next)
    ensures Reached(start, RunPoll(p, waits).0, RunPoll(p, waits).1)
    ensures Explained(RunPoll(p, waits).0, RunPoll(p, waits).1, waits)
    decreases |waits|
  {
    hide Reached, PollOnce;
    PollOnceReached(start, p, waits);
    var (q, v, rest) := PollOnce(p, waits);
    if v == Next {
      RunReached(start, q, rest);
    }
  }

  /** Over every run from no calls. A call that replied with a stop is the last one, and the
      run has stopped; an error of a source that has not hung up is the last call, and the
      run has failed with it. A removal, and any reply but a stop of a source that has hung
      up, takes its source out for good; nothing else does. Only sources reported readable,
      in error or hung up are ever called. */
  lemma {:induction false} RunReplies<C, I>(p: PollState<C, I>, waits: seq<Wait<I>>)
    requires Agree(p.sources, p.interest) && p.calls == []
    ensures var (q, verdict) := RunPoll(p, waits);
            && (forall i :: 0 <= i < |q.calls| && q.calls[i].reply == Reply.Ok(Stop) ==>
                  i == |q.calls| - 1 && verdict == Stopped)
            && (forall i :: 0 <= i < |q.calls| && q.calls[i].reply.Failed? && q.calls[i].flags & 0x18 == 0 ==>
                  i == |q.calls| - 1 && verdict == Error(q.calls[i].reply.error))
            && (forall c :: c in q.calls && c.reply == Reply.Ok(Remove) ==> c.key !in q.sources && c.fd !in q.interest)
            && (forall c :: c in q.calls && c.flags & 0x18 != 0 && c.reply != Reply.Ok(Stop) ==>
                  c.key !in q.sources && c.fd !in q.interest)
            && (forall k :: k in p.sources && k !in q.sources ==> TakenOut(q.calls, k))
            && (forall k :: k in q.sources ==> k in p.sources && q.sources[k] == p.sources[k])
            && (forall c :: c in q.calls ==>
                  c.key in p.sources && c.fd == p.sources[c.key].fd && Reported(c.flags))
            && Explained(q, verdict, waits)
  {
    StartReached(p);
    RunReached(p, p, waits);
    hide RunPoll, Explained;
    var (q, verdict) := RunPoll(p, waits);
    forall i | 0 <= i < |q.calls| && Cut(q.calls[i])
      ensures i == |q.calls| - 1 && verdict == CutVerdict(q.calls[i])
    {
    }
    forall c | c in q.calls && Gone(c) ensures c.key !in q.sources && c.fd !in q.interest {
      assert TakenOut(q.calls, c.key);
      NotWatched(p, q, c);
    }
  }

  /** A source that is gone is not watched either. */
  lemma {:induction false} NotWatched<C, I>(p: PollState<C, I>, q: PollState<C, I>, c: Call<I>)
    requires Agree(p.sources, p.interest) && Agree(q.sources, q.interest)
    requires forall k :: k in q.sources ==> k in p.sources && q.sources[k] == p.sources[k]
    requires c.key in p.sources && c.fd == p.sources[c.key].fd && c.key !in q.sources
    ensures c.fd !in q.interest
  {
  }
}
