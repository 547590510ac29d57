/** What the dispatch loop guarantees, for one batch and for whole runs. */
module PollLaws {
  import opened Poll

  // ---- One batch -------------------------------------------------------------------

  /** The events of a batch that are not ignored. */
  function Actionable<I>(events: seq<Event<I>>): seq<Event<I>> {
    if events == [] then []
    else (if IsIgnored(events[0].flags) then [] else [events[0]]) + Actionable(events[1..])
  }

  /** Calls the handlers of some events one after another, the context threaded through,
      whatever they reply. */
  function CallAll<C, I>(sources: map<nat, Source<C, I>>, ctx: C, events: seq<Event<I>>): (C, seq<Call<I>>)
    requires Dispatchable(sources, events)
    decreases |events|
  {
    if events == [] then (ctx, [])
    else
      var ev := events[0];
      var (ctx1, reply) := sources[ev.key].handler(ctx, ev.input);
      var (ctx2, calls) := CallAll(sources, ctx1, events[1..]);
      (ctx2, [Call(sources[ev.key].fd, ev.key, ev.flags, ev.input, reply)] + calls)
  }

  lemma {:induction false} ActionableDispatchable<C, I>(sources: map<nat, Source<C, I>>, events: seq<Event<I>>)
    requires Dispatchable(sources, events)
    ensures Dispatchable(sources, Actionable(events))
    ensures forall ev :: ev in Actionable(events) ==> ev in events
    decreases |events|
  {
    if events == [] {
    } else {
      var rest := Actionable(events[1..]);
      ActionableDispatchable(sources, events[1..]);
      forall i | 0 <= i < |rest| ensures rest[i].key != events[0].key {
        assert rest[i] in rest;
        var j :| 0 <= j < |events[1..]| && events[1..][j] == rest[i];
        assert events[j + 1] == rest[i];
      }
    }
  }

  ghost predicate RemovedBy<I>(calls: seq<Call<I>>, key: nat) {
    exists c :: c in calls && c.key == key && Removes(c.flags, c.reply)
  }

  /** The calls made in a batch: `made` of the actionable events were handled, in order,
      each by the handler registered for it; only a stop or a live source's error cuts a
      batch short, and it is the last call; exactly the sources whose call removed them
      are gone. */
  ghost predicate HandledPrefix<C, I>(p: PollState<C, I>, events: seq<Event<I>>, q: PollState<C, I>, verdict: Verdict,
                                      made: nat)
    requires Dispatchable(p.sources, Actionable(events))
  {
    var act := Actionable(events);
    && made <= |act|
    && Dispatchable(p.sources, act[..made])
    && q.ctx == CallAll(p.sources, p.ctx, act[..made]).0
    && CallsMade(p, q, CallAll(p.sources, p.ctx, act[..made]).1, verdict)
    && |q.calls| == |p.calls| + made
    && (made == |act| || verdict != Next)
  }

  /** `calls` is what was called between `p` and `q`. */
  ghost predicate CallsMade<C, I>(p: PollState<C, I>, q: PollState<C, I>, calls: seq<Call<I>>, verdict: Verdict) {
    && q.calls == p.calls + calls
    && (forall i :: 0 <= i < |calls| - 1 ==> Ends(calls[i].flags, calls[i].reply) == Next)
    && verdict == (if calls == [] then Next else Ends(calls[|calls| - 1].flags, calls[|calls| - 1].reply))
    && (forall k :: k in q.sources <==> k in p.sources && !RemovedBy(calls, k))
    && (forall k :: k in q.sources ==> q.sources[k] == p.sources[k])
  }

  lemma {:induction false} CallAllSame<C, I>(s: map<nat, Source<C, I>>, t: map<nat, Source<C, I>>, ctx: C,
                                             events: seq<Event<I>>)
    requires Dispatchable(s, events) && Dispatchable(t, events)
    requires forall k :: k in t ==> k in s && s[k] == t[k]
    ensures CallAll(s, ctx, events) == CallAll(t, ctx, events)
    ensures |CallAll(s, ctx, events).1| == |events|
    decreases |events|
  {
    if events == [] {
    } else {
      var (ctx1, reply) := s[events[0].key].handler(ctx, events[0].input);
      CallAllSame(s, t, ctx1, events[1..]);
    }
  }

  lemma {:induction false} HandledNone<C, I>(p: PollState<C, I>, events: seq<Event<I>>)
    requires Dispatchable(p.sources, Actionable(events)) && Actionable(events) == []
    ensures HandledPrefix(p, events, p, Next, 0)
  {
    assert p.calls + [] == p.calls;
  }

  lemma {:induction false} HandledIgnored<C, I>(p: PollState<C, I>, events: seq<Event<I>>, q: PollState<C, I>, v: Verdict, made: nat)
    requires events != [] && IsIgnored(events[0].flags)
    requires Dispatchable(p.sources, Actionable(events[1..])) && HandledPrefix(p, events[1..], q, v, made)
    ensures Dispatchable(p.sources, Actionable(events)) && HandledPrefix(p, events, q, v, made)
  {
    assert Actionable(events) == Actionable(events[1..]);
  }

  /** A first call followed by what the rest of the batch does. */
  lemma {:induction false} HandledFirst<C, I>(p: PollState<C, I>, events: seq<Event<I>>)
    requires events != [] && !IsIgnored(events[0].flags)
    requires Agree(p.sources, p.interest) && Dispatchable(p.sources, events)
    requires Dispatchable(p.sources, Actionable(events))
    requires events[0].key in p.sources && HandleEvent(p, events[0]).1 != Next
    ensures HandledPrefix(p, events, HandleEvent(p, events[0]).0, HandleEvent(p, events[0]).1, 1)
  {
    hide CallAll, Actionable, CallsMade, Dispatchable;
    FirstActionable(events);
    PrefixDispatchable(p.sources, Actionable(events), 1);
    CallAllOne(p.sources, p.ctx, events[0]);
    FirstCall(p, events[0]);
  }

  lemma {:induction false} FirstCall<C, I>(p: PollState<C, I>, ev: Event<I>)
    requires !IsIgnored(ev.flags) && ev.key in p.sources && HandleEvent(p, ev).1 != Next
    ensures var (q, v) := HandleEvent(p, ev);
            CallsMade(p, q, [Call(p.sources[ev.key].fd, ev.key, ev.flags, ev.input, p.sources[ev.key].handler(p.ctx, ev.input).1)], v)
  {
  }

  lemma {:induction false} PrefixDispatchable<C, I>(sources: map<nat, Source<C, I>>, events: seq<Event<I>>, n: nat)
    requires Dispatchable(sources, events) && n <= |events|
    ensures Dispatchable(sources, events[..n])
  {
  }

  lemma {:induction false} FirstActionable<I>(events: seq<Event<I>>)
    requires events != [] && !IsIgnored(events[0].flags)
    ensures Actionable(events) != [] && Actionable(events)[..1] == [events[0]]
  {
  }

  lemma {:induction false} CallAllOne<C, I>(sources: map<nat, Source<C, I>>, ctx: C, ev: Event<I>)
    requires ev.key in sources
    ensures var (after, reply) := sources[ev.key].handler(ctx, ev.input);
            CallAll(sources, ctx, [ev]) == (after, [Call(sources[ev.key].fd, ev.key, ev.flags, ev.input, reply)])
  {
    var (ctx1, reply) := sources[ev.key].handler(ctx, ev.input);
    assert Dispatchable(sources, [ev][1..]);
    assert CallAll(sources, ctx1, [ev][1..]) == (ctx1, []);
    var c := Call(sources[ev.key].fd, ev.key, ev.flags, ev.input, reply);
    assert [c] + [] == [c];
  }

  lemma {:induction false} HandledMore<C, I>(p: PollState<C, I>, events: seq<Event<I>>, q: PollState<C, I>, v: Verdict, made: nat)
    requires events != [] && !IsIgnored(events[0].flags)
    requires Agree(p.sources, p.interest) && Dispatchable(p.sources, events)
    requires Dispatchable(p.sources, Actionable(events))
    requires HandleEvent(p, events[0]).1 == Next
    requires Dispatchable(HandleEvent(p, events[0]).0.sources, Actionable(events[1..]))
    requires HandledPrefix(HandleEvent(p, events[0]).0, events[1..], q, v, made)
    ensures HandledPrefix(p, events, q, v, made + 1)
  {
    hide CallsMade, Agree, CallAll;
    var act, rest, ev := Actionable(events), Actionable(events[1..]), events[0];
    var p1 := HandleEvent(p, ev).0;
    HandleEventAgrees(p, ev);
    assert act == [ev] + rest;
    assert act[..made + 1] == [ev] + rest[..made];
    CallAllMore(p.sources, p1.sources, p.ctx, ev, rest[..made]);
    FirstOfMany(p, ev, q, CallAll(p1.sources, p1.ctx, rest[..made]).1, v);
  }

  lemma {:induction false} CallAllMore<C, I>(s: map<nat, Source<C, I>>, t: map<nat, Source<C, I>>, ctx: C, ev: Event<I>,
                          rest: seq<Event<I>>)
    requires Dispatchable(s, [ev] + rest) && Dispatchable(t, rest) && ev.key in s
    requires forall k :: k in t ==> k in s && s[k] == t[k]
    ensures var (ctx1, reply) := s[ev.key].handler(ctx, ev.input);
            var (ctx2, calls) := CallAll(t, ctx1, rest);
            CallAll(s, ctx, [ev] + rest) == (ctx2, [Call(s[ev.key].fd, ev.key, ev.flags, ev.input, reply)] + calls)
  {
    assert ([ev] + rest)[1..] == rest;
    assert Dispatchable(s, rest);
    CallAllSame(s, t, s[ev.key].handler(ctx, ev.input).0, rest);
  }

  lemma {:induction false} FirstOfMany<C, I>(p: PollState<C, I>, ev: Event<I>, q: PollState<C, I>, calls: seq<Call<I>>, v: Verdict)
    requires !IsIgnored(ev.flags) && ev.key in p.sources && HandleEvent(p, ev).1 == Next
    requires CallsMade(HandleEvent(p, ev).0, q, calls, v)
    ensures CallsMade(p, q, [Call(p.sources[ev.key].fd, ev.key, ev.flags, ev.input,
                                  p.sources[ev.key].handler(p.ctx, ev.input).1)] + calls, v)
  {
    var p1 := HandleEvent(p, ev).0;
    var first := Call(p.sources[ev.key].fd, ev.key, ev.flags, ev.input, p.sources[ev.key].handler(p.ctx, ev.input).1);
    assert p.calls + ([first] + calls) == p1.calls + calls;
    forall k ensures RemovedBy([first] + calls, k) <==>
                       (k == ev.key && Removes(first.flags, first.reply)) || RemovedBy(calls, k) {
      assert forall c :: c in [first] + calls <==> c == first || c in calls;
    }
    assert forall k :: k in p1.sources <==> k in p.sources && !(k == ev.key && Removes(first.flags, first.reply));
  }

  /** Batch semantics: dispatching a batch handles a prefix of its actionable events. */
  lemma {:induction false} BatchSemantics<C, I>(p: PollState<C, I>, events: seq<Event<I>>) returns (made: nat)
    requires Agree(p.sources, p.interest) && Dispatchable(p.sources, events)
    ensures Dispatchable(p.sources, Actionable(events))
    ensures HandledPrefix(p, events, Dispatch(p, events).0, Dispatch(p, events).1, made)
    decreases |events|
  {
    hide HandledPrefix, Agree, CallAll;
    ActionableDispatchable(p.sources, events);
    if events == [] {
      HandledNone(p, events);
      made := 0;
    } else {
      var (q, v) := HandleEvent(p, events[0]);
      HandleEventAgrees(p, events[0]);
      if IsIgnored(events[0].flags) {
        made := BatchSemantics(p, events[1..]);
        HandledIgnored(p, events, Dispatch(p, events).0, Dispatch(p, events).1, made);
      } else if v != Next {
        HandledFirst(p, events);
        made := 1;
      } else {
        var more := BatchSemantics(q, events[1..]);
        HandledMore(p, events, Dispatch(p, events).0, Dispatch(p, events).1, more);
        made := more + 1;
      }
    }
  }

  /** A reported descriptor runs the handler registered for that descriptor: the key the
      kernel hands back is the one its source is stored under. */
  lemma {:induction false} EventRunsItsSource<C, I>(p: PollState<C, I>, ready: seq<Ready<I>>, i: nat)
    requires Agree(p.sources, p.interest) && ValidBatch(p.interest, ready) && i < |ready|
    ensures var ev := Deliver(p.interest, ready)[i];
            ev.key in p.sources && p.sources[ev.key].fd == ready[i].fd
  {
  }

  // ---- Whole runs ------------------------------------------------------------------

  function Removals<I>(calls: seq<Call<I>>): nat {
    if calls == [] then 0
    else
      var c := calls[|calls| - 1];
      Removals(calls[..|calls| - 1]) + (if Removes(c.flags, c.reply) then 1 else 0)
  }

  /** Only the last call may end the run, and a source that a call removed is never called
      again. */
  ghost predicate Once<I>(calls: seq<Call<I>>) {
    forall i, j :: 0 <= i < j < |calls| ==>
      && Ends(calls[i].flags, calls[i].reply) == Next
      && (Removes(calls[i].flags, calls[i].reply) ==> calls[i].fd != calls[j].fd)
  }

  /** Between two waits: every call so far let the run go on, and the sources it removed
      are out of the interest set. */
  ghost predicate Settled<C, I>(p: PollState<C, I>) {
    && Once(p.calls)
    && forall c :: c in p.calls ==>
         Ends(c.flags, c.reply) == Next && (Removes(c.flags, c.reply) ==> c.fd !in p.interest)
  }

  /** `q` is reached from `p` by calls that respect the rules above, each removal taking
      one source out of the slab. */
  ghost predicate Lawful<C, I>(p: PollState<C, I>, q: PollState<C, I>, verdict: Verdict) {
    && Agree(q.sources, q.interest)
    && Once(q.calls)
    && (verdict == Next || verdict == Blocked ==> Settled(q))
    && |q.sources| + Removals(q.calls) == |p.sources| + Removals(p.calls)
  }

  lemma {:induction false} RemovalsAppend<I>(calls: seq<Call<I>>, c: Call<I>)
    ensures Removals(calls + [c]) == Removals(calls) + (if Removes(c.flags, c.reply) then 1 else 0)
  {
    assert (calls + [c])[..|calls|] == calls;
  }

  lemma {:induction false} RemoveKeyCount<C, I>(sources: map<nat, Source<C, I>>, key: nat)
    requires key in sources
    ensures |sources - {key}| == |sources| - 1
  {
    assert (sources - {key}).Keys == sources.Keys - {key};
    assert |(sources - {key}).Keys| == |sources - {key}|;
    assert |sources.Keys| == |sources|;
  }

  lemma {:induction false} OnceMore<I>(calls: seq<Call<I>>, c: Call<I>)
    requires Once(calls)
    requires forall d :: d in calls ==> Ends(d.flags, d.reply) == Next && (Removes(d.flags, d.reply) ==> d.fd != c.fd)
    ensures Once(calls + [c])
  {
    forall i, j | 0 <= i < j < |calls + [c]|
      ensures Ends((calls + [c])[i].flags, (calls + [c])[i].reply) == Next
      ensures Removes((calls + [c])[i].flags, (calls + [c])[i].reply) ==> (calls + [c])[i].fd != (calls + [c])[j].fd
    {
      assert calls[i] in calls;
    }
  }

  lemma {:induction false} HandleLawful<C, I>(p: PollState<C, I>, ev: Event<I>)
    requires Agree(p.sources, p.interest) && Settled(p) && ev.key in p.sources
    ensures Lawful(p, HandleEvent(p, ev).0, HandleEvent(p, ev).1)
  {
    hide Once, Removals, Removes;
    HandleEventAgrees(p, ev);
    if !IsIgnored(ev.flags) {
      var source := p.sources[ev.key];
      var (ctx, reply) := source.handler(p.ctx, ev.input);
      var c := Call(source.fd, ev.key, ev.flags, ev.input, reply);
      OnceMore(p.calls, c);
      RemovalsAppend(p.calls, c);
      var called := p.(ctx := ctx, calls := p.calls + [c]);
      assert forall d :: d in p.calls + [c] <==> d in p.calls || d == c;
      if Removes(ev.flags, reply) {
        RemoveKeyCount(p.sources, ev.key);
        UnregisterAgrees(called, ev.key);
      }
    }
  }

  lemma {:induction false} DispatchLawful<C, I>(p: PollState<C, I>, events: seq<Event<I>>)
    requires Agree(p.sources, p.interest) && Settled(p) && Dispatchable(p.sources, events)
    ensures Lawful(p, Dispatch(p, events).0, Dispatch(p, events).1)
    decreases |events|
  {
    if events == [] {
    } else {
      hide Once, HandleEvent, Removals;
      HandleLawful(p, events[0]);
      HandleEventAgrees(p, events[0]);
      var (q, verdict) := HandleEvent(p, events[0]);
      if verdict == Next {
        DispatchLawful(q, events[1..]);
      }
    }
  }

  lemma {:induction false} PollOnceLawful<C, I>(p: PollState<C, I>, waits: seq<Wait<I>>)
    requires Agree(p.sources, p.interest) && Settled(p)
    ensures var (q, verdict, _) := PollOnce(p, waits);
            Lawful(p, q, verdict) && (verdict == Next || (verdict == Blocked && p.sources != map[]) ==> q.sources != map[])
    decreases |waits|
  {
    hide Once, Removals, Dispatch;
    if waits == [] {
    } else {
      match waits[0]
      case Interrupted => PollOnceLawful(p, waits[1..]);
      case WaitFailed(_) =>
      case Batch(ready) =>
        DeliverDispatchable(p.sources, p.interest, ready);
        DispatchLawful(p, Deliver(p.interest, ready));
        DispatchAgrees(p, Deliver(p.interest, ready));
    }
  }

  lemma {:induction false} RunLawful<C, I>(p: PollState<C, I>, waits: seq<Wait<I>>)
    requires Agree(p.sources, p.interest) && Settled(p)
    ensures var (q, verdict) := RunPoll(p, waits);
            Lawful(p, q, verdict) && (verdict == Blocked && p.sources != map[] ==> q.sources != map[])
    decreases |waits|
  {
    hide Once, Removals, PollOnce, Settled;
    PollOnceLawful(p, waits);
    var (q, verdict, rest) := PollOnce(p, waits);
    if verdict == Next {
      RunLawful(q, rest);
    }
  }

  /** In every reachable state of a run the slab and the interest set agree, and no source
      is called again after a call that reported a hangup: it has at most one. The sources
      left plus those removed are the sources the run started with. */
  lemma {:induction false} NoSpinning<C, I>(p: PollState<C, I>, waits: seq<Wait<I>>)
    requires Agree(p.sources, p.interest) && p.calls == []
    ensures var q := RunPoll(p, waits).0;
            && Agree(q.sources, q.interest)
            && (forall i, j :: 0 <= i < j < |q.calls| && IsHangup(q.calls[i].flags) ==>
                  q.calls[j].fd != q.calls[i].fd)
            && |q.sources| + Removals(q.calls) == |p.sources|
  {
    RunLawful(p, waits);
    var q := RunPoll(p, waits).0;
    assert Removals(p.calls) == 0;
    forall i, j | 0 <= i < j < |q.calls| && IsHangup(q.calls[i].flags) ensures q.calls[j].fd != q.calls[i].fd {
      assert Removes(q.calls[i].flags, q.calls[i].reply);
    }
  }

  /** Rounds of `poll_once` that let the run go on. */
  function Rounds<C, I>(p: PollState<C, I>, waits: seq<Wait<I>>): nat
    requires Agree(p.sources, p.interest)
    decreases |waits|
  {
    var (q, verdict, rest) := PollOnce(p, waits);
    if verdict == Next then 1 + Rounds(q, rest) else 0
  }

  /** Each round of the run delivers a hangup or a removal. */
  ghost predicate EachRoundRemoves<C, I>(p: PollState<C, I>, waits: seq<Wait<I>>)
    requires Agree(p.sources, p.interest)
    decreases |waits|
  {
    var (q, verdict, rest) := PollOnce(p, waits);
    verdict == Next ==> Removals(q.calls) > Removals(p.calls) && EachRoundRemoves(q, rest)
  }

  /** A run whose every round removes a source ends before as many rounds as there were
      sources. */
  lemma {:induction false} EndsInTime<C, I>(p: PollState<C, I>, waits: seq<Wait<I>>)
    requires Agree(p.sources, p.interest) && Settled(p) && p.sources != map[]
    requires EachRoundRemoves(p, waits)
    ensures Rounds(p, waits) < |p.sources|
    decreases |waits|
  {
    hide Once, Removals, PollOnce, Settled;
    PollOnceLawful(p, waits);
    var (q, verdict, rest) := PollOnce(p, waits);
    if verdict == Next {
      EndsInTime(q, rest);
    }
  }

  /** `epoll_wait` is entered with at least one source in every round of the run. */
  ghost predicate NeverWaitsOnNothing<C, I>(p: PollState<C, I>, waits: seq<Wait<I>>)
    requires Agree(p.sources, p.interest)
    decreases |waits|
  {
    var (q, verdict, rest) := PollOnce(p, waits);
    p.sources != map[] && (verdict == Next ==> NeverWaitsOnNothing(q, rest))
  }

  lemma {:induction false} WaitsOnSources<C, I>(p: PollState<C, I>, waits: seq<Wait<I>>)
    requires Agree(p.sources, p.interest) && Settled(p) && p.sources != map[]
    ensures NeverWaitsOnNothing(p, waits)
    decreases |waits|
  {
    hide Once, Removals, PollOnce, Settled;
    PollOnceLawful(p, waits);
    var (q, verdict, rest) := PollOnce(p, waits);
    if verdict == Next {
      WaitsOnSources(q, rest);
    }
  }

  /** A run stops only because a handler said so or because no source is left. */
  lemma {:induction false} StopsFor<C, I>(p: PollState<C, I>, waits: seq<Wait<I>>)
    requires Agree(p.sources, p.interest) && Settled(p)
    ensures var (q, verdict) := RunPoll(p, waits);
            verdict == Stopped ==>
              q.sources == map[]
              || (q.calls != [] && Ends(q.calls[|q.calls| - 1].flags, q.calls[|q.calls| - 1].reply) == Stopped)
    decreases |waits|
  {
    hide Once, Removals, PollOnce, Settled;
    PollOnceLawful(p, waits);
    PollOnceStops(p, waits);
    var (q, verdict, rest) := PollOnce(p, waits);
    if verdict == Next {
      StopsFor(q, rest);
    }
  }

  lemma {:induction false} PollOnceStops<C, I>(p: PollState<C, I>, waits: seq<Wait<I>>)
    requires Agree(p.sources, p.interest)
    ensures var (q, verdict, _) := PollOnce(p, waits);
            verdict == Stopped ==>
              q.sources == map[]
              || (q.calls != [] && Ends(q.calls[|q.calls| - 1].flags, q.calls[|q.calls| - 1].reply) == Stopped)
    decreases |waits|
  {
    hide Dispatch;
    if waits == [] {
    } else {
      match waits[0]
      case Interrupted => PollOnceStops(p, waits[1..]);
      case WaitFailed(_) =>
      case Batch(ready) =>
        DeliverDispatchable(p.sources, p.interest, ready);
        var made := BatchSemantics(p, Deliver(p.interest, ready));
    }
  }

  // ---- Facts about handlers carried over runs --------------------------------------

  function CallOf<C, I>(source: Source<C, I>, key: nat, ctx: C, flags: bv32, input: I): Call<I> {
    Call(source.fd, key, flags, input, source.handler(ctx, input).1)
  }

  /** A call of the source, stored under `key`, keeps what `ok` says of the context and the
      calls so far, and replies as `fits` allows. */
  ghost predicate Keeps<C(!new), I(!new)>(source: Source<C, I>, key: nat, ok: (C, seq<Call<I>>) -> bool,
                                          fits: (int, Reply) -> bool) {
    && (forall ctx, calls, flags, input :: ok(ctx, calls) ==>
          ok(source.handler(ctx, input).0, calls + [CallOf(source, key, ctx, flags, input)]))
    && (forall ctx, calls, input :: ok(ctx, calls) ==> fits(source.fd, source.handler(ctx, input).1))
  }

  /** `ok` holds of the context and the calls now, every handler keeps it, and `fits` says
      what each descriptor's handler may reply; `stopper` always replies with a stop. */
  ghost predicate Behaves<C(!new), I(!new)>(p: PollState<C, I>, ok: (C, seq<Call<I>>) -> bool, fits: (int, Reply) -> bool,
                                            stopper: nat) {
    && ok(p.ctx, p.calls)
    && (forall k :: k in p.sources ==> Keeps(p.sources[k], k, ok, fits))
    && (forall c :: c in p.calls ==> fits(c.fd, c.reply))
    && stopper in p.sources
    && (forall reply :: fits(p.sources[stopper].fd, reply) ==> reply == Reply.Ok(Stop))
  }

  lemma {:induction false} HandleBehaves<C(!new), I(!new)>(p: PollState<C, I>, ev: Event<I>, ok: (C, seq<Call<I>>) -> bool,
                                                           fits: (int, Reply) -> bool, stopper: nat)
    requires Agree(p.sources, p.interest) && ev.key in p.sources && Behaves(p, ok, fits, stopper)
    ensures Behaves(HandleEvent(p, ev).0, ok, fits, stopper)
    ensures HandleEvent(p, ev).0.sources.Keys <= p.sources.Keys
    ensures p.sources[stopper] == HandleEvent(p, ev).0.sources[stopper]
  {
    HandleEventAgrees(p, ev);
    var q := HandleEvent(p, ev).0;
    if !IsIgnored(ev.flags) {
      var source := p.sources[ev.key];
      var reply := source.handler(p.ctx, ev.input).1;
      var c := CallOf(source, ev.key, p.ctx, ev.flags, ev.input);
      assert forall d :: d in p.calls + [c] <==> d in p.calls || d == c;
      assert ev.key == stopper ==> reply == Reply.Ok(Stop);
    }
  }

  lemma {:induction false} DispatchBehaves<C(!new), I(!new)>(p: PollState<C, I>, events: seq<Event<I>>, ok: (C, seq<Call<I>>) -> bool,
                                                             fits: (int, Reply) -> bool, stopper: nat)
    requires Agree(p.sources, p.interest) && Dispatchable(p.sources, events) && Behaves(p, ok, fits, stopper)
    ensures Behaves(Dispatch(p, events).0, ok, fits, stopper)
    ensures Dispatch(p, events).0.sources[stopper] == p.sources[stopper]
    decreases |events|
  {
    if events == [] {
    } else {
      hide Behaves, HandleEvent;
      HandleEventAgrees(p, events[0]);
      HandleBehaves(p, events[0], ok, fits, stopper);
      var (q, verdict) := HandleEvent(p, events[0]);
      if verdict == Next {
        DispatchBehaves(q, events[1..], ok, fits, stopper);
      }
    }
  }

  lemma {:induction false} PollOnceBehaves<C(!new), I(!new)>(p: PollState<C, I>, waits: seq<Wait<I>>, ok: (C, seq<Call<I>>) -> bool,
                                                             fits: (int, Reply) -> bool, stopper: nat)
    requires Agree(p.sources, p.interest) && Behaves(p, ok, fits, stopper)
    ensures Behaves(PollOnce(p, waits).0, ok, fits, stopper)
    ensures stopper in PollOnce(p, waits).0.sources && PollOnce(p, waits).0.sources[stopper] == p.sources[stopper]
    decreases |waits|
  {
    if waits == [] {
    } else {
      hide Dispatch;
      match waits[0]
      case Interrupted => PollOnceBehaves(p, waits[1..], ok, fits, stopper);
      case WaitFailed(_) =>
      case Batch(ready) =>
        DeliverDispatchable(p.sources, p.interest, ready);
        DispatchBehaves(p, Deliver(p.interest, ready), ok, fits, stopper);
    }
  }

  lemma {:induction false} RunBehaves<C(!new), I(!new)>(p: PollState<C, I>, waits: seq<Wait<I>>, ok: (C, seq<Call<I>>) -> bool,
                                                        fits: (int, Reply) -> bool, stopper: nat)
    requires Agree(p.sources, p.interest) && Behaves(p, ok, fits, stopper)
    ensures Behaves(RunPoll(p, waits).0, ok, fits, stopper)
    ensures stopper in RunPoll(p, waits).0.sources && RunPoll(p, waits).0.sources[stopper] == p.sources[stopper]
    decreases |waits|
  {
    hide PollOnce, Behaves;
    PollOnceBehaves(p, waits, ok, fits, stopper);
    var (q, verdict, rest) := PollOnce(p, waits);
    if verdict == Next {
      RunBehaves(q, rest, ok, fits, stopper);
    }
  }

  // ---- Longer observations ---------------------------------------------------------

  /** A run observed for longer goes on where the shorter observation left it: a verdict,
      once reached, is final, and a run that was waiting resumes from the same state. So
      the finite observations determine the unbounded loop. */
  lemma {:induction false} RunExtends<C, I>(p: PollState<C, I>, waits: seq<Wait<I>>, more: seq<Wait<I>>)
    requires Agree(p.sources, p.interest)
    ensures var (q, verdict) := RunPoll(p, waits);
            && Agree(q.sources, q.interest)
            && RunPoll(p, waits + more) == if verdict == Blocked then RunPoll(q, more) else (q, verdict)
    decreases |waits|
  {
    hide PollOnce, Agree;
    PollOnceExtends(p, waits, more);
    var (q, verdict, rest) := PollOnce(p, waits);
    if verdict == Next {
      RunExtends(q, rest, more);
    }
  }

  lemma {:induction false} PollOnceExtends<C, I>(p: PollState<C, I>, waits: seq<Wait<I>>, more: seq<Wait<I>>)
    requires Agree(p.sources, p.interest)
    ensures var (q, verdict, rest) := PollOnce(p, waits);
            && (verdict == Blocked ==> q == p && rest == [])
            && PollOnce(p, waits + more) == if verdict == Blocked then PollOnce(p, more) else (q, verdict, rest + more)
    decreases |waits|
  {
    hide Dispatch, Deliver;
    if waits == [] {
      assert waits + more == more;
    } else {
      assert (waits + more)[0] == waits[0] && (waits + more)[1..] == waits[1..] + more;
      match waits[0]
      case Interrupted => PollOnceExtends(p, waits[1..], more);
      case WaitFailed(_) =>
      case Batch(ready) =>
        DeliverDispatchable(p.sources, p.interest, ready);
        DispatchAgrees(p, Deliver(p.interest, ready));
    }
  }
}
