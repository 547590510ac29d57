/** The collector program: parse the joined arguments, register the three sources, run the
    poller with the collector's state as context, and flush once more at the end. */
module ThreadStat {
  import opened Prelude
  import opened Text
  import opened EventGrammar
  import opened ParsePerf
  import opened Collector
  import opened CollectorSessions
  import opened CollectorTables
  import opened CollectorOrder
  import opened CollectorState
  import opened Handlers
  import opened Poll
  import opened PollLaws
  import opened PollReplies
  import opened PollerClass

  /** What a handler's call reads: a signal, a queue message, or timer expirations. */
  datatype Input =
    | Signalled
    | Queue(received: Received, opens: Opens, closing: Readings)
    | Timer(expired: bool, order: seq<int>, flushing: Readings)

  /** The shared context, with the operations performed so far as history. */
  datatype Context = Context(col: Col, ops: seq<Op>)

  function Perform(ctx: Context, op: Op): Context {
    Context(Apply(ctx.col, op, |ctx.ops|), ctx.ops + [op])
  }

  function OnSignal(ctx: Context, input: Input): (Context, Reply) {
    (ctx, Reply.Ok(Stop))
  }

  function OnQueue(ctx: Context, input: Input): (Context, Reply) {
    var op := if input.Queue? then QueueOp(input.received, input.opens, input.closing) else Nothing;
    (Perform(ctx, op), Reply.Ok(Continue))
  }

  function OnTimer(ctx: Context, input: Input): (Context, Reply) {
    if input.Timer? && input.expired then (Perform(ctx, Op.Flush(input.order, input.flushing)), Reply.Ok(Continue))
    else (ctx, Reply.Failed(-1))
  }

  /** The queue's handler on the mutable state does what `OnQueue` does to the context. */
  method ServeQueue(state: State, ghost ctx: Context, input: Input) returns (reply: Reply, ghost after: Context)
    requires state.Valid() && ctx.col == state.View() && input.Queue?
    modifies state, state.reader, state.reader.data, state.csv
    ensures (after, reply) == OnQueue(ctx, input)
    ensures state.Valid() && after.col == state.View()
  {
    hide Apply, State.Valid;
    reply := QueueHandler(input.received, state, input.opens, input.closing, |ctx.ops|);
    after := OnQueue(ctx, input).0;
  }

  /** The timer's handler on the mutable state does what `OnTimer` does to the context. */
  method ServeTimer(state: State, ghost ctx: Context, input: Input) returns (reply: Reply, ghost after: Context)
    requires state.Valid() && ctx.col == state.View() && input.Timer?
    modifies state, state.reader, state.reader.data, state.csv
    ensures (after, reply) == OnTimer(ctx, input)
    ensures state.Valid() && after.col == state.View()
  {
    hide Apply, State.Valid;
    reply := TimerHandler(input.expired, state, input.order, input.flushing, |ctx.ops|);
    after := OnTimer(ctx, input).0;
  }

  /** The operation that a handler call performs: a queue call always one (nothing, for an
      unreadable message), a timer call a flush if its timer had expired. */
  function OpOfCall(signalFd: int, mqFd: int, c: Call<Input>): seq<Op> {
    if c.fd == signalFd then []
    else if c.fd == mqFd then
      [if c.input.Queue? then QueueOp(c.input.received, c.input.opens, c.input.closing) else Nothing]
    else if c.input.Timer? && c.input.expired then [Op.Flush(c.input.order, c.input.flushing)]
    else []
  }

  function OpsOfCalls(signalFd: int, mqFd: int, calls: seq<Call<Input>>): seq<Op> {
    if calls == [] then []
    else OpsOfCalls(signalFd, mqFd, calls[..|calls| - 1]) + OpOfCall(signalFd, mqFd, calls[|calls| - 1])
  }

  datatype Exit<+E> =
    | ParseError(error: E)
    | PollError(errno: int)
    | StillPolling(ctx: Context)
    | Finished(ctx: Context)

  /** The context is what its operations made of the initial state. */
  ghost predicate Faithful(configs: seq<seq<PerfConfig>>, ctx: Context) {
    ctx.col == Run(Init(configs), ctx.ops)
  }

  /** What each source replies: a stop for a signal, a go-on for any message, and for the
      timer a go-on if it had expired and the error of its read otherwise. */
  predicate Replied(signalFd: int, mqFd: int, c: Call<Input>) {
    if c.fd == signalFd then c.reply == Reply.Ok(Stop)
    else if c.fd == mqFd || (c.input.Timer? && c.input.expired) then c.reply == Reply.Ok(Continue)
    else c.reply == Reply.Failed(-1)
  }

  /** And its operations are those that the handler calls stand for, in order. */
  ghost predicate Accounted(configs: seq<seq<PerfConfig>>, signalFd: int, mqFd: int, ctx: Context,
                            calls: seq<Call<Input>>) {
    && Faithful(configs, ctx)
    && ctx.ops == OpsOfCalls(signalFd, mqFd, calls)
    && forall c :: c in calls ==> Replied(signalFd, mqFd, c)
  }

  lemma {:induction false} PerformFaithful(configs: seq<seq<PerfConfig>>, ctx: Context, op: Op)
    requires Faithful(configs, ctx)
    ensures Faithful(configs, Perform(ctx, op))
  {
    hide Apply;
    assert (ctx.ops + [op])[..|ctx.ops|] == ctx.ops;
  }

  /** Each source's handler performs exactly the operation its call stands for. */
  lemma {:induction false} CallAccounted(configs: seq<seq<PerfConfig>>, signalFd: int, mqFd: int, fd: int, key: nat,
                                         ctx: Context, calls: seq<Call<Input>>, flags: bv32, input: Input)
    requires Accounted(configs, signalFd, mqFd, ctx, calls)
    ensures var source := SourceFor(signalFd, mqFd, fd);
            Accounted(configs, signalFd, mqFd, source.handler(ctx, input).0,
                      calls + [CallOf(source, key, ctx, flags, input)])
  {
    hide Faithful, QueueOp, Apply;
    var c := CallOf(SourceFor(signalFd, mqFd, fd), key, ctx, flags, input);
    assert (calls + [c])[..|calls|] == calls;
    assert forall d :: d in calls + [c] <==> d in calls || d == c;
    assert ctx.ops + [] == ctx.ops;
    forall op ensures Faithful(configs, Perform(ctx, op)) {
      PerformFaithful(configs, ctx, op);
    }
  }

  /** Only the signal source ever asks for a stop, and it asks for nothing else. */
  predicate MayReply(signalFd: int, fd: int, reply: Reply) {
    if fd == signalFd then reply == Reply.Ok(Stop) else reply != Reply.Ok(Stop)
  }

  function FdSet(signalFd: int, mqFd: int, timerFd: Option<int>): set<int> {
    {signalFd, mqFd} + (if timerFd.Some? then {timerFd.value} else {})
  }

  /** The source registered for each descriptor. */
  function SourceFor(signalFd: int, mqFd: int, fd: int): Source<Context, Input> {
    if fd == signalFd then Source(fd, OnSignal)
    else if fd == mqFd then Source(fd, OnQueue)
    else Source(fd, OnTimer)
  }

  /** The poller as the program sets it up: exactly its descriptors, each with its handler,
      under whatever keys, and a collector that has done nothing yet. */
  ghost predicate Registered(p: PollState<Context, Input>, configs: seq<seq<PerfConfig>>, signalFd: int, mqFd: int,
                             timerFd: Option<int>) {
    && Agree(p.sources, p.interest)
    && p.interest.Keys == FdSet(signalFd, mqFd, timerFd)
    && (forall k :: k in p.sources ==> p.sources[k] == SourceFor(signalFd, mqFd, p.sources[k].fd))
    && p.ctx == Context(Init(configs), [])
    && p.calls == []
  }

  lemma {:induction false} ProgramBehaves(p: PollState<Context, Input>, configs: seq<seq<PerfConfig>>, signalFd: int,
                                          mqFd: int, timerFd: Option<int>)
    requires Registered(p, configs, signalFd, mqFd, timerFd)
    ensures signalFd in p.interest
    ensures Behaves(p, (ctx: Context, calls: seq<Call<Input>>) => Accounted(configs, signalFd, mqFd, ctx, calls),
                    (fd: int, reply: Reply) => MayReply(signalFd, fd, reply), p.interest[signalFd])
  {
    hide Run, Perform, Accounted;
    var ok := (ctx: Context, calls: seq<Call<Input>>) => Accounted(configs, signalFd, mqFd, ctx, calls);
    var fits := (fd: int, reply: Reply) => MayReply(signalFd, fd, reply);
    assert signalFd in p.interest.Keys;
    assert Accounted(configs, signalFd, mqFd, p.ctx, []) by { NothingRun(configs, signalFd, mqFd); }
    forall k | k in p.sources ensures Keeps(p.sources[k], k, ok, fits) {
      forall ctx, calls, flags, input | ok(ctx, calls)
        ensures ok(p.sources[k].handler(ctx, input).0, calls + [CallOf(p.sources[k], k, ctx, flags, input)])
      {
        CallAccounted(configs, signalFd, mqFd, p.sources[k].fd, k, ctx, calls, flags, input);
      }
    }
  }

  lemma {:induction false} NothingRun(configs: seq<seq<PerfConfig>>, signalFd: int, mqFd: int)
    ensures Accounted(configs, signalFd, mqFd, Context(Init(configs), []), [])
  {
  }

  /** A call of the timer whose read failed while it was live. */
  predicate TimerFailed(signalFd: int, mqFd: int, c: Call<Input>) {
    c.fd != signalFd && c.fd != mqFd && !(c.input.Timer? && c.input.expired) && c.flags & 0x18 == 0
  }

  /** Over every run of the program's poller: the context is what the handler calls made of
      the initial state, one operation per queue call and one flush per expired timer call
      in their order; the signal source is never lost (so the source set never runs empty);
      the loop stops exactly when the signal source has been called, and that call is the
      last; it fails only for a failed wait or a live timer's failed read. */
  lemma {:induction false} ProgramRun(p: PollState<Context, Input>, configs: seq<seq<PerfConfig>>, signalFd: int,
                                      mqFd: int, timerFd: Option<int>, waits: seq<Wait<Input>>)
    requires Registered(p, configs, signalFd, mqFd, timerFd)
    ensures var (q, verdict) := RunPoll(p, waits);
            && Accounted(configs, signalFd, mqFd, q.ctx, q.calls)
            && signalFd in p.interest && p.interest[signalFd] in q.sources
            && (verdict == Stopped <==> exists c :: c in q.calls && c.fd == signalFd)
            && (verdict == Stopped ==> q.calls != [] && q.calls[|q.calls| - 1].fd == signalFd)
            && (verdict.Error? ==>
                  || WaitFailed(verdict.errno) in waits
                  || (q.calls != [] && TimerFailed(signalFd, mqFd, q.calls[|q.calls| - 1])))
  {
    hide RunPoll, Faithful, OpsOfCalls, Registered, Behaves, TakenOut;
    var ok := (ctx: Context, calls: seq<Call<Input>>) => Accounted(configs, signalFd, mqFd, ctx, calls);
    var fits := (fd: int, reply: Reply) => MayReply(signalFd, fd, reply);
    ProgramBehaves(p, configs, signalFd, mqFd, timerFd);
    StartsAgreed(p, configs, signalFd, mqFd, timerFd);
    RunBehaves(p, waits, ok, fits, p.interest[signalFd]);
    BehavesNow(RunPoll(p, waits).0, ok, fits, p.interest[signalFd]);
    RunReplies(p, waits);
    SignalEnds(signalFd, mqFd, RunPoll(p, waits).0, RunPoll(p, waits).1, waits, p.interest[signalFd]);
  }

  lemma {:induction false} StartsAgreed(p: PollState<Context, Input>, configs: seq<seq<PerfConfig>>, signalFd: int,
                                        mqFd: int, timerFd: Option<int>)
    requires Registered(p, configs, signalFd, mqFd, timerFd)
    ensures Agree(p.sources, p.interest) && p.calls == []
  {
  }

  lemma {:induction false} BehavesNow(q: PollState<Context, Input>, ok: (Context, seq<Call<Input>>) -> bool,
                                      fits: (int, Reply) -> bool, stopper: nat)
    requires Behaves(q, ok, fits, stopper)
    ensures ok(q.ctx, q.calls) && stopper in q.sources
  {
    hide Keeps;
  }

  /** How the program's replies end its loop. */
  lemma {:induction false} SignalEnds(signalFd: int, mqFd: int, q: PollState<Context, Input>, verdict: Verdict,
                                      waits: seq<Wait<Input>>, stopper: nat)
    requires forall c :: c in q.calls ==> Replied(signalFd, mqFd, c)
    requires forall i :: 0 <= i < |q.calls| && q.calls[i].reply == Reply.Ok(Stop) ==>
               i == |q.calls| - 1 && verdict == Stopped
    requires Explained(q, verdict, waits) && stopper in q.sources
    ensures verdict == Stopped <==> exists c :: c in q.calls && c.fd == signalFd
    ensures verdict == Stopped ==> q.calls != [] && q.calls[|q.calls| - 1].fd == signalFd
    ensures verdict.Error? ==>
              || WaitFailed(verdict.errno) in waits
              || (q.calls != [] && TimerFailed(signalFd, mqFd, q.calls[|q.calls| - 1]))
  {
    assert q.calls != [] ==> q.calls[|q.calls| - 1] in q.calls;
    forall c | c in q.calls && c.fd == signalFd ensures verdict == Stopped {
      var i :| 0 <= i < |q.calls| && q.calls[i] == c;
      assert q.calls[i].reply == Reply.Ok(Stop);
    }
  }

  /** The three `register_mut` calls. */
  method RegisterSources(start: Context, signalFd: int, mqFd: int, timerFd: Option<int>,
                         ghost configs: seq<seq<PerfConfig>>)
    returns (poller: Poller<Context, Input>)
    requires signalFd != mqFd && timerFd != Some(signalFd) && timerFd != Some(mqFd)
    requires start == Context(Init(configs), [])
    ensures fresh(poller) && poller.Valid()
    ensures Registered(poller.View(start), configs, signalFd, mqFd, timerFd)
  {
    poller := new Poller<Context, Input>();
    poller.RegisterMut(signalFd, OnSignal);
    assert poller.interest.Keys == {signalFd};
    poller.RegisterMut(mqFd, OnQueue);
    assert poller.interest.Keys == {signalFd, mqFd};
    if timerFd.Some? {
      poller.RegisterMut(timerFd.value, OnTimer);
    }
  }

  /** How the program ends when its poller has: a stop is followed by one flush of every
      live thread and nothing else, an error is fatal, and a run still waiting goes on. */
  ghost predicate Exits<E>(exit: Exit<E>, q: PollState<Context, Input>, verdict: Verdict, order: seq<int>,
                           readings: Readings) {
    match verdict
    case Stopped =>
      && exit.Finished?
      && exit.ctx.col == FlushAll(q.ctx.col, order, readings)
      && exit.ctx.ops == q.ctx.ops + [Op.Flush(order, readings)]
    case Error(errno) => exit == PollError(errno)
    case _ => exit == StillPolling(q.ctx)
  }

  /** The whole program, on every schedule of waits: `waits` is what the kernel reports for
      as long as the program is observed; `order` and `readings` are for the final flush. */
  method Collect<E>(args: seq<string>, pfm: Resolver<E>, signalFd: int, mqFd: int, timerFd: Option<int>,
                    waits: seq<Wait<Input>>, order: seq<int>, readings: Readings)
    returns (exit: Exit<E>)
    requires signalFd != mqFd && timerFd != Some(signalFd) && timerFd != Some(mqFd)
    ensures match ResolveGroups(Parse(JoinWith(args, ',')), pfm)
            case Err(e) => exit == ParseError(e)
            case Ok(configs) =>
              exists p :: Registered(p, configs, signalFd, mqFd, timerFd)
                && Exits(exit, RunPoll(p, waits).0, RunPoll(p, waits).1, order, readings)
  {
    hide RunPoll, ResolveGroups, Parse, Registered, FlushAll;
    var parsed := ParseEventGroups(JoinWith(args, ','), pfm);
    if parsed.Err? {
      return ParseError(parsed.error);
    }
    var start := Context(Init(parsed.value), []);
    var poller := RegisterSources(start, signalFd, mqFd, timerFd, parsed.value);
    ghost var p := poller.View(start);
    var ctx, verdict := poller.Run(start, waits);
    if verdict == Stopped {
      exit := Finished(Perform(ctx, Op.Flush(order, readings)));
    } else if verdict.Error? {
      exit := PollError(verdict.errno);
    } else {
      exit := StillPolling(ctx);
    }
    assert Exits(exit, RunPoll(p, waits).0, RunPoll(p, waits).1, order, readings);
  }

  /** The program finishes exactly when its signal source has been called, and fails with the
      error of its poller. When it has finished, its operations are those of the handler calls and
      one last flush; every group of every session it opened has been read once per earlier
      flush during the session and exactly one last time, at the thread's REMOVE or at that
      final flush; and its tables join back to the history of what it read if no read was
      disturbed, to everything counted exactly if every event read was queryable too. */
  lemma {:induction false} FinishedRun<E>(exit: Exit<E>, p: PollState<Context, Input>, configs: seq<seq<PerfConfig>>,
                                          signalFd: int, mqFd: int, timerFd: Option<int>, waits: seq<Wait<Input>>,
                                          order: seq<int>, readings: Readings, o: nat, g: nat)
    requires Registered(p, configs, signalFd, mqFd, timerFd)
    requires Exits(exit, RunPoll(p, waits).0, RunPoll(p, waits).1, order, readings)
    ensures exit.Finished? <==> exists c :: c in RunPoll(p, waits).0.calls && c.fd == signalFd
    ensures forall e :: RunPoll(p, waits).1 == Error(e) ==> exit == PollError(e)
    ensures exit.Finished? ==>
              var ops, c := exit.ctx.ops, exit.ctx.col;
              && c == Run(Init(configs), ops)
              && ops == OpsOfCalls(signalFd, mqFd, RunPoll(p, waits).0.calls) + [Op.Flush(order, readings)]
              && (Trusted(c.log) ==> JoinTables(c.eventRows, c.readRows, c.descRows) == History(c.log))
              && (JoinTables(c.eventRows, c.readRows, c.descRows) == Measured(c.log) <==>
                    Trusted(c.log) && forall a, m :: a in c.log && a.outcome.Values? && m in a.members ==> m.queryable)
              && (OpensAt(configs, ops, o) && g < |GroupsAt(configs, ops, o)| ==>
                    o < |ops| - 1 && Count(c.log, o, g) == FlushesWhileOpen(ops, o, |ops| - 1) + 1)
  {
    hide Run, Count, JoinTables, History, Measured, Trusted, GroupsAt, RunPoll, OpsOfCalls, FlushAll;
    ProgramRun(p, configs, signalFd, mqFd, timerFd, waits);
    if exit.Finished? {
      var ops, last := RunPoll(p, waits).0.ctx.ops, Op.Flush(order, readings);
      RunFlush(configs, ops, order, readings);
      Lossless(configs, ops + [last]);
      LosslessIff(configs, ops + [last]);
      if OpensAt(configs, ops + [last], o) && g < |GroupsAt(configs, ops + [last], o)| {
        FinalFlushAccounting(configs, ops + [last], o, g);
      }
    }
  }
}
