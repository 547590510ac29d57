/** `Poller`: a slab of sources, the kernel's interest set, and the dispatch loop.

    A handler is a function of the shared context and of whatever its call reads from the
    outside world. What `epoll_wait` returns is an input too: a batch names descriptors
    that are in the interest set, each once and at most ten (a batch that breaks this
    contract is read as an empty one). */
module Poll {
  datatype PollAction = Continue | Stop | Remove

  datatype Reply = Ok(action: PollAction) | Failed(error: int)

  datatype Source<!C, !I> = Source(fd: int, handler: (C, I) -> (C, Reply))

  /** A descriptor reported by the kernel; `input` is what its handler will read. */
  datatype Ready<I> = Ready(fd: int, flags: bv32, input: I)

  datatype Wait<I> = Interrupted | WaitFailed(errno: int) | Batch(ready: seq<Ready<I>>)

  /** A ready descriptor with the key stored for it at registration. */
  datatype Event<I> = Event(key: nat, flags: bv32, input: I)

  /** One handler call, with what it read and what it replied. */
  datatype Call<I> = Call(fd: int, key: nat, flags: bv32, input: I, reply: Reply)

  datatype Verdict = Next | Stopped | Error(errno: int) | Blocked

  const COUNT := 10
  const EPOLLIN: bv32 := 0x1
  const HANGUP: bv32 := 0x18

  predicate IsHangup(flags: bv32) {
    flags & HANGUP != 0
  }

  predicate IsIgnored(flags: bv32) {
    flags & (EPOLLIN | HANGUP) == 0
  }

  /** Whether a call takes its source out of the set. */
  predicate Removes(flags: bv32, reply: Reply) {
    match reply
    case Ok(Remove) => true
    case Ok(Continue) => IsHangup(flags)
    case Ok(Stop) => false
    case Failed(_) => IsHangup(flags)
  }

  /** Whether a call ends the loop, and how. */
  function Ends(flags: bv32, reply: Reply): Verdict {
    match reply
    case Ok(Stop) => Stopped
    case Failed(e) => if IsHangup(flags) then Next else Error(e)
    case _ => Next
  }

  datatype PollState<!C, !I> = PollState(
    sources: map<nat, Source<C, I>>,
    interest: map<int, nat>,
    ctx: C,
    calls: seq<Call<I>>)

  /** Slab and interest set are in bijection through the stored key and descriptor. */
  ghost predicate Agree<C, I>(sources: map<nat, Source<C, I>>, interest: map<int, nat>) {
    && (forall k :: k in sources ==> sources[k].fd in interest && interest[sources[k].fd] == k)
    && (forall fd :: fd in interest ==> interest[fd] in sources && sources[interest[fd]].fd == fd)
  }

  predicate ValidBatch<I>(interest: map<int, nat>, ready: seq<Ready<I>>) {
    && |ready| <= COUNT
    && (forall i :: 0 <= i < |ready| ==> ready[i].fd in interest)
    && (forall i, j :: 0 <= i < j < |ready| ==> ready[i].fd != ready[j].fd)
  }

  /** What `epoll_wait` fills in. */
  function Deliver<I>(interest: map<int, nat>, ready: seq<Ready<I>>): (events: seq<Event<I>>)
    ensures |events| == if ValidBatch(interest, ready) then |ready| else 0
    ensures forall i :: 0 <= i < |events| ==>
              events[i] == Event(interest[ready[i].fd], ready[i].flags, ready[i].input)
  {
    if ValidBatch(interest, ready) then
      seq(|ready|, i requires 0 <= i < |ready| && ready[i].fd in interest =>
        Event(interest[ready[i].fd], ready[i].flags, ready[i].input))
    else []
  }

  /** Every event still to be dispatched names a registered source, each once. */
  ghost predicate Dispatchable<C, I>(sources: map<nat, Source<C, I>>, events: seq<Event<I>>) {
    && (forall i :: 0 <= i < |events| ==> events[i].key in sources)
    && (forall i, j :: 0 <= i < j < |events| ==> events[i].key != events[j].key)
  }

  // ---- Dispatch as a function ------------------------------------------------------

  function Unregister<C, I>(p: PollState<C, I>, key: nat): PollState<C, I> {
    if key in p.sources then p.(interest := p.interest - {p.sources[key].fd}, sources := p.sources - {key}) else p
  }

  /** One event: run the handler, then act on its reply. */
  function HandleEvent<C, I>(p: PollState<C, I>, ev: Event<I>): (PollState<C, I>, Verdict)
    requires ev.key in p.sources
  {
    if IsIgnored(ev.flags) then (p, Next)
    else
      var source := p.sources[ev.key];
      var (ctx, reply) := source.handler(p.ctx, ev.input);
      var called := p.(ctx := ctx, calls := p.calls + [Call(source.fd, ev.key, ev.flags, ev.input, reply)]);
      (if Removes(ev.flags, reply) then Unregister(called, ev.key) else called, Ends(ev.flags, reply))
  }

  function Dispatch<C, I>(p: PollState<C, I>, events: seq<Event<I>>): (PollState<C, I>, Verdict)
    requires Dispatchable(p.sources, events)
    decreases |events|
  {
    if events == [] then (p, Next)
    else
      var (q, verdict) := HandleEvent(p, events[0]);
      if verdict != Next then (q, verdict) else Dispatch(q, events[1..])
  }

  lemma {:induction false} DeliverDispatchable<C, I>(sources: map<nat, Source<C, I>>, interest: map<int, nat>, ready: seq<Ready<I>>)
    requires Agree(sources, interest)
    ensures Dispatchable(sources, Deliver(interest, ready))
  {
  }

  lemma {:induction false} RemoveAgrees<C, I>(sources: map<nat, Source<C, I>>, interest: map<int, nat>, key: nat)
    requires Agree(sources, interest)
    ensures key in sources ==> sources[key].fd in interest && Agree(sources - {key}, interest - {sources[key].fd})
    ensures key !in sources ==> sources - {key} == sources
  {
  }

  lemma {:induction false} UnregisterAgrees<C, I>(p: PollState<C, I>, key: nat)
    requires Agree(p.sources, p.interest)
    ensures var q := Unregister(p, key); Agree(q.sources, q.interest) && q.sources == p.sources - {key}
  {
    RemoveAgrees(p.sources, p.interest, key);
  }

  lemma {:induction false} HandleEventAgrees<C, I>(p: PollState<C, I>, ev: Event<I>)
    requires Agree(p.sources, p.interest) && ev.key in p.sources
    ensures var (q, _) := HandleEvent(p, ev);
            && Agree(q.sources, q.interest)
            && (forall k :: k in p.sources && k != ev.key ==> k in q.sources)
            && (forall k :: k in q.sources ==> k in p.sources && q.sources[k] == p.sources[k])
  {
    if !IsIgnored(ev.flags) {
      var source := p.sources[ev.key];
      var (ctx, reply) := source.handler(p.ctx, ev.input);
      UnregisterAgrees(p.(ctx := ctx, calls := p.calls + [Call(source.fd, ev.key, ev.flags, ev.input, reply)]), ev.key);
    }
  }

  lemma {:induction false} DispatchAgrees<C, I>(p: PollState<C, I>, events: seq<Event<I>>)
    requires Agree(p.sources, p.interest) && Dispatchable(p.sources, events)
    ensures var (q, v) := Dispatch(p, events); Agree(q.sources, q.interest) && v != Blocked
    decreases |events|
  {
    if events == [] {
    } else {
      HandleEventAgrees(p, events[0]);
      var (q, verdict) := HandleEvent(p, events[0]);
      if verdict == Next {
        DispatchAgrees(q, events[1..]);
      }
    }
  }

  /** `poll_once` on what `epoll_wait` will do next. Interrupted waits are repeated; the
      waits not yet used are returned too. */
  function PollOnce<C, I>(p: PollState<C, I>, waits: seq<Wait<I>>)
    : (r: (PollState<C, I>, Verdict, seq<Wait<I>>))
    requires Agree(p.sources, p.interest)
    ensures Agree(r.0.sources, r.0.interest)
    ensures |r.2| <= |waits| && (r.1 == Next ==> |r.2| < |waits|)
    decreases |waits|
  {
    if waits == [] then (p, Blocked, [])
    else
      match waits[0]
      case Interrupted => PollOnce(p, waits[1..])
      case WaitFailed(errno) => (p, Error(errno), waits[1..])
      case Batch(ready) =>
        DeliverDispatchable(p.sources, p.interest, ready);
        DispatchAgrees(p, Deliver(p.interest, ready));
        var (q, verdict) := Dispatch(p, Deliver(p.interest, ready));
        (q, if verdict == Next && q.sources == map[] then Stopped else verdict, waits[1..])
  }

  /** `run`: `poll_once` until it stops or fails, or for as long as there are waits. */
  function RunPoll<C, I>(p: PollState<C, I>, waits: seq<Wait<I>>): (r: (PollState<C, I>, Verdict))
    requires Agree(p.sources, p.interest)
    ensures r.1 != Next
    decreases |waits|
  {
    var (q, verdict, rest) := PollOnce(p, waits);
    if verdict == Next then RunPoll(q, rest) else (q, verdict)
  }
}
