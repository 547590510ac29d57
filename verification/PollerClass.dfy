/** `Poller`: the slab and the interest set as mutable fields, each method proved to do
    what the corresponding function of `Poll` says. */
module PollerClass {
  import opened Prelude
  import opened Poll

  lemma {:induction false} UnusedKey(used: set<nat>) returns (key: nat)
    ensures key !in used
    ensures forall k :: k in used ==> k < key
    decreases |used|
  {
    if used == {} {
      key := 0;
    } else {
      var k := SomeElement(used);
      var other := UnusedKey(used - {k});
      key := if k < other then other else k + 1;
      assert forall j :: j in used ==> j == k || j in used - {k};
    }
  }

  class Poller<C, I> {
    var sources: map<nat, Source<C, I>>
    var interest: map<int, nat>
    ghost var calls: seq<Call<I>>

    ghost predicate Valid()
      reads this
    {
      Agree(sources, interest)
    }

    ghost function View(ctx: C): PollState<C, I>
      reads this
    {
      PollState(sources, interest, ctx, calls)
    }

    constructor ()
      ensures Valid() && sources == map[] && interest == map[] && calls == []
    {
      sources, interest, calls := map[], map[], [];
    }

    /** Stores the source under an unused key (any, so keys may be reused) and asks for
        readability. A descriptor that is registered already is refused by
        `EPOLL_CTL_ADD`, which ends the program. */
    method RegisterMut(fd: int, handler: (C, I) -> (C, Reply))
      requires Valid() && fd !in interest
      modifies this
      ensures Valid() && calls == old(calls)
      ensures exists key: nat ::
                && key !in old(sources)
                && sources == old(sources)[key := Source(fd, handler)]
                && interest == old(interest)[fd := key]
    {
      ghost var unused := UnusedKey(sources.Keys);
      assert exists k: nat :: k !in sources by { assert unused !in sources; }
      var key: nat :| key !in sources;
      sources := sources[key := Source(fd, handler)];
      interest := interest[fd := key];
    }

    /** Drops a source from the slab and the interest set. Taking a descriptor out of the
        kernel's set fails when it is not there, which never happens. */
    method Deregister(key: nat) returns (res: Result<(), int>)
      requires Valid()
      modifies this
      ensures Valid() && calls == old(calls) && res.Ok?
      ensures sources == old(sources) - {key}
      ensures interest == if key in old(sources) then old(interest) - {old(sources)[key].fd} else old(interest)
    {
      RemoveAgrees(sources, interest, key);
      if key !in sources {
        return Result.Ok(());
      }
      var source := sources[key];
      sources := sources - {key};
      if source.fd !in interest {
        return Err(-1);
      }
      interest := interest - {source.fd};
      res := Result.Ok(());
    }

    /** One `epoll_wait`, repeated while it is interrupted, and the handling of its batch. */
    method PollOnce(ctx: C, waits: seq<Wait<I>>) returns (after: C, verdict: Verdict, rest: seq<Wait<I>>)
      requires Valid()
      modifies this
      ensures Valid()
      ensures (View(after), verdict, rest) == Poll.PollOnce(old(View(ctx)), waits)
    {
      rest := waits;
      after := ctx;
      while rest != [] && rest[0].Interrupted?
        invariant Poll.PollOnce(old(View(ctx)), waits) == Poll.PollOnce(old(View(ctx)), rest)
        decreases |rest|
      {
        rest := rest[1..];
      }
      if rest == [] {
        return ctx, Blocked, [];
      }
      var wait := rest[0];
      rest := rest[1..];
      if wait.WaitFailed? {
        return ctx, Error(wait.errno), rest;
      }
      var events := Deliver(interest, wait.ready);
      DeliverDispatchable(sources, interest, wait.ready);
      ghost var before := View(ctx);
      after, verdict := DispatchAll(ctx, events);
      // epoll_wait on an empty set would block forever
      if verdict == Next && sources == map[] {
        verdict := Stopped;
      }
    }

    /** The `for event in &events[..ready]` loop. */
    method DispatchAll(ctx: C, events: seq<Event<I>>) returns (after: C, verdict: Verdict)
      requires Valid() && Dispatchable(sources, events)
      modifies this
      ensures Valid() && (View(after), verdict) == Dispatch(old(View(ctx)), events)
    {
      after := ctx;
      for i := 0 to |events|
        invariant Valid() && Dispatchable(sources, events[i..])
        invariant Dispatch(View(after), events[i..]) == Dispatch(old(View(ctx)), events)
      {
        var event := events[i];
        ghost var before := View(after);
        assert events[i..][0] == event && events[i..][1..] == events[i + 1..];
        HandleEventAgrees(before, event);
        if !IsIgnored(event.flags) {
          var key := event.key;
          var hangup := IsHangup(event.flags);
          var source := sources[key];
          var (next, reply) := source.handler(after, event.input);
          after := next;
          calls := calls + [Call(source.fd, key, event.flags, event.input, reply)];
          var action;
          match reply {
            case Ok(a) => action := a;
            case Failed(e) =>
              if !hangup {
                return after, Error(e);
              }
              action := Remove;
          }
          match action {
            case Stop => return after, Stopped;
            case Remove =>
              var res := Deregister(key);
            case Continue =>
              if hangup {
                var res := Deregister(key);
              }
          }
          assert (View(after), Next) == HandleEvent(before, event);
        }
      }
      assert events[|events|..] == [];
      verdict := Next;
    }

    /** `run`, for as long as there are waits. */
    method Run(ctx: C, waits: seq<Wait<I>>) returns (after: C, verdict: Verdict)
      requires Valid()
      modifies this
      ensures Valid() && (View(after), verdict) == RunPoll(old(View(ctx)), waits)
    {
      after := ctx;
      var rest := waits;
      while true
        invariant Valid() && RunPoll(View(after), rest) == RunPoll(old(View(ctx)), waits)
        decreases |rest|
      {
        after, verdict, rest := PollOnce(after, rest);
        if verdict != Next {
          return;
        }
      }
    }
  }
}
