/** The announce/retire protocol as a labelled transition system: threads that send ADD
    and then REMOVE through one bounded FIFO queue, and the collector that receives.

    A life is one run of one thread; the kernel may give its tid to a later life once it
    is over. A thread blocks while the queue is full, and may die at any moment, so a life
    can end without its REMOVE (it was cancelled, or its process was killed, and the main
    thread never sends one). A step that is not enabled changes nothing. */
module Protocol {
  import opened Prelude
  import opened Messages
  import opened ParsePerf
  import opened Collector
  import opened CollectorLaws
  import opened CollectorSessions
  import opened Handlers

  datatype Life = Life(tid: int, announced: bool, retired: bool, alive: bool)

  /** A message together with the life that sent it (the collector sees `raw` only). */
  datatype Packet = Packet(raw: RawMessage, life: nat)

  /** `sent` and `received` are all packets ever sent and received; `owner` names the life
      whose ADD opened each live session, and `ignored` collects the packets on which the
      collector did nothing: an ADD of a registered tid, a REMOVE of an unknown one. */
  datatype Sys = Sys(
    lives: map<nat, Life>,
    queue: seq<Packet>,
    sent: seq<Packet>,
    received: seq<Packet>,
    col: Col,
    owner: map<int, nat>,
    ignored: seq<Packet>,
    stamp: nat)

  datatype Step =
    | Spawn(life: nat, tid: int)
    | SendAdd(life: nat)
    | SendRemove(life: nat)
    | Die(life: nat)
    | Receive(opens: Opens, closing: Readings)
    | Tick(order: seq<int>, flushing: Readings)

  function Start(configs: seq<seq<PerfConfig>>): Sys {
    Sys(map[], [], [], [], Init(configs), map[], [], 0)
  }

  predicate IsAdd(p: Packet) {
    p.raw.flags == ADD_PROCESS
  }

  /** `mq_send` of one packet, with the sender's new state. */
  function Send(s: Sys, l: nat, after: Life, flags: nat): Sys {
    var p := Packet(RawMessage(after.tid, flags), l);
    s.(lives := s.lives[l := after], queue := s.queue + [p], sent := s.sent + [p])
  }

  function Deliver(s: Sys, opens: Opens, closing: Readings): Sys
    requires s.queue != []
  {
    var p := s.queue[0];
    s.(queue := s.queue[1..], received := s.received + [p], stamp := s.stamp + 1,
       col := Apply(s.col, QueueOp(Message(p.raw), opens, closing), s.stamp),
       ignored := if IsAdd(p) == (p.raw.tid in s.col.groups) then s.ignored + [p] else s.ignored,
       owner := if !IsAdd(p) then s.owner - {p.raw.tid}
                else if p.raw.tid in s.col.groups then s.owner
                else s.owner[p.raw.tid := p.life])
  }

  function Take(s: Sys, step: Step, capacity: nat): Sys {
    match step
    case Spawn(l, tid) =>
      if l in s.lives || exists m :: m in s.lives && s.lives[m].tid == tid && s.lives[m].alive then s
      else s.(lives := s.lives[l := Life(tid, false, false, true)])
    case SendAdd(l) =>
      if l !in s.lives || !s.lives[l].alive || s.lives[l].announced || |s.queue| >= capacity then s
      else Send(s, l, s.lives[l].(announced := true), ADD_PROCESS)
    case SendRemove(l) =>
      if l !in s.lives || !s.lives[l].alive || !s.lives[l].announced || s.lives[l].retired || |s.queue| >= capacity then s
      else Send(s, l, s.lives[l].(retired := true), REMOVE_PROCESS)
    case Die(l) =>
      if l !in s.lives then s else s.(lives := s.lives[l := s.lives[l].(alive := false)])
    case Receive(opens, closing) =>
      if s.queue == [] then s else Deliver(s, opens, closing)
    case Tick(order, flushing) =>
      s.(col := FlushAll(s.col, order, flushing), stamp := s.stamp + 1)
  }

  function Reach(configs: seq<seq<PerfConfig>>, steps: seq<Step>, capacity: nat): Sys {
    if steps == [] then Start(configs)
    else Take(Reach(configs, steps[..|steps| - 1], capacity), steps[|steps| - 1], capacity)
  }

  // ---- Streams of packets ----------------------------------------------------------

  /** The last packet of a tid. */
  function LastOf(ps: seq<Packet>, tid: int): Option<Packet> {
    if ps == [] then None
    else if ps[|ps| - 1].raw.tid == tid then Some(ps[|ps| - 1])
    else LastOf(ps[..|ps| - 1], tid)
  }

  predicate LastIsAdd(ps: seq<Packet>, tid: int) {
    LastOf(ps, tid).Some? && IsAdd(LastOf(ps, tid).value)
  }

  /** The registered tids after receiving some packets. */
  function Replay(keys: set<int>, ps: seq<Packet>): set<int> {
    if ps == [] then keys
    else
      var before := Replay(keys, ps[..|ps| - 1]);
      var p := ps[|ps| - 1];
      if IsAdd(p) then before + {p.raw.tid} else before - {p.raw.tid}
  }

  lemma {:induction false} LastOfSnoc(ps: seq<Packet>, p: Packet, tid: int)
    ensures LastOf(ps + [p], tid) == if p.raw.tid == tid then Some(p) else LastOf(ps, tid)
  {
    assert (ps + [p])[..|ps|] == ps;
  }

  lemma {:induction false} LastOfIn(ps: seq<Packet>, tid: int)
    ensures LastOf(ps, tid).Some? ==> LastOf(ps, tid).value in ps && LastOf(ps, tid).value.raw.tid == tid
  {
    if ps == [] {
    } else {
      LastOfIn(ps[..|ps| - 1], tid);
    }
  }

  lemma {:induction false} LastOfAppend(a: seq<Packet>, b: seq<Packet>, tid: int)
    ensures LastOf(a + b, tid) == if LastOf(b, tid).Some? then LastOf(b, tid) else LastOf(a, tid)
    decreases |b|
  {
    if b == [] {
      assert a + b == a;
    } else {
      var n := |b| - 1;
      LastOfAppend(a, b[..n], tid);
      LastOfSnoc(a + b[..n], b[n], tid);
      assert a + b == (a + b[..n]) + [b[n]];
    }
  }

  /** Replaying packets leaves exactly the tids whose last packet is an ADD, and the
      untouched ones. */
  lemma {:induction false} ReplayMeaning(keys: set<int>, ps: seq<Packet>, tid: int)
    ensures tid in Replay(keys, ps) <==> if LastOf(ps, tid).Some? then LastIsAdd(ps, tid) else tid in keys
  {
    if ps == [] {
    } else {
      ReplayMeaning(keys, ps[..|ps| - 1], tid);
    }
  }

  // ---- Invariants ------------------------------------------------------------------

  ghost predicate QueueInv(s: Sys, capacity: nat) {
    && s.sent == s.received + s.queue
    && |s.queue| <= capacity
    && (forall tid :: tid in s.col.groups <==> LastIsAdd(s.received, tid))
    && s.owner.Keys == s.col.groups.Keys
  }

  /** Packets and lives tell the same story. */
  ghost predicate Consistent(s: Sys, p: Packet) {
    && p.life in s.lives && p.raw.tid == s.lives[p.life].tid && s.lives[p.life].announced
    && (p.raw.flags == ADD_PROCESS || (p.raw.flags == REMOVE_PROCESS && s.lives[p.life].retired))
  }

  /** The packet a life sent last. */
  function Latest(l: nat, life: Life): Packet {
    Packet(RawMessage(life.tid, if life.retired then REMOVE_PROCESS else ADD_PROCESS), l)
  }

  ghost predicate LivesInv(s: Sys) {
    && (forall p :: p in s.sent ==> Consistent(s, p))
    && (forall l :: l in s.lives && s.lives[l].retired ==> s.lives[l].announced && Latest(l, s.lives[l]) in s.sent)
    && (forall l, m :: l in s.lives && m in s.lives && s.lives[l].alive && s.lives[m].alive ==>
          (s.lives[l].tid == s.lives[m].tid ==> l == m))
    && (forall l :: l in s.lives && s.lives[l].alive && s.lives[l].announced ==>
          LastOf(s.sent, s.lives[l].tid) == Some(Latest(l, s.lives[l])))
  }

  /** In the packets of one tid, a REMOVE directly follows its own life's ADD. */
  ghost predicate RemoveFollowsOwnAdd(ps: seq<Packet>) {
    forall i :: 0 <= i < |ps| && !IsAdd(ps[i]) ==>
      LastOf(ps[..i], ps[i].raw.tid) == Some(Packet(RawMessage(ps[i].raw.tid, ADD_PROCESS), ps[i].life))
  }

  lemma {:induction false} RemoveFollowsSnoc(ps: seq<Packet>, p: Packet)
    requires RemoveFollowsOwnAdd(ps)
    requires !IsAdd(p) ==> LastOf(ps, p.raw.tid) == Some(Packet(RawMessage(p.raw.tid, ADD_PROCESS), p.life))
    ensures RemoveFollowsOwnAdd(ps + [p])
  {
    forall i | 0 <= i < |ps + [p]| && !IsAdd((ps + [p])[i])
      ensures LastOf((ps + [p])[..i], (ps + [p])[i].raw.tid)
           == Some(Packet(RawMessage((ps + [p])[i].raw.tid, ADD_PROCESS), (ps + [p])[i].life))
    {
      assert (ps + [p])[..i] == ps[..i];
      assert ps[..|ps|] == ps;
    }
  }

  lemma {:induction false} SendKeepsLives(s: Sys, l: nat, after: Life, flags: nat)
    requires LivesInv(s) && l in s.lives && s.lives[l].alive
    requires (flags == ADD_PROCESS && !s.lives[l].announced && after == s.lives[l].(announced := true))
          || (flags == REMOVE_PROCESS && s.lives[l].announced && !s.lives[l].retired
              && after == s.lives[l].(retired := true))
    ensures LivesInv(Send(s, l, after, flags))
  {
    hide LastOf;
    var t := Send(s, l, after, flags);
    var p := Packet(RawMessage(after.tid, flags), l);
    forall tid ensures LastOf(t.sent, tid) == if p.raw.tid == tid then Some(p) else LastOf(s.sent, tid) {
      LastOfSnoc(s.sent, p, tid);
    }
    assert !s.lives[l].announced ==> !s.lives[l].retired;
    assert p == Latest(l, after);
    assert forall q :: q in t.sent <==> q in s.sent || q == p;
  }

  lemma {:induction false} SendKeeps(s: Sys, l: nat, after: Life, flags: nat, capacity: nat)
    requires QueueInv(s, capacity) && LivesInv(s) && RemoveFollowsOwnAdd(s.sent)
    requires l in s.lives && s.lives[l].alive && |s.queue| < capacity
    requires (flags == ADD_PROCESS && !s.lives[l].announced && after == s.lives[l].(announced := true))
          || (flags == REMOVE_PROCESS && s.lives[l].announced && !s.lives[l].retired
              && after == s.lives[l].(retired := true))
    ensures QueueInv(Send(s, l, after, flags), capacity) && LivesInv(Send(s, l, after, flags))
    ensures RemoveFollowsOwnAdd(Send(s, l, after, flags).sent)
  {
    hide RemoveFollowsOwnAdd, LastIsAdd, LastOf;
    SendKeepsLives(s, l, after, flags);
    var p := Packet(RawMessage(after.tid, flags), l);
    assert s.received + (s.queue + [p]) == s.sent + [p];
    assert flags == REMOVE_PROCESS ==> LastOf(s.sent, after.tid) == Some(Latest(l, s.lives[l]));
    RemoveFollowsSnoc(s.sent, p);
  }

  /** A received ADD leaves its tid registered, a received REMOVE leaves it unregistered. */
  lemma {:induction false} ReceiveKeys(c: Col, raw: RawMessage, opens: Opens, closing: Readings, stamp: nat)
    requires raw.flags == ADD_PROCESS || raw.flags == REMOVE_PROCESS
    ensures var d := Apply(c, QueueOp(Message(raw), opens, closing), stamp);
            d.groups.Keys == if raw.flags == ADD_PROCESS then c.groups.Keys + {raw.tid} else c.groups.Keys - {raw.tid}
  {
    hide OpenGroups;
    CloseEffect(c, raw.tid, closing);
  }

  lemma {:induction false} DeliverKeeps(s: Sys, opens: Opens, closing: Readings, capacity: nat)
    requires QueueInv(s, capacity) && LivesInv(s) && s.queue != []
    ensures QueueInv(Deliver(s, opens, closing), capacity)
  {
    hide Apply, LastOf, LastIsAdd, QueueOp;
    var p := s.queue[0];
    assert s.queue == [p] + s.queue[1..];
    assert p in s.sent && Consistent(s, p);
    ReceiveKeys(s.col, p.raw, opens, closing, s.stamp);
    forall tid ensures LastIsAdd(s.received + [p], tid) <==>
                         if p.raw.tid == tid then IsAdd(p) else LastIsAdd(s.received, tid) {
      LastIsAddSnoc(s.received, p, tid);
    }
    assert s.sent == (s.received + [p]) + s.queue[1..];
    var t := Deliver(s, opens, closing);
    assert forall tid :: tid in t.col.groups <==> tid in t.col.groups.Keys;
  }

  lemma {:induction false} LastIsAddSnoc(ps: seq<Packet>, p: Packet, tid: int)
    ensures LastIsAdd(ps + [p], tid) <==> if p.raw.tid == tid then IsAdd(p) else LastIsAdd(ps, tid)
  {
    LastOfSnoc(ps, p, tid);
  }

  ghost predicate Inv(s: Sys, capacity: nat) {
    QueueInv(s, capacity) && LivesInv(s) && RemoveFollowsOwnAdd(s.sent)
  }

  lemma {:induction false} ReachInv(configs: seq<seq<PerfConfig>>, steps: seq<Step>, capacity: nat)
    ensures Inv(Reach(configs, steps, capacity), capacity)
  {
    if steps == [] {
    } else {
      ReachInv(configs, steps[..|steps| - 1], capacity);
      TakeKeeps(Reach(configs, steps[..|steps| - 1], capacity), steps[|steps| - 1], capacity);
    }
  }

  lemma {:induction false} TakeKeeps(s: Sys, step: Step, capacity: nat)
    requires Inv(s, capacity)
    ensures Inv(Take(s, step, capacity), capacity)
  {
    hide RemoveFollowsOwnAdd, LivesInv, QueueInv, Deliver, Send, FlushAll;
    match step
    case Spawn(l, tid) =>
      if !(l in s.lives || exists m :: m in s.lives && s.lives[m].tid == tid && s.lives[m].alive) {
        SpawnKeeps(s, l, tid, capacity);
      }
    case SendAdd(l) =>
      if !(l !in s.lives || !s.lives[l].alive || s.lives[l].announced || |s.queue| >= capacity) {
        SendKeeps(s, l, s.lives[l].(announced := true), ADD_PROCESS, capacity);
      }
    case SendRemove(l) =>
      if !(l !in s.lives || !s.lives[l].alive || !s.lives[l].announced || s.lives[l].retired || |s.queue| >= capacity) {
        SendKeeps(s, l, s.lives[l].(retired := true), REMOVE_PROCESS, capacity);
      }
    case Die(l) =>
      if l in s.lives {
        DieKeeps(s, l, capacity);
      }
    case Receive(opens, closing) =>
      if s.queue != [] {
        DeliverKeeps(s, opens, closing, capacity);
        DeliverSame(s, opens, closing);
        SameLives(s, Deliver(s, opens, closing));
      }
    case Tick(order, flushing) =>
      TickKeeps(s, order, flushing, capacity);
  }

  lemma {:induction false} SpawnKeeps(s: Sys, l: nat, tid: int, capacity: nat)
    requires QueueInv(s, capacity) && LivesInv(s) && l !in s.lives
    requires forall m :: m in s.lives && s.lives[m].alive ==> s.lives[m].tid != tid
    ensures QueueInv(s.(lives := s.lives[l := Life(tid, false, false, true)]), capacity)
    ensures LivesInv(s.(lives := s.lives[l := Life(tid, false, false, true)]))
  {
    hide LastOf, LastIsAdd;
  }

  lemma {:induction false} DieKeeps(s: Sys, l: nat, capacity: nat)
    requires QueueInv(s, capacity) && LivesInv(s) && l in s.lives
    ensures QueueInv(s.(lives := s.lives[l := s.lives[l].(alive := false)]), capacity)
    ensures LivesInv(s.(lives := s.lives[l := s.lives[l].(alive := false)]))
  {
    hide LastOf, LastIsAdd;
  }

  lemma {:induction false} TickKeeps(s: Sys, order: seq<int>, flushing: Readings, capacity: nat)
    requires QueueInv(s, capacity) && LivesInv(s)
    ensures QueueInv(s.(col := FlushAll(s.col, order, flushing), stamp := s.stamp + 1), capacity)
    ensures LivesInv(s.(col := FlushAll(s.col, order, flushing), stamp := s.stamp + 1))
  {
    hide LastOf, LastIsAdd, FlushAll;
    FlushEffect(s.col, order, flushing);
  }

  lemma {:induction false} SameLives(s: Sys, t: Sys)
    requires LivesInv(s) && s.lives == t.lives && s.sent == t.sent
    ensures LivesInv(t)
  {
    hide LastOf;
    assert forall p :: p in t.sent ==> Consistent(s, p);
  }

  lemma {:induction false} DeliverSame(s: Sys, opens: Opens, closing: Readings)
    requires s.queue != []
    ensures Deliver(s, opens, closing).lives == s.lives && Deliver(s, opens, closing).sent == s.sent
  {
  }

  // ---- What the protocol guarantees ------------------------------------------------

  /** In every reachable state, letting the collector catch up with the queue registers
      exactly the tids whose last sent message is an ADD; and the queue never overflows. */
  lemma {:induction false} PendingReplay(configs: seq<seq<PerfConfig>>, steps: seq<Step>, capacity: nat, tid: int)
    ensures var s := Reach(configs, steps, capacity);
            && |s.queue| <= capacity
            && (tid in Replay(s.col.groups.Keys, s.queue) <==> LastIsAdd(s.sent, tid))
  {
    hide FlushAll;
    ReachInv(configs, steps, capacity);
    var s := Reach(configs, steps, capacity);
    ReplayMeaning(s.col.groups.Keys, s.queue, tid);
    LastOfAppend(s.received, s.queue, tid);
  }

  lemma {:induction false} HeadPosition(s: Sys, capacity: nat)
    requires Inv(s, capacity) && s.queue != []
    ensures s.queue[0] in s.sent && s.sent[|s.received|] == s.queue[0] && s.sent[..|s.received|] == s.received
  {
  }

  /** A REMOVE always finds its tid registered, even when threads are lost. */
  lemma {:induction false} RemoveAlwaysFinds(configs: seq<seq<PerfConfig>>, steps: seq<Step>, capacity: nat)
    ensures var s := Reach(configs, steps, capacity);
            s.queue != [] && !IsAdd(s.queue[0]) ==> s.queue[0].raw.tid in s.col.groups
  {
    hide Reach;
    ReachInv(configs, steps, capacity);
    if Reach(configs, steps, capacity).queue != [] {
      HeadFindsTid(Reach(configs, steps, capacity), capacity);
    }
  }

  /** An ADD finds its tid registered already, and is ignored, exactly when the life that
      last used the tid was lost without retiring. */
  lemma {:induction false} AddIgnoredIff(configs: seq<seq<PerfConfig>>, steps: seq<Step>, capacity: nat)
    ensures var s := Reach(configs, steps, capacity);
            s.queue != [] && IsAdd(s.queue[0]) ==>
              var before := LastOf(s.received, s.queue[0].raw.tid);
              (s.queue[0].raw.tid in s.col.groups <==>
                 before.Some? && before.value.life in s.lives && !s.lives[before.value.life].retired)
  {
    ReachInv(configs, steps, capacity);
    ReachAddOnce(configs, steps, capacity);
    hide Reach;
    var s := Reach(configs, steps, capacity);
    if s.queue != [] && IsAdd(s.queue[0]) {
      HeadPosition(s, capacity);
      var tid := s.queue[0].raw.tid;
      var before := LastOf(s.received, tid);
      LastOfIn(s.received, tid);
      if before.Some? {
        assert before.value in s.sent && Consistent(s, before.value);
        if IsAdd(before.value) && s.lives[before.value.life].retired {
          LostLifeNeverRetires(s, capacity, before.value);
          assert false;
        }
      }
    }
  }

  /** Each life announces itself once. */
  ghost predicate AddOnce(ps: seq<Packet>) {
    forall i, j :: 0 <= i < j < |ps| && IsAdd(ps[i]) && IsAdd(ps[j]) ==> ps[i].life != ps[j].life
  }

  lemma {:induction false} ReachAddOnce(configs: seq<seq<PerfConfig>>, steps: seq<Step>, capacity: nat)
    ensures AddOnce(Reach(configs, steps, capacity).sent)
  {
    if steps == [] {
    } else {
      hide Take, AddOnce;
      ReachAddOnce(configs, steps[..|steps| - 1], capacity);
      ReachInv(configs, steps[..|steps| - 1], capacity);
      AddOnceStep(Reach(configs, steps[..|steps| - 1], capacity), steps[|steps| - 1], capacity);
    }
  }

  lemma {:induction false} AddOnceStep(s: Sys, step: Step, capacity: nat)
    requires Inv(s, capacity) && AddOnce(s.sent)
    ensures AddOnce(Take(s, step, capacity).sent)
  {
    hide QueueInv, RemoveFollowsOwnAdd, FlushAll, Deliver, LastOf;
    assert forall i :: 0 <= i < |s.sent| ==> s.sent[i] in s.sent && Consistent(s, s.sent[i]);
    if step.Receive? && s.queue != [] {
      DeliverSame(s, step.opens, step.closing);
    }
  }

  lemma {:induction false} LastOfAt(ps: seq<Packet>, tid: int) returns (k: nat)
    requires LastOf(ps, tid).Some?
    ensures k < |ps| && ps[k] == LastOf(ps, tid).value && ps[k].raw.tid == tid
    ensures forall j :: k < j < |ps| ==> ps[j].raw.tid != tid
  {
    if ps[|ps| - 1].raw.tid == tid {
      k := |ps| - 1;
    } else {
      k := LastOfAt(ps[..|ps| - 1], tid);
    }
  }

  /** A life's REMOVE comes after its ADD, with no packet of the tid in between. */
  lemma {:induction false} RemoveDirectlyFollows(ps: seq<Packet>, k: nat, j: nat)
    requires RemoveFollowsOwnAdd(ps) && AddOnce(ps)
    requires k < |ps| && j < |ps| && IsAdd(ps[k]) && !IsAdd(ps[j])
    requires ps[k].life == ps[j].life && ps[k].raw.tid == ps[j].raw.tid
    ensures k < j && forall m :: k < m < j ==> ps[m].raw.tid != ps[k].raw.tid
  {
    var tid := ps[k].raw.tid;
    var own := Packet(RawMessage(tid, ADD_PROCESS), ps[k].life);
    assert LastOf(ps[..j], tid) == Some(own);
    var a := LastOfAt(ps[..j], tid);
    assert ps[a] == own;
    assert a == k;
    forall m | k < m < j ensures ps[m].raw.tid != tid {
      assert ps[..j][m] == ps[m];
    }
  }

  /** Once another life has announced itself under the tid, the earlier life cannot have
      retired after its own ADD. */
  lemma {:induction false} LostLifeNeverRetires(s: Sys, capacity: nat, q: Packet)
    requires Inv(s, capacity) && AddOnce(s.sent) && s.queue != [] && IsAdd(s.queue[0])
    requires LastOf(s.received, s.queue[0].raw.tid) == Some(q) && IsAdd(q) && q.life in s.lives
    ensures !s.lives[q.life].retired
  {
    HeadPosition(s, capacity);
    var tid, n := s.queue[0].raw.tid, |s.received|;
    var k := LastOfAt(s.received, tid);
    assert s.sent[k] == q && q in s.sent && Consistent(s, q);
    assert forall j :: 0 <= j < n ==> s.received[j] == s.sent[j];
    if s.lives[q.life].retired {
      var r := Latest(q.life, s.lives[q.life]);
      var j :| 0 <= j < |s.sent| && s.sent[j] == r;
      RemoveDirectlyFollows(s.sent, k, j);
      assert false;
    }
  }

  /** Within the packets of each tid, an ADD never follows an ADD. */
  ghost predicate ReusedAfterRemove(ps: seq<Packet>) {
    forall i :: 0 <= i < |ps| && IsAdd(ps[i]) ==> !LastIsAdd(ps[..i], ps[i].raw.tid)
  }

  lemma {:induction false} ReusedSnoc(ps: seq<Packet>, p: Packet)
    ensures ReusedAfterRemove(ps + [p]) <==>
              ReusedAfterRemove(ps) && (IsAdd(p) ==> !LastIsAdd(ps, p.raw.tid))
  {
    hide LastIsAdd;
    var all := ps + [p];
    assert all[..|ps|] == ps && all[|ps|] == p;
    assert forall i :: 0 <= i < |ps| ==> all[..i] == ps[..i] && all[i] == ps[i];
    if ReusedAfterRemove(all) {
      forall i | 0 <= i < |ps| && IsAdd(ps[i]) ensures !LastIsAdd(ps[..i], ps[i].raw.tid) {
        assert IsAdd(all[i]);
      }
    }
  }

  /** Only ADDs are ever ignored; none is exactly when tids were reused only after their
      REMOVE; and then every session belongs to the life that announced itself last. */
  ghost predicate Paired(s: Sys) {
    && (forall p :: p in s.ignored ==> IsAdd(p))
    && (s.ignored == [] <==> ReusedAfterRemove(s.received))
    && (ReusedAfterRemove(s.received) ==>
          forall tid :: tid in s.owner ==>
            LastOf(s.received, tid).Some? && LastOf(s.received, tid).value.life == s.owner[tid])
  }

  lemma {:induction false} DeliverPairs(s: Sys, opens: Opens, closing: Readings, capacity: nat)
    requires Inv(s, capacity) && Paired(s) && s.queue != []
    ensures Paired(Deliver(s, opens, closing))
  {
    hide Apply, LastOf, ReusedAfterRemove, LivesInv;
    var p := s.queue[0];
    HeadFindsTid(s, capacity);
    ReusedSnoc(s.received, p);
    forall tid ensures LastOf(s.received + [p], tid) == if p.raw.tid == tid then Some(p) else LastOf(s.received, tid) {
      LastOfSnoc(s.received, p, tid);
    }
  }

  lemma {:induction false} HeadFindsTid(s: Sys, capacity: nat)
    requires Inv(s, capacity) && s.queue != []
    ensures !IsAdd(s.queue[0]) ==> s.queue[0].raw.tid in s.col.groups
  {
    hide LastOf;
    HeadPosition(s, capacity);
  }

  lemma {:induction false} ReachPaired(configs: seq<seq<PerfConfig>>, steps: seq<Step>, capacity: nat)
    ensures Paired(Reach(configs, steps, capacity))
  {
    if steps != [] {
      hide Inv, Paired, Take;
      ReachPaired(configs, steps[..|steps| - 1], capacity);
      ReachInv(configs, steps[..|steps| - 1], capacity);
      PairedStep(Reach(configs, steps[..|steps| - 1], capacity), steps[|steps| - 1], capacity);
    } else {
      assert ReusedAfterRemove([]);
    }
  }

  lemma {:induction false} PairedStep(s: Sys, step: Step, capacity: nat)
    requires Inv(s, capacity) && Paired(s)
    ensures Paired(Take(s, step, capacity))
  {
    hide Inv, LastOf, ReusedAfterRemove, FlushAll, Deliver;
    if step.Receive? && s.queue != [] {
      DeliverPairs(s, step.opens, step.closing, capacity);
    }
  }

  /** Over every run: the collector acts on every message it receives if and only if tids
      are reused only after their REMOVE. */
  lemma {:induction false} NothingIgnoredIff(configs: seq<seq<PerfConfig>>, steps: seq<Step>, capacity: nat)
    ensures var s := Reach(configs, steps, capacity);
            && (s.ignored == [] <==> ReusedAfterRemove(s.received))
            && (forall p :: p in s.ignored ==> IsAdd(p))
  {
    ReachPaired(configs, steps, capacity);
  }

  /** Pairing: when tids are reused only after their REMOVE, the next ADD opens a session of
      its own, and the next REMOVE closes the session that its own life opened. */
  lemma {:induction false} Pairing(configs: seq<seq<PerfConfig>>, steps: seq<Step>, capacity: nat,
                                   opens: Opens, closing: Readings)
    requires ReusedAfterRemove(Reach(configs, steps, capacity).sent)
    requires Reach(configs, steps, capacity).queue != []
    ensures var s := Reach(configs, steps, capacity);
            var p := s.queue[0];
            var t := Deliver(s, opens, closing);
            && (IsAdd(p) ==> p.raw.tid !in s.col.groups && p.raw.tid in t.owner && t.owner[p.raw.tid] == p.life)
            && (!IsAdd(p) ==> p.raw.tid in s.owner && s.owner[p.raw.tid] == p.life && p.raw.tid !in t.col.groups)
  {
    ReachInv(configs, steps, capacity);
    ReachPaired(configs, steps, capacity);
    hide Reach, Apply, LastOf, QueueOp;
    var s := Reach(configs, steps, capacity);
    var p := s.queue[0];
    HeadPosition(s, capacity);
    ReusedPrefix(s.received, s.queue);
    assert Consistent(s, p);
    ReceiveKeys(s.col, p.raw, opens, closing, s.stamp);
    assert IsAdd(p) ==> !LastIsAdd(s.received, p.raw.tid);
  }

  lemma {:induction false} ReusedPrefix(a: seq<Packet>, b: seq<Packet>)
    requires ReusedAfterRemove(a + b)
    ensures ReusedAfterRemove(a)
  {
    hide LastIsAdd;
    forall i | 0 <= i < |a| && IsAdd(a[i]) ensures !LastIsAdd(a[..i], a[i].raw.tid) {
      assert (a + b)[i] == a[i] && (a + b)[..i] == a[..i];
    }
  }

  /** A life sends at most its ADD and then its REMOVE. */
  function SentBy(ps: seq<Packet>, l: nat): seq<RawMessage> {
    if ps == [] then []
    else SentBy(ps[..|ps| - 1], l) + (if ps[|ps| - 1].life == l then [ps[|ps| - 1].raw] else [])
  }

  function Story(l: nat, lives: map<nat, Life>): seq<RawMessage> {
    if l !in lives || !lives[l].announced then []
    else
      [ToRaw(ThreadstatMessage(lives[l].tid, AddProcess))]
      + (if lives[l].retired then [ToRaw(ThreadstatMessage(lives[l].tid, RemoveProcess))] else [])
  }

  lemma {:induction false} LifeMessages(configs: seq<seq<PerfConfig>>, steps: seq<Step>, capacity: nat, l: nat)
    ensures SentBy(Reach(configs, steps, capacity).sent, l) == Story(l, Reach(configs, steps, capacity).lives)
  {
    if steps == [] {
      assert SentBy([], l) == [];
    } else {
      hide Take, Inv, SentBy, Story;
      LifeMessages(configs, steps[..|steps| - 1], capacity, l);
      var s := Reach(configs, steps[..|steps| - 1], capacity);
      ReachInv(configs, steps[..|steps| - 1], capacity);
      RetiredAnnounced(s, capacity);
      LifeStep(s, steps[|steps| - 1], capacity, l);
    }
  }

  lemma {:induction false} LifeStep(s: Sys, step: Step, capacity: nat, l: nat)
    requires SentBy(s.sent, l) == Story(l, s.lives)
    requires forall m :: m in s.lives && s.lives[m].retired ==> s.lives[m].announced
    ensures SentBy(Take(s, step, capacity).sent, l) == Story(l, Take(s, step, capacity).lives)
  {
    hide Deliver, FlushAll, SentBy;
    match step
    case Spawn(m, tid) =>
    case SendAdd(m) =>
      if m in s.lives {
        SentBySend(s, m, s.lives[m].(announced := true), ADD_PROCESS, l);
      }
    case SendRemove(m) =>
      if m in s.lives {
        SentBySend(s, m, s.lives[m].(retired := true), REMOVE_PROCESS, l);
      }
    case Die(m) =>
    case Receive(opens, closing) =>
      if s.queue != [] {
        DeliverSame(s, opens, closing);
      }
    case Tick(order, flushing) =>
  }

  lemma {:induction false} SentBySend(s: Sys, m: nat, after: Life, flags: nat, l: nat)
    ensures SentBy(Send(s, m, after, flags).sent, l) ==
              SentBy(s.sent, l) + (if m == l then [RawMessage(after.tid, flags)] else [])
  {
    var p := Packet(RawMessage(after.tid, flags), m);
    assert (s.sent + [p])[..|s.sent|] == s.sent;
  }

  lemma {:induction false} RetiredAnnounced(s: Sys, capacity: nat)
    requires Inv(s, capacity)
    ensures forall l :: l in s.lives && s.lives[l].retired ==> s.lives[l].announced
  {
  }

  // ---- The collector inside the system ---------------------------------------------

  /** What makes the collector act: a message it receives, or a tick of the flush timer. */
  datatype Event = Arrived(packet: Packet) | Ticked

  function EventOf(s: Sys, step: Step): seq<Event> {
    if step.Receive? && s.queue != [] then [Arrived(s.queue[0])]
    else if step.Tick? then [Ticked]
    else []
  }

  function EventsOf(configs: seq<seq<PerfConfig>>, steps: seq<Step>, capacity: nat): seq<Event> {
    if steps == [] then []
    else
      var front, last := steps[..|steps| - 1], steps[|steps| - 1];
      EventsOf(configs, front, capacity) + EventOf(Reach(configs, front, capacity), last)
  }

  function OpOf(s: Sys, step: Step): seq<Op> {
    if step.Receive? && s.queue != [] then [QueueOp(Message(s.queue[0].raw), step.opens, step.closing)]
    else if step.Tick? then [Op.Flush(step.order, step.flushing)]
    else []
  }

  function OpsOf(configs: seq<seq<PerfConfig>>, steps: seq<Step>, capacity: nat): seq<Op> {
    if steps == [] then []
    else
      var front, last := steps[..|steps| - 1], steps[|steps| - 1];
      OpsOf(configs, front, capacity) + OpOf(Reach(configs, front, capacity), last)
  }

  /** The packets among some events, in order. */
  function PacketsOf(events: seq<Event>): seq<Packet> {
    if events == [] then []
    else
      var last := events[|events| - 1];
      PacketsOf(events[..|events| - 1]) + (if last.Arrived? then [last.packet] else [])
  }

  /** An arriving ADD opens its tid, an arriving REMOVE closes it, a tick flushes. */
  predicate Answers(op: Op, ev: Event) {
    match ev
    case Arrived(p) => if IsAdd(p) then op.Open? && op.tid == p.raw.tid else op.Close? && op.tid == p.raw.tid
    case Ticked => op.Flush?
  }

  predicate AnswersAll(ops: seq<Op>, events: seq<Event>) {
    |ops| == |events| && forall k :: 0 <= k < |ops| ==> Answers(ops[k], events[k])
  }

  function TickSteps(steps: seq<Step>): nat {
    if steps == [] then 0
    else TickSteps(steps[..|steps| - 1]) + (if steps[|steps| - 1].Tick? then 1 else 0)
  }

  function TicksIn(events: seq<Event>): nat {
    if events == [] then 0
    else TicksIn(events[..|events| - 1]) + (if events[|events| - 1].Ticked? then 1 else 0)
  }

  /** The collector of `s` is the result of `ops`, which answer `events` one by one; those are
      the packets received, in order, and one tick for each of `ticks`. */
  ghost predicate RunsAs(configs: seq<seq<PerfConfig>>, s: Sys, ops: seq<Op>, events: seq<Event>, ticks: nat) {
    && s.col == Run(Init(configs), ops)
    && |ops| == s.stamp && AnswersAll(ops, events)
    && PacketsOf(events) == s.received && TicksIn(events) == ticks
  }

  /** The collector inside every reachable state is the result of a sequence of operations
      that opens and closes as the received packets say, in their order, and flushes once
      per tick; so every law of the collector holds of it. */
  lemma {:induction false} ReachIsRun(configs: seq<seq<PerfConfig>>, steps: seq<Step>, capacity: nat)
    ensures RunsAs(configs, Reach(configs, steps, capacity), OpsOf(configs, steps, capacity),
                   EventsOf(configs, steps, capacity), TickSteps(steps))
  {
    if steps == [] {
    } else {
      hide Take, Run, OpOf, EventOf, PacketsOf, AnswersAll, TicksIn, Inv;
      var front, last := steps[..|steps| - 1], steps[|steps| - 1];
      var s := Reach(configs, front, capacity);
      ReachIsRun(configs, front, capacity);
      ReachInv(configs, front, capacity);
      StepIsRun(configs, s, last, capacity, OpsOf(configs, front, capacity));
      StepAnswers(s, last, capacity, OpsOf(configs, front, capacity), EventsOf(configs, front, capacity));
    }
  }

  lemma {:induction false} StepIsRun(configs: seq<seq<PerfConfig>>, s: Sys, step: Step, capacity: nat, before: seq<Op>)
    requires |before| == s.stamp && s.col == Run(Init(configs), before)
    ensures var t := Take(s, step, capacity);
            |before + OpOf(s, step)| == t.stamp && t.col == Run(Init(configs), before + OpOf(s, step))
  {
    hide Apply, QueueOp, LastOf;
    if OpOf(s, step) == [] {
      assert before + [] == before;
    } else {
      RunOneMore(configs, before, OpOf(s, step)[0]);
      if step.Tick? {
        TickApplies(s.col, step.order, step.flushing, s.stamp);
      }
    }
  }

  lemma {:induction false} RunOneMore(configs: seq<seq<PerfConfig>>, before: seq<Op>, op: Op)
    ensures Run(Init(configs), before + [op]) == Apply(Run(Init(configs), before), op, |before|)
  {
    hide Apply;
    assert (before + [op])[..|before|] == before;
  }

  lemma {:induction false} TickApplies(c: Col, order: seq<int>, flushing: Readings, stamp: nat)
    ensures Apply(c, Op.Flush(order, flushing), stamp) == FlushAll(c, order, flushing)
  {
    hide FlushAll;
  }

  lemma {:induction false} StepAnswers(s: Sys, step: Step, capacity: nat, ops: seq<Op>, events: seq<Event>)
    requires Inv(s, capacity) && AnswersAll(ops, events) && PacketsOf(events) == s.received
    ensures AnswersAll(ops + OpOf(s, step), events + EventOf(s, step))
    ensures PacketsOf(events + EventOf(s, step)) == Take(s, step, capacity).received
    ensures TicksIn(events + EventOf(s, step)) == TicksIn(events) + (if step.Tick? then 1 else 0)
  {
    hide FlushAll, Apply, Inv, Answers, QueueOp, PacketsOf, TicksIn;
    if step.Receive? && s.queue != [] {
      HeadAnswered(s, capacity, step.opens, step.closing);
      PacketsSnoc(events, Arrived(s.queue[0]));
    } else if step.Tick? {
      PacketsSnoc(events, Ticked);
      assert Answers(Op.Flush(step.order, step.flushing), Ticked) by { TickAnswered(step.order, step.flushing); }
      assert s.received + [] == s.received;
    } else {
      assert events + [] == events && ops + [] == ops;
    }
  }

  lemma {:induction false} HeadAnswered(s: Sys, capacity: nat, opens: Opens, closing: Readings)
    requires Inv(s, capacity) && s.queue != []
    ensures Answers(QueueOp(Message(s.queue[0].raw), opens, closing), Arrived(s.queue[0]))
  {
    hide RemoveFollowsOwnAdd, LastOf, LastIsAdd;
    assert s.queue[0] in s.sent && Consistent(s, s.queue[0]);
  }

  lemma {:induction false} TickAnswered(order: seq<int>, flushing: Readings)
    ensures Answers(Op.Flush(order, flushing), Ticked)
  {
  }

  lemma {:induction false} PacketsSnoc(events: seq<Event>, ev: Event)
    ensures PacketsOf(events + [ev]) == PacketsOf(events) + (if ev.Arrived? then [ev.packet] else [])
    ensures TicksIn(events + [ev]) == TicksIn(events) + (if ev.Ticked? then 1 else 0)
  {
    assert (events + [ev])[..|events|] == events;
  }

  // ---- Reads per life --------------------------------------------------------------

  /** After any operations that answer some events, the registered tids are those whose
      last packet is an ADD. */
  lemma {:induction false} KeysOfRun(configs: seq<seq<PerfConfig>>, ops: seq<Op>, events: seq<Event>, tid: int)
    requires AnswersAll(ops, events)
    ensures tid in Run(Init(configs), ops).groups <==> LastIsAdd(PacketsOf(events), tid)
    decreases |ops|
  {
    hide FlushAll, OpenGroups, CloseTid, LastIsAdd, PacketsOf, Tabulated;
    if ops == [] {
      NoPackets(tid);
    } else {
      var n := |ops| - 1;
      KeysOfRun(configs, ops[..n], events[..n], tid);
      var c := Run(Init(configs), ops[..n]);
      assert events == events[..n] + [events[n]] && Answers(ops[n], events[n]);
      PacketsSnoc(events[..n], events[n]);
      match ops[n] {
        case Open(_, _) => LastIsAddSnoc(PacketsOf(events[..n]), events[n].packet, tid);
        case Close(t, readings) =>
          CloseEffect(c, t, readings);
          LastIsAddSnoc(PacketsOf(events[..n]), events[n].packet, tid);
        case Flush(order, readings) =>
          FlushEffect(c, order, readings);
          assert PacketsOf(events[..n]) + [] == PacketsOf(events[..n]);
        case Nothing =>
      }
    }
  }

  lemma {:induction false} NoPackets(tid: int)
    ensures !LastIsAdd(PacketsOf([]), tid)
  {
  }

  /** Between events `o` and `k` the REMOVE of life `l` has arrived. */
  predicate RetiredBy(events: seq<Event>, o: nat, k: nat, l: nat)
    requires k <= |events|
  {
    exists j :: o < j < k && events[j].Arrived? && !IsAdd(events[j].packet) && events[j].packet.life == l
  }

  /** Ticks between event `o` and the arrival of the REMOVE of life `l`, or event `k`. */
  function TicksDuring(events: seq<Event>, o: nat, k: nat, l: nat): nat
    requires o < k <= |events|
  {
    if k == o + 1 then 0
    else TicksDuring(events, o, k - 1, l) + (if !RetiredBy(events, o, k - 1, l) && events[k - 1].Ticked? then 1 else 0)
  }

  /** Packets agree on the tid of a life. */
  ghost predicate OneTidPerLife(ps: seq<Packet>) {
    forall p, q :: p in ps && q in ps && p.life == q.life ==> p.raw.tid == q.raw.tid
  }

  lemma {:induction false} PacketsPrefix(events: seq<Event>, k: nat)
    requires k < |events|
    ensures events[..k + 1] == events[..k] + [events[k]]
    ensures PacketsOf(events[..k + 1]) == PacketsOf(events[..k]) + (if events[k].Arrived? then [events[k].packet] else [])
    ensures PacketsOf(events[..k]) <= PacketsOf(events[..k + 1]) <= PacketsOf(events)
    decreases |events|
  {
    assert events[..k + 1] == events[..k] + [events[k]];
    PacketsSnoc(events[..k], events[k]);
    if k + 1 == |events| {
      assert events[..k + 1] == events;
    } else {
      var n := |events| - 1;
      PacketsPrefix(events[..n], k);
      assert events[..n][..k] == events[..k] && events[..n][..k + 1] == events[..k + 1];
    }
  }

  /** An arriving packet stands at its place among the packets. */
  lemma {:induction false} ArrivedAt(events: seq<Event>, k: nat)
    requires k < |events| && events[k].Arrived?
    ensures var n := |PacketsOf(events[..k])|;
            && n < |PacketsOf(events)| && PacketsOf(events)[n] == events[k].packet
            && PacketsOf(events)[..n] == PacketsOf(events[..k])
  {
    PacketsPrefix(events, k);
  }

  /** The session that life `l`'s ADD opens at event `o` stays open until its own REMOVE. */
  lemma {:induction false} OpenUntilRemove(ops: seq<Op>, events: seq<Event>, o: nat, k: nat)
    requires AnswersAll(ops, events) && o < k <= |ops|
    requires events[o].Arrived? && IsAdd(events[o].packet)
    requires RemoveFollowsOwnAdd(PacketsOf(events)) && ReusedAfterRemove(PacketsOf(events))
    requires OneTidPerLife(PacketsOf(events))
    ensures ops[o].Open?
    ensures StillOpen(ops, o, k) <==> !RetiredBy(events, o, k, events[o].packet.life)
    ensures FlushesWhileOpen(ops, o, k) == TicksDuring(events, o, k, events[o].packet.life)
    ensures StillOpen(ops, o, k) ==> LastOf(PacketsOf(events[..k]), events[o].packet.raw.tid) == Some(events[o].packet)
    decreases k
  {
    hide RemoveFollowsOwnAdd, ReusedAfterRemove, OneTidPerLife, PacketsOf, LastOf;
    var p := events[o].packet;
    assert Answers(ops[o], events[o]);
    if k == o + 1 {
      PacketsPrefix(events, o);
      LastOfSnoc(PacketsOf(events[..o]), p, p.raw.tid);
    } else {
      OpenUntilRemove(ops, events, o, k - 1);
      OpenStep(ops, events, o, k - 1);
    }
  }

  lemma {:induction false} OpenStep(ops: seq<Op>, events: seq<Event>, o: nat, k: nat)
    requires AnswersAll(ops, events) && o < k < |ops|
    requires events[o].Arrived? && IsAdd(events[o].packet) && ops[o].Open?
    requires RemoveFollowsOwnAdd(PacketsOf(events)) && ReusedAfterRemove(PacketsOf(events))
    requires OneTidPerLife(PacketsOf(events))
    requires StillOpen(ops, o, k) <==> !RetiredBy(events, o, k, events[o].packet.life)
    requires StillOpen(ops, o, k) ==> LastOf(PacketsOf(events[..k]), events[o].packet.raw.tid) == Some(events[o].packet)
    ensures StillOpen(ops, o, k + 1) <==> !RetiredBy(events, o, k + 1, events[o].packet.life)
    ensures StillOpen(ops, o, k + 1) ==>
              LastOf(PacketsOf(events[..k + 1]), events[o].packet.raw.tid) == Some(events[o].packet)
  {
    hide RemoveFollowsOwnAdd, ReusedAfterRemove, OneTidPerLife, PacketsOf, LastOf;
    var p := events[o].packet;
    assert Answers(ops[k], events[k]) && Answers(ops[o], events[o]);
    assert StillOpen(ops, o, k + 1) <==> StillOpen(ops, o, k) && !ClosesFor(ops, o, k);
    RetiredStep(events, o, k, p.life);
    PacketsPrefix(events, k);
    match events[k] {
      case Ticked =>
        assert PacketsOf(events[..k]) + [] == PacketsOf(events[..k]);
      case Arrived(q) =>
        LastOfSnoc(PacketsOf(events[..k]), q, p.raw.tid);
        SameLife(events, o, k);
    }
  }

  lemma {:induction false} RetiredStep(events: seq<Event>, o: nat, k: nat, l: nat)
    requires o < k < |events|
    ensures RetiredBy(events, o, k + 1, l) <==>
              RetiredBy(events, o, k, l)
              || (events[k].Arrived? && !IsAdd(events[k].packet) && events[k].packet.life == l)
  {
  }

  /** While an ADD is the last packet of its tid, the next one of that tid is the REMOVE of
      the same life; and that life uses no other tid. */
  lemma {:induction false} SameLife(events: seq<Event>, o: nat, k: nat)
    requires o < k < |events| && events[o].Arrived? && events[k].Arrived? && IsAdd(events[o].packet)
    requires RemoveFollowsOwnAdd(PacketsOf(events)) && ReusedAfterRemove(PacketsOf(events))
    requires OneTidPerLife(PacketsOf(events))
    ensures events[k].packet.life == events[o].packet.life ==> events[k].packet.raw.tid == events[o].packet.raw.tid
    ensures LastOf(PacketsOf(events[..k]), events[o].packet.raw.tid) == Some(events[o].packet)
            && events[k].packet.raw.tid == events[o].packet.raw.tid ==>
              !IsAdd(events[k].packet) && events[k].packet.life == events[o].packet.life
  {
    hide LastOf, PacketsOf;
    ArrivedAt(events, k);
    ArrivedAt(events, o);
    assert events[o].packet in PacketsOf(events) && events[k].packet in PacketsOf(events);
  }

  /** Reads of a life, over every run in which tids are reused only after their REMOVE: each
      group that its ADD opened has been read once per tick between the arrivals of its ADD
      and of its REMOVE, and once more if that REMOVE has arrived. */
  lemma {:induction false} ReadsPerLife(configs: seq<seq<PerfConfig>>, steps: seq<Step>, capacity: nat, o: nat, g: nat)
    requires ReusedAfterRemove(Reach(configs, steps, capacity).received)
    requires var events := EventsOf(configs, steps, capacity);
             o < |events| && events[o].Arrived? && IsAdd(events[o].packet)
    ensures var s := Reach(configs, steps, capacity);
            var ops, events := OpsOf(configs, steps, capacity), EventsOf(configs, steps, capacity);
            var l := events[o].packet.life;
            && OpensAt(configs, ops, o) && ops[o].tid == events[o].packet.raw.tid
            && Count(s.col.log, o, g) ==
                 if g >= |GroupsAt(configs, ops, o)| then 0
                 else TicksDuring(events, o, |events|, l) + (if RetiredBy(events, o, |events|, l) then 1 else 0)
  {
    hide Reach, Run, EventsOf, OpsOf, PacketsOf, Count, LastOf, LastIsAdd, GroupsAt, ReusedAfterRemove, RemoveFollowsOwnAdd;
    var s := Reach(configs, steps, capacity);
    var ops, events := OpsOf(configs, steps, capacity), EventsOf(configs, steps, capacity);
    ReachIsRun(configs, steps, capacity);
    ReachInv(configs, steps, capacity);
    ReceivedFacts(s, capacity);
    OpensOwnSession(configs, ops, events, o);
    OpenUntilRemove(ops, events, o, |ops|);
    SessionAccounting(configs, ops, o, g);
  }

  lemma {:induction false} OpensOwnSession(configs: seq<seq<PerfConfig>>, ops: seq<Op>, events: seq<Event>, o: nat)
    requires AnswersAll(ops, events) && ReusedAfterRemove(PacketsOf(events))
    requires o < |events| && events[o].Arrived? && IsAdd(events[o].packet)
    ensures OpensAt(configs, ops, o) && ops[o].tid == events[o].packet.raw.tid
  {
    hide Run, LastIsAdd, PacketsOf;
    assert Answers(ops[o], events[o]);
    ArrivedAt(events, o);
    KeysOfRun(configs, ops[..o], events[..o], events[o].packet.raw.tid);
  }

  /** What holds of the packets sent holds of those received. */
  lemma {:induction false} ReceivedFacts(s: Sys, capacity: nat)
    requires Inv(s, capacity)
    ensures RemoveFollowsOwnAdd(s.received) && OneTidPerLife(s.received)
  {
    hide LastOf, LastIsAdd;
    assert forall i :: 0 <= i < |s.received| ==> s.received[i] == s.sent[i] && s.received[..i] == s.sent[..i];
    assert forall p :: p in s.received ==> p in s.sent && Consistent(s, p);
  }

  lemma {:induction false} ReachSnoc(configs: seq<seq<PerfConfig>>, steps: seq<Step>, step: Step, capacity: nat)
    ensures Reach(configs, steps + [step], capacity) == Take(Reach(configs, steps, capacity), step, capacity)
  {
    assert (steps + [step])[..|steps|] == steps;
  }

  /** Taking one step after another from a given state. */
  function TakeAll(s: Sys, steps: seq<Step>, capacity: nat): Sys
    decreases |steps|
  {
    if steps == [] then s else TakeAll(Take(s, steps[0], capacity), steps[1..], capacity)
  }

  lemma {:induction false} ReachTakeAll(configs: seq<seq<PerfConfig>>, before: seq<Step>, steps: seq<Step>, capacity: nat)
    ensures TakeAll(Reach(configs, before, capacity), steps, capacity) == Reach(configs, before + steps, capacity)
    decreases |steps|
  {
    hide Take;
    if steps == [] {
      assert before + steps == before;
    } else {
      ReachSnoc(configs, before, steps[0], capacity);
      ReachTakeAll(configs, before + [steps[0]], steps[1..], capacity);
      assert before + [steps[0]] + steps[1..] == before + steps;
    }
  }

  /** The state in which life 0 has announced itself under tid 7 and died, and life 1, given
      the same tid, has announced itself too. */
  function TwoAdds(configs: seq<seq<PerfConfig>>): Sys {
    var p0, p1 := Packet(RawMessage(7, ADD_PROCESS), 0), Packet(RawMessage(7, ADD_PROCESS), 1);
    Sys(map[0 := Life(7, true, false, false), 1 := Life(7, true, false, true)], [p0, p1], [p0, p1], [],
        Init(configs), map[], [], 0)
  }

  lemma {:induction false} ReachTwoAdds(configs: seq<seq<PerfConfig>>)
    ensures Reach(configs, [Spawn(0, 7), SendAdd(0), Die(0), Spawn(1, 7), SendAdd(1)], 10) == TwoAdds(configs)
  {
    var steps := [Spawn(0, 7), SendAdd(0), Die(0), Spawn(1, 7), SendAdd(1)];
    var s0 := Start(configs);
    var s1 := Take(s0, steps[0], 10);
    var s2 := Take(s1, steps[1], 10);
    var s3 := Take(s2, steps[2], 10);
    var s4 := Take(s3, steps[3], 10);
    var s5 := Take(s4, steps[4], 10);
    assert s5 == TwoAdds(configs);
    hide Take;
    FiveSteps(s0, steps, 10);
    ReachTakeAll(configs, [], steps, 10);
    assert [] + steps == steps;
  }

  lemma {:induction false} FiveSteps(s: Sys, steps: seq<Step>, capacity: nat)
    requires |steps| == 5
    ensures TakeAll(s, steps, capacity) ==
              Take(Take(Take(Take(Take(s, steps[0], capacity), steps[1], capacity), steps[2], capacity),
                        steps[3], capacity), steps[4], capacity)
  {
    hide Take;
    var s1 := Take(s, steps[0], capacity);
    var s2 := Take(s1, steps[1], capacity);
    var s3 := Take(s2, steps[2], capacity);
    var s4 := Take(s3, steps[3], capacity);
    assert TakeAll(s, steps, capacity) == TakeAll(s1, steps[1..], capacity);
    assert TakeAll(s1, steps[1..], capacity) == TakeAll(s2, steps[2..], capacity) by {
      assert steps[1..][1..] == steps[2..];
    }
    assert TakeAll(s2, steps[2..], capacity) == TakeAll(s3, steps[3..], capacity) by {
      assert steps[2..][1..] == steps[3..];
    }
    assert TakeAll(s3, steps[3..], capacity) == TakeAll(s4, steps[4..], capacity) by {
      assert steps[3..][1..] == steps[4..];
    }
    assert TakeAll(s4, steps[4..], capacity) == TakeAll(Take(s4, steps[4], capacity), [], capacity) by {
      assert steps[4..][1..] == [];
    }
  }

  /** What a thread puts on the queue and when: flag 1 first, flag 2 once after it, both with
      its own tid and only while there is room; a thread that finds none waits. */
  lemma {:induction false} Sends(s: Sys, l: nat, capacity: nat)
    requires l in s.lives && s.lives[l].alive
    ensures var tid, add, remove := s.lives[l].tid, Take(s, SendAdd(l), capacity), Take(s, SendRemove(l), capacity);
            && (|s.queue| < capacity && !s.lives[l].announced ==>
                  && add.queue == s.queue + [Packet(RawMessage(tid, 1), l)]
                  && add.sent == s.sent + [Packet(RawMessage(tid, 1), l)]
                  && l in add.lives && add.lives[l] == s.lives[l].(announced := true))
            && (|s.queue| < capacity && s.lives[l].announced && !s.lives[l].retired ==>
                  && remove.queue == s.queue + [Packet(RawMessage(tid, 2), l)]
                  && remove.sent == s.sent + [Packet(RawMessage(tid, 2), l)]
                  && l in remove.lives && remove.lives[l] == s.lives[l].(retired := true))
            && (|s.queue| >= capacity || s.lives[l].announced ==> add == s)
            && (|s.queue| >= capacity || !s.lives[l].announced || s.lives[l].retired ==> remove == s)
  {
  }

  /** What a receive does with the oldest packet: flag 1 opens its tid, flag 2 closes it. */
  lemma {:induction false} Receives(s: Sys, opens: Opens, closing: Readings, capacity: nat)
    requires s.queue != []
    ensures var p, t := s.queue[0], Take(s, Receive(opens, closing), capacity);
            && t.queue == s.queue[1..] && t.received == s.received + [p] && t.sent == s.sent && t.lives == s.lives
            && (p.raw.flags == 1 ==> t.col == OpenTid(s.col, p.raw.tid, opens, s.stamp))
            && (p.raw.flags == 2 ==> t.col == CloseTid(s.col, p.raw.tid, closing))
            && (p.raw.flags !in {1, 2} ==> t.col == s.col)
  {
    hide OpenTid, CloseTid, FlushAll;
  }

  function WholeLife(l: nat, tid: int, opens: Opens, closing: Readings): seq<Step> {
    [Spawn(l, tid), SendAdd(l), Receive(opens, closing), SendRemove(l), Receive(opens, closing)]
  }

  /** From any reachable state with an empty queue, a new life under a free tid can run to its
      end: it is opened by its ADD, closed by its REMOVE, and nothing is ignored. */
  lemma {:induction false} LifeRuns(configs: seq<seq<PerfConfig>>, steps: seq<Step>, capacity: nat, l: nat, tid: int,
                                    opens: Opens, closing: Readings)
    requires var s := Reach(configs, steps, capacity);
             && s.queue == [] && capacity > 0 && l !in s.lives && tid !in s.col.groups
             && forall m :: m in s.lives && s.lives[m].alive ==> s.lives[m].tid != tid
    ensures var s := Reach(configs, steps, capacity);
            var t := Reach(configs, steps + WholeLife(l, tid, opens, closing), capacity);
            var both := [Packet(RawMessage(tid, 1), l), Packet(RawMessage(tid, 2), l)];
            && t.sent == s.sent + both && t.received == s.received + both && t.queue == []
            && t.col == CloseTid(OpenTid(s.col, tid, opens, s.stamp), tid, closing)
            && tid in OpenTid(s.col, tid, opens, s.stamp).groups && tid !in t.col.groups
            && t.ignored == s.ignored && t.lives == s.lives[l := Life(tid, true, true, true)]
  {
    hide Reach, OpenTid, CloseTid, FlushAll, Take;
    var s := Reach(configs, steps, capacity);
    var life := WholeLife(l, tid, opens, closing);
    ReachTakeAll(configs, steps, life, capacity);
    FiveSteps(s, life, capacity);
    var s1 := Take(s, life[0], capacity);
    var s2 := Take(s1, life[1], capacity);
    var s3 := Take(s2, life[2], capacity);
    var s4 := Take(s3, life[3], capacity);
    var s5 := Take(s4, life[4], capacity);
    Spawned(s, l, tid, capacity);
    Sends(s1, l, capacity);
    SendsOnly(s1, l, capacity);
    Receives(s2, opens, closing, capacity);
    OpensNew(s.col, tid, opens, closing, s.stamp);
    ReceivesOnly(s2, opens, closing, capacity);
    Sends(s3, l, capacity);
    SendsOnly(s3, l, capacity);
    Receives(s4, opens, closing, capacity);
    ReceivesOnly(s4, opens, closing, capacity);
    assert s.queue + [Packet(RawMessage(tid, 1), l)] == [Packet(RawMessage(tid, 1), l)];
    assert s3.queue + [Packet(RawMessage(tid, 2), l)] == [Packet(RawMessage(tid, 2), l)];
    assert s5.sent == s.sent + [Packet(RawMessage(tid, 1), l), Packet(RawMessage(tid, 2), l)];
    assert s5.received == s.received + [Packet(RawMessage(tid, 1), l), Packet(RawMessage(tid, 2), l)];
  }

  lemma {:induction false} Spawned(s: Sys, l: nat, tid: int, capacity: nat)
    requires l !in s.lives && forall m :: m in s.lives && s.lives[m].alive ==> s.lives[m].tid != tid
    ensures Take(s, Spawn(l, tid), capacity) == s.(lives := s.lives[l := Life(tid, false, false, true)])
  {
  }

  /** A send touches nothing but the sender and the queue. */
  lemma {:induction false} SendsOnly(s: Sys, l: nat, capacity: nat)
    requires l in s.lives
    ensures var add, remove := Take(s, SendAdd(l), capacity), Take(s, SendRemove(l), capacity);
            && add.col == remove.col == s.col && add.received == remove.received == s.received
            && add.ignored == remove.ignored == s.ignored && add.stamp == remove.stamp == s.stamp
            && l in add.lives && l in remove.lives
            && add.lives == s.lives[l := add.lives[l]] && remove.lives == s.lives[l := remove.lives[l]]
  {
  }

  lemma {:induction false} ReceivesOnly(s: Sys, opens: Opens, closing: Readings, capacity: nat)
    requires s.queue != []
    ensures Take(s, Receive(opens, closing), capacity).ignored ==
              if IsAdd(s.queue[0]) == (s.queue[0].raw.tid in s.col.groups) then s.ignored + [s.queue[0]] else s.ignored
  {
    hide OpenTid, CloseTid, FlushAll;
  }

  lemma {:induction false} OpensNew(c: Col, tid: int, opens: Opens, closing: Readings, stamp: nat)
    requires tid !in c.groups
    ensures tid in OpenTid(c, tid, opens, stamp).groups
    ensures tid !in CloseTid(OpenTid(c, tid, opens, stamp), tid, closing).groups
  {
    hide OpenGroups, DescsOf, Stats;
    CloseEffect(OpenTid(c, tid, opens, stamp), tid, closing);
  }

  /** The pairing does fail when a thread is lost: with life 0 lost and life 1 reusing its
      tid, the collector has life 0's session open when life 1's ADD arrives, and ignores
      that ADD. */
  lemma {:induction false} LostThreadHidesNext(configs: seq<seq<PerfConfig>>, opens: Opens, closing: Readings)
    ensures var s := Reach(configs, [Spawn(0, 7), SendAdd(0), Die(0), Spawn(1, 7), SendAdd(1)], 10);
            var t := Take(s, Receive(opens, closing), 10);
            && t.queue == [Packet(RawMessage(7, ADD_PROCESS), 1)]
            && 7 in t.col.groups && t.owner == map[7 := 0]
            && Take(t, Receive(opens, closing), 10).ignored == t.queue
  {
    hide Reach, Apply, QueueOp;
    ReachTwoAdds(configs);
    ReceiveKeys(Init(configs), RawMessage(7, ADD_PROCESS), opens, closing, 0);
    var t := Take(TwoAdds(configs), Receive(opens, closing), 10);
    assert 7 in t.col.groups.Keys;
  }
}
