/** The collector's state as a value and its four operations as functions: open a
    thread, read one thread's groups, close a thread, flush every thread.

    Every environment answer is an input of the operation it belongs to. Within one
    operation each group is read at most once, so a reading is a function of the group's
    leader descriptor; a descriptor request is named by its configuration and position.
    A group read fails, or delivers the first `length` bytes of the group's record into
    the one buffer that all groups share; what is decoded and written to the tables is
    whatever the buffer then holds.

    `log` and `session` are history: `log` records every read attempt with what was
    read, `session` the number of the operation that opened each live thread. */
module Collector {
  import opened Prelude
  import opened CsvText
  import opened ParsePerf
  import opened PerfEvents
  import opened GroupRecord
  import opened GroupReader

  datatype ReadOutcome =
    | ReadFailed(errno: int)
    | Counted(timeEnabled: u64, timeRunning: u64, count: nat -> u64, length: nat)

  /** `memory` is what the buffer holds where this read makes it grow. */
  datatype ReadAnswer = ReadAnswer(timestamp: nat, memory: nat -> byte, outcome: ReadOutcome)

  type Opens = (nat, nat) -> OpenAnswer
  type Readings = int -> ReadAnswer

  /** One event of a group as its reader sees it. */
  datatype Member = Member(name: string, id: u64, queryable: bool)

  datatype Outcome = Failed(errno: int) | Values(record: Record, length: nat)

  /** `outcome.record` is what the kernel counted, `outcome.length` how many bytes of it
      were delivered. */
  datatype AttemptBase = Attempt(tid: int, session: nat, group: nat, members: seq<Member>,
                                 timestamp: nat, memory: seq<byte>, outcome: Outcome)
  {
    predicate WellFormed() {
      && members != []
      && |memory| == NecessaryBufferSize(|members|)
      && (outcome.Values? ==>
            && |outcome.record.entries| == |members|
            && forall k :: 0 <= k < |members| ==> outcome.record.entries[k].id == members[k].id)
    }

    /** Not a short read. */
    predicate Whole() {
      outcome.Values? ==> outcome.length >= |memory|
    }
  }

  type Attempt = a: AttemptBase | a.WellFormed()
    witness Attempt(0, 0, 0, [Member("", 0, false)], 0, seq(40, _ => 0), Failed(0))

  datatype Col = Col(
    configs: seq<seq<PerfConfig>>,
    groups: map<int, seq<PerfStatGroup>>,
    readId: nat,
    eventRows: seq<EventRow>,
    readRows: seq<ReadRow>,
    descRows: seq<DescRow>,
    buffer: seq<byte>,
    os: Os,
    log: seq<Attempt>,
    session: map<int, nat>)

  function Init(configs: seq<seq<PerfConfig>>): Col {
    Col(configs, map[], 0, [], [], [], [], Os(map[], {}), [], map[])
  }

  // ---- Opening a thread ------------------------------------------------------------

  /** All descriptors of some groups, group by group. */
  function Stats(gs: seq<PerfStatGroup>): seq<PerfStat> {
    if gs == [] then [] else Stats(gs[..|gs| - 1]) + gs[|gs| - 1].fds
  }

  /** What the kernel answers to the requests of configuration `k`. */
  function AnswersFor(opens: Opens, k: nat): nat -> OpenAnswer {
    (m: nat) => opens(k, m)
  }

  /** The first `n` configured groups, those that fail left out. */
  function OpenGroups(os: Os, configs: seq<seq<PerfConfig>>, tid: int, opens: Opens, n: nat)
    : (Os, seq<PerfStatGroup>)
    requires n <= |configs|
  {
    if n == 0 then (os, [])
    else
      var (before, gs) := OpenGroups(os, configs, tid, opens, n - 1);
      match OpenGroup(before, configs[n - 1], tid, AnswersFor(opens, n - 1))
      case (after, Err(_)) => (after, gs)
      case (after, Ok(g)) => (after, gs + [g])
  }

  function MemberOf(os: Os, p: PerfStat): Member {
    if p.fd in os.fds then Member(p.name, os.fds[p.fd].id, os.fds[p.fd].queryable)
    else Member(p.name, 0, false)
  }

  /** The description row of a descriptor, if its id can be queried. */
  function DescOf(os: Os, tid: int, p: PerfStat): seq<DescRow> {
    var m := MemberOf(os, p);
    if m.queryable then [DescRow(m.id, m.name, tid)] else []
  }

  function DescsOf(os: Os, tid: int, stats: seq<PerfStat>): seq<DescRow> {
    if stats == [] then []
    else DescsOf(os, tid, stats[..|stats| - 1]) + DescOf(os, tid, stats[|stats| - 1])
  }

  function OpenTid(c: Col, tid: int, opens: Opens, stamp: nat): Col {
    if tid in c.groups then c
    else
      var (os, gs) := OpenGroups(c.os, c.configs, tid, opens, |c.configs|);
      c.(os := os, groups := c.groups[tid := gs], session := c.session[tid := stamp],
         descRows := c.descRows + DescsOf(os, tid, Stats(gs)))
  }

  // ---- Reading groups --------------------------------------------------------------

  function Members(os: Os, g: PerfStatGroup): (ms: seq<Member>)
    ensures |ms| == |g.fds|
    ensures forall k :: 0 <= k < |g.fds| ==> ms[k] == MemberOf(os, g.fds[k])
  {
    seq(|g.fds|, k requires 0 <= k < |g.fds| => MemberOf(os, g.fds[k]))
  }

  /** The record the kernel keeps for a group: the counts of its events, in order, each
      with the id of its descriptor. */
  function KernelRecord(os: Os, g: PerfStatGroup, enabled: u64, running: u64, count: nat -> u64): (r: Record)
    ensures |r.entries| == |g.fds|
    ensures forall k :: 0 <= k < |g.fds| ==> r.entries[k].id == MemberOf(os, g.fds[k]).id
  {
    Record(|g.fds| % U64_LIMIT, enabled, running,
           seq(|g.fds|, k requires 0 <= k < |g.fds| => Entry(count(k), MemberOf(os, g.fds[k]).id)))
  }

  function OutcomeOf(os: Os, g: PerfStatGroup, answer: ReadOutcome): Outcome {
    match answer
    case ReadFailed(errno) => Failed(errno)
    case Counted(enabled, running, count, length) => Values(KernelRecord(os, g, enabled, running, count), length)
  }

  function AttemptOn(os: Os, tid: int, session: nat, index: nat, g: PerfStatGroup, readings: Readings): (a: Attempt)
    ensures a.tid == tid && a.session == session && a.group == index && a.members == Members(os, g)
  {
    var answer := readings(g.fds[0].fd);
    Attempt(tid, session, index, Members(os, g), answer.timestamp, FreshBytes(|g.fds|, answer.memory),
            OutcomeOf(os, g, answer.outcome))
  }

  /** What `read(2)` does: it fails, or puts the first bytes of the record in the buffer. */
  function KernelAnswer(outcome: Outcome): KernelRead {
    match outcome
    case Failed(errno) => KernelRead.ReadFailed(errno)
    case Values(record, length) => Filled(Clip(EncodeRecord(record), length))
  }

  /** The shared buffer after an attempt, given what it held before. */
  function BufferAfter(buffer: seq<byte>, a: Attempt): (after: seq<byte>)
    ensures |after| >= |a.memory|
  {
    Landed(buffer, a.memory, KernelAnswer(a.outcome))
  }

  /** What is decoded after an attempt, given what the buffer held before. */
  function Got(buffer: seq<byte>, a: Attempt): (r: Record)
    ensures |r.entries| == |a.members|
  {
    DecodeRecord(BufferAfter(buffer, a)[..|a.memory|], |a.members|)
  }

  function RecordRows(id: nat, r: Record): (rows: seq<EventRow>)
    ensures |rows| == |r.entries|
    ensures forall k :: 0 <= k < |rows| ==> rows[k] == EventRow(id, r.entries[k].value, r.entries[k].id)
  {
    seq(|r.entries|, k requires 0 <= k < |r.entries| => EventRow(id, r.entries[k].value, r.entries[k].id))
  }

  /** What attempt number `id` adds to the read table and to the event table. */
  function ReadRowsOf(id: nat, buffer: seq<byte>, a: Attempt): seq<ReadRow> {
    match a.outcome
    case Failed(_) => []
    case Values(_, _) => [ReadRow(id, a.timestamp, Got(buffer, a).timeRunning, Got(buffer, a).timeEnabled)]
  }

  function EventRowsOf(id: nat, buffer: seq<byte>, a: Attempt): (rows: seq<EventRow>)
    ensures |rows| == if a.outcome.Values? then |a.members| else 0
    ensures forall r :: r in rows ==> r.readId == id
  {
    match a.outcome
    case Failed(_) => []
    case Values(_, _) => RecordRows(id, Got(buffer, a))
  }

  function Logged(c: Col, a: Attempt): Col {
    c.(readId := c.readId + 1,
       log := c.log + [a],
       buffer := BufferAfter(c.buffer, a),
       readRows := c.readRows + ReadRowsOf(c.readId, c.buffer, a),
       eventRows := c.eventRows + EventRowsOf(c.readId, c.buffer, a))
  }

  function LogAll(c: Col, block: seq<Attempt>): Col {
    if block == [] then c else Logged(LogAll(c, block[..|block| - 1]), block[|block| - 1])
  }

  /** The attempts of one pass over the first `n` groups of a thread. */
  function AttemptsOn(os: Os, tid: int, session: nat, gs: seq<PerfStatGroup>, readings: Readings): (block: seq<Attempt>)
    ensures |block| == |gs|
    ensures forall k :: 0 <= k < |gs| ==> block[k] == AttemptOn(os, tid, session, k, gs[k], readings)
  {
    seq(|gs|, k requires 0 <= k < |gs| => AttemptOn(os, tid, session, k, gs[k], readings))
  }

  function SessionOf(c: Col, tid: int): nat {
    if tid in c.session then c.session[tid] else 0
  }

  function ThreadBlock(c: Col, tid: int, readings: Readings): seq<Attempt> {
    if tid in c.groups then AttemptsOn(c.os, tid, SessionOf(c, tid), c.groups[tid], readings) else []
  }

  function CloseTid(c: Col, tid: int, readings: Readings): Col {
    if tid !in c.groups then c
    else
      LogAll(c, ThreadBlock(c, tid, readings)).(
        groups := c.groups - {tid},
        session := c.session - {tid},
        os := CloseAll(c.os, Stats(c.groups[tid])))
  }

  // ---- Flushing every thread -------------------------------------------------------

  /** `order` visits each key exactly once. */
  predicate IsOrder(order: seq<int>, keys: set<int>) {
    && (forall k :: 0 <= k < |order| ==> order[k] in keys)
    && (forall t :: t in keys ==> t in order)
    && (forall i, j :: 0 <= i < j < |order| ==> order[i] != order[j])
  }

  lemma {:induction false} HasLeast(s: set<int>) returns (m: int)
    requires s != {}
    ensures m in s && forall x :: x in s ==> m <= x
  {
    var y := SomeElement(s);
    if s == {y} {
      m := y;
    } else {
      var rest := HasLeast(s - {y});
      m := if rest < y then rest else y;
      assert forall x :: x in s ==> x == y || x in s - {y};
    }
  }

  function Sorted(s: set<int>): (order: seq<int>)
    ensures IsOrder(order, s)
  {
    if s == {} then []
    else
      LeastExists(s);
      var m :| m in s && forall x :: x in s ==> m <= x;
      [m] + Sorted(s - {m})
  }

  lemma {:induction false} LeastExists(s: set<int>)
    requires s != {}
    ensures exists m :: m in s && forall x :: x in s ==> m <= x
  {
    var m := HasLeast(s);
  }

  /** The order in which the hash map is walked: any order of its keys. (An answer that
      is not one is read as the sorted order.) */
  function WalkOrder(order: seq<int>, keys: set<int>): (o: seq<int>)
    ensures IsOrder(o, keys)
  {
    if IsOrder(order, keys) then order else Sorted(keys)
  }

  function FlushBlock(c: Col, order: seq<int>, readings: Readings): seq<Attempt> {
    if order == [] then []
    else FlushBlock(c, order[..|order| - 1], readings) + ThreadBlock(c, order[|order| - 1], readings)
  }

  function FlushAll(c: Col, order: seq<int>, readings: Readings): Col {
    LogAll(c, FlushBlock(c, WalkOrder(order, c.groups.Keys), readings))
  }

  // ---- Runs ------------------------------------------------------------------------

  datatype Op =
    | Open(tid: int, opens: Opens)
    | Close(tid: int, closing: Readings)
    | Flush(order: seq<int>, flushing: Readings)
    | Nothing

  function Apply(c: Col, op: Op, stamp: nat): Col {
    match op
    case Open(tid, opens) => OpenTid(c, tid, opens, stamp)
    case Close(tid, readings) => CloseTid(c, tid, readings)
    case Flush(order, readings) => FlushAll(c, order, readings)
    case Nothing => c
  }

  /** The collector after a sequence of operations, each stamped with its number. */
  function Run(c: Col, ops: seq<Op>): Col {
    if ops == [] then c
    else Apply(Run(c, ops[..|ops| - 1]), ops[|ops| - 1], |ops| - 1)
  }
}
