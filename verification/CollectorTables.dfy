/** When the three tables are a lossless normalisation of what the kernel counted: joining
    them on `read_id` and `event_id` gives the history back, row for row, unless a read was
    short and the buffer held something else where it stopped. */
module CollectorTables {
  import opened Prelude
  import opened CsvText
  import opened ParsePerf
  import opened PerfEvents
  import opened GroupRecord
  import opened GroupReader
  import opened Collector
  import opened CollectorLaws

  // ---- Descriptions ----------------------------------------------------------------

  /** The description table tells the truth about an event: its one row if its id could
      be queried, no row otherwise. */
  ghost predicate Described(descRows: seq<DescRow>, used: set<u64>, tid: int, m: Member) {
    && m.id in used
    && (m.queryable ==> DescRow(m.id, m.name, tid) in descRows)
    && (!m.queryable ==> forall r :: r in descRows ==> r.eventId != m.id)
  }

  ghost predicate UniqueIds(descRows: seq<DescRow>) {
    forall i, j :: 0 <= i < j < |descRows| ==> descRows[i].eventId != descRows[j].eventId
  }

  ghost predicate AllDescribed(c: Col) {
    && (forall r :: r in c.descRows ==> r.eventId in c.os.used)
    && UniqueIds(c.descRows)
    && (forall tid, p :: tid in c.groups && p in Stats(c.groups[tid]) ==>
          Described(c.descRows, c.os.used, tid, MemberOf(c.os, p)))
    && (forall a, m :: a in c.log && m in a.members ==> Described(c.descRows, c.os.used, a.tid, m))
  }

  /** New descriptors with new, pairwise different ids. */
  ghost predicate NewIds(used: set<u64>, after: Os, stats: seq<PerfStat>) {
    && (forall p :: p in stats ==>
          p.fd in after.fds && after.fds[p.fd].id !in used && after.fds[p.fd].id in after.used)
    && (forall i, j :: 0 <= i < j < |stats| ==> MemberOf(after, stats[i]).id != MemberOf(after, stats[j]).id)
  }

  lemma {:induction false} AddsNewIds(os: Os, after: Os, tid: int, stats: seq<PerfStat>)
    requires Adds(os, after, tid, stats)
    ensures NewIds(os.used, after, stats)
  {
    forall i, j | 0 <= i < j < |stats|
      ensures MemberOf(after, stats[i]).id != MemberOf(after, stats[j]).id
    {
      assert stats[i] in stats && stats[j] in stats;
    }
  }

  ghost predicate Describes(used: set<u64>, after: Os, tid: int, stats: seq<PerfStat>, rows: seq<DescRow>) {
    && UniqueIds(rows)
    && (forall r :: r in rows ==> r.eventId !in used && r.eventId in after.used)
    && (forall r :: r in rows ==> exists p :: p in stats && MemberOf(after, p).id == r.eventId)
    && (forall p :: p in stats ==> Described(rows, after.used, tid, MemberOf(after, p)))
  }

  lemma {:induction false} DescribesOneMore(used: set<u64>, after: Os, tid: int, front: seq<PerfStat>, last: PerfStat, rows: seq<DescRow>)
    requires NewIds(used, after, front + [last]) && Describes(used, after, tid, front, rows)
    ensures Describes(used, after, tid, front + [last], rows + DescOf(after, tid, last))
  {
    hide NewIds;
    var m := MemberOf(after, last);
    LastIsNew(used, after, front, last);
    forall r | r in rows ensures r.eventId != m.id {
      var p :| p in front && MemberOf(after, p).id == r.eventId;
    }
  }

  lemma {:induction false} LastIsNew(used: set<u64>, after: Os, front: seq<PerfStat>, last: PerfStat)
    requires NewIds(used, after, front + [last])
    ensures last.fd in after.fds && MemberOf(after, last).id !in used && MemberOf(after, last).id in after.used
    ensures forall p :: p in front ==> MemberOf(after, p).id != MemberOf(after, last).id
    ensures NewIds(used, after, front)
  {
    var all := front + [last];
    assert last in all && all[|front|] == last;
    forall p | p in front ensures MemberOf(after, p).id != MemberOf(after, last).id {
      var k :| 0 <= k < |front| && front[k] == p;
      assert all[k] == p;
    }
    assert forall p :: p in front ==> p in all;
    assert forall k :: 0 <= k < |front| ==> front[k] == all[k];
  }

  /** The rows written for new descriptors describe each of them, and nothing else. */
  lemma {:induction false} DescsOfDescribes(used: set<u64>, after: Os, tid: int, stats: seq<PerfStat>)
    requires NewIds(used, after, stats)
    ensures Describes(used, after, tid, stats, DescsOf(after, tid, stats))
    decreases |stats|
  {
    if stats == [] {
    } else {
      hide NewIds, Describes;
      var front, last := stats[..|stats| - 1], stats[|stats| - 1];
      assert stats == front + [last];
      LastIsNew(used, after, front, last);
      DescsOfDescribes(used, after, tid, front);
      DescribesOneMore(used, after, tid, front, last, DescsOf(after, tid, front));
    }
  }

  lemma {:induction false} DescribedKept(descRows: seq<DescRow>, used: set<u64>, tid: int, m: Member, rows: seq<DescRow>, used': set<u64>)
    requires Described(descRows, used, tid, m) && used <= used'
    requires forall r :: r in rows ==> r.eventId !in used
    ensures Described(descRows + rows, used', tid, m)
  {
  }

  lemma {:induction false} UniqueAppend(a: seq<DescRow>, b: seq<DescRow>, used: set<u64>)
    requires UniqueIds(a) && UniqueIds(b)
    requires forall r :: r in a ==> r.eventId in used
    requires forall r :: r in b ==> r.eventId !in used
    ensures UniqueIds(a + b)
  {
    forall i, j | 0 <= i < j < |a + b| ensures (a + b)[i].eventId != (a + b)[j].eventId {
      if i < |a| <= j {
        assert a[i] in a && b[j - |a|] in b;
      }
    }
  }

  lemma {:induction false} OpenDescribes(c: Col, tid: int, opens: Opens, stamp: nat)
    requires AllDescribed(c) && Owns(c.groups, c.os) && tid !in c.groups
    ensures AllDescribed(OpenTid(c, tid, opens, stamp))
  {
    hide OpenGroups, DescsOf, Described, Owns;
    var (after, gs) := OpenGroups(c.os, c.configs, tid, opens, |c.configs|);
    OpenGroupsAdds(c.os, c.configs, tid, opens, |c.configs|);
    AddsNewIds(c.os, after, tid, Stats(gs));
    DescsOfDescribes(c.os.used, after, tid, Stats(gs));
    var rows := DescsOf(after, tid, Stats(gs));
    UniqueAppend(c.descRows, rows, c.os.used);
    forall t, p | t in c.groups && p in Stats(c.groups[t])
      ensures Described(c.descRows + rows, after.used, t, MemberOf(after, p))
    {
      OwnedFd(c, t, p);
      DescribedKept(c.descRows, c.os.used, t, MemberOf(c.os, p), rows, after.used);
    }
    forall p | p in Stats(gs) ensures Described(c.descRows + rows, after.used, tid, MemberOf(after, p)) {
      NewDescribed(c.descRows, c.os.used, rows, after.used, tid, MemberOf(after, p));
    }
    forall a, m | a in c.log && m in a.members ensures Described(c.descRows + rows, after.used, a.tid, m) {
      DescribedKept(c.descRows, c.os.used, a.tid, m, rows, after.used);
    }
  }

  lemma {:induction false} OwnedFd(c: Col, tid: int, p: PerfStat)
    requires Owns(c.groups, c.os) && tid in c.groups && p in Stats(c.groups[tid])
    ensures p.fd in c.os.fds && c.os.fds[p.fd].tid == tid
  {
  }

  lemma {:induction false} NewDescribed(descRows: seq<DescRow>, used: set<u64>, rows: seq<DescRow>, used': set<u64>, tid: int, m: Member)
    requires forall r :: r in descRows ==> r.eventId in used
    requires m.id !in used && Described(rows, used', tid, m)
    ensures Described(descRows + rows, used', tid, m)
  {
  }

  /** The attempts on a thread record its own descriptors. */
  lemma {:induction false} ThreadBlockMembers(c: Col, tid: int, readings: Readings)
    ensures forall a, m :: a in ThreadBlock(c, tid, readings) && m in a.members ==>
              a.tid == tid && tid in c.groups && exists p :: p in Stats(c.groups[tid]) && m == MemberOf(c.os, p)
  {
    forall a, m | a in ThreadBlock(c, tid, readings) && m in a.members
      ensures a.tid == tid && exists p :: p in Stats(c.groups[tid]) && m == MemberOf(c.os, p)
    {
      var k :| 0 <= k < |c.groups[tid]| && a == AttemptOn(c.os, tid, SessionOf(c, tid), k, c.groups[tid][k], readings);
      var g := c.groups[tid][k];
      var j :| 0 <= j < |g.fds| && m == MemberOf(c.os, g.fds[j]);
      StatsMember(c.groups[tid], k, g.fds[j]);
    }
  }

  lemma {:induction false} ThreadBlockDescribed(c: Col, tid: int, readings: Readings)
    requires AllDescribed(c)
    ensures forall a, m :: a in ThreadBlock(c, tid, readings) && m in a.members ==>
              Described(c.descRows, c.os.used, a.tid, m)
  {
    hide ThreadBlock, Described, MemberOf;
    ThreadBlockMembers(c, tid, readings);
  }

  lemma {:induction false} FlushBlockDescribed(c: Col, order: seq<int>, readings: Readings)
    requires AllDescribed(c)
    ensures forall a, m :: a in FlushBlock(c, order, readings) && m in a.members ==>
              Described(c.descRows, c.os.used, a.tid, m)
  {
    hide ThreadBlock, Described, AllDescribed;
    if order == [] {
    } else {
      FlushBlockDescribed(c, order[..|order| - 1], readings);
      ThreadBlockDescribed(c, order[|order| - 1], readings);
    }
  }

  lemma {:induction false} CloseDescribes(c: Col, tid: int, readings: Readings)
    requires AllDescribed(c) && Owns(c.groups, c.os) && tid in c.groups
    ensures AllDescribed(CloseTid(c, tid, readings))
  {
    hide ThreadBlock, Described, CloseTid;
    CloseEffect(c, tid, readings);
    ThreadBlockDescribed(c, tid, readings);
    var d := CloseTid(c, tid, readings);
    forall t, p | t in d.groups && p in Stats(d.groups[t])
      ensures Described(d.descRows, d.os.used, t, MemberOf(d.os, p))
    {
      assert t in c.groups && c.os.fds[p.fd].tid == t;
      assert forall q :: q in Stats(c.groups[tid]) ==> c.os.fds[q.fd].tid == tid;
      assert p.fd !in FdsOf(Stats(c.groups[tid]));
      assert p.fd in d.os.fds && d.os.fds[p.fd] == c.os.fds[p.fd];
      assert MemberOf(d.os, p) == MemberOf(c.os, p);
    }
  }

  lemma {:induction false} FlushDescribes(c: Col, order: seq<int>, readings: Readings)
    requires AllDescribed(c)
    ensures AllDescribed(FlushAll(c, order, readings))
  {
    hide FlushBlock, Described, FlushAll;
    FlushEffect(c, order, readings);
    FlushBlockDescribed(c, WalkOrder(order, c.groups.Keys), readings);
  }

  lemma {:induction false} RunDescribed(configs: seq<seq<PerfConfig>>, ops: seq<Op>)
    ensures AllDescribed(Run(Init(configs), ops))
  {
    if ops != [] {
      hide AllDescribed, Owns, FlushAll;
      RunDescribed(configs, ops[..|ops| - 1]);
      RunOwns(configs, ops[..|ops| - 1]);
      var c := Run(Init(configs), ops[..|ops| - 1]);
      match ops[|ops| - 1]
      case Open(tid, opens) =>
        if tid !in c.groups {
          OpenDescribes(c, tid, opens, |ops| - 1);
        }
      case Close(tid, readings) =>
        if tid in c.groups {
          CloseDescribes(c, tid, readings);
        }
      case Flush(order, readings) =>
        FlushDescribes(c, order, readings);
      case Nothing =>
    } else {
      assert AllDescribed(Init(configs));
    }
  }

  // ---- The join --------------------------------------------------------------------

  function FindRead(rows: seq<ReadRow>, id: nat): Option<ReadRow> {
    if rows == [] then None
    else if rows[|rows| - 1].readId == id then Some(rows[|rows| - 1])
    else FindRead(rows[..|rows| - 1], id)
  }

  function FindDesc(rows: seq<DescRow>, id: nat): Option<DescRow> {
    if rows == [] then None
    else if rows[|rows| - 1].eventId == id then Some(rows[|rows| - 1])
    else FindDesc(rows[..|rows| - 1], id)
  }

  /** One measurement as its user wants it. */
  datatype Sample = Sample(eventId: nat, tid: int, name: string, count: nat, timestamp: nat,
                           timeRunning: nat, timeEnabled: nat)

  function JoinRow(e: EventRow, readRows: seq<ReadRow>, descs: seq<DescRow>): Option<Sample> {
    match (FindRead(readRows, e.readId), FindDesc(descs, e.eventId))
    case (Some(r), Some(d)) =>
      Some(Sample(d.eventId, d.tid, d.name, e.count, r.timestamp, r.timeRunning, r.timeEnabled))
    case _ => None
  }

  /** `event JOIN read USING (read_id) JOIN description USING (event_id)`, row by row. */
  function JoinTables(events: seq<EventRow>, readRows: seq<ReadRow>, descs: seq<DescRow>): (js: seq<Option<Sample>>)
    ensures |js| == |events|
    ensures forall k :: 0 <= k < |events| ==> js[k] == JoinRow(events[k], readRows, descs)
  {
    seq(|events|, k requires 0 <= k < |events| => JoinRow(events[k], readRows, descs))
  }

  /** What the kernel counted for event `k` of an attempt. */
  function SampleOf(a: Attempt, k: nat): Sample
    requires a.outcome.Values? && k < |a.members|
  {
    var r := a.outcome.record;
    Sample(a.members[k].id, a.tid, a.members[k].name, r.entries[k].value, a.timestamp, r.timeRunning, r.timeEnabled)
  }

  /** Everything an attempt measured, one sample per event. */
  function MeasuredBy(a: Attempt): (js: seq<Option<Sample>>)
    ensures |js| == if a.outcome.Values? then |a.members| else 0
  {
    match a.outcome
    case Failed(_) => []
    case Values(_, _) => seq(|a.members|, k requires 0 <= k < |a.members| => Some(SampleOf(a, k)))
  }

  /** The same without the events whose id could not be queried. */
  function SamplesOf(a: Attempt): (js: seq<Option<Sample>>)
    ensures |js| == if a.outcome.Values? then |a.members| else 0
  {
    match a.outcome
    case Failed(_) => []
    case Values(_, _) =>
      seq(|a.members|, k requires 0 <= k < |a.members| =>
        if a.members[k].queryable then Some(SampleOf(a, k)) else None)
  }

  function Measured(log: seq<Attempt>): seq<Option<Sample>> {
    if log == [] then [] else Measured(log[..|log| - 1]) + MeasuredBy(log[|log| - 1])
  }

  function History(log: seq<Attempt>): seq<Option<Sample>> {
    if log == [] then [] else History(log[..|log| - 1]) + SamplesOf(log[|log| - 1])
  }

  // ---- Short reads -----------------------------------------------------------------

  /** Where a read stopped short, the buffer already held the rest of the record. (The
      number of events in the first word is never used.) */
  ghost predicate Undisturbed(a: Attempt, buffer: seq<byte>) {
    a.outcome.Values? ==>
      var size := |a.memory|;
      var stop := if a.outcome.length < 8 then 8 else if a.outcome.length < size then a.outcome.length else size;
      Grown(buffer, a.memory)[stop..size] == EncodeRecord(a.outcome.record)[stop..]
  }

  /** That is exactly when the record decoded is the one the kernel counted. */
  lemma {:induction false} UndisturbedIff(a: Attempt, buffer: seq<byte>)
    requires a.outcome.Values?
    ensures Undisturbed(a, buffer) <==> Got(buffer, a).(nr := a.outcome.record.nr) == a.outcome.record
  {
    hide EncodeRecord, DecodeRecord, Grown, BufferAfter;
    var r, size := a.outcome.record, |a.memory|;
    var w := if a.outcome.length < size then a.outcome.length else size;
    SeenBytes(a, buffer, w);
    SameButFirstWord(BufferAfter(buffer, a)[..size], r);
    SameTail(EncodeRecord(r), Grown(buffer, a.memory)[..size], w);
    var held, stop := Grown(buffer, a.memory), if w < 8 then 8 else w;
    assert held[..size][stop..] == held[stop..size];
  }

  /** What is decoded: the bytes delivered, then what the buffer held. */
  lemma {:induction false} SeenBytes(a: Attempt, buffer: seq<byte>, w: nat)
    requires a.outcome.Values? && w == if a.outcome.length < |a.memory| then a.outcome.length else |a.memory|
    ensures BufferAfter(buffer, a)[..|a.memory|] ==
              EncodeRecord(a.outcome.record)[..w] + Grown(buffer, a.memory)[..|a.memory|][w..]
  {
    hide EncodeRecord, Grown;
    var enc, held := EncodeRecord(a.outcome.record), Grown(buffer, a.memory);
    assert Clip(Clip(enc, a.outcome.length), |a.memory|) == enc[..w];
  }

  lemma {:induction false} SameTail(enc: seq<byte>, held: seq<byte>, w: nat)
    requires |held| == |enc| && w <= |enc| && 8 <= |enc|
    ensures var stop := if w < 8 then 8 else w;
            (enc[..w] + held[w..])[8..] == enc[8..] <==> held[stop..] == enc[stop..]
  {
    var seen := enc[..w] + held[w..];
    if w < 8 {
      assert seen[8..] == held[8..];
    } else {
      assert seen[8..] == enc[8..w] + held[w..];
      assert enc[8..] == enc[8..w] + enc[w..];
      if seen[8..] == enc[8..] {
        assert held[w..] == seen[8..][w - 8..];
        assert enc[w..] == enc[8..][w - 8..];
      }
    }
  }

  /** A read can be relied on whatever was read before exactly when it is whole. */
  lemma {:induction false} TrustedIffWhole(a: Attempt)
    ensures a.Whole() <==> forall buffer :: Undisturbed(a, buffer)
  {
    hide EncodeRecord;
    if !a.Whole() {
      var enc, last := EncodeRecord(a.outcome.record), |a.memory| - 1;
      var other := enc[last := if enc[last] == 0 then 1 else 0];
      var stop := if a.outcome.length < 8 then 8 else a.outcome.length;
      assert Grown(other, a.memory) == other;
      assert other[stop..][last - stop] != enc[stop..][last - stop];
      assert !Undisturbed(a, other);
    }
  }

  /** No read of the log was disturbed by what an earlier one left in the buffer. */
  ghost predicate Trusted(log: seq<Attempt>) {
    forall n :: 0 <= n < |log| ==> Undisturbed(log[n], BufferOf(log[..n]))
  }

  lemma {:induction false} WholeTrusted(log: seq<Attempt>)
    requires forall a :: a in log ==> a.Whole()
    ensures Trusted(log)
  {
    forall n | 0 <= n < |log| ensures Undisturbed(log[n], BufferOf(log[..n])) {
      assert log[n] in log;
      TrustedIffWhole(log[n]);
    }
  }

  // ---- Looking rows up -------------------------------------------------------------

  /** Looking an id up in a table that grew by the rows of one attempt. */
  lemma {:induction false} FindReadAppend(front: seq<ReadRow>, own: nat, buffer: seq<byte>, a: Attempt, id: nat)
    ensures FindRead(front + ReadRowsOf(own, buffer, a), id) ==
              if own == id && a.outcome.Values?
              then Some(ReadRow(own, a.timestamp, Got(buffer, a).timeRunning, Got(buffer, a).timeEnabled))
              else FindRead(front, id)
  {
    hide Got;
    match a.outcome
    case Failed(_) =>
      assert front + [] == front;
    case Values(_, _) =>
      var row := ReadRow(own, a.timestamp, Got(buffer, a).timeRunning, Got(buffer, a).timeEnabled);
      assert (front + [row])[..|front|] == front;
  }

  lemma {:induction false} ReadIdsBelow(log: seq<Attempt>, id: nat)
    requires id >= |log|
    ensures FindRead(ReadTableOf(log), id) == None
  {
    hide FindRead, ReadRowsOf, Got, BufferOf, AttemptBase.WellFormed;
    if log == [] {
      assert FindRead([], id) == None by { NothingFound(id); }
    } else {
      var n := |log| - 1;
      ReadIdsBelow(log[..n], id);
      FindReadAppend(ReadTableOf(log[..n]), n, BufferOf(log[..n]), log[n], id);
    }
  }

  lemma {:induction false} NothingFound(id: nat)
    ensures FindRead([], id) == None
  {
  }

  /** Attempt `k` has a read row exactly when it succeeded, and it is that attempt's. */
  lemma {:induction false} FindReadOf(log: seq<Attempt>, k: nat)
    requires k < |log|
    ensures FindRead(ReadTableOf(log), k) ==
              if log[k].outcome.Values?
              then Some(ReadRow(k, log[k].timestamp, Got(BufferOf(log[..k]), log[k]).timeRunning,
                                Got(BufferOf(log[..k]), log[k]).timeEnabled))
              else None
  {
    hide FindRead, ReadRowsOf, Got, BufferOf, AttemptBase.WellFormed;
    var n := |log| - 1;
    FindReadAppend(ReadTableOf(log[..n]), n, BufferOf(log[..n]), log[n], k);
    if k < n {
      FindReadOf(log[..n], k);
      assert log[..n][k] == log[k] && log[..n][..k] == log[..k];
    } else {
      ReadIdsBelow(log[..n], k);
    }
  }

  lemma {:induction false} FindDescOf(rows: seq<DescRow>, r: DescRow)
    requires UniqueIds(rows) && r in rows
    ensures FindDesc(rows, r.eventId) == Some(r)
  {
    var n := |rows| - 1;
    if rows[n] != r {
      var k :| 0 <= k < |rows| && rows[k] == r;
      assert rows[..n][k] == r;
      FindDescOf(rows[..n], r);
    }
  }

  lemma {:induction false} FindDescNone(rows: seq<DescRow>, id: nat)
    requires forall r :: r in rows ==> r.eventId != id
    ensures FindDesc(rows, id) == None
  {
    if rows == [] {
    } else {
      FindDescNone(rows[..|rows| - 1], id);
    }
  }

  lemma {:induction false} FoundDesc(rows: seq<DescRow>, id: nat)
    requires FindDesc(rows, id).Some?
    ensures FindDesc(rows, id).value in rows && FindDesc(rows, id).value.eventId == id
  {
    if rows[|rows| - 1].eventId == id {
    } else {
      FoundDesc(rows[..|rows| - 1], id);
    }
  }

  /** The description found for the id of a queryable event is its own; for the id of any
      other there is none. */
  lemma {:induction false} DescOfMember(descRows: seq<DescRow>, used: set<u64>, tid: int, m: Member)
    requires UniqueIds(descRows) && Described(descRows, used, tid, m)
    ensures FindDesc(descRows, m.id) == if m.queryable then Some(DescRow(m.id, m.name, tid)) else None
  {
    if m.queryable {
      FindDescOf(descRows, DescRow(m.id, m.name, tid));
    } else {
      FindDescNone(descRows, m.id);
    }
  }

  // ---- Joining them ----------------------------------------------------------------

  /** The event rows of attempt `k`. */
  function RowsAt(log: seq<Attempt>, k: nat): (rows: seq<EventRow>)
    requires k < |log|
    ensures |rows| == if log[k].outcome.Values? then |log[k].members| else 0
  {
    EventRowsOf(k, BufferOf(log[..k]), log[k])
  }

  /** Whatever was decoded for an event joins to the description of the id decoded. */
  lemma {:induction false} JoinedRow(log: seq<Attempt>, k: nat, j: nat, descRows: seq<DescRow>)
    requires k < |log| && log[k].outcome.Values? && j < |log[k].members|
    ensures var got := Got(BufferOf(log[..k]), log[k]);
            JoinRow(RowsAt(log, k)[j], ReadTableOf(log), descRows) ==
              match FindDesc(descRows, got.entries[j].id)
              case None => None
              case Some(d) => Some(Sample(d.eventId, d.tid, d.name, got.entries[j].value, log[k].timestamp,
                                          got.timeRunning, got.timeEnabled))
  {
    hide ReadTableOf, FindRead, FindDesc, Got, BufferOf;
    FindReadOf(log, k);
  }

  /** The rows of an undisturbed attempt join to its samples. */
  lemma {:induction false} JoinAttempt(log: seq<Attempt>, k: nat, descRows: seq<DescRow>, used: set<u64>)
    requires k < |log| && UniqueIds(descRows)
    requires forall m :: m in log[k].members ==> Described(descRows, used, log[k].tid, m)
    requires Undisturbed(log[k], BufferOf(log[..k]))
    ensures JoinTables(RowsAt(log, k), ReadTableOf(log), descRows) == SamplesOf(log[k])
  {
    hide ReadTableOf, FindRead, FindDesc, Got, BufferOf, Undisturbed, RowsAt, JoinRow, Described, UniqueIds;
    var a := log[k];
    if a.outcome.Values? {
      UndisturbedIff(a, BufferOf(log[..k]));
      forall j | 0 <= j < |a.members|
        ensures JoinRow(RowsAt(log, k)[j], ReadTableOf(log), descRows) == SamplesOf(a)[j]
      {
        assert a.members[j] in a.members;
        JoinedRow(log, k, j, descRows);
        DescOfMember(descRows, used, a.tid, a.members[j]);
      }
    }
  }

  /** A successful attempt all of whose events have queryable ids, and which nothing in the
      buffer disturbed. */
  ghost predicate Complete(a: Attempt, buffer: seq<byte>) {
    a.outcome.Values? ==> Undisturbed(a, buffer) && forall m :: m in a.members ==> m.queryable
  }

  /** The rows of an attempt join to all that it measured exactly when it is complete. */
  lemma {:induction false} JoinAttemptIff(log: seq<Attempt>, k: nat, descRows: seq<DescRow>, used: set<u64>)
    requires k < |log| && UniqueIds(descRows)
    requires forall m :: m in log[k].members ==> Described(descRows, used, log[k].tid, m)
    ensures JoinTables(RowsAt(log, k), ReadTableOf(log), descRows) == MeasuredBy(log[k]) <==>
              Complete(log[k], BufferOf(log[..k]))
  {
    hide ReadTableOf, FindRead, FindDesc, Got, BufferOf, Undisturbed, RowsAt, JoinRow, Described, UniqueIds;
    var a := log[k];
    if a.outcome.Values? {
      if Complete(a, BufferOf(log[..k])) {
        JoinAttempt(log, k, descRows, used);
        assert forall j :: 0 <= j < |a.members| ==> a.members[j] in a.members;
        assert SamplesOf(a) == MeasuredBy(a);
      }
      if JoinTables(RowsAt(log, k), ReadTableOf(log), descRows) == MeasuredBy(a) {
        OnlyComplete(log, k, descRows, used);
      }
    }
  }

  lemma {:induction false} OnlyComplete(log: seq<Attempt>, k: nat, descRows: seq<DescRow>, used: set<u64>)
    requires k < |log| && UniqueIds(descRows) && log[k].outcome.Values?
    requires forall m :: m in log[k].members ==> Described(descRows, used, log[k].tid, m)
    requires JoinTables(RowsAt(log, k), ReadTableOf(log), descRows) == MeasuredBy(log[k])
    ensures Complete(log[k], BufferOf(log[..k]))
  {
    hide ReadTableOf, FindRead, FindDesc, Got, BufferOf, Undisturbed, RowsAt, JoinRow, Described, UniqueIds;
    var a, got := log[k], Got(BufferOf(log[..k]), log[k]);
    forall j | 0 <= j < |a.members|
      ensures a.members[j].queryable && got.entries[j] == a.outcome.record.entries[j]
      ensures got.timeRunning == a.outcome.record.timeRunning && got.timeEnabled == a.outcome.record.timeEnabled
    {
      assert a.members[j] in a.members;
      JoinedRow(log, k, j, descRows);
      assert MeasuredBy(a)[j] == Some(SampleOf(a, j));
      FoundDesc(descRows, got.entries[j].id);
      DescOfMember(descRows, used, a.tid, a.members[j]);
    }
    assert a.members[0] in a.members;
    assert got.entries == a.outcome.record.entries;
    UndisturbedIff(a, BufferOf(log[..k]));
  }

  lemma {:induction false} JoinAppend(a: seq<EventRow>, b: seq<EventRow>, readRows: seq<ReadRow>, descs: seq<DescRow>)
    ensures JoinTables(a + b, readRows, descs) == JoinTables(a, readRows, descs) + JoinTables(b, readRows, descs)
  {
  }

  /** The event table, attempt by attempt. */
  lemma {:induction false} EventTableStep(log: seq<Attempt>, n: nat, descRows: seq<DescRow>)
    requires 0 < n <= |log|
    ensures log[..n][..n - 1] == log[..n - 1] && log[..n][n - 1] == log[n - 1]
    ensures JoinTables(EventTableOf(log[..n]), ReadTableOf(log), descRows) ==
              JoinTables(EventTableOf(log[..n - 1]), ReadTableOf(log), descRows)
              + JoinTables(RowsAt(log, n - 1), ReadTableOf(log), descRows)
  {
    hide JoinRow, ReadTableOf, EventRowsOf, BufferOf, AttemptBase.WellFormed;
    assert log[..n][..n - 1] == log[..n - 1] && log[..n][n - 1] == log[n - 1];
    JoinAppend(EventTableOf(log[..n - 1]), RowsAt(log, n - 1), ReadTableOf(log), descRows);
  }

  lemma {:induction false} JoinPrefix(log: seq<Attempt>, n: nat, descRows: seq<DescRow>, used: set<u64>)
    requires n <= |log| && UniqueIds(descRows) && Trusted(log)
    requires forall a, m :: a in log && m in a.members ==> Described(descRows, used, a.tid, m)
    ensures JoinTables(EventTableOf(log[..n]), ReadTableOf(log), descRows) == History(log[..n])
  {
    hide JoinRow, SamplesOf, EventRowsOf, RowsAt, ReadTableOf, Described, Undisturbed, UniqueIds, BufferOf,
         AttemptBase.WellFormed;
    if n == 0 {
    } else {
      JoinPrefix(log, n - 1, descRows, used);
      assert log[n - 1] in log;
      EventTableStep(log, n, descRows);
      JoinAttempt(log, n - 1, descRows, used);
    }
  }

  ghost predicate AllComplete(log: seq<Attempt>, n: nat)
    requires n <= |log|
  {
    forall k :: 0 <= k < n ==> Complete(log[k], BufferOf(log[..k]))
  }

  lemma {:induction false} JoinPrefixIff(log: seq<Attempt>, n: nat, descRows: seq<DescRow>, used: set<u64>)
    requires n <= |log| && UniqueIds(descRows)
    requires forall a, m :: a in log && m in a.members ==> Described(descRows, used, a.tid, m)
    ensures |EventTableOf(log[..n])| == |Measured(log[..n])|
    ensures JoinTables(EventTableOf(log[..n]), ReadTableOf(log), descRows) == Measured(log[..n]) <==> AllComplete(log, n)
  {
    hide JoinRow, MeasuredBy, EventRowsOf, RowsAt, ReadTableOf, Described, Complete, UniqueIds, BufferOf, JoinTables,
         EventTableOf, AttemptBase.WellFormed, AllComplete;
    if n == 0 {
      NothingJoined(log, descRows);
    } else {
      JoinPrefixIff(log, n - 1, descRows, used);
      assert log[n - 1] in log;
      EventTableStep(log, n, descRows);
      JoinAttemptIff(log, n - 1, descRows, used);
      OneMoreComplete(log, n);
      SameHalves(JoinTables(EventTableOf(log[..n - 1]), ReadTableOf(log), descRows),
                 JoinTables(RowsAt(log, n - 1), ReadTableOf(log), descRows),
                 Measured(log[..n - 1]), MeasuredBy(log[n - 1]));
    }
  }

  lemma {:induction false} NothingJoined(log: seq<Attempt>, descRows: seq<DescRow>)
    ensures JoinTables(EventTableOf(log[..0]), ReadTableOf(log), descRows) == Measured(log[..0]) == []
    ensures EventTableOf(log[..0]) == [] && AllComplete(log, 0)
  {
  }

  lemma {:induction false} OneMoreComplete(log: seq<Attempt>, n: nat)
    requires 0 < n <= |log|
    ensures AllComplete(log, n) <==> AllComplete(log, n - 1) && Complete(log[n - 1], BufferOf(log[..n - 1]))
  {
    hide Complete, BufferOf;
  }

  lemma {:induction false} SameHalves<T>(a: seq<T>, b: seq<T>, c: seq<T>, d: seq<T>)
    requires |a| == |c|
    ensures a + b == c + d <==> a == c && b == d
  {
    if a + b == c + d {
      assert a == (a + b)[..|a|] && b == (a + b)[|a|..];
    }
  }

  /** Lossless normalisation: after every sequence of operations in which no read was
      disturbed, in particular when all were whole, joining the three tables reconstructs
      exactly the history of measurements, in order. */
  lemma {:induction false} Lossless(configs: seq<seq<PerfConfig>>, ops: seq<Op>)
    ensures var c := Run(Init(configs), ops);
            && (Trusted(c.log) ==> JoinTables(c.eventRows, c.readRows, c.descRows) == History(c.log))
            && ((forall a :: a in c.log ==> a.Whole()) ==> Trusted(c.log))
  {
    hide Trusted, Undisturbed, Run, JoinTables, History, UniqueIds, Described, BufferOf;
    var c := Run(Init(configs), ops);
    RunTabulated(configs, ops);
    RunDescribed(configs, ops);
    assert c.log[..|c.log|] == c.log;
    if Trusted(c.log) {
      JoinPrefix(c.log, |c.log|, c.descRows, c.os.used);
    }
    if forall a :: a in c.log ==> a.Whole() {
      WholeTrusted(c.log);
    }
  }

  /** Over every sequence of operations the join is everything the kernel counted if and
      only if every event that was read has a queryable id and no read was disturbed. */
  lemma {:induction false} LosslessIff(configs: seq<seq<PerfConfig>>, ops: seq<Op>)
    ensures var c := Run(Init(configs), ops);
            JoinTables(c.eventRows, c.readRows, c.descRows) == Measured(c.log) <==>
              Trusted(c.log) && forall a, m :: a in c.log && a.outcome.Values? && m in a.members ==> m.queryable
  {
    hide Undisturbed, Run, JoinTables, Measured, UniqueIds, Described, BufferOf, AllComplete;
    var c := Run(Init(configs), ops);
    RunTabulated(configs, ops);
    RunDescribed(configs, ops);
    assert c.log[..|c.log|] == c.log;
    JoinPrefixIff(c.log, |c.log|, c.descRows, c.os.used);
    CompleteLog(c.log);
  }

  lemma {:induction false} CompleteLog(log: seq<Attempt>)
    ensures AllComplete(log, |log|) <==>
              Trusted(log) && forall a, m :: a in log && a.outcome.Values? && m in a.members ==> m.queryable
  {
    hide Undisturbed, BufferOf, AttemptBase.WellFormed;
    if AllComplete(log, |log|) {
      forall n | 0 <= n < |log| ensures Undisturbed(log[n], BufferOf(log[..n])) {
        assert Complete(log[n], BufferOf(log[..n]));
        if log[n].outcome.Failed? {
          FailedUndisturbed(log[n], BufferOf(log[..n]));
        }
      }
      forall a, m | a in log && a.outcome.Values? && m in a.members ensures m.queryable {
        var k :| 0 <= k < |log| && log[k] == a;
        assert Complete(log[k], BufferOf(log[..k]));
      }
    } else {
      var k :| 0 <= k < |log| && !Complete(log[k], BufferOf(log[..k]));
      assert log[k] in log;
    }
  }

  lemma {:induction false} FailedUndisturbed(a: Attempt, buffer: seq<byte>)
    requires a.outcome.Failed?
    ensures Undisturbed(a, buffer)
  {
  }

  /** When no read was disturbed, every event row joins exactly when every event that was
      read has a queryable id. */
  lemma {:induction false} JoinCompleteIff(configs: seq<seq<PerfConfig>>, ops: seq<Op>)
    ensures var c := Run(Init(configs), ops);
            Trusted(c.log) ==>
              ((forall j :: j in JoinTables(c.eventRows, c.readRows, c.descRows) ==> j.Some?) <==>
               (forall a, m :: a in c.log && a.outcome.Values? && m in a.members ==> m.queryable))
  {
    hide Trusted, JoinTables, History, Run;
    Lossless(configs, ops);
    HistoryCompleteIff(Run(Init(configs), ops).log);
  }

  lemma {:induction false} HistoryCompleteIff(log: seq<Attempt>)
    ensures (forall j :: j in History(log) ==> j.Some?) <==>
            (forall a, m :: a in log && a.outcome.Values? && m in a.members ==> m.queryable)
  {
    hide SamplesOf, AttemptBase.WellFormed;
    if log == [] {
    } else {
      var front, a := log[..|log| - 1], log[|log| - 1];
      assert a in log && forall b :: b in front ==> b in log;
      HistoryCompleteIff(front);
      assert log == front + [a];
      SamplesCompleteIff(a);
    }
  }

  lemma {:induction false} SamplesCompleteIff(a: Attempt)
    ensures (forall j :: j in SamplesOf(a) ==> j.Some?) <==>
            (a.outcome.Values? ==> forall m :: m in a.members ==> m.queryable)
  {
    if a.outcome.Values? {
      var samples := SamplesOf(a);
      if m :| m in a.members && !m.queryable {
        var k :| 0 <= k < |a.members| && a.members[k] == m;
        assert samples[k] in samples && samples[k] == None;
      }
      assert forall k :: 0 <= k < |samples| ==> a.members[k] in a.members;
    }
  }

  /** One attempt of a run: if it was not disturbed, its rows join to its samples. */
  lemma {:induction false} JoinedAttempt(configs: seq<seq<PerfConfig>>, ops: seq<Op>, n: nat)
    requires var log := Run(Init(configs), ops).log; n < |log| && Undisturbed(log[n], BufferOf(log[..n]))
    ensures var c := Run(Init(configs), ops);
            JoinTables(RowsAt(c.log, n), c.readRows, c.descRows) == SamplesOf(c.log[n])
  {
    hide Run, Described, UniqueIds, JoinRow, BufferOf, RowsAt, Undisturbed;
    var c := Run(Init(configs), ops);
    RunTabulated(configs, ops);
    RunDescribed(configs, ops);
    assert c.log[n] in c.log;
    JoinAttempt(c.log, n, c.descRows, c.os.used);
  }

  /** What a short read does to the tables: an attempt that delivers nothing, right after a
      whole one of the same size, joins to the earlier attempt's samples: its names, its
      thread, its counts and times, all under the later timestamp. */
  lemma {:induction false} EmptyReadMisattributes(configs: seq<seq<PerfConfig>>, ops: seq<Op>, n: nat)
    requires var log := Run(Init(configs), ops).log;
             && 0 < n < |log| && |log[n].members| == |log[n - 1].members|
             && log[n - 1].outcome.Values? && log[n - 1].Whole()
             && log[n].outcome.Values? && log[n].outcome.length == 0
    ensures var c := Run(Init(configs), ops);
            JoinTables(RowsAt(c.log, n), c.readRows, c.descRows) ==
              SamplesOf(c.log[n - 1].(timestamp := c.log[n].timestamp))
  {
    hide Run, Described, UniqueIds, JoinRow, Got, BufferOf, RowsAt;
    var c := Run(Init(configs), ops);
    RunTabulated(configs, ops);
    RunDescribed(configs, ops);
    var a, b := c.log[n - 1], c.log[n];
    var stamped: Attempt := a.(timestamp := b.timestamp);
    NothingDelivered(c.log, n);
    forall j | 0 <= j < |b.members|
      ensures JoinRow(RowsAt(c.log, n)[j], c.readRows, c.descRows) == SamplesOf(stamped)[j]
    {
      assert a in c.log && a.members[j] in a.members;
      JoinedRow(c.log, n, j, c.descRows);
      DescOfMember(c.descRows, c.os.used, a.tid, a.members[j]);
    }
  }

  lemma {:induction false} NothingDelivered(log: seq<Attempt>, n: nat)
    requires 0 < n < |log| && |log[n].members| == |log[n - 1].members|
    requires log[n - 1].outcome.Values? && log[n - 1].Whole()
    requires log[n].outcome.Values? && log[n].outcome.length == 0
    ensures Got(BufferOf(log[..n]), log[n]) == log[n - 1].outcome.record
  {
    hide DecodeRecord, EncodeRecord, BufferAfter;
    var a, b, before := log[n - 1], log[n], BufferOf(log[..n - 1]);
    assert log[..n][..n - 1] == log[..n - 1];
    WholeLands(before, a);
    EmptyKeeps(BufferOf(log[..n]), b);
    DecodeEncodeRecord(a.outcome.record);
  }

  lemma {:induction false} WholeLands(buffer: seq<byte>, a: Attempt)
    requires a.outcome.Values? && a.Whole()
    ensures BufferAfter(buffer, a)[..|a.memory|] == EncodeRecord(a.outcome.record)
  {
    hide EncodeRecord;
  }

  lemma {:induction false} EmptyKeeps(buffer: seq<byte>, a: Attempt)
    requires a.outcome.Values? && a.outcome.length == 0 && |buffer| >= |a.memory|
    ensures BufferAfter(buffer, a) == buffer
  {
    hide EncodeRecord;
  }

  // ---- Read ids --------------------------------------------------------------------

  function CountEvents(rows: seq<EventRow>, id: nat): nat {
    if rows == [] then 0
    else CountEvents(rows[..|rows| - 1], id) + (if rows[|rows| - 1].readId == id then 1 else 0)
  }

  lemma {:induction false} CountEventsAppend(a: seq<EventRow>, b: seq<EventRow>, id: nat)
    ensures CountEvents(a + b, id) == CountEvents(a, id) + CountEvents(b, id)
    decreases |b|
  {
    if b == [] {
      assert a + b == a;
    } else {
      CountEventsAppend(a, b[..|b| - 1], id);
      assert (a + b)[..|a + b| - 1] == a + b[..|b| - 1];
    }
  }

  lemma {:induction false} CountSame(rows: seq<EventRow>, own: nat, id: nat)
    requires forall r :: r in rows ==> r.readId == own
    ensures CountEvents(rows, id) == if id == own then |rows| else 0
  {
    if rows == [] {
    } else {
      CountSame(rows[..|rows| - 1], own, id);
    }
  }

  lemma {:induction false} EventsOfRead(log: seq<Attempt>, id: nat)
    ensures CountEvents(EventTableOf(log), id) ==
              if id < |log| && log[id].outcome.Values? then |log[id].members| else 0
  {
    hide EventRowsOf, BufferOf, CountEvents, AttemptBase.WellFormed;
    if log == [] {
      NoEvents(id);
    } else {
      var n := |log| - 1;
      EventsOfRead(log[..n], id);
      CountEventsAppend(EventTableOf(log[..n]), EventRowsOf(n, BufferOf(log[..n]), log[n]), id);
      CountSame(EventRowsOf(n, BufferOf(log[..n]), log[n]), n, id);
    }
  }

  lemma {:induction false} NoEvents(id: nat)
    ensures CountEvents([], id) == 0
  {
  }

  lemma {:induction false} ReadTableIncreasing(log: seq<Attempt>)
    ensures forall r :: r in ReadTableOf(log) ==> r.readId < |log| && log[r.readId].outcome.Values?
    ensures forall i, j :: 0 <= i < j < |ReadTableOf(log)| ==> ReadTableOf(log)[i].readId < ReadTableOf(log)[j].readId
  {
    hide Got, BufferOf, AttemptBase.WellFormed;
    if log == [] {
    } else {
      var n := |log| - 1;
      ReadTableIncreasing(log[..n]);
      forall i | 0 <= i < |ReadTableOf(log[..n])| ensures ReadTableOf(log[..n])[i].readId < n {
        assert ReadTableOf(log[..n])[i] in ReadTableOf(log[..n]);
      }
    }
  }

  lemma {:induction false} FoundIsThere(rows: seq<ReadRow>, id: nat)
    requires FindRead(rows, id).Some?
    ensures FindRead(rows, id).value in rows && FindRead(rows, id).value.readId == id
  {
    if rows[|rows| - 1].readId != id {
      FoundIsThere(rows[..|rows| - 1], id);
    }
  }

  /** Accounting of `read_id` over every sequence of operations: it equals the number of
      read attempts; the read table's ids strictly increase and are exactly those of the
      successful attempts; a successful attempt on an n-event group has n event rows and
      a failed one none. */
  lemma {:induction false} ReadIdAccounting(configs: seq<seq<PerfConfig>>, ops: seq<Op>)
    ensures var c := Run(Init(configs), ops);
            && c.readId == |c.log|
            && (forall i, j :: 0 <= i < j < |c.readRows| ==> c.readRows[i].readId < c.readRows[j].readId)
            && (forall id: nat :: (exists r :: r in c.readRows && r.readId == id) <==>
                  id < |c.log| && c.log[id].outcome.Values?)
            && (forall id: nat :: CountEvents(c.eventRows, id) ==
                  if id < |c.log| && c.log[id].outcome.Values? then |c.log[id].members| else 0)
  {
    var c := Run(Init(configs), ops);
    RunTabulated(configs, ops);
    ReadTableIncreasing(c.log);
    forall id: nat | id < |c.log| && c.log[id].outcome.Values?
      ensures exists r :: r in c.readRows && r.readId == id
    {
      FindReadOf(c.log, id);
      FoundIsThere(c.readRows, id);
    }
    forall id: nat
      ensures CountEvents(c.eventRows, id) ==
                if id < |c.log| && c.log[id].outcome.Values? then |c.log[id].members| else 0
    {
      EventsOfRead(c.log, id);
    }
  }
}
