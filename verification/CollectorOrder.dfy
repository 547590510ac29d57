/** The order in which a flush walks the threads decides the numbering of the reads and, as
    long as reads are whole, nothing else. */
module CollectorOrder {
  import opened Prelude
  import opened ParsePerf
  import opened Collector
  import opened CollectorLaws
  import opened CollectorTables

  lemma {:induction false} OrderMultiset(order: seq<int>, keys: set<int>)
    requires IsOrder(order, keys)
    ensures multiset(order) == multiset(keys)
    decreases |order|
  {
    if order == [] {
      if keys != {} {
        var t := SomeElement(keys);
        assert false;
      }
    } else {
      var front, x := order[..|order| - 1], order[|order| - 1];
      assert order == front + [x];
      OrderMultiset(front, keys - {x});
    }
  }

  lemma {:induction false} FlushBlockFlat(c: Col, order: seq<int>, readings: Readings, f: int -> seq<Attempt>)
    requires forall t :: f(t) == ThreadBlock(c, t, readings)
    ensures FlushBlock(c, order, readings) == FlatMap(order, f)
  {
    hide ThreadBlock, AttemptBase.WellFormed;
    if order == [] {
    } else {
      FlushBlockFlat(c, order[..|order| - 1], readings, f);
    }
  }

  lemma {:induction false} HistoryFlat(log: seq<Attempt>, f: Attempt -> seq<Option<Sample>>)
    requires forall a :: f(a) == SamplesOf(a)
    ensures History(log) == FlatMap(log, f)
  {
    hide SamplesOf, AttemptBase.WellFormed;
    if log == [] {
    } else {
      HistoryFlat(log[..|log| - 1], f);
    }
  }

  /** Any two walks of the map make the same attempts. */
  lemma {:induction false} FlushOrderIrrelevant(c: Col, a: seq<int>, b: seq<int>, readings: Readings)
    requires IsOrder(a, c.groups.Keys) && IsOrder(b, c.groups.Keys)
    ensures multiset(FlushAll(c, a, readings).log) == multiset(FlushAll(c, b, readings).log)
  {
    hide FlushAll, FlushBlock, ThreadBlock, FlatMap, Tabulated, AttemptBase.WellFormed;
    var f := (t: int) => ThreadBlock(c, t, readings);
    OrderMultiset(a, c.groups.Keys);
    OrderMultiset(b, c.groups.Keys);
    FlushBlockFlat(c, a, readings, f);
    FlushBlockFlat(c, b, readings, f);
    FlatMapPermutes(a, b, f);
    FlushEffect(c, a, readings);
    FlushEffect(c, b, readings);
  }

  /** In every reachable state, any two walks of the map produce tables that join to the
      same measurements, as long as no read was short. */
  lemma {:induction false} FlushSamplesAgree(configs: seq<seq<PerfConfig>>, ops: seq<Op>, a: seq<int>, b: seq<int>,
                                             readings: Readings)
    requires var keys := Run(Init(configs), ops).groups.Keys; IsOrder(a, keys) && IsOrder(b, keys)
    ensures var c := Run(Init(configs), ops);
            var d, e := FlushAll(c, a, readings), FlushAll(c, b, readings);
            (forall x :: x in d.log ==> x.Whole()) ==>
              multiset(JoinTables(d.eventRows, d.readRows, d.descRows)) ==
              multiset(JoinTables(e.eventRows, e.readRows, e.descRows))
  {
    hide FlushAll, Run, JoinTables, History, Trusted, IsOrder, AttemptBase.WellFormed, AttemptBase.Whole;
    var c := Run(Init(configs), ops);
    var d, e := FlushAll(c, a, readings), FlushAll(c, b, readings);
    FlushOrderIrrelevant(c, a, b, readings);
    RunFlush(configs, ops, a, readings);
    RunFlush(configs, ops, b, readings);
    Lossless(configs, ops + [Op.Flush(a, readings)]);
    Lossless(configs, ops + [Op.Flush(b, readings)]);
    SameHistory(d.log, e.log);
    forall x | x in e.log ensures x in d.log {
      assert x in multiset(e.log);
    }
  }

  lemma {:induction false} RunFlush(configs: seq<seq<PerfConfig>>, ops: seq<Op>, order: seq<int>, readings: Readings)
    ensures Run(Init(configs), ops + [Op.Flush(order, readings)]) == FlushAll(Run(Init(configs), ops), order, readings)
  {
    hide FlushAll;
    assert (ops + [Op.Flush(order, readings)])[..|ops|] == ops;
  }

  lemma {:induction false} SameHistory(a: seq<Attempt>, b: seq<Attempt>)
    requires multiset(a) == multiset(b)
    ensures multiset(History(a)) == multiset(History(b))
  {
    hide History, SamplesOf, FlatMap, AttemptBase.WellFormed;
    var f := (x: Attempt) => SamplesOf(x);
    HistoryFlat(a, f);
    HistoryFlat(b, f);
    FlatMapPermutes(a, b, f);
  }
}
