/** Properties of the overview bookkeeping across several operations: the
    store invariant is kept by every operation, a run of saves to one table
    records the least start and greatest end it has seen, and the order of
    those saves does not change the recorded range. */
module OverviewProperties {
  import opened Wrappers
  import opened TableNames
  import opened ArcticDatabase

  /** Every operation keeps the store invariant. */
  lemma SaveBarDataPreservesValid(store: OverviewStore, bars: seq<Bar>, count: nat)
    requires Valid(store)
    ensures Valid(SaveBarData(store, bars, count).store)
  {
  }

  lemma DeleteBarDataPreservesValid(store: OverviewStore, symbol: string, exchange: string, interval: string, count: nat)
    requires Valid(store)
    ensures Valid(DeleteBarData(store, symbol, exchange, interval, count).store)
  {
  }

  /** Deleting a table's bars right after saving them purges the record the
      save made or widened, and leaves every other table's record as it
      was; on a table that had no record, the delete undoes the save. */
  lemma SaveThenDeletePurges(store: OverviewStore, bars: seq<Bar>, count: nat, rows: nat)
    requires |bars| > 0 && bars[0].interval.Some?
    ensures var saved := SaveBarData(store, bars, count).store;
            var deleted := DeleteBarData(saved, bars[0].symbol, bars[0].exchange, bars[0].interval.value, rows);
            && deleted.store == store - {BarTable(bars)}
            && (BarTable(bars) !in store ==> deleted.store == store)
  {
    var name := BarTable(bars);
    var saved := SaveBarData(store, bars, count).store;
    var deleted := DeleteBarData(saved, bars[0].symbol, bars[0].exchange, bars[0].interval.value, rows).store;
    assert deleted.Keys == (store - {name}).Keys;
    if name !in store {
      assert store - {name} == store;
    }
  }

  /** A tick table never holds a bar overview: in a valid store every record
      sits under a name with an interval, and when symbol and exchange hold
      no separator a tick table's name has none. So tick saves and deletes,
      which leave the overview store alone, also leave no stale record
      behind. */
  lemma TickTableHasNoOverview(store: OverviewStore, symbol: string, exchange: string)
    requires Valid(store) && NoSep(symbol) && NoSep(exchange)
    ensures TableName(symbol, exchange, None) !in store
  {
    var name := TableName(symbol, exchange, None);
    if name in store {
      // A name built with an interval has a separator after the symbol and
      // another after the exchange; `name` has only the first.
      var o := store[name];
      var full := TableName(o.symbol, o.exchange, Some(o.interval));
      assert full[|o.symbol| + |o.exchange| + 1..][0] == Sep;
      SepPosition(symbol, exchange, |o.symbol|);
      SepPosition(symbol, exchange, |o.symbol| + |o.exchange| + 1);
    }
  }

  /** `save_tick_data` writes to the tick table named after its first tick.
      When that tick's symbol and exchange contain no separator, in a valid
      store the table carries no bar overview before or after the save. */
  lemma SaveTickDataLeavesNoOverview(store: OverviewStore, ticks: seq<Tick>)
    requires |ticks| > 0 && Valid(store)
    requires NoSep(ticks[0].symbol) && NoSep(ticks[0].exchange)
    ensures SaveTickData(store, ticks).result.Success?
    ensures TickTable(ticks) !in SaveTickData(store, ticks).store
  {
    TickTableHasNoOverview(store, ticks[0].symbol, ticks[0].exchange);
  }

  /** `delete_tick_data` removes the tick table named after its symbol and
      exchange. When neither contains a separator, in a valid store that
      table carries no bar overview before or after the delete. */
  lemma DeleteTickDataLeavesNoOverview(store: OverviewStore, symbol: string, exchange: string, count: nat)
    requires Valid(store) && NoSep(symbol) && NoSep(exchange)
    ensures DeleteTickData(store, symbol, exchange, count).result == Success(count)
    ensures TableName(symbol, exchange, None) !in DeleteTickData(store, symbol, exchange, count).store
  {
    TickTableHasNoOverview(store, symbol, exchange);
  }

  /** Without the separator condition a tick table can share its name with
      a bar table: the ticks of `a`/`b_1m` go to `a_b_1m`, where a valid
      store may hold the overview of the `a`/`b`/`1m` bars. */
  lemma TickTableCollision()
    ensures var store := map["a_b_1m" := Overview("a", "b", "1m", 0, 0, 1)];
            && Valid(store)
            && TickTable([Tick("a", "b_1m")]) in SaveTickData(store, [Tick("a", "b_1m")]).store
  {
    assert TableName("a", "b_1m", None) == "a_b_1m";
    assert TableName("a", "b", Some("1m")) == "a_b_1m";
  }

  /** In `symbol_exchange` with no separator in either part, the only
      separator is the one between them. */
  lemma SepPosition(symbol: string, exchange: string, k: int)
    requires NoSep(symbol) && NoSep(exchange) && 0 <= k < |symbol| + 1 + |exchange|
    ensures (symbol + [Sep] + exchange)[k] == Sep <==> k == |symbol|
  {
    var name := symbol + [Sep] + exchange;
    if k < |symbol| {
      assert name[k] == symbol[k];
    } else if k > |symbol| {
      assert name[k] == exchange[k - |symbol| - 1];
    }
  }

  /** One save: its bars and the row count the chunk store reports after it. */
  datatype Write = Write(bars: seq<Bar>, count: nat)

  /** A write that `save_bar_data` accepts and that lands in table `name`. */
  predicate Targets(w: Write, name: string) {
    |w.bars| > 0 && w.bars[0].interval.Some? && BarTable(w.bars) == name
  }

  predicate AllTarget(writes: seq<Write>, name: string) {
    forall i | 0 <= i < |writes| :: Targets(writes[i], name)
  }

  /** The overview store after saving each write in turn; a write that raises
      leaves the store unchanged. */
  function SaveAll(store: OverviewStore, writes: seq<Write>): OverviewStore
    decreases |writes|
  {
    if |writes| == 0 then store
    else SaveAll(SaveBarData(store, writes[0].bars, writes[0].count).store, writes[1..])
  }

  /** Each write's batch start and batch end, in save order. */
  function Starts(writes: seq<Write>): (xs: seq<int>)
    requires forall i | 0 <= i < |writes| :: |writes[i].bars| > 0
    ensures |xs| == |writes|
    ensures forall i | 0 <= i < |writes| :: xs[i] == BatchStart(writes[i].bars)
  {
    seq(|writes|, i requires 0 <= i < |writes| && |writes[i].bars| > 0 => BatchStart(writes[i].bars))
  }

  function Ends(writes: seq<Write>): (xs: seq<int>)
    requires forall i | 0 <= i < |writes| :: |writes[i].bars| > 0
    ensures |xs| == |writes|
    ensures forall i | 0 <= i < |writes| :: xs[i] == BatchEnd(writes[i].bars)
  {
    seq(|writes|, i requires 0 <= i < |writes| && |writes[i].bars| > 0 => BatchEnd(writes[i].bars))
  }

  /** The recorded start and end of `name` before any write, if any. */
  function PriorStart(store: OverviewStore, name: string): Option<int> {
    if name in store then Some(store[name].start) else None
  }

  function PriorEnd(store: OverviewStore, name: string): Option<int> {
    if name in store then Some(store[name].end) else None
  }

  /** `t` is the least of `prior` (when present) and the values `xs`. */
  predicate IsLeast(t: int, prior: Option<int>, xs: seq<int>) {
    && (prior.Some? ==> t <= prior.value)
    && (forall i | 0 <= i < |xs| :: t <= xs[i])
    && ((prior.Some? && t == prior.value) || t in xs)
  }

  /** `t` is the greatest of `prior` (when present) and the values `xs`. */
  predicate IsGreatest(t: int, prior: Option<int>, xs: seq<int>) {
    && (prior.Some? ==> prior.value <= t)
    && (forall i | 0 <= i < |xs| :: xs[i] <= t)
    && ((prior.Some? && t == prior.value) || t in xs)
  }

  /** `t` is the least of the prior start of `name` (if recorded) and of
      every write's batch start. */
  predicate LeastStart(t: int, store: OverviewStore, name: string, writes: seq<Write>)
    requires AllTarget(writes, name)
  {
    IsLeast(t, PriorStart(store, name), Starts(writes))
  }

  /** `t` is the greatest of the prior end of `name` (if recorded) and of
      every write's batch end. */
  predicate GreatestEnd(t: int, store: OverviewStore, name: string, writes: seq<Write>)
    requires AllTarget(writes, name)
  {
    IsGreatest(t, PriorEnd(store, name), Ends(writes))
  }

  /** Saves to other tables never disturb a table's record. */
  lemma {:induction false} SaveAllFrame(store: OverviewStore, writes: seq<Write>, name: string, other: string)
    requires AllTarget(writes, name) && other != name
    ensures other in SaveAll(store, writes) <==> other in store
    ensures other in store ==> SaveAll(store, writes)[other] == store[other]
    decreases |writes|
  {
    if |writes| > 0 {
      var next := SaveBarData(store, writes[0].bars, writes[0].count).store;
      AllTargetTail(writes, name);
      SaveAllFrame(next, writes[1..], name, other);
    }
  }

  /** Dropping the first write keeps every remaining write on its table. */
  lemma AllTargetTail(writes: seq<Write>, name: string)
    requires |writes| > 0 && AllTarget(writes, name)
    ensures AllTarget(writes[1..], name)
  {
    forall i | 0 <= i < |writes[1..]| ensures Targets(writes[1..][i], name) {
      assert writes[1..][i] == writes[i + 1];
    }
  }

  /** One accepted save records the least start and greatest end of the prior
      record and its own batch. */
  lemma SaveOneSpan(store: OverviewStore, w: Write, name: string)
    requires Targets(w, name)
    ensures name in SaveBarData(store, w.bars, w.count).store
    ensures IsLeast(SaveBarData(store, w.bars, w.count).store[name].start, PriorStart(store, name), [BatchStart(w.bars)])
    ensures IsGreatest(SaveBarData(store, w.bars, w.count).store[name].end, PriorEnd(store, name), [BatchEnd(w.bars)])
  {
  }

  /** The starts (ends) of a run are those of its first write followed by
      those of the rest. */
  lemma StartsCons(writes: seq<Write>)
    requires |writes| > 0 && forall i | 0 <= i < |writes| :: |writes[i].bars| > 0
    ensures Starts(writes) == [BatchStart(writes[0].bars)] + Starts(writes[1..])
  {
    var xs, ys := Starts(writes), Starts(writes[1..]);
    forall i | 0 < i < |xs| ensures xs[i] == ys[i - 1] {
      assert writes[1..][i - 1] == writes[i];
    }
  }

  lemma EndsCons(writes: seq<Write>)
    requires |writes| > 0 && forall i | 0 <= i < |writes| :: |writes[i].bars| > 0
    ensures Ends(writes) == [BatchEnd(writes[0].bars)] + Ends(writes[1..])
  {
    var xs, ys := Ends(writes), Ends(writes[1..]);
    forall i | 0 < i < |xs| ensures xs[i] == ys[i - 1] {
      assert writes[1..][i - 1] == writes[i];
    }
  }

  /** Folding one value into the prior bound and then the rest gives the
      bound over all of them. */
  lemma IsLeastStep(m: int, t: int, prior: Option<int>, x: int, ys: seq<int>)
    requires IsLeast(m, prior, [x]) && IsLeast(t, Some(m), ys)
    ensures IsLeast(t, prior, [x] + ys)
  {
    assert forall i | 0 <= i < |ys| :: ([x] + ys)[i + 1] == ys[i];
  }

  lemma IsGreatestStep(m: int, t: int, prior: Option<int>, x: int, ys: seq<int>)
    requires IsGreatest(m, prior, [x]) && IsGreatest(t, Some(m), ys)
    ensures IsGreatest(t, prior, [x] + ys)
  {
    assert forall i | 0 <= i < |ys| :: ([x] + ys)[i + 1] == ys[i];
  }

  /** After a non-empty run of saves to one table, the table has a record
      whose count is the one the last save reported, not a sum. */
  lemma {:induction false} SaveAllCount(store: OverviewStore, writes: seq<Write>, name: string)
    requires |writes| > 0 && AllTarget(writes, name)
    ensures name in SaveAll(store, writes)
    ensures SaveAll(store, writes)[name].count == writes[|writes| - 1].count
    decreases |writes|
  {
    var w := writes[0];
    assert Targets(w, name);
    var next := SaveBarData(store, w.bars, w.count).store;
    var tail := writes[1..];
    assert SaveAll(store, writes) == SaveAll(next, tail);
    if |writes| > 1 {
      AllTargetTail(writes, name);
      SaveAllCount(next, tail, name);
      assert tail[|tail| - 1] == writes[|writes| - 1];
    }
  }

  /** After a non-empty run of saves to one table, its record spans from the
      least start to the greatest end seen, the prior record included. */
  lemma {:induction false} SaveAllSpan(store: OverviewStore, writes: seq<Write>, name: string)
    requires |writes| > 0 && AllTarget(writes, name)
    ensures name in SaveAll(store, writes)
    ensures LeastStart(SaveAll(store, writes)[name].start, store, name, writes)
    ensures GreatestEnd(SaveAll(store, writes)[name].end, store, name, writes)
    decreases |writes|
  {
    var w := writes[0];
    assert Targets(w, name);
    var next := SaveBarData(store, w.bars, w.count).store;
    SaveOneSpan(store, w, name);
    AllTargetTail(writes, name);
    StartsCons(writes);
    EndsCons(writes);
    var tail := writes[1..];
    assert SaveAll(store, writes) == SaveAll(next, tail);
    if |writes| == 1 {
      assert Starts(writes) == [BatchStart(w.bars)] && Ends(writes) == [BatchEnd(w.bars)];
    } else {
      SaveAllSpan(next, tail, name);
      var o := SaveAll(next, tail)[name];
      assert PriorStart(next, name) == Some(next[name].start);
      assert PriorEnd(next, name) == Some(next[name].end);
      IsLeastStep(next[name].start, o.start, PriorStart(store, name), BatchStart(w.bars), Starts(tail));
      IsGreatestStep(next[name].end, o.end, PriorEnd(store, name), BatchEnd(w.bars), Ends(tail));
    }
  }

  /** The least (greatest) value is unique, and it depends only on which
      writes occur, not on their order. */
  lemma LeastStartUnique(t: int, u: int, store: OverviewStore, name: string, writes: seq<Write>, writes': seq<Write>)
    requires multiset(writes) == multiset(writes')
    requires AllTarget(writes, name) && AllTarget(writes', name)
    requires LeastStart(t, store, name, writes) && LeastStart(u, store, name, writes')
    ensures t == u
  {
    var xs, ys := Starts(writes), Starts(writes');
    forall i | 0 <= i < |xs| ensures u <= xs[i] {
      assert writes[i] in multiset(writes');
      var j :| 0 <= j < |writes'| && writes'[j] == writes[i];
      assert ys[j] == xs[i];
    }
    forall j | 0 <= j < |ys| ensures t <= ys[j] {
      assert writes'[j] in multiset(writes);
      var i :| 0 <= i < |writes| && writes[i] == writes'[j];
      assert xs[i] == ys[j];
    }
  }

  lemma GreatestEndUnique(t: int, u: int, store: OverviewStore, name: string, writes: seq<Write>, writes': seq<Write>)
    requires multiset(writes) == multiset(writes')
    requires AllTarget(writes, name) && AllTarget(writes', name)
    requires GreatestEnd(t, store, name, writes) && GreatestEnd(u, store, name, writes')
    ensures t == u
  {
    var xs, ys := Ends(writes), Ends(writes');
    forall i | 0 <= i < |xs| ensures xs[i] <= u {
      assert writes[i] in multiset(writes');
      var j :| 0 <= j < |writes'| && writes'[j] == writes[i];
      assert ys[j] == xs[i];
    }
    forall j | 0 <= j < |ys| ensures ys[j] <= t {
      assert writes'[j] in multiset(writes);
      var i :| 0 <= i < |writes| && writes[i] == writes'[j];
      assert xs[i] == ys[j];
    }
  }

  /** Saving the same batches to one table in any order records the same
      start and end; only the count follows whichever save came last. */
  lemma SaveOrderIndependent(store: OverviewStore, writes: seq<Write>, writes': seq<Write>, name: string)
    requires |writes| > 0 && multiset(writes) == multiset(writes')
    requires AllTarget(writes, name)
    ensures AllTarget(writes', name)
    ensures name in SaveAll(store, writes) && name in SaveAll(store, writes')
    ensures SaveAll(store, writes)[name].start == SaveAll(store, writes')[name].start
    ensures SaveAll(store, writes)[name].end == SaveAll(store, writes')[name].end
  {
    forall j | 0 <= j < |writes'| ensures Targets(writes'[j], name) {
      assert writes'[j] in multiset(writes);
      var i :| 0 <= i < |writes| && writes[i] == writes'[j];
    }
    assert |writes'| == |multiset(writes')| == |multiset(writes)| == |writes|;
    SaveAllSpan(store, writes, name);
    SaveAllSpan(store, writes', name);
    LeastStartUnique(SaveAll(store, writes)[name].start, SaveAll(store, writes')[name].start,
                     store, name, writes, writes');
    GreatestEndUnique(SaveAll(store, writes)[name].end, SaveAll(store, writes')[name].end,
                      store, name, writes, writes');
  }

  /** For a batch sorted by time the first and last bar bound every bar, so
      the recorded range covers the whole batch. */
  lemma SortedBatchCovered(store: OverviewStore, bars: seq<Bar>, count: nat)
    requires |bars| > 0
    requires forall i, j | 0 <= i <= j < |bars| :: bars[i].datetime <= bars[j].datetime
    requires SaveBarData(store, bars, count).result.Success?
    ensures forall i | 0 <= i < |bars| ::
              var o := SaveBarData(store, bars, count).store[BarTable(bars)];
              o.start <= bars[i].datetime <= o.end
  {
  }

  /** For an unsorted batch only the first and last bar count: saving bars
      at 100, 105 and 103 into a fresh store records the range 100..103, and
      the bar at 105 falls outside it. */
  lemma UnsortedBatchEscapesRange()
    ensures var bars := [Bar("rb2405", "SHFE", Some("1m"), 100), Bar("rb2405", "SHFE", Some("1m"), 105),
                         Bar("rb2405", "SHFE", Some("1m"), 103)];
            var o := SaveBarData(map[], bars, 3).store[BarTable(bars)];
            o.start == 100 && o.end == 103 && o.end < bars[1].datetime
  {
  }

  /** A save, a widening save and a delete on one table, step by step. */
  lemma SaveSaveDeleteScenario()
    ensures var bar := (t: int) => Bar("rb2405", "SHFE", Some("1m"), t);
            var name := TableName("rb2405", "SHFE", Some("1m"));
            var s1 := SaveBarData(map[], [bar(100), bar(103), bar(105)], 3).store;
            var s2 := SaveBarData(s1, [bar(90), bar(110)], 5).store;
            var s3 := DeleteBarData(s2, "rb2405", "SHFE", "1m", 5);
            && s1[name] == Overview("rb2405", "SHFE", "1m", 100, 105, 3)
            && s2[name] == Overview("rb2405", "SHFE", "1m", 90, 110, 5)
            && s3.result == Success(5) && s3.store == map[]
  {
  }
}
