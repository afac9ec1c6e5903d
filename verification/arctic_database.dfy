/** The overview bookkeeping of the Arctic database adapter. The adapter keeps
    one overview record (symbol, exchange, interval, start, end, count) per
    bar table in a metadata store. Writing bars creates or widens the record,
    deleting bars purges it, and tick operations never touch it. Data tables
    themselves live in the chunk store, which is not modelled: the row count
    it reports (`get_info(name)["len"]`) is an input. */
module ArcticDatabase {
  import opened Wrappers
  import opened TableNames

  /** A bar as far as the overview is concerned; prices and volumes are left
      out. Timestamps are integers. `interval` may be `None`. */
  datatype Bar = Bar(symbol: string, exchange: string, interval: Option<string>, datetime: int)

  /** A tick as far as table naming is concerned. */
  datatype Tick = Tick(symbol: string, exchange: string)

  /** One overview record, as stored in the metadata store and as listed. */
  datatype Overview = Overview(
    symbol: string,
    exchange: string,
    interval: string,
    start: int,
    end: int,
    count: nat)

  /** The metadata store: table name to its latest overview record. */
  type OverviewStore = map<string, Overview>

  /** The exceptions the adapter's own code raises. */
  datatype Error =
    | EmptyBatch   // IndexError: `bars[0]` / `ticks[0]` on an empty list
    | NoInterval   // AttributeError: `bar.interval.value` with `interval` None

  /** The overview store after an operation, and what the operation returned
      or raised. A raised exception leaves the store as it was. */
  datatype Outcome<+T> = Outcome(store: OverviewStore, result: Result<T, Error>)

  function Min(a: int, b: int): (m: int)
    ensures m <= a && m <= b && (m == a || m == b)
  {
    if a <= b then a else b
  }

  function Max(a: int, b: int): (m: int)
    ensures a <= m && b <= m && (m == a || m == b)
  {
    if a <= b then b else a
  }

  function Last<T>(s: seq<T>): T
    requires |s| > 0
  {
    s[|s| - 1]
  }

  /** The batch's start: the earlier of its first and last bar only. */
  function BatchStart(bars: seq<Bar>): (t: int)
    requires |bars| > 0
    ensures t <= bars[0].datetime && t <= Last(bars).datetime
    ensures t == bars[0].datetime || t == Last(bars).datetime
  {
    Min(bars[0].datetime, Last(bars).datetime)
  }

  /** The batch's end: the later of its first and last bar only. */
  function BatchEnd(bars: seq<Bar>): (t: int)
    requires |bars| > 0
    ensures bars[0].datetime <= t && Last(bars).datetime <= t
    ensures t == bars[0].datetime || t == Last(bars).datetime
  {
    Max(bars[0].datetime, Last(bars).datetime)
  }

  /** The table a bar batch is written to, named after its first bar. */
  function BarTable(bars: seq<Bar>): string
    requires |bars| > 0
  {
    TableName(bars[0].symbol, bars[0].exchange, bars[0].interval)
  }

  /** `save_bar_data(bars)`, once the chunk store has accepted the batch and
      reports `count` rows for its table. */
  function SaveBarData(store: OverviewStore, bars: seq<Bar>, count: nat): (r: Outcome<bool>)
    // An empty batch raises, and so does the first save of a bar without an
    // interval; nothing else does, and a raise leaves the store alone.
    ensures r.result.Failure? <==>
              |bars| == 0 || (BarTable(bars) !in store && bars[0].interval.None?)
    ensures r.result.Failure? ==> r.store == store
    ensures |bars| == 0 ==> r.result == Failure(EmptyBatch)
    ensures |bars| > 0 && r.result.Failure? ==> r.result.error == NoInterval
    ensures r.result.Success? ==> r.result.value
    // Only the batch's table changes, and it ends up present.
    ensures r.result.Success? ==>
              && r.store.Keys == store.Keys + {BarTable(bars)}
              && forall name | name in store && name != BarTable(bars) :: r.store[name] == store[name]
    // The count is the store-reported one, whatever was recorded before.
    ensures r.result.Success? ==> r.store[BarTable(bars)].count == count
    // The recorded range covers the batch's endpoints.
    ensures r.result.Success? ==>
              && r.store[BarTable(bars)].start <= BatchStart(bars)
              && BatchEnd(bars) <= r.store[BarTable(bars)].end
    // A new record takes its identity from the first bar and spans exactly
    // the endpoints.
    ensures r.result.Success? && BarTable(bars) !in store ==>
              var o := r.store[BarTable(bars)];
              && o.symbol == bars[0].symbol && o.exchange == bars[0].exchange
              && Some(o.interval) == bars[0].interval
              && o.start == BatchStart(bars) && o.end == BatchEnd(bars)
    // An existing record keeps its identity and only ever widens, to the
    // nearest of the old bound and the batch's.
    ensures r.result.Success? && BarTable(bars) in store ==>
              var (o, o') := (store[BarTable(bars)], r.store[BarTable(bars)]);
              && o'.symbol == o.symbol && o'.exchange == o.exchange && o'.interval == o.interval
              && o'.start <= o.start && o.end <= o'.end
              && (o'.start == o.start || o'.start == BatchStart(bars))
              && (o'.end == o.end || o'.end == BatchEnd(bars))
  {
    if |bars| == 0 then Outcome(store, Failure(EmptyBatch))
    else
      var bar := bars[0];
      var name := BarTable(bars);
      var start := BatchStart(bars);
      var end := BatchEnd(bars);
      if name !in store then
        match bar.interval
        case None => Outcome(store, Failure(NoInterval))
        case Some(iv) =>
          Outcome(store[name := Overview(bar.symbol, bar.exchange, iv, start, end, count)], Success(true))
      else
        var prior := store[name];
        var merged := prior.(start := Min(prior.start, start), end := Max(prior.end, end), count := count);
        Outcome(store[name := merged], Success(true))
  }

  /** `delete_bar_data(symbol, exchange, interval)`, where `count` is the row
      count the chunk store reports before the data is deleted. */
  function DeleteBarData(store: OverviewStore, symbol: string, exchange: string, interval: string, count: nat)
    : (r: Outcome<nat>)
    ensures r.result == Success(count)
    ensures TableName(symbol, exchange, Some(interval)) !in r.store
    ensures forall name | name != TableName(symbol, exchange, Some(interval)) ::
              (name in r.store <==> name in store) && (name in store ==> r.store[name] == store[name])
  {
    Outcome(store - {TableName(symbol, exchange, Some(interval))}, Success(count))
  }

  /** The table a tick batch is written to, named after its first tick and
      without an interval. */
  function TickTable(ticks: seq<Tick>): string
    requires |ticks| > 0
  {
    TableName(ticks[0].symbol, ticks[0].exchange, None)
  }

  /** `save_tick_data(ticks)`: writes only to the tick chunk store and returns
      None; the overview store is untouched either way. */
  function SaveTickData(store: OverviewStore, ticks: seq<Tick>): (r: Outcome<()>)
    ensures r.store == store
    ensures r.result.Failure? <==> |ticks| == 0
    ensures |ticks| == 0 ==> r.result == Failure(EmptyBatch)
  {
    if |ticks| == 0 then Outcome(store, Failure(EmptyBatch)) else Outcome(store, Success(()))
  }

  /** `delete_tick_data(symbol, exchange)`, where `count` is the row count the
      tick chunk store reports before deletion. */
  function DeleteTickData(store: OverviewStore, symbol: string, exchange: string, count: nat): (r: Outcome<nat>)
    ensures r.store == store
    ensures r.result == Success(count)
  {
    Outcome(store, Success(count))
  }

  /** The overview-store invariant: every record spans a non-empty range and
      is filed under the bar table named after its own symbol, exchange and
      interval. */
  ghost predicate Valid(store: OverviewStore) {
    forall name | name in store ::
      && store[name].start <= store[name].end
      && name == TableName(store[name].symbol, store[name].exchange, Some(store[name].interval))
  }

  /** `get_bar_overview()`: one overview per stored table name, in whatever
      order the metadata store lists its names (`names`, the result of
      `list_symbols()`). Each name is listed once and paired with its own
      record; in a valid store no record is listed twice. */
  method GetBarOverview(store: OverviewStore) returns (names: seq<string>, overviews: seq<Overview>)
    ensures |names| == |overviews| == |store|
    ensures forall i, j | 0 <= i < j < |names| :: names[i] != names[j]
    ensures forall i | 0 <= i < |names| :: names[i] in store && overviews[i] == store[names[i]]
    ensures forall name | name in store :: name in names
    ensures forall name | name in store :: store[name] in overviews
    ensures Valid(store) ==>
              forall i, j | 0 <= i < j < |overviews| :: overviews[i] != overviews[j]
  {
    overviews := [];
    var pending := store.Keys;
    names := [];
    while pending != {}
      invariant pending <= store.Keys
      invariant forall i | 0 <= i < |names| :: names[i] in store && names[i] !in pending
      invariant forall name | name in store && name !in pending :: name in names
      invariant forall i, j | 0 <= i < j < |names| :: names[i] != names[j]
      invariant |names| == |overviews|
      invariant forall i | 0 <= i < |names| :: overviews[i] == store[names[i]]
      invariant |overviews| + |pending| == |store|
      decreases |pending|
    {
      var name :| name in pending;
      overviews := overviews + [store[name]];
      names := names + [name];
      pending := pending - {name};
    }
    ListingCoversStore(store, names, overviews);
  }

  /** A listing that pairs each stored name, once, with its record shows
      every record, and in a valid store shows none twice. */
  lemma ListingCoversStore(store: OverviewStore, names: seq<string>, overviews: seq<Overview>)
    requires |names| == |overviews|
    requires forall i, j | 0 <= i < j < |names| :: names[i] != names[j]
    requires forall i | 0 <= i < |names| :: names[i] in store && overviews[i] == store[names[i]]
    requires forall name | name in store :: name in names
    ensures forall name | name in store :: store[name] in overviews
    ensures Valid(store) ==>
              forall i, j | 0 <= i < j < |overviews| :: overviews[i] != overviews[j]
  {
    forall name | name in store
      ensures store[name] in overviews
    {
      var i :| 0 <= i < |names| && names[i] == name;
      assert overviews[i] == store[name];
    }
    if Valid(store) {
      forall i, j | 0 <= i < j < |overviews|
        ensures overviews[i] != overviews[j]
      {
        assert names[i] != names[j];
      }
    }
  }
}
