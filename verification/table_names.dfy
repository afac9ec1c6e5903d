/** Table names: the key under which one bar or tick series is stored in the
    chunk store and under which its overview is stored in the metadata store.
    Names are `symbol_exchange_interval` for bars and `symbol_exchange` for
    ticks. */
module TableNames {
  import opened Wrappers

  /** The separator between the components of a table name. */
  const Sep: char := '_'

  /** The components a table name is built from; `interval` is absent for
      tick tables. Exchange and interval are their enum `.value` strings. */
  datatype TableKey = TableKey(symbol: string, exchange: string, interval: Option<string>)

  /** True iff `s` contains no separator. */
  predicate NoSep(s: string) {
    forall i | 0 <= i < |s| :: s[i] != Sep
  }

  /** `generate_table_name(symbol, exchange, interval)`. */
  function TableName(symbol: string, exchange: string, interval: Option<string>): (name: string)
    ensures symbol + [Sep] + exchange <= name
    ensures interval.None? <==> |name| == |symbol| + 1 + |exchange|
    ensures interval.Some? ==> name[|symbol| + |exchange| + 1..] == [Sep] + interval.value
  {
    match interval
    case Some(iv) => symbol + [Sep] + exchange + [Sep] + iv
    case None => symbol + [Sep] + exchange
  }

  /** The position of the first separator in `s`, if any. */
  function FindSep(s: string): (r: Option<nat>)
    ensures r.Some? ==> r.value < |s| && s[r.value] == Sep && NoSep(s[..r.value])
    ensures r.None? ==> NoSep(s)
  {
    if |s| == 0 then None
    else if s[0] == Sep then Some(0)
    else
      match FindSep(s[1..])
      case None => None
      case Some(k) =>
        assert s[..k + 1] == [s[0]] + s[1..][..k];
        Some(k + 1)
  }

  /** Splits a table name back into its components: the symbol runs to the
      first separator, the exchange to the second, and whatever follows the
      second separator is the interval. */
  function ParseTableName(name: string): (r: Option<TableKey>)
    ensures r.Some? ==> NoSep(r.value.symbol) && NoSep(r.value.exchange)
    ensures r.None? <==> NoSep(name)
  {
    match FindSep(name)
    case None => None
    case Some(i) =>
      var rest := name[i + 1..];
      match FindSep(rest)
      case None => Some(TableKey(name[..i], rest, None))
      case Some(j) => Some(TableKey(name[..i], rest[..j], Some(rest[j + 1..])))
  }

  /** The first separator of `a + [Sep] + rest` is the one after `a` when
      `a` holds none. */
  lemma {:induction false} FindSepAfter(a: string, rest: string)
    requires NoSep(a)
    ensures FindSep(a + [Sep] + rest) == Some(|a|)
  {
    if |a| > 0 {
      assert (a + [Sep] + rest)[1..] == a[1..] + [Sep] + rest;
      FindSepAfter(a[1..], rest);
    }
  }

  /** Parsing inverts name generation whenever the symbol and the exchange
      hold no separator. */
  lemma ParseTableNameInverts(symbol: string, exchange: string, interval: Option<string>)
    requires NoSep(symbol) && NoSep(exchange)
    ensures ParseTableName(TableName(symbol, exchange, interval)) == Some(TableKey(symbol, exchange, interval))
  {
    var name := TableName(symbol, exchange, interval);
    match interval
    case Some(iv) =>
      assert name == symbol + [Sep] + (exchange + [Sep] + iv);
      FindSepAfter(symbol, exchange + [Sep] + iv);
      assert name[|symbol| + 1..] == exchange + [Sep] + iv;
      FindSepAfter(exchange, iv);
      var rest := name[|symbol| + 1..];
      assert name[..|symbol|] == symbol;
      assert rest[..|exchange|] == exchange;
      assert rest[|exchange| + 1..] == iv;
    case None =>
      FindSepAfter(symbol, exchange);
      assert name[|symbol| + 1..] == exchange;
      assert name[..|symbol|] == symbol;
  }

  /** Under the same condition, distinct keys get distinct table names, so
      two series never share a data table or an overview. */
  lemma TableNameInjective(k1: TableKey, k2: TableKey)
    requires NoSep(k1.symbol) && NoSep(k1.exchange)
    requires NoSep(k2.symbol) && NoSep(k2.exchange)
    requires TableName(k1.symbol, k1.exchange, k1.interval) == TableName(k2.symbol, k2.exchange, k2.interval)
    ensures k1 == k2
  {
    ParseTableNameInverts(k1.symbol, k1.exchange, k1.interval);
    ParseTableNameInverts(k2.symbol, k2.exchange, k2.interval);
  }

  /** Without that condition names collide: a symbol holding a separator can
      produce the name of a different (symbol, exchange) pair. */
  lemma TableNameCollision()
    ensures TableName("IF_2312", "CFFEX", None) == TableName("IF", "2312_CFFEX", None)
    ensures TableKey("IF_2312", "CFFEX", None) != TableKey("IF", "2312_CFFEX", None)
  {
  }
}
