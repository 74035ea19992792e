/** The three tables the dashboard reads (Equity, Metrics, Trades_Metrics), the per-portfolio
    filters applied to them (portfolio.py, lines 54-56), the trailing 30-day window on trades
    (lines 84-89) and the nine columns the trades table shows (line 95). Timestamps are whole
    seconds, already parsed. */
module Frames {
  import opened Sequences
  import opened Results

  /** One value of a table cell. */
  datatype Cell = Text(text: string) | Number(number: real) | Timestamp(seconds: int)

  /** A row of Equity: the portfolio's value on a date. */
  datatype EquityRow = EquityRow(portfolioId: string, date: int, value: real)

  /** A row of Metrics: the portfolio id and its other columns, in table order. */
  datatype MetricsRow = MetricsRow(portfolioId: string, columns: seq<(string, Cell)>)

  /** A row of Trades_Metrics; `others` holds any further columns the table has. */
  datatype TradeRow = TradeRow(
    portfolioId: string,
    fechaInicio: int,
    fechaSalida: int,
    plazoDias: real,
    asset: string,
    twrr: real,
    mae: real,
    mfe: real,
    tpr: real,
    returnToTpr: real,
    others: map<string, Cell>)

  function EquityId(row: EquityRow): string { row.portfolioId }
  function MetricsId(row: MetricsRow): string { row.portfolioId }
  function TradeId(row: TradeRow): string { row.portfolioId }

  /** The mask `df['portfolio_id'] == id`. */
  function IdIs<R>(idOf: R -> string, id: string): R -> bool {
    row => idOf(row) == id
  }

  /** `df[df['portfolio_id'] == id].copy()`: the rows of portfolio `id`, each as often as in
      the table; the table itself is a value and is left as it was. */
  function OfPortfolio<R(==,!new)>(rows: seq<R>, idOf: R -> string, id: string): (r: seq<R>)
    ensures forall row :: row in r ==> idOf(row) == id
    ensures forall row :: multiset(r)[row] == if idOf(row) == id then multiset(rows)[row] else 0
    ensures r == [] <==> forall row :: row in rows ==> idOf(row) != id
  {
    Where(rows, IdIs(idOf, id))
  }

  /** A row is kept exactly when it is in the table and carries the id. */
  lemma OfPortfolioMembers<R(!new)>(rows: seq<R>, idOf: R -> string, id: string)
    ensures forall row :: row in OfPortfolio(rows, idOf, id) <==> row in rows && idOf(row) == id
  {
    forall row ensures row in OfPortfolio(rows, idOf, id) <==> row in rows && idOf(row) == id {
      assert multiset(OfPortfolio(rows, idOf, id))[row] > 0 <==> row in OfPortfolio(rows, idOf, id);
      assert multiset(rows)[row] > 0 <==> row in rows;
    }
  }

  /** The filter keeps the table's row order. */
  lemma OfPortfolioKeepsOrder<R(!new)>(rows: seq<R>, idOf: R -> string, id: string)
    ensures IsSubsequence(OfPortfolio(rows, idOf, id), rows)
  {
    WhereIsSubsequence(rows, IdIs(idOf, id));
  }

  /** Filtering the filtered rows by the same id changes nothing. */
  lemma OfPortfolioIdempotent<R(!new)>(rows: seq<R>, idOf: R -> string, id: string)
    ensures OfPortfolio(OfPortfolio(rows, idOf, id), idOf, id) == OfPortfolio(rows, idOf, id)
  {
    WhereIdempotent(rows, IdIs(idOf, id));
  }

  const SECONDS_PER_DAY := 86400

  /** `timedelta(days=30)`, in seconds. */
  const WINDOW := 30 * SECONDS_PER_DAY

  /** The mask `start_date <= Fecha_inicio <= end_date` with `end_date = now` and
      `start_date = now - 30 days`. */
  function StartsWithin(now: int): TradeRow -> bool {
    (trade: TradeRow) => now - WINDOW <= trade.fechaInicio <= now
  }

  /** The trades that started in the 30 days up to `now`, both ends included. */
  function LastMonth(trades: seq<TradeRow>, now: int): (r: seq<TradeRow>)
    ensures forall t :: t in r ==> now - WINDOW <= t.fechaInicio <= now
    ensures forall t :: multiset(r)[t] ==
              if now - WINDOW <= t.fechaInicio <= now then multiset(trades)[t] else 0
    ensures r == [] <==> forall t :: t in trades ==> !(now - WINDOW <= t.fechaInicio <= now)
  {
    Where(trades, StartsWithin(now))
  }

  /** The window keeps the order of the filtered trades. */
  lemma LastMonthKeepsOrder(trades: seq<TradeRow>, now: int)
    ensures IsSubsequence(LastMonth(trades, now), trades)
  {
    WhereIsSubsequence(trades, StartsWithin(now));
  }

  /** Both ends of the window are inclusive: a trade that started exactly 30 days before
      `now`, or at `now`, is kept; one second earlier or later, it is not. */
  lemma WindowEnds(t: TradeRow, now: int)
    ensures t.fechaInicio == now - WINDOW ==> LastMonth([t], now) == [t]
    ensures t.fechaInicio == now ==> LastMonth([t], now) == [t]
    ensures t.fechaInicio == now - WINDOW - 1 ==> LastMonth([t], now) == []
    ensures t.fechaInicio == now + 1 ==> LastMonth([t], now) == []
  {
  }

  /** The columns of the trades table, in the order shown. */
  const TRADE_COLUMNS: seq<string> :=
    ["Fecha_inicio", "Fecha_salida", "Plazo_dias", "Asset", "TWRR", "MAE", "MFE", "TPR",
     "Return_to_TPR"]

  /** Looking a column of a trade up by its name, as `row[name]` does. */
  function Column(trade: TradeRow, name: string): Option<Cell> {
    if name == "portfolio_id" then Some(Text(trade.portfolioId))
    else if name == "Fecha_inicio" then Some(Timestamp(trade.fechaInicio))
    else if name == "Fecha_salida" then Some(Timestamp(trade.fechaSalida))
    else if name == "Plazo_dias" then Some(Number(trade.plazoDias))
    else if name == "Asset" then Some(Text(trade.asset))
    else if name == "TWRR" then Some(Number(trade.twrr))
    else if name == "MAE" then Some(Number(trade.mae))
    else if name == "MFE" then Some(Number(trade.mfe))
    else if name == "TPR" then Some(Number(trade.tpr))
    else if name == "Return_to_TPR" then Some(Number(trade.returnToTpr))
    else if name in trade.others then Some(trade.others[name])
    else None
  }

  /** One shown line of the trades table: cell `j` is the trade's column `TRADE_COLUMNS[j]`. */
  function TradeLine(trade: TradeRow): (line: seq<Cell>)
    ensures |line| == |TRADE_COLUMNS|
    ensures forall j :: 0 <= j < |line| ==> Column(trade, TRADE_COLUMNS[j]) == Some(line[j])
  {
    [Timestamp(trade.fechaInicio), Timestamp(trade.fechaSalida), Number(trade.plazoDias),
     Text(trade.asset), Number(trade.twrr), Number(trade.mae), Number(trade.mfe),
     Number(trade.tpr), Number(trade.returnToTpr)]
  }

  /** `trades[TRADE_COLUMNS]`: every trade projected onto the shown columns, in row order. */
  function TradeTable(trades: seq<TradeRow>): seq<seq<Cell>> {
    seq(|trades|, i requires 0 <= i < |trades| => TradeLine(trades[i]))
  }

  /** The projection keeps one line per trade, and its cells are the named columns. */
  lemma TradeTableCells(trades: seq<TradeRow>, i: nat, j: nat)
    requires i < |trades| && j < |TRADE_COLUMNS|
    ensures |TradeTable(trades)| == |trades| && |TradeTable(trades)[i]| == |TRADE_COLUMNS|
    ensures Column(trades[i], TRADE_COLUMNS[j]) == Some(TradeTable(trades)[i][j])
  {
  }
}
