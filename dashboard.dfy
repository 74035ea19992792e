/** One top-to-bottom pass of the dashboard script (portfolio.py, lines 11-99): which halt it
    reaches, or which sections the page shows for the selected portfolio and what they hold.
    Configuration, the database fetch, the clock and the two sidebar widgets are inputs. */
module Dashboard {
  import opened Sequences
  import opened Results
  import opened Grouping
  import opened Frames

  /** The contents of the three tables after the fetch. */
  datatype Tables = Tables(equity: seq<EquityRow>, metrics: seq<MetricsRow>, trades: seq<TradeRow>)

  /** The messages that end a pass early (`st.error` or `st.warning`, then `st.stop`). */
  datatype Stop =
    | MissingConnectionString
    | FetchFailed(message: string)
    | NoPortfolios
    | NoDataFor(portfolioId: string)

  /** The trades section: the recent trades on the shown columns, or the warning. */
  datatype TradesSection =
    | TradesTable(columns: seq<string>, lines: seq<seq<Cell>>)
    | NoTradesWarning

  /** The sections rendered for one portfolio; `None` is a section that is not rendered. */
  datatype Page = Page(
    portfolioId: string,
    equity: Option<seq<EquityRow>>,
    metrics: Option<seq<MetricsRow>>,
    trades: TradesSection)

  datatype Outcome = Halted(reason: Stop) | Shown(page: Page)

  /** The positions chosen in the group select box and in the portfolio radio list. */
  datatype Pick = Pick(group: nat, member: nat)

  /** `if not mysql_connection_string`: an absent and an empty string both fail. */
  predicate HasConnectionString(config: Option<string>) {
    config.Some? && config.value != ""
  }

  /** `df_equity['portfolio_id']`: the id of every equity row, in row order. */
  function IdColumn(equity: seq<EquityRow>): seq<string> {
    seq(|equity|, i requires 0 <= i < |equity| => equity[i].portfolioId)
  }

  /** `df_equity['portfolio_id'].unique()`: the equity table's ids in first-seen order. */
  function PortfolioIds(equity: seq<EquityRow>): (ids: seq<string>)
    ensures Distinct(ids)
    ensures forall id :: id in ids <==> exists row :: row in equity && row.portfolioId == id
    ensures ids == [] <==> equity == []
  {
    var column := IdColumn(equity);
    assert equity != [] ==> column[0] in column;
    assert forall row :: row in equity ==> row.portfolioId in column by {
      forall row | row in equity ensures row.portfolioId in column {
        var i :| 0 <= i < |equity| && equity[i] == row;
        assert column[i] == row.portfolioId;
      }
    }
    Unique(column)
  }

  /** The ids come in the order of their first equity rows: the first row carrying an
      earlier id comes before the first row carrying a later one. This order fixes the
      group order in the select box and the order of each radio list. */
  lemma PortfolioIdsFirstSeen(equity: seq<EquityRow>)
    ensures forall i, j :: 0 <= i < j < |PortfolioIds(equity)| ==>
              && PortfolioIds(equity)[i] in IdColumn(equity)
              && PortfolioIds(equity)[j] in IdColumn(equity)
              && FirstIndex(IdColumn(equity), PortfolioIds(equity)[i]) <
                 FirstIndex(IdColumn(equity), PortfolioIds(equity)[j])
  {
    assert PortfolioIds(equity) == Unique(IdColumn(equity));
    UniqueFirstSeenOrder(IdColumn(equity));
  }

  /** The two widgets offer this pick: a group key, then one of that group's ids. */
  predicate Offers(g: Groups, pick: Pick) {
    && pick.group < |g.keys|
    && g.keys[pick.group] in g.members
    && pick.member < |g.members[g.keys[pick.group]]|
  }

  /** The portfolio id the widgets return for a pick. */
  function Selected(g: Groups, pick: Pick): string
    requires Offers(g, pick)
  {
    g.members[g.keys[pick.group]][pick.member]
  }

  /** The widgets can only return offered options: nothing is asked of a pick when the pass
      stops before the widgets are drawn (no connection string, a failed fetch, no ids). */
  predicate PickIsOffered(config: Option<string>, fetch: Result<Tables, string>, pick: Pick) {
    !HasConnectionString(config) || fetch.Failure? || PortfolioIds(fetch.value.equity) == [] ||
    Offers(Grouped(PortfolioIds(fetch.value.equity)), pick)
  }

  /** A table's section for one portfolio: its rows when it has any (lines 62-82), otherwise
      the section is not rendered. */
  function Section<R(==,!new)>(rows: seq<R>, idOf: R -> string, id: string)
    : (s: Option<seq<R>>)
    ensures s.Some? <==> exists row :: row in rows && idOf(row) == id
    ensures s.Some? ==> s.value == OfPortfolio(rows, idOf, id)
  {
    var mine := OfPortfolio(rows, idOf, id);
    if mine == [] then None else Some(mine)
  }

  /** The trades section of lines 84-99: the portfolio's trades of the last 30 days on the
      nine shown columns, or the warning when it has none. */
  function TradesPart(trades: seq<TradeRow>, id: string, now: int): (s: TradesSection)
    ensures s.NoTradesWarning? <==>
      forall row :: row in trades && row.portfolioId == id ==>
        !(now - WINDOW <= row.fechaInicio <= now)
    ensures s.TradesTable? ==>
      && s.columns == TRADE_COLUMNS
      && s.lines == TradeTable(LastMonth(OfPortfolio(trades, TradeId, id), now))
  {
    var mine := OfPortfolio(trades, TradeId, id);
    var recent := LastMonth(mine, now);
    assert recent == [] <==>
      forall row :: row in trades && row.portfolioId == id ==>
        !(now - WINDOW <= row.fechaInicio <= now) by {
      OfPortfolioMembers(trades, TradeId, id);
    }
    if recent == [] then NoTradesWarning else TradesTable(TRADE_COLUMNS, TradeTable(recent))
  }

  /** Every line of the trades table is the projection of a trade of the portfolio that
      started in the window. */
  lemma ShownTradesAreRecent(trades: seq<TradeRow>, id: string, now: int, k: nat)
    requires TradesPart(trades, id, now).TradesTable?
    requires k < |TradesPart(trades, id, now).lines|
    ensures exists trade :: && trade in trades && trade.portfolioId == id
                            && now - WINDOW <= trade.fechaInicio <= now
                            && TradesPart(trades, id, now).lines[k] == TradeLine(trade)
  {
    var mine := OfPortfolio(trades, TradeId, id);
    var recent := LastMonth(mine, now);
    var trade := recent[k];
    assert multiset(recent)[trade] > 0;
    OfPortfolioMembers(trades, TradeId, id);
    assert trade in mine;
  }

  /** Lines 54-99 for the selected id: halt when no table has a row for it (lines 58-60);
      otherwise the page with its three sections. */
  function Render(t: Tables, id: string, now: int): (o: Outcome)
    ensures o.Halted? <==>
      && (forall row :: row in t.equity ==> row.portfolioId != id)
      && (forall row :: row in t.metrics ==> row.portfolioId != id)
      && (forall row :: row in t.trades ==> row.portfolioId != id)
    ensures o.Halted? ==> o.reason == NoDataFor(id)
    ensures o.Shown? ==> o.page == Page(id, Section(t.equity, EquityId, id),
                                        Section(t.metrics, MetricsId, id),
                                        TradesPart(t.trades, id, now))
  {
    if && OfPortfolio(t.equity, EquityId, id) == []
       && OfPortfolio(t.metrics, MetricsId, id) == []
       && OfPortfolio(t.trades, TradeId, id) == []
    then Halted(NoDataFor(id))
    else Shown(Page(id, Section(t.equity, EquityId, id), Section(t.metrics, MetricsId, id),
                    TradesPart(t.trades, id, now)))
  }

  /** The whole pass: configuration check (lines 11-15), fetch (26-33), the empty-portfolio
      halt (35-38), grouping and selection (40-52), then the portfolio's page. */
  function Pass(config: Option<string>, fetch: Result<Tables, string>, pick: Pick, now: int)
    : (o: Outcome)
    requires PickIsOffered(config, fetch, pick)
    ensures !HasConnectionString(config) ==> o == Halted(MissingConnectionString)
    ensures HasConnectionString(config) && fetch.Failure? ==> o == Halted(FetchFailed(fetch.error))
    ensures HasConnectionString(config) && fetch.Success? ==>
      (o == Halted(NoPortfolios) <==> fetch.value.equity == [])
    ensures HasConnectionString(config) && fetch.Success? && fetch.value.equity != [] ==>
      var g := Grouped(PortfolioIds(fetch.value.equity));
      Offers(g, pick) && o == Render(fetch.value, Selected(g, pick), now)
  {
    if !HasConnectionString(config) then Halted(MissingConnectionString)
    else if fetch.Failure? then Halted(FetchFailed(fetch.error))
    else
      var ids := PortfolioIds(fetch.value.equity);
      if ids == [] then Halted(NoPortfolios)
      else Render(fetch.value, Selected(Grouped(ids), pick), now)
  }

  /** The id the widgets return is one of the input ids, and it belongs to the chosen group. */
  lemma SelectedIsListed(ids: seq<string>, pick: Pick)
    requires Offers(Grouped(ids), pick)
    ensures Selected(Grouped(ids), pick) in ids
    ensures Prefix(Selected(Grouped(ids), pick)) == Grouped(ids).keys[pick.group]
  {
    var g := Grouped(ids);
    var key := g.keys[pick.group];
    var id := Selected(g, pick);
    assert id in g.members[key];
    assert multiset(g.members[key])[id] > 0;
  }

  /** When there are portfolios, the widgets' initial state (first group, its first id) is an
      offered pick, and so is the first id of any group. */
  lemma FirstIdOfEachGroupIsOffered(ids: seq<string>, group: nat)
    requires group < |Grouped(ids).keys|
    ensures Offers(Grouped(ids), Pick(group, 0))
  {
    GroupedWellFormed(ids);
    assert Grouped(ids).keys[group] in Grouped(ids).keys;
  }

  /** The selected id always comes from the equity table, so a pass never reaches the
      "no data" halt of lines 58-60 and always shows the equity section. */
  lemma EquityAlwaysShown(config: Option<string>, fetch: Result<Tables, string>, pick: Pick,
                          now: int)
    requires PickIsOffered(config, fetch, pick)
    ensures !Pass(config, fetch, pick, now).Halted? || !Pass(config, fetch, pick, now).reason.NoDataFor?
    ensures Pass(config, fetch, pick, now).Shown? ==> Pass(config, fetch, pick, now).page.equity.Some?
  {
    if HasConnectionString(config) && fetch.Success? {
      var ids := PortfolioIds(fetch.value.equity);
      if ids != [] {
        SelectedIsListed(ids, pick);
      }
    }
  }
}
