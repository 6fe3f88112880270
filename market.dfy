/** Rows of the merged price table, the strategy's parameters and the
    records of the equity curve, as the compounding backtest sees them.
    Money is exact `real`: CAD amounts unless a name says USD. */
module Market {

  /** One fully populated row of the merged table. `date` is an opaque key:
      the model reads rows by position and copies the date to the output
      record.
      `cadImplied` is the CAD price implied by the USD listing,
      `exchangeRate` is USD per 1 CAD. */
  datatype Row = Row(
    date: int,
    closeDomestic: real,
    cadImplied: real,
    closeForeign: real,
    exchangeRate: real)

  /** No two rows share a date. The script's loop looks each day's fields
      up by its date, and a repeated date makes it raise; this model reads
      rows by position and only requires the dates to be distinct. */
  predicate DistinctDates(rows: seq<Row>)
  {
    forall i, j :: 0 <= i < j < |rows| ==> rows[i].date != rows[j].date
  }

  /** The arguments of the backtest besides the table. */
  datatype Params = Params(
    initialCapital: real,
    cadFee: real,
    usdFeeRate: real,
    minRelSpread: real)

  /** One row of the equity table: capital after the day's decision, whether
      a trade was executed that day, and the profit column. */
  datatype Record = Record(date: int, equity: real, tradeExecuted: bool, profit: real)

  /** The values the script runs the backtest with. */
  const ScriptParams: Params := Params(10000.0, 30.0, 0.0003, 0.001)

  /** The `min_rel_spread` the backtest uses when its caller gives none. */
  const DefaultMinRelSpread: real := 0.0

  /** Builds a row from the two closes and the rate, deriving the CAD-implied
      price of the USD close. A zero rate has no finite implied price; the
      placeholder 0.0 is never read, because a row whose rate is not positive
      is skipped before its implied price is used. */
  function MakeRow(date: int, closeDomestic: real, closeForeign: real, exchangeRate: real): (r: Row)
    ensures r.date == date && r.closeDomestic == closeDomestic
    ensures r.closeForeign == closeForeign && r.exchangeRate == exchangeRate
    ensures exchangeRate != 0.0 ==> r.cadImplied * exchangeRate == closeForeign
    ensures exchangeRate > 0.0 && closeForeign > 0.0 ==> r.cadImplied > 0.0
  {
    Row(date, closeDomestic,
        if exchangeRate != 0.0 then closeForeign / exchangeRate else 0.0,
        closeForeign, exchangeRate)
  }
}
