/** The backtest as the script runs it: one pass over the rows that updates
    a capital accumulator in place and appends to the date, capital and
    trade columns, followed by the assembly of the equity table. */
module Engine {
  import opened Market
  import opened Strategy

  /** The body of the day loop: the gates, the sizing, the fees and the
      capital update, in the order the script evaluates them. */
  method TradeDay(p: Params, capital: real, r: Row) returns (newCapital: real, executed: bool)
    ensures Decision(newCapital, executed) == Step(p, capital, r)
    ensures capital <= newCapital
    ensures executed <==> Profitable(p, capital, r)
  {
    newCapital, executed := capital, false;

    if r.exchangeRate > 0.0 {
      var cadPerUsd := 1.0 / r.exchangeRate;
      var spread := Abs(r.closeDomestic - r.cadImplied);
      var lower := Min(r.closeDomestic, r.cadImplied);
      assert spread == Spread(r) && lower == Lower(r);

      if lower > 0.0 && spread / lower >= p.minRelSpread {
        var numShares := (capital / lower).Floor;
        assert numShares == NumShares(capital, Lower(r));
        if numShares > 0 {
          var usdNotional := numShares as real * r.closeForeign;
          var usdFeeCad := usdNotional * p.usdFeeRate * cadPerUsd;
          var feesCad := p.cadFee + usdFeeCad;

          var grossEdgeCad := spread * numShares as real;
          assert feesCad == Fees(p, r, numShares) && grossEdgeCad == GrossEdge(r, numShares);
          if grossEdgeCad > feesCad {
            newCapital := newCapital + (grossEdgeCad - feesCad);
            executed := true;
          }
        }
      }
    }
    StepTradesIffProfitable(p, capital, r);
  }

  /** The whole backtest: it returns exactly the equity table of the fold.
      It reads the rows by position. It requires distinct dates because the
      script's loop looks each day up by its date and raises on a repeat. */
  method BuySellCompounding(rows: seq<Row>, p: Params) returns (equity: seq<Record>)
    requires DistinctDates(rows)
    ensures equity == Backtest(p, rows)
    ensures |equity| == |rows|
    ensures forall k :: 0 <= k < |rows| ==> equity[k].date == rows[k].date
    ensures forall k :: 0 <= k < |rows| ==> equity[k].profit == equity[k].equity - p.initialCapital
  {
    var capital := p.initialCapital;
    var dates: seq<int>, capitals: seq<real>, trades: seq<bool> := [], [], [];
    ghost var ds := Trajectory(p, p.initialCapital, rows);

    for i := 0 to |rows|
      invariant |dates| == |capitals| == |trades| == i
      invariant capital == CapitalBefore(p, p.initialCapital, rows, i)
      invariant forall k :: 0 <= k < i ==>
                  && dates[k] == rows[k].date
                  && capitals[k] == ds[k].capital
                  && trades[k] == ds[k].executed
    {
      var executed;
      TrajectoryAt(p, p.initialCapital, rows, i);
      capital, executed := TradeDay(p, capital, rows[i]);
      dates := dates + [rows[i].date];
      capitals := capitals + [capital];
      trades := trades + [executed];
    }

    equity := seq(|dates|, k requires 0 <= k < |dates| && |capitals| == |trades| == |dates| =>
      Record(dates[k], capitals[k], trades[k], capitals[k] - p.initialCapital));
  }
}
