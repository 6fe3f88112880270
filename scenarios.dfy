/** The script's two sample days run through the backtest, computed
    exactly: under the script's parameters and three variations (a 5%
    threshold, a capital of 50, and the default threshold of 0). */
module Scenarios {
  import opened Market
  import opened Strategy

  /** Two days of SHOP closes at a rate of 0.74 USD per CAD. */
  function TwoDays(): seq<Row>
  {
    [MakeRow(1, 100.0, 74.0, 0.74), MakeRow(2, 100.0, 76.0, 0.74)]
  }

  /** On the first day the implied price equals the domestic close, so the
      spread is zero and nothing trades. On the second the implied price is
      3800/37 (about 102.70): 100 shares capture 10000/37 against fees of
      30 + 114/37, and equity ends at 378776/37 (about 10237.19 CAD). */
  lemma ScriptParamsTradeOnSecondDay()
    ensures Backtest(ScriptParams, TwoDays())
         == [Record(1, 10000.0, false, 0.0),
             Record(2, 378776.0 / 37.0, true, 378776.0 / 37.0 - 10000.0)]
  {
    var rows := TwoDays();
    var r0, r1 := rows[0], rows[1];
    assert Spread(r0) == 0.0 && Lower(r0) == 100.0;
    assert Step(ScriptParams, 10000.0, r0) == Decision(10000.0, false);
    assert Spread(r1) == 100.0 / 37.0 && Lower(r1) == 100.0;
    assert NumShares(10000.0, 100.0) == 100;
    assert Fees(ScriptParams, r1, 100) == 30.0 + 114.0 / 37.0;
    assert Step(ScriptParams, 10000.0, r1) == Decision(378776.0 / 37.0, true);
    TrajectoryAt(ScriptParams, 10000.0, rows, 0);
    TrajectoryAt(ScriptParams, 10000.0, rows, 1);
  }

  /** With a 5% threshold the second day's 1/37 (about 2.7%) relative spread
      fails the noise filter, and equity stays at the initial capital. */
  lemma WideThresholdNeverTrades()
    ensures var p := Params(10000.0, 30.0, 0.0003, 0.05);
            Backtest(p, TwoDays()) == [Record(1, 10000.0, false, 0.0), Record(2, 10000.0, false, 0.0)]
  {
  }

  /** 50 CAD buys no share at a lower price of 100, so even the second
      day's spread is not traded. */
  lemma SmallCapitalNeverTrades()
    ensures var p := Params(50.0, 30.0, 0.0003, 0.001);
            Backtest(p, TwoDays()) == [Record(1, 50.0, false, 0.0), Record(2, 50.0, false, 0.0)]
  {
  }

  /** With the default threshold of zero, the first day's zero spread passes
      the noise filter, but its gross edge of zero does not exceed the fees,
      so it still does not trade; the second day trades as with the script's
      threshold. */
  lemma DefaultThresholdStopsAtFees()
    ensures var p := Params(10000.0, 30.0, 0.0003, DefaultMinRelSpread);
            && PassesNoiseGate(p, TwoDays()[0])
            && Backtest(p, TwoDays())
               == [Record(1, 10000.0, false, 0.0),
                   Record(2, 378776.0 / 37.0, true, 378776.0 / 37.0 - 10000.0)]
  {
    var p := Params(10000.0, 30.0, 0.0003, DefaultMinRelSpread);
    var rows := TwoDays();
    var r0, r1 := rows[0], rows[1];
    assert Spread(r0) == 0.0 && Lower(r0) == 100.0;
    assert NumShares(10000.0, 100.0) == 100;
    assert GrossEdge(r0, 100) == 0.0;
    assert Step(p, 10000.0, r0) == Decision(10000.0, false);
    assert Spread(r1) == 100.0 / 37.0 && Lower(r1) == 100.0;
    assert Fees(p, r1, 100) == 30.0 + 114.0 / 37.0;
    assert Step(p, 10000.0, r1) == Decision(378776.0 / 37.0, true);
    TrajectoryAt(p, 10000.0, rows, 0);
    TrajectoryAt(p, 10000.0, rows, 1);
  }
}
