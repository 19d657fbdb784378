/** The crossover strategy of the strategy constructor: golden crosses add
    to a cumulative buy counter, death crosses to a cumulative sell counter,
    the sell counter is shifted so that the invested fraction never goes
    below zero, and the difference is the `percentage_of_cash_invested`
    column. */
module GoldCrossDeathCross {
  import opened Wrappers
  import opened PriceData
  import opened MovingAverage
  import opened Crossover

  /** Golden-cross rows of the close series for the two window sizes. */
  function Buys(close: seq<real>, shortWindow: int, longWindow: int): (r: seq<bool>)
    requires shortWindow >= 1 && longWindow >= 1
    ensures |r| == |close|
  {
    BuyEvents(RollingMean(close, shortWindow), RollingMean(close, longWindow))
  }

  /** Death-cross rows of the close series for the two window sizes. */
  function Sells(close: seq<real>, shortWindow: int, longWindow: int): (r: seq<bool>)
    requires shortWindow >= 1 && longWindow >= 1
    ensures |r| == |close|
    ensures forall i :: 0 <= i < |close| ==> !(r[i] && Buys(close, shortWindow, longWindow)[i])
  {
    SellEvents(RollingMean(close, shortWindow), RollingMean(close, longWindow))
  }

  /** `when(c).then(1).otherwise(0)`. */
  function Indicator(c: bool): real
  {
    if c then 1.0 else 0.0
  }

  /** `cumulative_buy`: running total of (1 on a buy row, else 0) plus the
      default fraction. */
  function CumulativeBuy(buys: seq<bool>, default: real): (r: seq<real>)
    ensures |r| == |buys|
  {
    CumSum(seq(|buys|, i requires 0 <= i < |buys| => Indicator(buys[i]) + default))
  }

  /** `cumulative_sell`: running total of (1 on a sell row, else 0). */
  function CumulativeSell(sells: seq<bool>): (r: seq<real>)
    ensures |r| == |sells|
  {
    CumSum(seq(|sells|, i requires 0 <= i < |sells| => Indicator(sells[i])))
  }

  /** The first, uncorrected `percentage_of_cash_invested`. */
  function RawInvested(buys: seq<bool>, sells: seq<bool>, default: real): (r: seq<real>)
    requires |buys| == |sells|
    ensures |r| == |buys|
  {
    var cb, cs := CumulativeBuy(buys, default), CumulativeSell(sells);
    seq(|buys|, i requires 0 <= i < |buys| => cb[i] - cs[i])
  }

  /** Python's built-in `min` over a non-empty column. */
  function Minimum(xs: seq<real>): (m: real)
    requires xs != []
    ensures exists k :: 0 <= k < |xs| && xs[k] == m
    ensures forall k :: 0 <= k < |xs| ==> m <= xs[k]
  {
    if |xs| == 1 then xs[0]
    else
      var m := Minimum(xs[1..]);
      assert forall k :: 1 <= k < |xs| ==> xs[1..][k - 1] == xs[k];
      if xs[0] <= m then xs[0] else m
  }

  /** The sell counter shifted by `shift` and clamped at zero. */
  function CorrectedSell(cumulativeSell: seq<real>, shift: real): (r: seq<real>)
    ensures |r| == |cumulativeSell|
    ensures forall i :: 0 <= i < |r| ==>
      r[i] >= 0.0 && r[i] >= cumulativeSell[i] + shift &&
      (r[i] == 0.0 || r[i] == cumulativeSell[i] + shift)
  {
    seq(|cumulativeSell|, i requires 0 <= i < |cumulativeSell| =>
      if cumulativeSell[i] + shift < 0.0 then 0.0 else cumulativeSell[i] + shift)
  }

  /** The final `percentage_of_cash_invested` for given event columns: the
      buy counter minus the sell counter corrected by the minimum of the raw
      difference. */
  function InvestedOf(buys: seq<bool>, sells: seq<bool>, default: real): (r: seq<real>)
    requires |buys| == |sells| && buys != []
    ensures |r| == |buys|
  {
    var cb := CumulativeBuy(buys, default);
    var sell := CorrectedSell(CumulativeSell(sells), Minimum(RawInvested(buys, sells, default)));
    seq(|buys|, i requires 0 <= i < |buys| => cb[i] - sell[i])
  }

  /** The final fraction at row i, written out: the buy counter minus
      max(0, sell counter + m), where m is the least raw difference. */
  lemma InvestedAt(buys: seq<bool>, sells: seq<bool>, default: real, i: int)
    requires |buys| == |sells| && 0 <= i < |buys|
    ensures var cb, cs := CumulativeBuy(buys, default), CumulativeSell(sells);
      var m := Minimum(RawInvested(buys, sells, default));
      InvestedOf(buys, sells, default)[i] == cb[i] - (if cs[i] + m < 0.0 then 0.0 else cs[i] + m)
  {
  }

  /** Each counter steps by its row's indicator (plus the default for the
      buy counter). */
  lemma CountersStep(buys: seq<bool>, sells: seq<bool>, default: real, i: int)
    requires |buys| == |sells| && 0 <= i < |buys|
    ensures var cb, cs := CumulativeBuy(buys, default), CumulativeSell(sells);
      && (i == 0 ==> cb[0] == Indicator(buys[0]) + default && cs[0] == Indicator(sells[0]))
      && (i > 0 ==> cb[i] == cb[i - 1] + Indicator(buys[i]) + default)
      && (i > 0 ==> cs[i] == cs[i - 1] + Indicator(sells[i]))
  {
    var b := seq(|buys|, k requires 0 <= k < |buys| => Indicator(buys[k]) + default);
    var s := seq(|sells|, k requires 0 <= k < |sells| => Indicator(sells[k]));
    if i == 0 {
      assert CumSum(b)[0] == Sum(b[..1]) && CumSum(s)[0] == Sum(s[..1]);
      assert b[..1][..0] == [] && s[..1][..0] == [];
      assert Sum(b[..1]) == Sum(b[..1][..0]) + b[..1][0];
      assert Sum(s[..1]) == Sum(s[..1][..0]) + s[..1][0];
    } else {
      CumSumStep(b, i);
      CumSumStep(s, i);
    }
  }

  /** With a non-negative default both counters never decrease and are
      never negative. */
  lemma {:induction false} CountersMonotone(buys: seq<bool>, sells: seq<bool>, default: real, i: int)
    requires |buys| == |sells| && 0 <= i < |buys|
    requires default >= 0.0
    ensures var cb, cs := CumulativeBuy(buys, default), CumulativeSell(sells);
      cb[i] >= 0.0 && cs[i] >= 0.0 && (i > 0 ==> cb[i - 1] <= cb[i] && cs[i - 1] <= cs[i])
  {
    CountersStep(buys, sells, default, i);
    if i > 0 {
      CountersMonotone(buys, sells, default, i - 1);
    }
  }

  /** With a non-negative default the invested fraction is never negative. */
  lemma InvestedNonNegative(buys: seq<bool>, sells: seq<bool>, default: real)
    requires |buys| == |sells| && buys != []
    requires default >= 0.0
    ensures forall i :: 0 <= i < |buys| ==> InvestedOf(buys, sells, default)[i] >= 0.0
  {
    var raw := RawInvested(buys, sells, default);
    forall i | 0 <= i < |buys|
      ensures InvestedOf(buys, sells, default)[i] >= 0.0
    {
      InvestedAt(buys, sells, default, i);
      CountersMonotone(buys, sells, default, i);
      assert Minimum(raw) <= raw[i];
    }
  }

  /** With a non-negative default the invested fraction is exactly zero on
      every row where the raw difference is at its minimum, and there is
      such a row. */
  lemma ZeroAtMinimum(buys: seq<bool>, sells: seq<bool>, default: real)
    requires |buys| == |sells| && buys != []
    requires default >= 0.0
    ensures var raw := RawInvested(buys, sells, default);
      exists k :: 0 <= k < |buys| && raw[k] == Minimum(raw)
    ensures var raw := RawInvested(buys, sells, default);
      forall k :: 0 <= k < |buys| && raw[k] == Minimum(raw) ==> InvestedOf(buys, sells, default)[k] == 0.0
  {
    var raw := RawInvested(buys, sells, default);
    var w :| 0 <= w < |raw| && raw[w] == Minimum(raw);
    assert 0 <= w < |buys|;
    forall k | 0 <= k < |buys| && raw[k] == Minimum(raw)
      ensures InvestedOf(buys, sells, default)[k] == 0.0
    {
      InvestedAt(buys, sells, default, k);
      CountersMonotone(buys, sells, default, k);
    }
  }

  /** From one row to the next the invested fraction moves by the buy
      indicator plus the default, less at most the sell indicator. */
  lemma InvestedStep(buys: seq<bool>, sells: seq<bool>, default: real, i: int)
    requires |buys| == |sells| && 0 < i < |buys|
    ensures var inv := InvestedOf(buys, sells, default);
      var b, s := Indicator(buys[i]), Indicator(sells[i]);
      inv[i - 1] + b + default - s <= inv[i] <= inv[i - 1] + b + default
  {
    InvestedAt(buys, sells, default, i);
    InvestedAt(buys, sells, default, i - 1);
    CountersStep(buys, sells, default, i);
  }

  /** With the default of 0 and no row both a buy and a sell, the fraction
      rises by exactly 1 on a buy row, falls by at most 1 on a sell row and
      stays put on every other row. */
  lemma InvestedMovesOnlyOnEvents(buys: seq<bool>, sells: seq<bool>, i: int)
    requires |buys| == |sells| && 0 < i < |buys|
    requires !(buys[i] && sells[i])
    ensures var inv := InvestedOf(buys, sells, 0.0);
      && (buys[i] ==> inv[i] == inv[i - 1] + 1.0)
      && (sells[i] ==> inv[i - 1] - 1.0 <= inv[i] <= inv[i - 1])
      && (!buys[i] && !sells[i] ==> inv[i] == inv[i - 1])
  {
    InvestedStep(buys, sells, 0.0, i);
  }

  /** The counters when nothing fires: the buy counter is the running total
      of the default alone, the sell counter stays 0. */
  lemma {:induction false} CountersWithoutEvents(buys: seq<bool>, sells: seq<bool>, default: real, i: int)
    requires |buys| == |sells| && 0 <= i < |buys|
    requires forall k :: 0 <= k < |buys| ==> !buys[k] && !sells[k]
    ensures CumulativeBuy(buys, default)[i] == (i + 1) as real * default
    ensures CumulativeSell(sells)[i] == 0.0
  {
    CountersStep(buys, sells, default, i);
    if i > 0 {
      CountersWithoutEvents(buys, sells, default, i - 1);
    }
  }

  /** When nothing fires and the default is 0, the fraction is 0 on every
      row. */
  lemma NoEventsNoInvestment(buys: seq<bool>, sells: seq<bool>)
    requires |buys| == |sells| && buys != []
    requires forall k :: 0 <= k < |buys| ==> !buys[k] && !sells[k]
    ensures forall i :: 0 <= i < |buys| ==> InvestedOf(buys, sells, 0.0)[i] == 0.0
  {
    var raw := RawInvested(buys, sells, 0.0);
    forall i | 0 <= i < |buys|
      ensures raw[i] == 0.0
    {
      CountersWithoutEvents(buys, sells, 0.0, i);
    }
    forall i | 0 <= i < |buys|
      ensures InvestedOf(buys, sells, 0.0)[i] == 0.0
    {
      InvestedAt(buys, sells, 0.0, i);
      CountersWithoutEvents(buys, sells, 0.0, i);
    }
  }

  /** The invested fraction of a close series for the two window sizes. */
  function Invested(close: seq<real>, shortWindow: int, longWindow: int, default: real): (r: seq<real>)
    requires shortWindow >= 1 && longWindow >= 1
    requires close != []
    ensures |r| == |close|
  {
    InvestedOf(Buys(close, shortWindow, longWindow), Sells(close, shortWindow, longWindow), default)
  }

  /** The non-negativity of the invested fraction, for a close series. */
  lemma InvestedNonNegativeForWindows(close: seq<real>, shortWindow: int, longWindow: int, default: real)
    requires shortWindow >= 1 && longWindow >= 1
    requires close != []
    requires default >= 0.0
    ensures forall i :: 0 <= i < |close| ==> Invested(close, shortWindow, longWindow, default)[i] >= 0.0
  {
    InvestedNonNegative(Buys(close, shortWindow, longWindow), Sells(close, shortWindow, longWindow), default);
  }

  /** Buy and sell never fire on the same row. */
  lemma BuySellExclusive(close: seq<real>, shortWindow: int, longWindow: int, i: int)
    requires shortWindow >= 1 && longWindow >= 1
    requires 0 <= i < |close|
    ensures !(Buys(close, shortWindow, longWindow)[i] && Sells(close, shortWindow, longWindow)[i])
  {
    var ma1, ma2 := RollingMean(close, shortWindow), RollingMean(close, longWindow);
    assert !(SellEvents(ma1, ma2)[i] && BuyEvents(ma1, ma2)[i]);
  }

  /** A cross needs both averages at the row before, so no row before
      max(short, long) fires: a series shorter than the longer window never
      trades. */
  lemma EventsNeedFullWindows(close: seq<real>, shortWindow: int, longWindow: int, i: int)
    requires shortWindow >= 1 && longWindow >= 1
    requires 0 <= i < |close|
    requires Buys(close, shortWindow, longWindow)[i] || Sells(close, shortWindow, longWindow)[i]
    ensures i >= shortWindow && i >= longWindow
  {
    PreviousAveragesDefined(close, shortWindow, longWindow, i);
    RollingMeanDefinedFrom(close, shortWindow, i - 1);
    RollingMeanDefinedFrom(close, longWindow, i - 1);
  }

  /** A cross at row i needs both averages at row i - 1. */
  lemma PreviousAveragesDefined(close: seq<real>, shortWindow: int, longWindow: int, i: int)
    requires shortWindow >= 1 && longWindow >= 1
    requires 0 <= i < |close|
    requires Buys(close, shortWindow, longWindow)[i] || Sells(close, shortWindow, longWindow)[i]
    ensures i >= 1 && RollingMean(close, shortWindow)[i - 1].Some? && RollingMean(close, longWindow)[i - 1].Some?
  {
    CrossNeedsPreviousRow(RollingMean(close, shortWindow), RollingMean(close, longWindow), i);
  }

  /** Equal windows give equal averages, so nothing ever fires, and with the
      default of 0 the fraction is 0 on every row. */
  lemma EqualWindowsNeverTrade(close: seq<real>, window: int)
    requires window >= 1
    ensures forall i :: 0 <= i < |close| ==> !Buys(close, window, window)[i] && !Sells(close, window, window)[i]
    ensures close != [] ==> forall i :: 0 <= i < |close| ==> Invested(close, window, window, 0.0)[i] == 0.0
  {
    NoCrossOfIdenticalColumns(RollingMean(close, window));
    if close != [] {
      NoEventsNoInvestment(Buys(close, window, window), Sells(close, window, window));
    }
  }

  /** A flat price series never crosses: both averages equal the price once
      defined. */
  lemma FlatSeriesNeverTrades(close: seq<real>, shortWindow: int, longWindow: int, c: real)
    requires shortWindow >= 1 && longWindow >= 1
    requires forall k :: 0 <= k < |close| ==> close[k] == c
    ensures forall i :: 0 <= i < |close| ==>
      !Buys(close, shortWindow, longWindow)[i] && !Sells(close, shortWindow, longWindow)[i]
  {
    RollingMeanOfFlatSeries(close, shortWindow, c);
    RollingMeanOfFlatSeries(close, longWindow, c);
  }

  /** One output row: the input bar with the invested fraction added (the
      averages and counters are dropped). */
  datatype SignalRow = SignalRow(bar: PriceBar, percentageOfCashInvested: real)

  /** Python's `min()` of an empty column raises. */
  datatype StrategyError = EmptyColumnMinimum

  /** Pairs every bar with the invested fraction computed for its row. */
  function AttachInvested(bars: seq<PriceBar>, invested: seq<real>): (r: seq<SignalRow>)
    requires |invested| == |bars|
    ensures |r| == |bars| && forall i :: 0 <= i < |bars| ==> r[i] == SignalRow(bars[i], invested[i])
  {
    if bars == [] then [] else [SignalRow(bars[0], invested[0])] + AttachInvested(bars[1..], invested[1..])
  }

  /** The strategy for integer window sizes: an empty table fails at the
      minimum; otherwise every input row comes back, in order, with its
      invested fraction, which is never negative when the default is not. */
  function SignalForWindows(bars: seq<PriceBar>, shortWindow: int, longWindow: int, defaultPercentage: real)
    : (r: Result<seq<SignalRow>, StrategyError>)
    requires shortWindow >= 1 && longWindow >= 1
    ensures r.Err? <==> bars == []
    ensures r.Err? ==> r.error == EmptyColumnMinimum
    ensures r.Ok? ==> |r.value| == |bars| && forall i :: 0 <= i < |bars| ==>
      r.value[i].bar == bars[i] &&
      r.value[i].percentageOfCashInvested == Invested(Closes(bars), shortWindow, longWindow, defaultPercentage)[i]
    ensures r.Ok? && defaultPercentage >= 0.0 ==>
      forall i :: 0 <= i < |bars| ==> r.value[i].percentageOfCashInvested >= 0.0
  {
    if bars == [] then Err(EmptyColumnMinimum)
    else
      var close := Closes(bars);
      var inv := Invested(close, shortWindow, longWindow, defaultPercentage);
      assert defaultPercentage >= 0.0 ==> forall i :: 0 <= i < |close| ==> inv[i] >= 0.0 by {
        if defaultPercentage >= 0.0 {
          InvestedNonNegativeForWindows(close, shortWindow, longWindow, defaultPercentage);
        }
      }
      Ok(AttachInvested(bars, inv))
  }

  /** `default_gold_cross_death_cross`: the window arguments are truncated to
      integers first. */
  function DefaultGoldCrossDeathCross(bars: seq<PriceBar>, shortWindow: real, longWindow: real,
                                      defaultPercentage: real := 0.0)
    : (r: Result<seq<SignalRow>, StrategyError>)
    requires WindowSize(shortWindow) >= 1 && WindowSize(longWindow) >= 1
    ensures r.Err? <==> bars == []
    ensures r.Ok? ==> |r.value| == |bars| && forall i :: 0 <= i < |bars| ==> r.value[i].bar == bars[i]
    ensures r.Ok? && defaultPercentage >= 0.0 ==>
      forall i :: 0 <= i < |bars| ==> r.value[i].percentageOfCashInvested >= 0.0
  {
    SignalForWindows(bars, WindowSize(shortWindow), WindowSize(longWindow), defaultPercentage)
  }
}
