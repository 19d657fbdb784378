/** Trailing rolling means of the close column (the polars `rolling_mean`
    with its default minimum of `window_size` observations). */
module MovingAverage {
  import opened Wrappers
  import opened PriceData

  /** Sum of a sequence, taken from the back. */
  function Sum(s: seq<real>): real
  {
    if s == [] then 0.0 else Sum(s[..|s| - 1]) + s[|s| - 1]
  }

  /** Sum over a prefix splits at any point of that prefix. */
  lemma {:induction false} SumSplit(s: seq<real>, a: int, b: int)
    requires 0 <= a <= b <= |s|
    ensures Sum(s[..b]) == Sum(s[..a]) + Sum(s[a..b])
  {
    if a < b {
      SumSplit(s, a, b - 1);
      assert s[..b][..b - 1] == s[..b - 1];
      assert s[a..b][..b - 1 - a] == s[a..b - 1];
    } else {
      assert s[a..b] == [];
    }
  }

  /** The sum of a sequence whose elements all equal c. */
  lemma {:induction false} SumConstant(s: seq<real>, c: real)
    requires forall k :: 0 <= k < |s| ==> s[k] == c
    ensures Sum(s) == |s| as real * c
  {
    if s != [] {
      SumConstant(s[..|s| - 1], c);
    }
  }

  /** Arithmetic mean of a non-empty sequence. */
  function Mean(s: seq<real>): real
    requires s != []
  {
    Sum(s) / |s| as real
  }

  /** Running total (`cum_sum`): element i is the sum of the first i+1 inputs. */
  function CumSum(xs: seq<real>): (r: seq<real>)
    ensures |r| == |xs|
    ensures forall i :: 0 <= i < |xs| ==> r[i] == Sum(xs[..i + 1])
  {
    if xs == [] then []
    else
      var init := xs[..|xs| - 1];
      var p := CumSum(init);
      var r := p + [(if p == [] then 0.0 else p[|p| - 1]) + xs[|xs| - 1]];
      assert forall i :: 0 <= i < |xs| ==> r[i] == Sum(xs[..i + 1]) by {
        forall i | 0 <= i < |xs|
          ensures r[i] == Sum(xs[..i + 1])
        {
          if i < |p| {
            assert init[..i + 1] == xs[..i + 1];
          } else {
            assert xs[..i + 1] == xs;
            assert p != [] ==> init[..|p|] == init;
          }
        }
      }
      r
  }

  /** The running total steps by exactly the next input. */
  lemma CumSumStep(xs: seq<real>, i: int)
    requires 0 < i < |xs|
    ensures CumSum(xs)[i] == CumSum(xs)[i - 1] + xs[i]
    ensures CumSum(xs)[0] == xs[0]
  {
    SumOfLongerPrefix(xs, i);
    SumOfLongerPrefix(xs, 0);
  }

  /** Extending a prefix by one element adds that element to its sum. */
  lemma SumOfLongerPrefix(xs: seq<real>, i: int)
    requires 0 <= i < |xs|
    ensures Sum(xs[..i + 1]) == Sum(xs[..i]) + xs[i]
  {
    assert xs[..i + 1][..i] == xs[..i];
  }

  /** Window size as Python's `int()` gives it: truncation toward zero. */
  function WindowSize(x: real): int
  {
    if x >= 0.0 then x.Floor else -((-x).Floor)
  }

  /** `int()` drops the fractional part: the result is the integer nearest
      to x on the side of zero, and integers are left as they are. */
  lemma WindowSizeTruncates(x: real)
    ensures x >= 0.0 ==> WindowSize(x) as real <= x < WindowSize(x) as real + 1.0
    ensures x < 0.0 ==> WindowSize(x) as real - 1.0 < x <= WindowSize(x) as real
  {
  }

  lemma WindowSizeOfInteger(n: int)
    ensures WindowSize(n as real) == n
  {
  }

  /** Running totals with a leading zero: element k is the sum of the
      first k inputs. */
  function PrefixSums(xs: seq<real>): (p: seq<real>)
    ensures |p| == |xs| + 1
    ensures forall k :: 0 <= k <= |xs| ==> p[k] == Sum(xs[..k])
  {
    var p := [0.0] + CumSum(xs);
    assert p[0] == Sum(xs[..0]) by { assert xs[..0] == []; }
    p
  }

  /** The difference of two running totals w apart, over w, is the mean of
      the w inputs between them. */
  lemma WindowMean(xs: seq<real>, w: int, i: int)
    requires w >= 1 && w - 1 <= i < |xs|
    ensures (PrefixSums(xs)[i + 1] - PrefixSums(xs)[i + 1 - w]) / w as real == Mean(xs[i - w + 1..i + 1])
  {
    var p := PrefixSums(xs);
    SumSplit(xs, i + 1 - w, i + 1);
    assert p[i + 1] - p[i + 1 - w] == Sum(xs[i + 1 - w..i + 1]);
    assert |xs[i - w + 1..i + 1]| == w;
  }

  /** The sliding-window average at row i, read off the running totals p
      (null while fewer than w observations exist). */
  function WindowAverage(p: seq<real>, w: int, i: int): Option<real>
    requires w >= 1 && 0 <= i && i + 1 < |p|
  {
    if i < w - 1 then None else Some((p[i + 1] - p[i + 1 - w]) / w as real)
  }

  /** Read off the running totals of xs, the sliding-window average is the
      mean of the window once the window is full. */
  lemma WindowAverageIsMean(xs: seq<real>, w: int, i: int)
    requires w >= 1 && 0 <= i < |xs|
    ensures WindowAverage(PrefixSums(xs), w, i).None? <==> i < w - 1
    ensures i >= w - 1 ==> WindowAverage(PrefixSums(xs), w, i) == Some(Mean(xs[i - w + 1..i + 1]))
  {
    if i >= w - 1 {
      WindowMean(xs, w, i);
    }
  }

  /** Trailing mean over windows of w observations: undefined (null) while
      fewer than w observations exist, the mean of the last w otherwise.
      Computed as polars does, by a sliding sum: the difference of two
      running totals. */
  function RollingMean(xs: seq<real>, w: int): (r: seq<Option<real>>)
    requires w >= 1
    ensures |r| == |xs|
    ensures forall i :: 0 <= i < |xs| ==> (r[i].None? <==> i < w - 1)
    ensures forall i :: w - 1 <= i < |xs| ==> r[i] == Some(Mean(xs[i - w + 1..i + 1]))
  {
    var p := PrefixSums(xs);
    var r := seq(|xs|, i requires 0 <= i < |xs| => WindowAverage(p, w, i));
    forall i | 0 <= i < |xs|
      ensures r[i].None? <==> i < w - 1
      ensures i >= w - 1 ==> r[i] == Some(Mean(xs[i - w + 1..i + 1]))
    {
      WindowAverageIsMean(xs, w, i);
    }
    r
  }

  /** A defined rolling average means a full window lies behind the row. */
  lemma RollingMeanDefinedFrom(xs: seq<real>, w: int, i: int)
    requires w >= 1 && 0 <= i < |xs|
    requires RollingMean(xs, w)[i].Some?
    ensures i >= w - 1
  {
  }

  /** The mean of a constant window is that constant. */
  lemma MeanOfConstant(s: seq<real>, c: real)
    requires s != []
    requires forall k :: 0 <= k < |s| ==> s[k] == c
    ensures Mean(s) == c
  {
    SumConstant(s, c);
    var n := |s| as real;
    assert Sum(s) == n * c;
    assert n != 0.0;
  }

  /** On a constant series every defined average is that constant. */
  lemma RollingMeanOfFlatSeries(xs: seq<real>, w: int, c: real)
    requires w >= 1
    requires forall k :: 0 <= k < |xs| ==> xs[k] == c
    ensures forall i :: 0 <= i < |xs| ==> RollingMean(xs, w)[i] == if i < w - 1 then None else Some(c)
  {
    var r := RollingMean(xs, w);
    forall i | 0 <= i < |xs|
      ensures r[i] == if i < w - 1 then None else Some(c)
    {
      if i >= w - 1 {
        MeanOfConstant(xs[i - w + 1..i + 1], c);
      }
    }
  }

  /** One row of `calculate_moving_averages`: the bar with `Short_MA` and
      `Long_MA` added. */
  datatype AveragedBar = AveragedBar(bar: PriceBar, shortMa: Option<real>, longMa: Option<real>)

  /** Adds the short and long trailing means of `close` to every row, for
      window sizes that are already integers. */
  function MovingAverages(bars: seq<PriceBar>, shortWindow: int, longWindow: int)
    : (r: seq<AveragedBar>)
    requires shortWindow >= 1 && longWindow >= 1
    ensures |r| == |bars|
    ensures forall i :: 0 <= i < |bars| ==> r[i].bar == bars[i]
    ensures forall i :: 0 <= i < |bars| ==>
      (r[i].shortMa.None? <==> i < shortWindow - 1) && (r[i].longMa.None? <==> i < longWindow - 1)
    ensures forall i :: shortWindow - 1 <= i < |bars| ==>
      r[i].shortMa == Some(Mean(Closes(bars)[i - shortWindow + 1..i + 1]))
    ensures forall i :: longWindow - 1 <= i < |bars| ==>
      r[i].longMa == Some(Mean(Closes(bars)[i - longWindow + 1..i + 1]))
  {
    var closes := Closes(bars);
    var shortMa := RollingMean(closes, shortWindow);
    var longMa := RollingMean(closes, longWindow);
    var r := seq(|bars|, i requires 0 <= i < |bars| => AveragedBar(bars[i], shortMa[i], longMa[i]));
    forall i | 0 <= i < |bars|
      ensures r[i].bar == bars[i]
      ensures r[i].shortMa.None? <==> i < shortWindow - 1
      ensures r[i].longMa.None? <==> i < longWindow - 1
      ensures i >= shortWindow - 1 ==> r[i].shortMa == Some(Mean(closes[i - shortWindow + 1..i + 1]))
      ensures i >= longWindow - 1 ==> r[i].longMa == Some(Mean(closes[i - longWindow + 1..i + 1]))
    {
      assert r[i] == AveragedBar(bars[i], shortMa[i], longMa[i]);
    }
    r
  }

  /** `calculate_moving_averages`: the window arguments are truncated to
      integers first, so two windows that truncate alike give identical
      columns. */
  function CalculateMovingAverages(bars: seq<PriceBar>, shortWindow: real, longWindow: real)
    : (r: seq<AveragedBar>)
    requires WindowSize(shortWindow) >= 1 && WindowSize(longWindow) >= 1
    ensures |r| == |bars|
    ensures forall i :: 0 <= i < |bars| ==> r[i].bar == bars[i]
    ensures WindowSize(shortWindow) == WindowSize(longWindow) ==>
      forall i :: 0 <= i < |bars| ==> r[i].shortMa == r[i].longMa
  {
    MovingAverages(bars, WindowSize(shortWindow), WindowSize(longWindow))
  }
}
