/** The older strategy module: a crossover signal that marks buy rows with
    1, sell rows with 0 and leaves every other row null, and the parameter
    sweep that runs a strategy for every (short, long) window pair and
    pivots the final asset values into a table. */
module StrategyConstruction {
  import opened Wrappers
  import opened PriceData
  import opened MovingAverage
  import opened Crossover
  import opened GoldCrossDeathCross

  // ---------------------------------------------------------------------
  // The 1 / 0 / null signal
  // ---------------------------------------------------------------------

  /** One output row: the input bar, both averages, and the signal. */
  datatype LegacyRow = LegacyRow(
    bar: PriceBar,
    shortMa: Option<real>,
    longMa: Option<real>,
    percentageOfCashInvested: Option<real>)

  /** `data['close'][0]` fails on an empty table, and `cash / 0` fails
      when the first close is zero. */
  datatype LegacyError = EmptySeries | ZeroFirstClose

  /** `when(buy).then(1).when(sell).then(0)` with no `otherwise`: 1 on a
      buy row, 0 on a sell row, null on any other row. */
  function SignalColumn(buys: seq<bool>, sells: seq<bool>): (r: seq<Option<real>>)
    requires |buys| == |sells|
    ensures |r| == |buys|
    ensures forall i :: 0 <= i < |buys| ==>
      (r[i] == Some(1.0) <==> buys[i]) &&
      (r[i] == Some(0.0) <==> !buys[i] && sells[i]) &&
      (r[i] == None <==> !buys[i] && !sells[i])
  {
    if buys == [] then []
    else
      var head := if buys[0] then Some(1.0) else if sells[0] then Some(0.0) else None;
      [head] + SignalColumn(buys[1..], sells[1..])
  }

  /** Zips the bars with the three added columns. */
  function LegacyRows(bars: seq<PriceBar>, shortMa: seq<Option<real>>, longMa: seq<Option<real>>,
                      signal: seq<Option<real>>): (r: seq<LegacyRow>)
    requires |shortMa| == |bars| && |longMa| == |bars| && |signal| == |bars|
    ensures |r| == |bars|
    ensures forall i :: 0 <= i < |bars| ==> r[i] == LegacyRow(bars[i], shortMa[i], longMa[i], signal[i])
  {
    if bars == [] then []
    else [LegacyRow(bars[0], shortMa[0], longMa[0], signal[0])]
         + LegacyRows(bars[1..], shortMa[1..], longMa[1..], signal[1..])
  }

  /** The signal for integer window sizes. The normalisation factor is
      computed first, so an empty table or a zero first close fails before
      anything else; otherwise every row comes back with its two averages
      and a signal that is 1 exactly on the golden crosses of the
      constructor's strategy, 0 exactly on its death crosses and null on
      every other row. Cash and shares only feed the unused factor. */
  function LegacyForWindows(bars: seq<PriceBar>, shortWindow: int, longWindow: int, cash: real, sharesHeld: real)
    : (r: Result<seq<LegacyRow>, LegacyError>)
    requires shortWindow >= 1 && longWindow >= 1
    ensures r == Err(EmptySeries) <==> bars == []
    ensures r == Err(ZeroFirstClose) <==> bars != [] && bars[0].close == 0.0
    ensures r.Ok? ==> |r.value| == |bars| && forall i :: 0 <= i < |bars| ==>
      && r.value[i].bar == bars[i]
      && r.value[i].shortMa == RollingMean(Closes(bars), shortWindow)[i]
      && r.value[i].longMa == RollingMean(Closes(bars), longWindow)[i]
    ensures r.Ok? ==> forall i :: 0 <= i < |bars| ==>
      && (r.value[i].percentageOfCashInvested == Some(1.0) <==> Buys(Closes(bars), shortWindow, longWindow)[i])
      && (r.value[i].percentageOfCashInvested == Some(0.0) <==> Sells(Closes(bars), shortWindow, longWindow)[i])
      && (r.value[i].percentageOfCashInvested == None <==>
            !Buys(Closes(bars), shortWindow, longWindow)[i] && !Sells(Closes(bars), shortWindow, longWindow)[i])
  {
    if bars == [] then Err(EmptySeries)
    else if bars[0].close == 0.0 then Err(ZeroFirstClose)
    else
      var close := Closes(bars);
      var buys, sells := Buys(close, shortWindow, longWindow), Sells(close, shortWindow, longWindow);
      Ok(LegacyRows(bars, RollingMean(close, shortWindow), RollingMean(close, longWindow),
                    SignalColumn(buys, sells)))
  }

  /** `default_gold_cross_death_cross` of the older module: the window
      arguments are truncated with `int(...)`. */
  function LegacyGoldCrossDeathCross(bars: seq<PriceBar>, shortWindow: real, longWindow: real,
                                     cash: real := 10000.0, sharesHeld: real := 0.0)
    : (r: Result<seq<LegacyRow>, LegacyError>)
    requires WindowSize(shortWindow) >= 1 && WindowSize(longWindow) >= 1
    ensures r == Err(EmptySeries) <==> bars == []
    ensures r == Err(ZeroFirstClose) <==> bars != [] && bars[0].close == 0.0
    ensures r.Ok? ==> |r.value| == |bars| && forall i :: 0 <= i < |bars| ==> r.value[i].bar == bars[i]
    ensures r.Ok? ==> forall i :: 0 <= i < |bars| ==>
      r.value[i].percentageOfCashInvested == None ||
      r.value[i].percentageOfCashInvested == Some(1.0) ||
      r.value[i].percentageOfCashInvested == Some(0.0)
  {
    LegacyForWindows(bars, WindowSize(shortWindow), WindowSize(longWindow), cash, sharesHeld)
  }

  /** Row 0 and every row before both windows are full carry no signal. */
  lemma LegacySignalNeedsFullWindows(bars: seq<PriceBar>, shortWindow: int, longWindow: int, i: int)
    requires shortWindow >= 1 && longWindow >= 1
    requires LegacyForWindows(bars, shortWindow, longWindow, 10000.0, 0.0).Ok?
    requires 0 <= i < |bars|
    requires i < shortWindow || i < longWindow
    ensures LegacyForWindows(bars, shortWindow, longWindow, 10000.0, 0.0).value[i].percentageOfCashInvested == None
  {
    var close := Closes(bars);
    if Buys(close, shortWindow, longWindow)[i] || Sells(close, shortWindow, longWindow)[i] {
      EventsNeedFullWindows(close, shortWindow, longWindow, i);
    }
  }

  // ---------------------------------------------------------------------
  // The parameter sweep
  // ---------------------------------------------------------------------

  /** One (short, long) window combination. */
  datatype WindowPair = WindowPair(short: int, long: int)

  /** `Final_Asset_Value` of a pair, with the pair. */
  datatype ResultRow = ResultRow(short: int, long: int, finalAssetValue: real)

  /** The pivoted table: one row per distinct short window, one column per
      distinct long window; a cell with no result is null. */
  datatype PivotTable = PivotTable(index: seq<int>, columns: seq<int>, cells: seq<seq<Option<real>>>)

  /** `[-1]` of an empty trace fails; pivoting a table with no rows fails
      because it has no `Short_Window` column; pivoting without an
      aggregate function fails when a (short, long) group has more than
      one value. */
  datatype SweepError = EmptyTrace(pair: WindowPair) | EmptyResults | DuplicateGroup

  /** The pairs with a fixed short window, in the order of `longs`. */
  function PairsWith(short: int, longs: seq<int>): seq<WindowPair>
  {
    seq(|longs|, j requires 0 <= j < |longs| => WindowPair(short, longs[j]))
  }

  /** `itertools.product(short_range, long_range)`: the short window varies
      slowest. */
  function Product(shorts: seq<int>, longs: seq<int>): (r: seq<WindowPair>)
  {
    if shorts == [] then [] else PairsWith(shorts[0], longs) + Product(shorts[1..], longs)
  }

  /** The product has |shorts| * |longs| entries, duplicates kept. */
  lemma {:induction false} ProductLength(shorts: seq<int>, longs: seq<int>)
    ensures |Product(shorts, longs)| == |shorts| * |longs|
  {
    if shorts != [] {
      ProductLength(shorts[1..], longs);
      assert |shorts| * |longs| == |longs| + (|shorts| - 1) * |longs|;
    }
  }

  /** Where row i of the product starts: i rows of n entries each. */
  function RowOffset(i: nat, n: nat): nat
  {
    if i == 0 then 0 else RowOffset(i - 1, n) + n
  }

  /** Row i starts at i * n. */
  lemma {:induction false} RowOffsetIsProduct(i: nat, n: nat)
    ensures RowOffset(i, n) == i * n
  {
    if i > 0 {
      RowOffsetIsProduct(i - 1, n);
      assert (i - 1) * n + n == i * n;
    }
  }

  /** The product is the first short window's row followed by the product
      of the remaining short windows. */
  lemma ProductUnfold(shorts: seq<int>, longs: seq<int>)
    requires shorts != []
    ensures Product(shorts, longs) == PairsWith(shorts[0], longs) + Product(shorts[1..], longs)
  {
  }

  /** The first |longs| entries pair the first short window with each long
      window in turn. */
  lemma ProductFirstRow(shorts: seq<int>, longs: seq<int>, j: int)
    requires shorts != [] && 0 <= j < |longs|
    ensures j < |Product(shorts, longs)| && Product(shorts, longs)[j] == WindowPair(shorts[0], longs[j])
  {
    ProductUnfold(shorts, longs);
  }

  /** After the first row come the entries of the product of the rest. */
  lemma ProductLaterRows(shorts: seq<int>, longs: seq<int>, k: int)
    requires shorts != [] && 0 <= k < |Product(shorts[1..], longs)|
    ensures |longs| + k < |Product(shorts, longs)|
    ensures Product(shorts, longs)[|longs| + k] == Product(shorts[1..], longs)[k]
  {
    ProductUnfold(shorts, longs);
  }

  /** Row i of the product is row i - 1 of the product of the rest. */
  lemma ProductAtNextRow(shorts: seq<int>, longs: seq<int>, i: nat, j: nat)
    requires 0 < i < |shorts| && j < |longs|
    requires RowOffset(i - 1, |longs|) + j < |Product(shorts[1..], longs)|
    requires Product(shorts[1..], longs)[RowOffset(i - 1, |longs|) + j] == WindowPair(shorts[1..][i - 1], longs[j])
    ensures RowOffset(i, |longs|) + j < |Product(shorts, longs)|
    ensures Product(shorts, longs)[RowOffset(i, |longs|) + j] == WindowPair(shorts[i], longs[j])
  {
    ProductLaterRows(shorts, longs, RowOffset(i - 1, |longs|) + j);
  }

  /** The pair of shorts[i] and longs[j] sits at entry j of row i, that is
      at i * |longs| + j (RowOffsetIsProduct): the short window varies
      slowest. */
  lemma {:induction false} ProductAt(shorts: seq<int>, longs: seq<int>, i: nat, j: nat)
    requires i < |shorts| && j < |longs|
    ensures RowOffset(i, |longs|) + j < |Product(shorts, longs)|
    ensures Product(shorts, longs)[RowOffset(i, |longs|) + j] == WindowPair(shorts[i], longs[j])
  {
    if i == 0 {
      ProductFirstRow(shorts, longs, j);
    } else {
      ProductAt(shorts[1..], longs, i - 1, j);
      ProductAtNextRow(shorts, longs, i, j);
    }
  }

  /** A pair is in the product exactly when both its windows are in their
      ranges. */
  lemma {:induction false} ProductMembership(shorts: seq<int>, longs: seq<int>, p: WindowPair)
    ensures p in Product(shorts, longs) <==> p.short in shorts && p.long in longs
  {
    if shorts != [] {
      ProductMembership(shorts[1..], longs, p);
      var head := PairsWith(shorts[0], longs);
      assert p in head <==> p.short == shorts[0] && p.long in longs by {
        if p in head {
          var j :| 0 <= j < |head| && head[j] == p;
        }
        if p.short == shorts[0] && p.long in longs {
          var j :| 0 <= j < |longs| && longs[j] == p.long;
          assert head[j] == p;
        }
      }
      assert shorts == [shorts[0]] + shorts[1..];
    }
  }

  /** `compute_final_asset_value`: the last entry of the pair's
      `Asset Value` trace. The strategy is a parameter `assetTrace`, with
      the price table it runs on fixed inside it. */
  function ComputeFinalAssetValue(pair: WindowPair, assetTrace: WindowPair -> seq<real>)
    : (r: Result<real, SweepError>)
    ensures r.Err? <==> assetTrace(pair) == []
    ensures r.Err? ==> r.error == EmptyTrace(pair)
    ensures r.Ok? ==> r.value == assetTrace(pair)[|assetTrace(pair)| - 1]
  {
    var trace := assetTrace(pair);
    if trace == [] then Err(EmptyTrace(pair)) else Ok(trace[|trace| - 1])
  }

  /** The last entry of a non-empty trace. */
  function Last(trace: seq<real>): real
    requires trace != []
  {
    trace[|trace| - 1]
  }

  /** `list(executor.map(compute_final_asset_value, combinations, ...))`:
      results come back in submission order, and the first failing pair in
      that order is the one whose error surfaces. */
  function MapFinalValues(pairs: seq<WindowPair>, assetTrace: WindowPair -> seq<real>)
    : (r: Result<seq<real>, SweepError>)
    ensures r.Ok? <==> forall k :: 0 <= k < |pairs| ==> assetTrace(pairs[k]) != []
    ensures r.Ok? ==> (|r.value| == |pairs| &&
      forall k :: 0 <= k < |pairs| ==> r.value[k] == Last(assetTrace(pairs[k])))
    ensures r.Err? ==> exists k :: (0 <= k < |pairs| && r.error == EmptyTrace(pairs[k]) &&
      assetTrace(pairs[k]) == [] && forall k' :: 0 <= k' < k ==> assetTrace(pairs[k']) != [])
  {
    if pairs == [] then Ok([])
    else
      match ComputeFinalAssetValue(pairs[0], assetTrace)
      case Err(e) => Err(e)
      case Ok(v) =>
        var rest := MapFinalValues(pairs[1..], assetTrace);
        if rest.Err? then
          assert exists k :: (0 <= k < |pairs| && rest.error == EmptyTrace(pairs[k]) &&
            assetTrace(pairs[k]) == [] && forall k' :: 0 <= k' < k ==> assetTrace(pairs[k']) != []) by {
            var k :| 0 <= k < |pairs[1..]| && rest.error == EmptyTrace(pairs[1..][k]) &&
              assetTrace(pairs[1..][k]) == [] && forall k' :: 0 <= k' < k ==> assetTrace(pairs[1..][k']) != [];
            assert forall k' :: 0 <= k' < k + 1 ==> assetTrace(pairs[k']) != [] by {
              forall k' | 0 <= k' < k + 1 ensures assetTrace(pairs[k']) != [] {
                if k' > 0 { assert pairs[k'] == pairs[1..][k' - 1]; }
              }
            }
            assert pairs[k + 1] == pairs[1..][k];
          }
          rest
        else
          assert forall k :: 1 <= k < |pairs| ==> pairs[k] == pairs[1..][k - 1];
          Ok([v] + rest.value)
  }

  /** The result records, pairing the i-th combination with the i-th
      value. */
  function ZipResults(pairs: seq<WindowPair>, values: seq<real>): (r: seq<ResultRow>)
    requires |values| == |pairs|
    ensures |r| == |pairs|
    ensures forall k :: 0 <= k < |pairs| ==> r[k] == ResultRow(pairs[k].short, pairs[k].long, values[k])
  {
    if pairs == [] then []
    else [ResultRow(pairs[0].short, pairs[0].long, values[0])] + ZipResults(pairs[1..], values[1..])
  }

  // ---------------------------------------------------------------------
  // The pivot
  // ---------------------------------------------------------------------

  /** The elements of a sequence. */
  function Elements(xs: seq<int>): set<int>
  {
    set x | x in xs
  }

  /** The values of xs not already in `seen`, each once, in order of first
      appearance. */
  function DistinctFrom(xs: seq<int>, seen: set<int>): (r: seq<int>)
  {
    if xs == [] then []
    else if xs[0] in seen then DistinctFrom(xs[1..], seen)
    else [xs[0]] + DistinctFrom(xs[1..], seen + {xs[0]})
  }

  /** The distinct values of xs in order of first appearance. */
  function Distinct(xs: seq<int>): seq<int>
  {
    DistinctFrom(xs, {})
  }

  /** DistinctFrom keeps each new value once and nothing else. */
  lemma {:induction false} DistinctFromElements(xs: seq<int>, seen: set<int>)
    ensures forall x :: x in DistinctFrom(xs, seen) <==> x in xs && x !in seen
    ensures forall a, b :: 0 <= a < b < |DistinctFrom(xs, seen)| ==>
      DistinctFrom(xs, seen)[a] != DistinctFrom(xs, seen)[b]
  {
    if xs != [] {
      assert xs == [xs[0]] + xs[1..];
      if xs[0] in seen {
        DistinctFromElements(xs[1..], seen);
      } else {
        DistinctFromElements(xs[1..], seen + {xs[0]});
      }
    }
  }

  /** Distinct holds every value of xs exactly once. */
  lemma DistinctElements(xs: seq<int>)
    ensures forall x :: x in Distinct(xs) <==> x in xs
    ensures forall a, b :: 0 <= a < b < |Distinct(xs)| ==> Distinct(xs)[a] != Distinct(xs)[b]
  {
    DistinctFromElements(xs, {});
  }

  /** Deduplicating a concatenation deduplicates the first part and then
      the second part against everything the first part contained. */
  lemma {:induction false} DistinctFromAppend(a: seq<int>, b: seq<int>, seen: set<int>)
    ensures DistinctFrom(a + b, seen) == DistinctFrom(a, seen) + DistinctFrom(b, seen + Elements(a))
  {
    if a == [] {
      assert a + b == b;
      assert Elements(a) == {};
      assert seen + Elements(a) == seen;
    } else {
      assert (a + b)[1..] == a[1..] + b;
      assert Elements(a) == {a[0]} + Elements(a[1..]) by {
        assert a == [a[0]] + a[1..];
      }
      if a[0] in seen {
        DistinctFromAppend(a[1..], b, seen);
        assert seen + Elements(a) == seen + Elements(a[1..]);
      } else {
        DistinctFromAppend(a[1..], b, seen + {a[0]});
        assert seen + {a[0]} + Elements(a[1..]) == seen + Elements(a);
      }
    }
  }

  /** A sequence whose values were all seen contributes nothing. */
  lemma {:induction false} DistinctFromSeen(xs: seq<int>, seen: set<int>)
    requires Elements(xs) <= seen
    ensures DistinctFrom(xs, seen) == []
  {
    if xs != [] {
      assert xs[0] in Elements(xs);
      assert Elements(xs[1..]) <= Elements(xs) by {
        forall x | x in Elements(xs[1..]) ensures x in Elements(xs) {
          var k :| 0 <= k < |xs[1..]| && xs[1..][k] == x;
          assert xs[k + 1] == x;
        }
      }
      DistinctFromSeen(xs[1..], seen);
    }
  }

  /** The (`Short_Window`, `Long_Window`) group of every record. */
  function PairsOf(rows: seq<ResultRow>): seq<WindowPair>
  {
    seq(|rows|, k requires 0 <= k < |rows| => WindowPair(rows[k].short, rows[k].long))
  }

  /** The window pairs' short windows. */
  function ShortsOfPairs(pairs: seq<WindowPair>): (r: seq<int>)
    ensures |r| == |pairs| && forall k :: 0 <= k < |pairs| ==> r[k] == pairs[k].short
  {
    if pairs == [] then [] else [pairs[0].short] + ShortsOfPairs(pairs[1..])
  }

  /** The window pairs' long windows. */
  function LongsOfPairs(pairs: seq<WindowPair>): (r: seq<int>)
    ensures |r| == |pairs| && forall k :: 0 <= k < |pairs| ==> r[k] == pairs[k].long
  {
    if pairs == [] then [] else [pairs[0].long] + LongsOfPairs(pairs[1..])
  }

  /** No value occurs twice. */
  predicate NoDuplicates(xs: seq<int>)
  {
    forall a, b :: 0 <= a < b < |xs| ==> xs[a] != xs[b]
  }

  /** No window pair occurs twice. */
  predicate DistinctPairs(pairs: seq<WindowPair>)
  {
    forall a, b :: 0 <= a < b < |pairs| ==> pairs[a] != pairs[b]
  }

  /** Two records share a (short, long) group. */
  predicate RepeatedGroup(rows: seq<ResultRow>)
  {
    exists k, k' :: 0 <= k < k' < |rows| && rows[k].short == rows[k'].short && rows[k].long == rows[k'].long
  }

  /** The value of the first record for (short, long), or null. */
  function Lookup(rows: seq<ResultRow>, short: int, long: int): (r: Option<real>)
    ensures r.None? <==> forall k :: 0 <= k < |rows| ==> !(rows[k].short == short && rows[k].long == long)
    ensures r.Some? ==> exists k :: (0 <= k < |rows| && rows[k].short == short && rows[k].long == long &&
      r.value == rows[k].finalAssetValue &&
      forall k' :: 0 <= k' < k ==> !(rows[k'].short == short && rows[k'].long == long))
  {
    if rows == [] then None
    else if rows[0].short == short && rows[0].long == long then Some(rows[0].finalAssetValue)
    else
      var r := Lookup(rows[1..], short, long);
      assert forall k :: 1 <= k < |rows| ==> rows[k] == rows[1..][k - 1];
      if r.Some? then
        assert exists k :: (0 <= k < |rows| && rows[k].short == short && rows[k].long == long &&
          r.value == rows[k].finalAssetValue &&
          forall k' :: 0 <= k' < k ==> !(rows[k'].short == short && rows[k'].long == long)) by {
          var k :| 0 <= k < |rows[1..]| && rows[1..][k].short == short && rows[1..][k].long == long &&
            r.value == rows[1..][k].finalAssetValue &&
            forall k' :: 0 <= k' < k ==> !(rows[1..][k'].short == short && rows[1..][k'].long == long);
          assert forall k' :: 0 <= k' < k + 1 ==> !(rows[k'].short == short && rows[k'].long == long) by {
            forall k' | 0 <= k' < k + 1 ensures !(rows[k'].short == short && rows[k'].long == long) {
              if k' > 0 { assert rows[k'] == rows[1..][k' - 1]; }
            }
          }
        }
        r
      else r
  }

  /** One table row: the cells of `short` for every column. */
  function PivotRow(rows: seq<ResultRow>, short: int, columns: seq<int>): (r: seq<Option<real>>)
    ensures |r| == |columns|
    ensures forall b :: 0 <= b < |columns| ==> r[b] == Lookup(rows, short, columns[b])
  {
    if columns == [] then [] else [Lookup(rows, short, columns[0])] + PivotRow(rows, short, columns[1..])
  }

  /** All table rows, one per index value. */
  function PivotCells(rows: seq<ResultRow>, index: seq<int>, columns: seq<int>): (r: seq<seq<Option<real>>>)
    ensures |r| == |index|
    ensures forall a :: 0 <= a < |index| ==> r[a] == PivotRow(rows, index[a], columns)
  {
    if index == [] then [] else [PivotRow(rows, index[0], columns)] + PivotCells(rows, index[1..], columns)
  }

  /** `pivot(index='Short_Window', columns='Long_Window',
      values='Final_Asset_Value')`: rows and columns in order of first
      appearance; a cell holds the record of its pair, or null if the pair
      never occurs. A record list with no entries has no columns to pivot
      on, and with no aggregate function a group of two records is an
      error. */
  function Pivot(rows: seq<ResultRow>): (r: Result<PivotTable, SweepError>)
    ensures r == Err(EmptyResults) <==> rows == []
    ensures r == Err(DuplicateGroup) <==> rows != [] && RepeatedGroup(rows)
    ensures r.Ok? <==> rows != [] && !RepeatedGroup(rows)
    ensures r.Ok? ==>
      && (forall s :: s in r.value.index <==> exists k :: 0 <= k < |rows| && rows[k].short == s)
      && (forall l :: l in r.value.columns <==> exists k :: 0 <= k < |rows| && rows[k].long == l)
      && |r.value.cells| == |r.value.index|
      && forall a :: 0 <= a < |r.value.index| ==> |r.value.cells[a]| == |r.value.columns|
  {
    if rows == [] then Err(EmptyResults)
    else if RepeatedGroup(rows) then Err(DuplicateGroup)
    else
      var shorts, longs := ShortsOfPairs(PairsOf(rows)), LongsOfPairs(PairsOf(rows));
      assert forall k :: 0 <= k < |rows| ==> shorts[k] == rows[k].short && longs[k] == rows[k].long;
      var index, columns := Distinct(shorts), Distinct(longs);
      DistinctElements(shorts);
      DistinctElements(longs);
      Ok(PivotTable(index, columns, PivotCells(rows, index, columns)))
  }

  /** With no repeated group, a record's pair looks up that record's own
      value. */
  lemma LookupUnique(rows: seq<ResultRow>, k: int)
    requires !RepeatedGroup(rows) && 0 <= k < |rows|
    ensures Lookup(rows, rows[k].short, rows[k].long) == Some(rows[k].finalAssetValue)
  {
    var found := Lookup(rows, rows[k].short, rows[k].long);
    var k' :| 0 <= k' < |rows| && rows[k'].short == rows[k].short && rows[k'].long == rows[k].long &&
      found.value == rows[k'].finalAssetValue;
    if k' < k {
      assert RepeatedGroup(rows);
    } else if k < k' {
      assert RepeatedGroup(rows);
    }
  }

  /** Every cell of the pivot holds the value recorded for its pair, and
      every record's pair has a cell. */
  lemma PivotCellsHoldRecords(rows: seq<ResultRow>)
    requires Pivot(rows).Ok?
    ensures forall a, b :: 0 <= a < |Pivot(rows).value.index| && 0 <= b < |Pivot(rows).value.columns| ==>
      Pivot(rows).value.cells[a][b] == Lookup(rows, Pivot(rows).value.index[a], Pivot(rows).value.columns[b])
    ensures forall k :: 0 <= k < |rows| ==>
      rows[k].short in Pivot(rows).value.index && rows[k].long in Pivot(rows).value.columns
  {
  }

  // ---------------------------------------------------------------------
  // The sweep
  // ---------------------------------------------------------------------

  /** `sensitivity_analysis`: run the strategy for every combination,
      record the final asset values and pivot them. The first combination
      whose trace is empty makes the sweep fail; with every trace
      non-empty, the sweep fails when a range is empty, and otherwise when
      a range repeats a window, since the repeated combination makes a
      pivot group of two records. */
  function SensitivityAnalysis(shortRange: seq<int>, longRange: seq<int>, assetTrace: WindowPair -> seq<real>)
    : (r: Result<PivotTable, SweepError>)
    ensures r == Err(EmptyResults) <==>
      (shortRange == [] || longRange == [])
    ensures r.Err? && r.error.EmptyTrace? ==>
      r.error.pair.short in shortRange && r.error.pair.long in longRange && assetTrace(r.error.pair) == []
    ensures r == Err(DuplicateGroup) <==> (shortRange != [] && longRange != [] &&
      (forall s, l :: s in shortRange && l in longRange ==> assetTrace(WindowPair(s, l)) != []) &&
      !(NoDuplicates(shortRange) && NoDuplicates(longRange)))
    ensures r.Ok? <==> (shortRange != [] && longRange != [] &&
      NoDuplicates(shortRange) && NoDuplicates(longRange) &&
      forall s, l :: s in shortRange && l in longRange ==> assetTrace(WindowPair(s, l)) != [])
  {
    var combinations := Product(shortRange, longRange);
    ProductFacts(shortRange, longRange);
    match MapFinalValues(combinations, assetTrace)
    case Err(e) => Err(e)
    case Ok(values) =>
      ZipRepeated(combinations, values);
      if shortRange != [] && longRange != [] then
        ProductDistinct(shortRange, longRange);
        Pivot(ZipResults(combinations, values))
      else
        Pivot(ZipResults(combinations, values))
  }

  /** The records repeat a group exactly when the combinations repeat a
      pair. */
  lemma ZipRepeated(pairs: seq<WindowPair>, values: seq<real>)
    requires |values| == |pairs|
    ensures RepeatedGroup(ZipResults(pairs, values)) <==> !DistinctPairs(pairs)
  {
    var rows := ZipResults(pairs, values);
    if RepeatedGroup(rows) {
      var k, k' :| 0 <= k < k' < |rows| && rows[k].short == rows[k'].short && rows[k].long == rows[k'].long;
      assert pairs[k] == pairs[k'];
    }
    if !DistinctPairs(pairs) {
      var k, k' :| 0 <= k < k' < |pairs| && pairs[k] == pairs[k'];
      assert rows[k].short == rows[k'].short && rows[k].long == rows[k'].long;
    }
  }

  /** Later rows of the product start later. */
  lemma {:induction false} RowOffsetMonotone(i: nat, i': nat, n: nat)
    requires i < i' && n >= 1
    ensures RowOffset(i, n) < RowOffset(i', n)
  {
    if i < i' - 1 {
      RowOffsetMonotone(i, i' - 1, n);
    }
  }

  /** Concatenating two duplicate-free pair lists with nothing in common
      keeps the pairs distinct. */
  lemma DistinctPairsAppend(a: seq<WindowPair>, b: seq<WindowPair>)
    requires DistinctPairs(a) && DistinctPairs(b)
    requires forall x, y :: 0 <= x < |a| && 0 <= y < |b| ==> a[x] != b[y]
    ensures DistinctPairs(a + b)
  {
    forall x, y | 0 <= x < y < |a + b| ensures (a + b)[x] != (a + b)[y] {
      if y < |a| {
        assert (a + b)[x] == a[x] && (a + b)[y] == a[y];
      } else if x < |a| {
        assert (a + b)[x] == a[x] && (a + b)[y] == b[y - |a|];
      } else {
        assert (a + b)[x] == b[x - |a|] && (a + b)[y] == b[y - |a|];
      }
    }
  }

  /** Duplicate-free ranges give a duplicate-free product. */
  lemma {:induction false} ProductDistinctFromRanges(shorts: seq<int>, longs: seq<int>)
    requires NoDuplicates(shorts) && NoDuplicates(longs)
    ensures DistinctPairs(Product(shorts, longs))
  {
    if shorts != [] {
      var row, tail := PairsWith(shorts[0], longs), Product(shorts[1..], longs);
      assert NoDuplicates(shorts[1..]) by {
        forall a, b | 0 <= a < b < |shorts[1..]| ensures shorts[1..][a] != shorts[1..][b] {
          assert shorts[1..][a] == shorts[a + 1] && shorts[1..][b] == shorts[b + 1];
        }
      }
      ProductDistinctFromRanges(shorts[1..], longs);
      forall x, y | 0 <= x < |row| && 0 <= y < |tail| ensures row[x] != tail[y] {
        ProductMembership(shorts[1..], longs, tail[y]);
        var k :| 0 <= k < |shorts[1..]| && shorts[1..][k] == tail[y].short;
        assert shorts[k + 1] == tail[y].short;
      }
      DistinctPairsAppend(row, tail);
    }
  }

  /** A short window given twice gives the same pair twice. */
  lemma RepeatedShortRepeatsPair(shorts: seq<int>, longs: seq<int>, i: nat, i': nat)
    requires i < i' < |shorts| && shorts[i] == shorts[i'] && longs != []
    ensures !DistinctPairs(Product(shorts, longs))
  {
    ProductAt(shorts, longs, i, 0);
    ProductAt(shorts, longs, i', 0);
    RowOffsetMonotone(i, i', |longs|);
    var p := Product(shorts, longs);
    assert p[RowOffset(i, |longs|)] == p[RowOffset(i', |longs|)];
  }

  /** A long window given twice gives the same pair twice. */
  lemma RepeatedLongRepeatsPair(shorts: seq<int>, longs: seq<int>, j: nat, j': nat)
    requires j < j' < |longs| && longs[j] == longs[j'] && shorts != []
    ensures !DistinctPairs(Product(shorts, longs))
  {
    ProductAt(shorts, longs, 0, j);
    ProductAt(shorts, longs, 0, j');
    var p := Product(shorts, longs);
    assert p[j] == p[j'];
  }

  /** With both ranges non-empty, the combinations are distinct exactly when
      neither range repeats a window. */
  lemma ProductDistinct(shorts: seq<int>, longs: seq<int>)
    requires shorts != [] && longs != []
    ensures DistinctPairs(Product(shorts, longs)) <==> NoDuplicates(shorts) && NoDuplicates(longs)
  {
    if NoDuplicates(shorts) && NoDuplicates(longs) {
      ProductDistinctFromRanges(shorts, longs);
    } else if !NoDuplicates(shorts) {
      var i, i' :| 0 <= i < i' < |shorts| && shorts[i] == shorts[i'];
      RepeatedShortRepeatsPair(shorts, longs, i, i');
    } else {
      var j, j' :| 0 <= j < j' < |longs| && longs[j] == longs[j'];
      RepeatedLongRepeatsPair(shorts, longs, j, j');
    }
  }

  /** Deduplicating a duplicate-free sequence none of whose values was seen
      changes nothing. */
  lemma {:induction false} DistinctFromFresh(xs: seq<int>, seen: set<int>)
    requires NoDuplicates(xs) && forall k :: 0 <= k < |xs| ==> xs[k] !in seen
    ensures DistinctFrom(xs, seen) == xs
  {
    if xs != [] {
      forall k | 0 <= k < |xs[1..]| ensures xs[1..][k] !in seen + {xs[0]} {
        assert xs[1..][k] == xs[k + 1];
      }
      assert NoDuplicates(xs[1..]) by {
        forall a, b | 0 <= a < b < |xs[1..]| ensures xs[1..][a] != xs[1..][b] {
          assert xs[1..][a] == xs[a + 1] && xs[1..][b] == xs[b + 1];
        }
      }
      DistinctFromFresh(xs[1..], seen + {xs[0]});
    }
  }

  /** The product is empty exactly when a range is, and lists exactly the
      pairs drawn from both ranges. */
  lemma ProductFacts(shortRange: seq<int>, longRange: seq<int>)
    ensures Product(shortRange, longRange) == [] <==> shortRange == [] || longRange == []
    ensures forall p :: p in Product(shortRange, longRange) <==> p.short in shortRange && p.long in longRange
  {
    ProductLength(shortRange, longRange);
    forall p ensures p in Product(shortRange, longRange) <==> p.short in shortRange && p.long in longRange {
      ProductMembership(shortRange, longRange, p);
    }
    if shortRange != [] && longRange != [] {
      assert |shortRange| * |longRange| > 0;
    }
  }

  /** A run of one repeated value contributes that value at most once. */
  lemma DistinctFromConstant(xs: seq<int>, x: int, seen: set<int>)
    requires xs != [] && forall k :: 0 <= k < |xs| ==> xs[k] == x
    ensures DistinctFrom(xs, seen) == if x in seen then [] else [x]
  {
    assert Elements(xs[1..]) <= {x};
    if x in seen {
      DistinctFromSeen(xs[1..], seen);
    } else {
      DistinctFromSeen(xs[1..], seen + {x});
    }
  }

  /** The first row of the product contributes its short window once,
      unless it was seen before. */
  lemma DistinctShortsOfRow(short: int, longs: seq<int>, seen: set<int>)
    requires longs != []
    ensures DistinctFrom(ShortsOfPairs(PairsWith(short, longs)), seen) == if short in seen then [] else [short]
    ensures Elements(ShortsOfPairs(PairsWith(short, longs))) == {short}
  {
    var a := ShortsOfPairs(PairsWith(short, longs));
    assert forall k :: 0 <= k < |a| ==> a[k] == short;
    DistinctFromConstant(a, short, seen);
    assert a[0] in Elements(a);
  }

  /** Taking the short windows distributes over concatenation. */
  lemma ShortsOfPairsAppend(a: seq<WindowPair>, b: seq<WindowPair>)
    ensures ShortsOfPairs(a + b) == ShortsOfPairs(a) + ShortsOfPairs(b)
  {
    var r := ShortsOfPairs(a + b);
    assert |r| == |ShortsOfPairs(a) + ShortsOfPairs(b)|;
    forall k | 0 <= k < |r| ensures r[k] == (ShortsOfPairs(a) + ShortsOfPairs(b))[k] {
      if k < |a| {
        assert (a + b)[k] == a[k];
      } else {
        assert (a + b)[k] == b[k - |a|];
      }
    }
  }

  /** Walking the product short-major meets the short windows in the order
      of the short range. */
  lemma {:induction false} DistinctShortsOfProduct(shorts: seq<int>, longs: seq<int>, seen: set<int>)
    requires longs != []
    ensures DistinctFrom(ShortsOfPairs(Product(shorts, longs)), seen) == DistinctFrom(shorts, seen)
  {
    if shorts != [] {
      var x, row, tail := shorts[0], PairsWith(shorts[0], longs), Product(shorts[1..], longs);
      assert Product(shorts, longs) == row + tail;
      ShortsOfPairsAppend(row, tail);
      var a, b := ShortsOfPairs(row), ShortsOfPairs(tail);
      DistinctFromAppend(a, b, seen);
      DistinctShortsOfRow(x, longs, seen);
      DistinctShortsOfProduct(shorts[1..], longs, seen + {x});
      if x in seen {
        assert seen + {x} == seen;
      }
    }
  }

  /** The long windows of a row of the product are the long range. */
  lemma LongsOfPairsWith(short: int, longs: seq<int>)
    ensures LongsOfPairs(PairsWith(short, longs)) == longs
  {
    var r := LongsOfPairs(PairsWith(short, longs));
    assert |r| == |longs| && forall k :: 0 <= k < |longs| ==> r[k] == longs[k];
  }

  /** Taking the long windows distributes over concatenation. */
  lemma LongsOfPairsAppend(a: seq<WindowPair>, b: seq<WindowPair>)
    ensures LongsOfPairs(a + b) == LongsOfPairs(a) + LongsOfPairs(b)
  {
    var r := LongsOfPairs(a + b);
    assert |r| == |LongsOfPairs(a) + LongsOfPairs(b)|;
    forall k | 0 <= k < |r| ensures r[k] == (LongsOfPairs(a) + LongsOfPairs(b))[k] {
      if k < |a| {
        assert (a + b)[k] == a[k];
      } else {
        assert (a + b)[k] == b[k - |a|];
      }
    }
  }

  /** The long windows of the product: the long range once per short
      window. */
  lemma LongsOfProduct(shorts: seq<int>, longs: seq<int>)
    requires shorts != []
    ensures LongsOfPairs(Product(shorts, longs)) == longs + LongsOfPairs(Product(shorts[1..], longs))
  {
    LongsOfPairsAppend(PairsWith(shorts[0], longs), Product(shorts[1..], longs));
    LongsOfPairsWith(shorts[0], longs);
  }

  /** Once every long window has been seen, the rest of the product adds no
      column. */
  lemma {:induction false} LongsOfProductSeen(shorts: seq<int>, longs: seq<int>, seen: set<int>)
    requires Elements(longs) <= seen
    ensures DistinctFrom(LongsOfPairs(Product(shorts, longs)), seen) == []
  {
    if shorts != [] {
      var rest := LongsOfPairs(Product(shorts[1..], longs));
      LongsOfProduct(shorts, longs);
      DistinctFromAppend(longs, rest, seen);
      DistinctFromSeen(longs, seen);
      LongsOfProductSeen(shorts[1..], longs, seen + Elements(longs));
    }
  }

  /** The long windows of the product, deduplicated, are the long range
      deduplicated. */
  lemma DistinctLongsOfProduct(shorts: seq<int>, longs: seq<int>)
    requires shorts != []
    ensures Distinct(LongsOfPairs(Product(shorts, longs))) == Distinct(longs)
  {
    var rest := LongsOfPairs(Product(shorts[1..], longs));
    LongsOfProduct(shorts, longs);
    DistinctFromAppend(longs, rest, {});
    assert {} + Elements(longs) == Elements(longs);
    LongsOfProductSeen(shorts[1..], longs, Elements(longs));
    assert DistinctFrom(longs, {}) + [] == DistinctFrom(longs, {});
  }

  /** When every record carries the final value of its own pair's trace,
      the first record found for a pair is that value. */
  lemma LookupInSweep(pairs: seq<WindowPair>, values: seq<real>, assetTrace: WindowPair -> seq<real>, pair: WindowPair)
    requires |values| == |pairs|
    requires forall k :: 0 <= k < |pairs| ==> assetTrace(pairs[k]) != [] && values[k] == Last(assetTrace(pairs[k]))
    requires pair in pairs
    ensures assetTrace(pair) != []
    ensures Lookup(ZipResults(pairs, values), pair.short, pair.long) == Some(Last(assetTrace(pair)))
  {
    var rows := ZipResults(pairs, values);
    var k :| 0 <= k < |pairs| && pairs[k] == pair;
    assert rows[k].short == pair.short && rows[k].long == pair.long;
    var found := Lookup(rows, pair.short, pair.long);
    var k' :| 0 <= k' < |rows| && rows[k'].short == pair.short && rows[k'].long == pair.long &&
      found.value == rows[k'].finalAssetValue;
    assert pairs[k'] == pair;
  }

  /** A successful sweep is the pivot of the records of every combination. */
  lemma SweepRecords(shortRange: seq<int>, longRange: seq<int>, assetTrace: WindowPair -> seq<real>)
    requires SensitivityAnalysis(shortRange, longRange, assetTrace).Ok?
    ensures MapFinalValues(Product(shortRange, longRange), assetTrace).Ok?
    ensures SensitivityAnalysis(shortRange, longRange, assetTrace) ==
      Pivot(ZipResults(Product(shortRange, longRange), MapFinalValues(Product(shortRange, longRange), assetTrace).value))
  {
  }

  /** The records' windows are the combinations' windows. */
  lemma ZipWindows(pairs: seq<WindowPair>, values: seq<real>)
    requires |values| == |pairs|
    ensures PairsOf(ZipResults(pairs, values)) == pairs
  {
  }

  /** The pivot's rows and columns are the deduplicated short and long
      windows of the records. */
  lemma PivotAxes(rows: seq<ResultRow>)
    requires Pivot(rows).Ok?
    ensures Pivot(rows).value.index == Distinct(ShortsOfPairs(PairsOf(rows)))
    ensures Pivot(rows).value.columns == Distinct(LongsOfPairs(PairsOf(rows)))
  {
  }

  /** A cell whose pair was swept holds that pair's final asset value. */
  lemma PivotCellOfSweep(pairs: seq<WindowPair>, values: seq<real>, assetTrace: WindowPair -> seq<real>, a: int, b: int)
    requires |values| == |pairs| && Pivot(ZipResults(pairs, values)).Ok?
    requires forall k :: 0 <= k < |pairs| ==> assetTrace(pairs[k]) != [] && values[k] == Last(assetTrace(pairs[k]))
    requires 0 <= a < |Pivot(ZipResults(pairs, values)).value.index|
    requires 0 <= b < |Pivot(ZipResults(pairs, values)).value.columns|
    requires WindowPair(Pivot(ZipResults(pairs, values)).value.index[a],
                        Pivot(ZipResults(pairs, values)).value.columns[b]) in pairs
    ensures var t := Pivot(ZipResults(pairs, values)).value;
      |t.cells| == |t.index| && |t.cells[a]| == |t.columns| &&
      assetTrace(WindowPair(t.index[a], t.columns[b])) != [] &&
      t.cells[a][b] == Some(Last(assetTrace(WindowPair(t.index[a], t.columns[b]))))
  {
    var rows := ZipResults(pairs, values);
    var t := Pivot(rows).value;
    PivotCellsHoldRecords(rows);
    assert t.cells[a][b] == Lookup(rows, t.index[a], t.columns[b]);
    LookupInSweep(pairs, values, assetTrace, WindowPair(t.index[a], t.columns[b]));
  }

  /** The sweep's table has one row per short window and one column per
      long window, in the order of their ranges. */
  lemma SensitivityAxes(shortRange: seq<int>, longRange: seq<int>, assetTrace: WindowPair -> seq<real>)
    requires SensitivityAnalysis(shortRange, longRange, assetTrace).Ok?
    ensures SensitivityAnalysis(shortRange, longRange, assetTrace).value.index == shortRange
    ensures SensitivityAnalysis(shortRange, longRange, assetTrace).value.columns == longRange
  {
    DistinctFromFresh(shortRange, {});
    DistinctFromFresh(longRange, {});
    var pairs := Product(shortRange, longRange);
    SweepRecords(shortRange, longRange, assetTrace);
    var values := MapFinalValues(pairs, assetTrace).value;
    ZipWindows(pairs, values);
    PivotAxes(ZipResults(pairs, values));
    DistinctShortsOfProduct(shortRange, longRange, {});
    DistinctLongsOfProduct(shortRange, longRange);
  }

  /** In the sweep's table, the cell of (s, l) holds the final asset value
      of the strategy run with windows s and l. */
  lemma SensitivityTable(shortRange: seq<int>, longRange: seq<int>, assetTrace: WindowPair -> seq<real>)
    requires SensitivityAnalysis(shortRange, longRange, assetTrace).Ok?
    ensures forall a, b ::
      0 <= a < |SensitivityAnalysis(shortRange, longRange, assetTrace).value.index| &&
      0 <= b < |SensitivityAnalysis(shortRange, longRange, assetTrace).value.columns| ==>
        var t := SensitivityAnalysis(shortRange, longRange, assetTrace).value;
        |t.cells| == |t.index| && |t.cells[a]| == |t.columns| &&
        assetTrace(WindowPair(t.index[a], t.columns[b])) != [] &&
        t.cells[a][b] == Some(Last(assetTrace(WindowPair(t.index[a], t.columns[b]))))
  {
    var pairs := Product(shortRange, longRange);
    SweepRecords(shortRange, longRange, assetTrace);
    SensitivityAxes(shortRange, longRange, assetTrace);
    var values := MapFinalValues(pairs, assetTrace).value;
    var t := Pivot(ZipResults(pairs, values)).value;
    DistinctElements(shortRange);
    DistinctElements(longRange);
    forall a, b | 0 <= a < |t.index| && 0 <= b < |t.columns|
      ensures |t.cells| == |t.index| && |t.cells[a]| == |t.columns| &&
        assetTrace(WindowPair(t.index[a], t.columns[b])) != [] &&
        t.cells[a][b] == Some(Last(assetTrace(WindowPair(t.index[a], t.columns[b]))))
    {
      ProductMembership(shortRange, longRange, WindowPair(t.index[a], t.columns[b]));
      PivotCellOfSweep(pairs, values, assetTrace, a, b);
    }
  }
}
