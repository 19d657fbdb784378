/** One row of the stock-bar table the strategies read. */
module PriceData {

  /** A price bar: timestamp in minutes, prices and volumes as reals. */
  datatype PriceBar = PriceBar(
    symbol: string,
    timestamp: int,
    open: real,
    high: real,
    low: real,
    close: real,
    volume: real,
    tradeCount: real,
    vwap: real)

  /** The `close` column of a table of bars. */
  function Closes(bars: seq<PriceBar>): (r: seq<real>)
    ensures |r| == |bars|
    ensures forall i :: 0 <= i < |bars| ==> r[i] == bars[i].close
  {
    seq(|bars|, i requires 0 <= i < |bars| => bars[i].close)
  }
}
