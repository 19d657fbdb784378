/** Golden-cross and death-cross detection over two nullable average
    columns, with the null semantics of polars: a comparison involving a null
    is null, `&` is three-valued, `shift(1)` puts a null in row 0, and
    `when(condition)` takes a null condition as false. */
module Crossover {
  import opened Wrappers

  /** Null-propagating `a > b`. */
  function Greater(a: Option<real>, b: Option<real>): Option<bool>
  {
    if a.Some? && b.Some? then Some(a.value > b.value) else None
  }

  /** Null-propagating `a < b`. */
  function Less(a: Option<real>, b: Option<real>): Option<bool>
  {
    if a.Some? && b.Some? then Some(a.value < b.value) else None
  }

  /** Null-propagating `a <= b`. */
  function AtMost(a: Option<real>, b: Option<real>): Option<bool>
  {
    if a.Some? && b.Some? then Some(a.value <= b.value) else None
  }

  /** Null-propagating `a >= b`. */
  function AtLeast(a: Option<real>, b: Option<real>): Option<bool>
  {
    if a.Some? && b.Some? then Some(a.value >= b.value) else None
  }

  /** Three-valued (Kleene) conjunction: false wins over null. */
  function And(a: Option<bool>, b: Option<bool>): Option<bool>
  {
    if a == Some(false) || b == Some(false) then Some(false)
    else if a == Some(true) && b == Some(true) then Some(true)
    else None
  }

  /** `when(c)` selects its branch only on a definite true. */
  predicate Fires(c: Option<bool>)
  {
    c == Some(true)
  }

  /** `shift(1)`: every value moves down one row and row 0 becomes null. */
  function Shift(col: seq<Option<real>>): (r: seq<Option<real>>)
    ensures |r| == |col|
    ensures |col| > 0 ==> r[0] == None
    ensures forall i :: 1 <= i < |col| ==> r[i] == col[i - 1]
  {
    if col == [] then [] else [None] + col[..|col| - 1]
  }

  /** `(short > long) & (short.shift(1) <= long.shift(1))`. */
  function BuyCondition(short: seq<Option<real>>, long: seq<Option<real>>): (r: seq<Option<bool>>)
    requires |short| == |long|
    ensures |r| == |short|
  {
    var prevShort, prevLong := Shift(short), Shift(long);
    seq(|short|, i requires 0 <= i < |short| =>
      And(Greater(short[i], long[i]), AtMost(prevShort[i], prevLong[i])))
  }

  /** `(short < long) & (short.shift(1) >= long.shift(1))`. */
  function SellCondition(short: seq<Option<real>>, long: seq<Option<real>>): (r: seq<Option<bool>>)
    requires |short| == |long|
    ensures |r| == |short|
  {
    var prevShort, prevLong := Shift(short), Shift(long);
    seq(|short|, i requires 0 <= i < |short| =>
      And(Less(short[i], long[i]), AtLeast(prevShort[i], prevLong[i])))
  }

  /** Reference definition of a golden cross at row i: both averages are
      defined at i and at i - 1, short is above long at i and was not above
      it at i - 1. */
  predicate GoldenCross(short: seq<Option<real>>, long: seq<Option<real>>, i: int)
    requires |short| == |long| && 0 <= i < |short|
  {
    && i >= 1
    && short[i].Some? && long[i].Some? && short[i - 1].Some? && long[i - 1].Some?
    && short[i].value > long[i].value
    && short[i - 1].value <= long[i - 1].value
  }

  /** Reference definition of a death cross: the mirror image. */
  predicate DeathCross(short: seq<Option<real>>, long: seq<Option<real>>, i: int)
    requires |short| == |long| && 0 <= i < |short|
  {
    && i >= 1
    && short[i].Some? && long[i].Some? && short[i - 1].Some? && long[i - 1].Some?
    && short[i].value < long[i].value
    && short[i - 1].value >= long[i - 1].value
  }

  /** The rows where the buy condition fires are exactly the golden
      crosses; row 0 never fires. */
  function BuyEvents(short: seq<Option<real>>, long: seq<Option<real>>): (r: seq<bool>)
    requires |short| == |long|
    ensures |r| == |short|
    ensures forall i :: 0 <= i < |short| ==> (r[i] <==> GoldenCross(short, long, i))
    ensures |r| > 0 ==> !r[0]
  {
    var c := BuyCondition(short, long);
    seq(|short|, i requires 0 <= i < |short| => Fires(c[i]))
  }

  /** The rows where the sell condition fires are exactly the death
      crosses, and never a row where the buy condition fires. */
  function SellEvents(short: seq<Option<real>>, long: seq<Option<real>>): (r: seq<bool>)
    requires |short| == |long|
    ensures |r| == |short|
    ensures forall i :: 0 <= i < |short| ==> (r[i] <==> DeathCross(short, long, i))
    ensures forall i :: 0 <= i < |short| ==> !(r[i] && BuyEvents(short, long)[i])
    ensures |r| > 0 ==> !r[0]
  {
    var c := SellCondition(short, long);
    seq(|short|, i requires 0 <= i < |short| => Fires(c[i]))
  }

  /** Two identical average columns never cross. */
  lemma NoCrossOfIdenticalColumns(ma: seq<Option<real>>)
    ensures forall i :: 0 <= i < |ma| ==> !BuyEvents(ma, ma)[i] && !SellEvents(ma, ma)[i]
  {
  }

  /** Either cross looks at the row before, so it needs both averages there. */
  lemma CrossNeedsPreviousRow(short: seq<Option<real>>, long: seq<Option<real>>, i: int)
    requires |short| == |long| && 0 <= i < |short|
    requires BuyEvents(short, long)[i] || SellEvents(short, long)[i]
    ensures i >= 1 && short[i - 1].Some? && long[i - 1].Some?
  {
  }
}
