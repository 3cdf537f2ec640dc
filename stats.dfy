/**
  Minimum and maximum of a numeric series, as used to scale the chart axes.
  Both folds are seeded with an infinity, so the result of an empty series is
  that infinity; ExtReal adds the two infinities to the reals for that purpose.
 */
module Stats {

  datatype ExtReal = NegInfinity | Finite(value: real) | PosInfinity

  /** Strict order of the extended reals: -oo < every real < +oo. */
  predicate Less(x: ExtReal, y: ExtReal)
  {
    match (x, y)
    case (Finite(a), Finite(b)) => a < b
    case (NegInfinity, _) => !y.NegInfinity?
    case (_, PosInfinity) => !x.PosInfinity?
    case _ => false
  }

  predicate LessEq(x: ExtReal, y: ExtReal)
  {
    x == y || Less(x, y)
  }

  /** The smallest element of `a`, scanning from the last element down to the
      first and starting from +Infinity. */
  method ArrayMin(a: seq<real>) returns (m: ExtReal)
    ensures |a| == 0 ==> m == PosInfinity
    ensures |a| > 0 ==> m.Finite? && exists k :: 0 <= k < |a| && a[k] == m.value
    ensures forall k :: 0 <= k < |a| ==> LessEq(m, Finite(a[k]))
  {
    var len := |a|;
    m := PosInfinity;
    while len > 0
      invariant 0 <= len <= |a|
      invariant len == |a| ==> m == PosInfinity
      invariant len < |a| ==> m.Finite? && exists k :: len <= k < |a| && a[k] == m.value
      invariant forall k :: len <= k < |a| ==> LessEq(m, Finite(a[k]))
    {
      len := len - 1;
      if Less(Finite(a[len]), m) {
        m := Finite(a[len]);
      }
    }
  }

  /** The largest element of `a`, scanning from the last element down to the
      first and starting from -Infinity. */
  method ArrayMax(a: seq<real>) returns (m: ExtReal)
    ensures |a| == 0 ==> m == NegInfinity
    ensures |a| > 0 ==> m.Finite? && exists k :: 0 <= k < |a| && a[k] == m.value
    ensures forall k :: 0 <= k < |a| ==> LessEq(Finite(a[k]), m)
  {
    var len := |a|;
    m := NegInfinity;
    while len > 0
      invariant 0 <= len <= |a|
      invariant len == |a| ==> m == NegInfinity
      invariant len < |a| ==> m.Finite? && exists k :: len <= k < |a| && a[k] == m.value
      invariant forall k :: len <= k < |a| ==> LessEq(Finite(a[k]), m)
    {
      len := len - 1;
      if Less(m, Finite(a[len])) {
        m := Finite(a[len]);
      }
    }
  }
}
