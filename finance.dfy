/**
  Net present value, the secant root finder and the internal rate of return.
  Numbers are modelled as reals; the properties proved here are algebraic and
  structural (the discounting formula, the iteration budget, when the finder
  stops, the guard on its division), not statements about convergence.
 */
module Finance {

  /** (x)^n, as Math.pow computes it for a whole exponent. */
  function Pow(x: real, n: nat): (p: real)
    ensures x != 0.0 ==> p != 0.0
    ensures x > 0.0 ==> p > 0.0
  {
    if n == 0 then 1.0 else x * Pow(x, n - 1)
  }

  /** The net present value: the sum over n < |values| of values[n] / (1 + r)^n. */
  function Npv(values: seq<real>, r: real): real
    requires 1.0 + r != 0.0
  {
    if |values| == 0 then 0.0
    else Npv(values[..|values| - 1], r) + values[|values| - 1] / Pow(1.0 + r, |values| - 1)
  }

  function Sum(values: seq<real>): real
  {
    if |values| == 0 then 0.0 else Sum(values[..|values| - 1]) + values[|values| - 1]
  }

  /** The discounted-sum loop: adds values[n] / (1 + r)^n for n = 0, 1, ... */
  method CalcNPV(values: seq<real>, r: real) returns (npv: real)
    requires 1.0 + r != 0.0
    ensures npv == Npv(values, r)
    ensures |values| == 0 ==> npv == 0.0
  {
    npv := 0.0;
    var n := 0;
    while n < |values|
      invariant 0 <= n <= |values|
      invariant npv == Npv(values[..n], r)
    {
      assert values[..n + 1][..n] == values[..n];
      npv := npv + values[n] / Pow(1.0 + r, n);
      n := n + 1;
    }
    assert values[..|values|] == values;
  }

  lemma {:induction false} PowOfOne(n: nat)
    ensures Pow(1.0, n) == 1.0
  {
    if n > 0 {
      PowOfOne(n - 1);
    }
  }

  /** At a discount rate of zero the net present value is the plain sum. */
  lemma {:induction false} NpvAtZeroIsSum(values: seq<real>)
    ensures Npv(values, 0.0) == Sum(values)
  {
    if |values| > 0 {
      NpvAtZeroIsSum(values[..|values| - 1]);
      PowOfOne(|values| - 1);
    }
  }

  lemma SumAppend(a: seq<real>, b: seq<real>)
    ensures Sum(a + b) == Sum(a) + Sum(b)
    decreases |b|
  {
    if |b| > 0 {
      assert (a + b)[..|a + b| - 1] == a + b[..|b| - 1];
      assert (a + b)[|a + b| - 1] == b[|b| - 1];
      SumAppend(a, b[..|b| - 1]);
    } else {
      assert a + b == a;
    }
  }

  /** One more period of discounting is one more division by x. */
  lemma DiscountOnce(a: real, x: real, n: nat)
    requires x != 0.0 && n > 0
    ensures a / Pow(x, n) == (a / Pow(x, n - 1)) / x
  {
    var p := Pow(x, n - 1);
    assert Pow(x, n) == x * p;
    assert a / (x * p) == (a / p) / x;
  }

  lemma DivideSum(a: real, b: real, x: real)
    requires x != 0.0
    ensures (a + b) / x == a / x + b / x
  {
  }

  /** Discounting by one period: a flow c now followed by the flows v equals c
      plus the value of v one period later, discounted once. This is the second
      form of the formula, with the initial flow taken out of the sum. */
  lemma {:induction false} NpvFirstFlow(c: real, v: seq<real>, r: real)
    requires 1.0 + r != 0.0
    ensures Npv([c] + v, r) == c + Npv(v, r) / (1.0 + r)
    decreases |v|
  {
    var x := 1.0 + r;
    if |v| == 0 {
      assert ([c] + v)[..0] == [];
    } else {
      var n := |v|;
      var w := [c] + v;
      var last := v[n - 1];
      var front := Npv(v[..n - 1], r);
      assert w[..n] == [c] + v[..n - 1];
      assert w[n] == last;
      NpvFirstFlow(c, v[..n - 1], r);
      DiscountOnce(last, x, n);
      DivideSum(front, last / Pow(x, n - 1), x);
      calc {
        Npv(w, r);
        Npv([c] + v[..n - 1], r) + last / Pow(x, n);
        c + front / x + last / Pow(x, n);
        c + front / x + (last / Pow(x, n - 1)) / x;
        c + (front + last / Pow(x, n - 1)) / x;
        c + Npv(v, r) / x;
      }
    }
  }

  /** g is a root of the net present value of paying c and receiving c(1 + g)
      one period later. */
  lemma OnePeriodRoot(c: real, g: real)
    requires 1.0 + g != 0.0
    ensures Npv([-c, c * (1.0 + g)], g) == 0.0
  {
    assert [-c, c * (1.0 + g)] == [-c] + [c * (1.0 + g)];
    NpvFirstFlow(-c, [c * (1.0 + g)], g);
    assert Npv([c * (1.0 + g)], g) == c * (1.0 + g);
  }

  /** The number of secant updates the finder allows itself. */
  const Iterations: nat := 5

  /** The two trial points give no usable secant line: either they coincide or
      f takes the same value at both. */
  predicate Degenerate<P>(f: (P, real) -> real, p: P, x0: real, x1: real)
  {
    x0 == x1 || f(p, x0) == f(p, x1)
  }

  /** Where the secant line through (x0, y0) and (x1, y1) meets zero. */
  function SecantPoint(x0: real, x1: real, y0: real, y1: real): real
    requires y1 != y0
  {
    x1 - y1 * ((x1 - x0) / (y1 - y0))
  }

  /** The points the secant iteration computes from trial points x0 and x1 with
      at most `budget` updates, stopping early at a degenerate pair. */
  function SecantTrace<P>(f: (P, real) -> real, p: P, x0: real, x1: real, budget: nat): (t: seq<real>)
    ensures |t| <= budget
    decreases budget
  {
    if budget == 0 || Degenerate(f, p, x0, x1) then []
    else
      var x2 := SecantPoint(x0, x1, f(p, x0), f(p, x1));
      [x2] + SecantTrace(f, p, x1, x2, budget - 1)
  }

  /** The finder's answer: the last point computed, or the guess itself when no
      update was made. */
  function SecantRoot<P>(guess: real, dx: real, f: (P, real) -> real, p: P, budget: nat): real
  {
    var t := SecantTrace(f, p, guess - dx, guess + dx, budget);
    if |t| == 0 then guess else t[|t| - 1]
  }

  lemma SecantTraceUnfolds<P>(f: (P, real) -> real, p: P, x0: real, x1: real, budget: nat)
    requires budget > 0 && x0 != x1 && f(p, x0) != f(p, x1)
    ensures var x2 := SecantPoint(x0, x1, f(p, x0), f(p, x1));
      SecantTrace(f, p, x0, x1, budget) == [x2] + SecantTrace(f, p, x1, x2, budget - 1)
  {
  }

  /** One update of the iteration moves the point just computed from the
      trace still to come to the points already computed. */
  lemma SecantAdvance<P>(f: (P, real) -> real, p: P, full: seq<real>, done: seq<real>, x0: real, x1: real, budget: nat)
    requires budget > 0 && x0 != x1 && f(p, x0) != f(p, x1)
    requires done + SecantTrace(f, p, x0, x1, budget) == full
    ensures var x2 := SecantPoint(x0, x1, f(p, x0), f(p, x1));
      (done + [x2]) + SecantTrace(f, p, x1, x2, budget - 1) == full
  {
    var x2 := SecantPoint(x0, x1, f(p, x0), f(p, x1));
    var rest := SecantTrace(f, p, x1, x2, budget - 1);
    SecantTraceUnfolds(f, p, x0, x1, budget);
    assert done + ([x2] + rest) == (done + [x2]) + rest;
  }

  /** Once the iteration has stopped, the finder's answer is the last point
      computed so far. */
  lemma SecantRootAt<P>(guess: real, dx: real, f: (P, real) -> real, p: P, done: seq<real>, x0: real, x1: real, budget: nat)
    requires done + SecantTrace(f, p, x0, x1, budget) == SecantTrace(f, p, guess - dx, guess + dx, Iterations)
    requires budget == 0 || Degenerate(f, p, x0, x1)
    ensures SecantRoot(guess, dx, f, p, Iterations) == if |done| == 0 then guess else done[|done| - 1]
  {
    assert SecantTrace(f, p, x0, x1, budget) == [];
    assert done + [] == done;
  }

  /** The secant root finder, seeded with guess - dx and guess + dx. */
  method Secant<P>(guess: real, dx: real, f: (P, real) -> real, values: P) returns (root: real)
    ensures root == SecantRoot(guess, dx, f, values, Iterations)
  {
    root := guess;
    var x0 := guess - dx;
    var x1 := guess + dx;
    ghost var done: seq<real> := [];
    var i := 0;
    while i < Iterations
      invariant 0 <= i <= Iterations
      invariant done + SecantTrace(f, values, x0, x1, Iterations - i)
             == SecantTrace(f, values, guess - dx, guess + dx, Iterations)
      invariant root == if |done| == 0 then guess else done[|done| - 1]
    {
      var y0 := f(values, x0);
      var y1 := f(values, x1);
      if x0 == x1 || y0 == y1 {
        SecantRootAt(guess, dx, f, values, done, x0, x1, Iterations - i);
        break;
      }
      var x2 := SecantPoint(x0, x1, y0, y1);
      SecantAdvance(f, values, SecantTrace(f, values, guess - dx, guess + dx, Iterations), done, x0, x1, Iterations - i);
      root := x2;
      x0 := x1;
      x1 := x2;
      done := done + [x2];
      i := i + 1;
    }
    if i == Iterations {
      SecantRootAt(guess, dx, f, values, done, x0, x1, 0);
    }
  }
  /** The computed point is where the secant line through (x0, y0) and
      (x1, y1) crosses zero. */
  lemma SecantPointOnLine(x0: real, x1: real, y0: real, y1: real)
    requires x0 != x1 && y0 != y1
    ensures y1 + (SecantPoint(x0, x1, y0, y1) - x1) * ((y1 - y0) / (x1 - x0)) == 0.0
  {
    var q := (x1 - x0) / (y1 - y0);
    var slope := (y1 - y0) / (x1 - x0);
    assert q * slope == 1.0;
    assert SecantPoint(x0, x1, y0, y1) - x1 == -(y1 * q);
    assert -(y1 * q) * slope == -(y1 * (q * slope));
  }

  /** Each computed point is the secant point of the two points before it,
      which were never degenerate, so its division is never by zero; and when
      the iteration stops before its budget, the last pair was degenerate. */
  lemma {:induction false} SecantTraceSteps<P>(f: (P, real) -> real, p: P, x0: real, x1: real, budget: nat)
    ensures var t := SecantTrace(f, p, x0, x1, budget);
      var xs := [x0, x1] + t;
      (forall k :: 0 <= k < |t| ==>
         !Degenerate(f, p, xs[k], xs[k + 1]) &&
         t[k] == SecantPoint(xs[k], xs[k + 1], f(p, xs[k]), f(p, xs[k + 1]))) &&
      (|t| < budget ==> Degenerate(f, p, xs[|t|], xs[|t| + 1]))
    decreases budget
  {
    var t := SecantTrace(f, p, x0, x1, budget);
    var xs := [x0, x1] + t;
    if budget > 0 && !Degenerate(f, p, x0, x1) {
      var x2 := SecantPoint(x0, x1, f(p, x0), f(p, x1));
      var rest := SecantTrace(f, p, x1, x2, budget - 1);
      SecantTraceSteps(f, p, x1, x2, budget - 1);
      var ys := [x1, x2] + rest;
      assert t == [x2] + rest;
      assert xs == [x0] + ys;
      forall k | 1 <= k < |t|
        ensures !Degenerate(f, p, xs[k], xs[k + 1])
        ensures t[k] == SecantPoint(xs[k], xs[k + 1], f(p, xs[k]), f(p, xs[k + 1]))
      {
        assert xs[k] == ys[k - 1] && xs[k + 1] == ys[k] && t[k] == rest[k - 1];
      }
      if |t| < budget {
        assert xs[|t|] == ys[|rest|] && xs[|t| + 1] == ys[|rest| + 1];
      }
    }
  }

  /** When the first pair of trial points is already degenerate (the bracket
      dx is zero, or f agrees at both points) the finder hands back the guess. */
  lemma SecantDegenerateStart<P>(guess: real, dx: real, f: (P, real) -> real, p: P, budget: nat)
    requires dx == 0.0 || f(p, guess - dx) == f(p, guess + dx)
    ensures SecantRoot(guess, dx, f, p, budget) == guess
  {
  }

  /** Otherwise the finder makes between one and `budget` updates and hands
      back the last point it computed. */
  lemma SecantProperStart<P>(guess: real, dx: real, f: (P, real) -> real, p: P, budget: nat)
    requires budget > 0 && !Degenerate(f, p, guess - dx, guess + dx)
    ensures var t := SecantTrace(f, p, guess - dx, guess + dx, budget);
      1 <= |t| <= budget && SecantRoot(guess, dx, f, p, budget) == t[|t| - 1]
      && t[0] == SecantPoint(guess - dx, guess + dx, f(p, guess - dx), f(p, guess + dx))
  {
  }

  /** A trial point where f vanishes is kept: once the secant update lands on
      a root, the next pair coincides and the finder stops there. */
  lemma {:induction false} SecantStopsAtRoot<P>(f: (P, real) -> real, p: P, x0: real, x1: real, budget: nat)
    requires budget > 0 && !Degenerate(f, p, x0, x1) && f(p, x1) == 0.0
    ensures SecantTrace(f, p, x0, x1, budget) == [x1]
  {
    var x2 := SecantPoint(x0, x1, f(p, x0), f(p, x1));
    assert x2 == x1;
    assert Degenerate(f, p, x1, x2);
    assert SecantTrace(f, p, x1, x2, budget - 1) == [];
  }

  /** The bracket half-width IRR uses around its guess. */
  const IrrBracket: real := 0.025

  /** The objective IRR hands to the finder. Where the rate is -1 the source
      divides by (1 + r)^n = 0 for every n > 0; the model keeps only the n = 0
      term there, which is the source's value for at most one flow. */
  function NpvObjective(values: seq<real>, r: real): (v: real)
    ensures 1.0 + r != 0.0 ==> v == Npv(values, r)
  {
    if 1.0 + r == 0.0 then (if |values| == 0 then 0.0 else values[0])
    else Npv(values, r)
  }

  /** The internal rate of return: the secant finder on the net present value,
      with a bracket of 0.025 around the guess. */
  method IRR(values: seq<real>, guess: real) returns (root: real)
    ensures root == SecantRoot(guess, 0.025, NpvObjective, values, Iterations)
  {
    root := Secant(guess, IrrBracket, NpvObjective, values);
  }
}
