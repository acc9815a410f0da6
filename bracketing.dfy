/** The part of the False Position (regula falsi) method that both variants
    share: the secant x-intercept, the one-bound update, the relative error,
    and the facts that keep the iteration well defined.  The user's function
    is an arbitrary total function `f: real -> real`; all arithmetic is exact. */
module Bracketing {

  datatype Option<T> = None | Some(value: T)

  /** The Python exception a run ends with instead of a final report. */
  datatype Fault =
    | ZeroDivision     // the relative error divides by an estimate of exactly 0
    | UnboundEstimate  // no pass ran, so the final report reads an unassigned `xr`

  datatype Bracket = Bracket(xl: real, xu: real)

  /** One pass of the loop: the bounds it started from, the estimate it
      computed from them, and the relative error it computed (None when the
      error is undefined). */
  datatype Pass = Pass(xl: real, xu: real, xr: real, error: Option<real>)

  function Abs(x: real): real { if x < 0.0 then -x else x }

  /** x lies in the closed interval spanned by a and b, in either order. */
  predicate Between(x: real, a: real, b: real) { a <= x <= b || b <= x <= a }

  predicate Within(inner: Bracket, outer: Bracket) {
    Between(inner.xl, outer.xl, outer.xu) && Between(inner.xu, outer.xl, outer.xu)
  }

  /** The product of f's values at two points, whose sign the code tests. */
  function SignProduct(f: real -> real, a: real, b: real): real {
    f(a) * f(b)
  }

  /** f has strictly opposite signs at the two points: the entry test, and
      the test that picks the bound a pass replaces. */
  predicate Brackets(f: real -> real, xl: real, xu: real) {
    SignProduct(f, xl, xu) < 0.0
  }

  /** What holds before every pass: the signs at the two bounds are not the
      same, and f does not vanish at xu.  It is what keeps the update
      formula's denominator away from zero. */
  predicate SignInvariant(f: real -> real, xl: real, xu: real)
    ensures SignInvariant(f, xl, xu) ==> f(xl) != f(xu)
  {
    f(xl) * f(xu) <= 0.0 && f(xu) != 0.0
  }

  lemma EntryEstablishesInvariant(f: real -> real, xl: real, xu: real)
    requires Brackets(f, xl, xu)
    ensures SignInvariant(f, xl, xu)
  {
  }

  /** The false-position estimate: the x-intercept of the secant through
      (xl, f(xl)) and (xu, f(xu)). */
  function Estimate(f: real -> real, xl: real, xu: real): (xr: real)
    requires f(xl) != f(xu)
    ensures f(xu) * (xr - xl) == f(xl) * (xr - xu)
  {
    xu - f(xu) * (xl - xu) / (f(xl) - f(xu))
  }

  /** Any point on the x-axis that lies on the secant is the estimate: the
      intercept characterisation above determines it. */
  lemma InterceptUnique(f: real -> real, xl: real, xu: real, x: real)
    requires f(xl) != f(xu)
    requires f(xu) * (x - xl) == f(xl) * (x - xu)
    ensures x == Estimate(f, xl, xu)
  {
    var xr := Estimate(f, xl, xu);
    assert (f(xu) - f(xl)) * (x - xr) == 0.0;
  }

  /** Under the sign invariant the estimate never leaves the current bracket. */
  lemma EstimateInBracket(f: real -> real, xl: real, xu: real)
    requires SignInvariant(f, xl, xu)
    ensures Between(Estimate(f, xl, xu), xl, xu)
  {
    var xr := Estimate(f, xl, xu);
    var fl, fu := f(xl), f(xu);
    if fu > 0.0 {
      assert fl <= 0.0;
    } else {
      assert fl >= 0.0;
    }
    if (xr > xl && xr > xu) || (xr < xl && xr < xu) {
      assert false;
    }
  }

  /** The bound replacement of one pass: the upper bound moves to xr when
      f(xl) and f(xr) have strictly opposite signs, the lower bound otherwise;
      the other bound is kept. */
  function Update(f: real -> real, xl: real, xu: real, xr: real): (b: Bracket)
    ensures (b.xl == xl && b.xu == xr) || (b.xl == xr && b.xu == xu)
  {
    if Brackets(f, xl, xr) then Bracket(xl, xr) else Bracket(xr, xu)
  }

  /** One pass keeps the sign invariant and the new bracket lies inside the old. */
  lemma UpdateKeepsInvariant(f: real -> real, xl: real, xu: real)
    requires SignInvariant(f, xl, xu)
    ensures var b := Update(f, xl, xu, Estimate(f, xl, xu));
      SignInvariant(f, b.xl, b.xu) && Within(b, Bracket(xl, xu))
  {
    var xr := Estimate(f, xl, xu);
    EstimateInBracket(f, xl, xu);
    var fl, fu, fr := f(xl), f(xu), f(xr);
    if fl * fr >= 0.0 {
      if fl == 0.0 {
        assert fu * (xr - xl) == 0.0;
        assert fu * (xl - xu) / (fl - fu) == xu - xl;
      } else if fr != 0.0 {
        if fl > 0.0 {
          assert fu < 0.0 && fr > 0.0;
        } else {
          assert fu > 0.0 && fr < 0.0;
        }
      }
    }
  }

  /** The relative change between two consecutive estimates, as a fraction
      of the newer one; the division by xr is undefined when xr is 0. */
  function RelativeChange(xr: real, previous: real): (e: real)
    requires xr != 0.0
    ensures e >= 0.0
    ensures e == 0.0 <==> xr == previous
    ensures e * Abs(xr) == Abs(xr - previous)
  {
    Abs((xr - previous) / xr)
  }

  /** The loop leaves early only on a defined error strictly below the tolerance. */
  predicate Stops(error: Option<real>, tolerance: real) {
    error.Some? && error.value < tolerance
  }

  /** The estimate a pass sees as `xr_previous`: absent on the first pass. */
  function PreviousOf(rows: seq<Pass>, i: nat): Option<real>
    requires i <= |rows|
  {
    if i == 0 then None else Some(rows[i - 1].xr)
  }

  function BracketOf(p: Pass): Bracket { Bracket(p.xl, p.xu) }

  /** The bracket once the passes in `rows` have run from [xl0, xu0]. */
  function After(f: real -> real, xl0: real, xu0: real, rows: seq<Pass>): Bracket
  {
    if rows == [] then Bracket(xl0, xu0)
    else
      var last := rows[|rows| - 1];
      Update(f, last.xl, last.xu, last.xr)
  }

  /** The passes form the run from [xl0, xu0]: the first starts from the
      initial bounds, each computes the secant estimate of its own bounds with
      a nonzero denominator, and each next pass starts from the bracket the
      previous one left. */
  ghost predicate BoundsChain(f: real -> real, xl0: real, xu0: real, rows: seq<Pass>)
  {
    && (|rows| > 0 ==> BracketOf(rows[0]) == Bracket(xl0, xu0))
    && (forall i :: 0 <= i < |rows| ==>
          f(rows[i].xl) != f(rows[i].xu) && rows[i].xr == Estimate(f, rows[i].xl, rows[i].xu))
    && (forall i :: 0 < i < |rows| ==>
          BracketOf(rows[i]) == Update(f, rows[i - 1].xl, rows[i - 1].xu, rows[i - 1].xr))
  }

  lemma ChainPrefix(f: real -> real, xl0: real, xu0: real, rows: seq<Pass>, n: nat)
    requires BoundsChain(f, xl0, xu0, rows)
    requires n <= |rows|
    ensures BoundsChain(f, xl0, xu0, rows[..n])
    ensures n < |rows| ==> BracketOf(rows[n]) == After(f, xl0, xu0, rows[..n])
  {
  }

  lemma ChainExtend(f: real -> real, xl0: real, xu0: real, rows: seq<Pass>, p: Pass)
    requires BoundsChain(f, xl0, xu0, rows)
    requires BracketOf(p) == After(f, xl0, xu0, rows)
    requires f(p.xl) != f(p.xu) && p.xr == Estimate(f, p.xl, p.xu)
    ensures BoundsChain(f, xl0, xu0, rows + [p])
    ensures After(f, xl0, xu0, rows + [p]) == Update(f, p.xl, p.xu, p.xr)
  {
    var r := rows + [p];
    assert forall i :: 0 <= i < |rows| ==> r[i] == rows[i];
  }

  /** Given the entry test, the sign invariant holds before every pass and
      after the last one, so no pass divides by zero in the update formula. */
  lemma {:induction false} ChainKeepsSignInvariant(f: real -> real, xl0: real, xu0: real, rows: seq<Pass>)
    requires Brackets(f, xl0, xu0)
    requires BoundsChain(f, xl0, xu0, rows)
    ensures forall i :: 0 <= i < |rows| ==> SignInvariant(f, rows[i].xl, rows[i].xu)
    ensures var b := After(f, xl0, xu0, rows); SignInvariant(f, b.xl, b.xu)
  {
    if rows == [] {
      EntryEstablishesInvariant(f, xl0, xu0);
    } else {
      var n := |rows| - 1;
      ChainPrefix(f, xl0, xu0, rows, n);
      ChainKeepsSignInvariant(f, xl0, xu0, rows[..n]);
      assert forall i :: 0 <= i < n ==> rows[..n][i] == rows[i];
      UpdateKeepsInvariant(f, rows[n].xl, rows[n].xu);
    }
  }

  lemma WithinTransitive(a: Bracket, b: Bracket, c: Bracket)
    requires Within(a, b) && Within(b, c)
    ensures Within(a, c)
    ensures forall x :: Between(x, a.xl, a.xu) ==> Between(x, c.xl, c.xu)
  {
  }

  /** The brackets only shrink: each pass's bracket and estimate lie inside
      every earlier pass's bracket, and so does the final bracket. */
  lemma {:induction false} ChainNested(f: real -> real, xl0: real, xu0: real, rows: seq<Pass>)
    requires Brackets(f, xl0, xu0)
    requires BoundsChain(f, xl0, xu0, rows)
    ensures forall i, j :: 0 <= i <= j < |rows| ==>
      Within(BracketOf(rows[j]), BracketOf(rows[i])) && Between(rows[j].xr, rows[i].xl, rows[i].xu)
    ensures forall i :: 0 <= i < |rows| ==> Within(After(f, xl0, xu0, rows), BracketOf(rows[i]))
    ensures Within(After(f, xl0, xu0, rows), Bracket(xl0, xu0))
  {
    if rows != [] {
      var n := |rows| - 1;
      ChainPrefix(f, xl0, xu0, rows, n);
      ChainNested(f, xl0, xu0, rows[..n]);
      ChainKeepsSignInvariant(f, xl0, xu0, rows);
      assert forall i :: 0 <= i < n ==> rows[..n][i] == rows[i];
      var last := BracketOf(rows[n]);
      EstimateInBracket(f, last.xl, last.xu);
      UpdateKeepsInvariant(f, last.xl, last.xu);
      forall i | 0 <= i <= n
        ensures Within(last, BracketOf(rows[i])) && Between(rows[n].xr, rows[i].xl, rows[i].xu)
        ensures Within(After(f, xl0, xu0, rows), BracketOf(rows[i]))
      {
        if i < n {
          WithinTransitive(last, After(f, xl0, xu0, rows[..n]), BracketOf(rows[i]));
        }
        WithinTransitive(After(f, xl0, xu0, rows), last, BracketOf(rows[i]));
      }
    }
  }

  /** The passes are determined by the inputs: two runs from the same bracket
      agree on every pass both make. */
  lemma {:induction false} ChainUnique(f: real -> real, xl0: real, xu0: real, a: seq<Pass>, b: seq<Pass>, i: nat)
    requires BoundsChain(f, xl0, xu0, a) && BoundsChain(f, xl0, xu0, b)
    requires i < |a| && i < |b|
    ensures BracketOf(a[i]) == BracketOf(b[i]) && a[i].xr == b[i].xr
  {
    if i > 0 {
      ChainUnique(f, xl0, xu0, a, b, i - 1);
    }
  }
}
