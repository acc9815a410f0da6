/** The `false_position` of graph_plotter.py: the iteration that feeds the
    plot.  Its error is in percent, a previous estimate of exactly 0 counts as
    absent (Python truthiness), and every pass records its estimate and the
    bounds it started from in three lists. */
module GraphPlotter {
  import opened Bracketing

  /** The lists `xr_points`, `xl_points` and `xu_points`. */
  datatype Points = Points(xr: seq<real>, xl: seq<real>, xu: seq<real>)

  datatype Outcome =
    | Unbracketed                                 // entry test failed: no pass ran
    | Raised(fault: Fault, rows: seq<Pass>)       // a Python exception after the passes in rows
    | Reported(rows: seq<Pass>, points: Points, root: real)

  /** The error column: the relative change between consecutive estimates, in percent. */
  function PercentError(xr: real, previous: real): (e: real)
    requires xr != 0.0
    ensures e >= 0.0
    ensures e == 0.0 <==> xr == previous
  {
    Abs((xr - previous) / xr) * 100.0
  }

  /** The tolerance is compared in percent: the same test on the fraction
      uses a tolerance a hundred times smaller. */
  lemma PercentUnits(xr: real, previous: real, tolerance: real)
    requires xr != 0.0
    ensures PercentError(xr, previous) == 100.0 * RelativeChange(xr, previous)
    ensures PercentError(xr, previous) < tolerance <==> RelativeChange(xr, previous) < tolerance / 100.0
  {
  }

  /** The error of one pass, given the previous estimate: defined only when
      that estimate is present and nonzero, and then the percent change. */
  predicate ErrorFollows(previous: Option<real>, p: Pass)
  {
    if previous.Some? && previous.value != 0.0 then
      p.xr != 0.0 && p.error == Some(PercentError(p.xr, previous.value))
    else
      p.error == None
  }

  // ErrorColumn, Trace and Running have the same shape in both variant
  // modules on purpose: each is stated over its own module's ErrorFollows,
  // so each error rule stays next to the loop that applies it.
  ghost predicate ErrorColumn(rows: seq<Pass>)
  {
    forall i :: 0 <= i < |rows| ==> ErrorFollows(PreviousOf(rows, i), rows[i])
  }

  lemma ErrorColumnExtend(rows: seq<Pass>, p: Pass)
    requires ErrorColumn(rows)
    requires ErrorFollows(PreviousOf(rows, |rows|), p)
    ensures ErrorColumn(rows + [p])
  {
    var r := rows + [p];
    forall i | 0 <= i < |r|
      ensures ErrorFollows(PreviousOf(r, i), r[i])
    {
      if i < |rows| {
        assert r[i] == rows[i];
        assert i > 0 ==> r[i - 1] == rows[i - 1];
        assert PreviousOf(r, i) == PreviousOf(rows, i);
      } else {
        assert i > 0 ==> r[i - 1] == rows[|rows| - 1];
        assert PreviousOf(r, i) == PreviousOf(rows, |rows|);
      }
    }
  }

  /** The passes a run from [xl0, xu0] makes, none but possibly the last one
      meeting the stopping test. */
  ghost predicate Trace(f: real -> real, xl0: real, xu0: real, tolerance: real, rows: seq<Pass>)
  {
    && BoundsChain(f, xl0, xu0, rows)
    && ErrorColumn(rows)
    && (forall i :: 0 <= i < |rows| - 1 ==> !Stops(rows[i].error, tolerance))
  }

  /** Each list holds one entry per pass: its estimate and the bounds it started from. */
  function Xrs(rows: seq<Pass>): (xs: seq<real>)
    ensures |xs| == |rows| && forall i :: 0 <= i < |rows| ==> xs[i] == rows[i].xr
  {
    seq(|rows|, i requires 0 <= i < |rows| => rows[i].xr)
  }

  function Xls(rows: seq<Pass>): (xs: seq<real>)
    ensures |xs| == |rows| && forall i :: 0 <= i < |rows| ==> xs[i] == rows[i].xl
  {
    seq(|rows|, i requires 0 <= i < |rows| => rows[i].xl)
  }

  function Xus(rows: seq<Pass>): (xs: seq<real>)
    ensures |xs| == |rows| && forall i :: 0 <= i < |rows| ==> xs[i] == rows[i].xu
  {
    seq(|rows|, i requires 0 <= i < |rows| => rows[i].xu)
  }

  lemma PointsExtend(rows: seq<Pass>, p: Pass)
    ensures Xrs(rows + [p]) == Xrs(rows) + [p.xr]
    ensures Xls(rows + [p]) == Xls(rows) + [p.xl]
    ensures Xus(rows + [p]) == Xus(rows) + [p.xu]
  {
    assert Xrs(rows + [p]) == Xrs(rows) + [p.xr];
    assert Xls(rows + [p]) == Xls(rows) + [p.xl];
  }

  /** The state at the head of the loop: the passes so far form a trace that
      has not stopped, the bounds are the bracket they left, and the previous
      estimate is the last one computed. */
  ghost predicate Running(f: real -> real, xl0: real, xu0: real, tolerance: real,
                          rows: seq<Pass>, xl: real, xu: real, previous: Option<real>)
  {
    && Brackets(f, xl0, xu0)
    && Trace(f, xl0, xu0, tolerance, rows)
    && (forall i :: 0 <= i < |rows| ==> !Stops(rows[i].error, tolerance))
    && Bracket(xl, xu) == After(f, xl0, xu0, rows)
    && previous == PreviousOf(rows, |rows|)
  }

  lemma RunningSigns(f: real -> real, xl0: real, xu0: real, tolerance: real,
                     rows: seq<Pass>, xl: real, xu: real, previous: Option<real>)
    requires Running(f, xl0, xu0, tolerance, rows, xl, xu, previous)
    ensures SignInvariant(f, xl, xu)
  {
    ChainKeepsSignInvariant(f, xl0, xu0, rows);
  }

  /** How a run from [xl0, xu0] ends.  Unbracketed exactly when the entry
      test fails.  Otherwise the passes made form a trace in which none
      before the last met the stopping test, and:
      - UnboundEstimate: the cap allowed no pass;
      - ZeroDivision: no pass met the test, the cap allowed another, and that
        next pass's estimate is exactly 0 while the previous one is not;
      - Reported: between one pass and the cap; fewer than the cap only when
        the last pass met the test; the three lists hold each pass's
        estimate and starting bounds, and the root is the last estimate. */
  ghost predicate Ends(f: real -> real, xl0: real, xu0: real, tolerance: real, maxIterations: int,
                       out: Outcome)
  {
    match out
    case Unbracketed => !Brackets(f, xl0, xu0)
    case Raised(fault, rows) =>
      && Brackets(f, xl0, xu0)
      && Trace(f, xl0, xu0, tolerance, rows)
      && (forall i :: 0 <= i < |rows| ==> !Stops(rows[i].error, tolerance))
      && (match fault
          case UnboundEstimate => maxIterations < 1 && rows == []
          case ZeroDivision =>
            && 0 < |rows| < maxIterations
            && rows[|rows| - 1].xr != 0.0
            && var b := After(f, xl0, xu0, rows);
               f(b.xl) != f(b.xu) && Estimate(f, b.xl, b.xu) == 0.0)
    case Reported(rows, points, root) =>
      && Brackets(f, xl0, xu0)
      && Trace(f, xl0, xu0, tolerance, rows)
      && 1 <= |rows| <= maxIterations
      && (|rows| < maxIterations ==> Stops(rows[|rows| - 1].error, tolerance))
      && points == Points(Xrs(rows), Xls(rows), Xus(rows))
      && root == rows[|rows| - 1].xr
  }

  /** One pass extends the trace.  If it meets the stopping test the run
      ends reporting it; otherwise the loop goes on from the updated bracket
      with this pass's estimate as the previous one. */
  lemma Advance(f: real -> real, xl0: real, xu0: real, tolerance: real, maxIterations: int,
                rows: seq<Pass>, xl: real, xu: real, previous: Option<real>, p: Pass)
    requires Running(f, xl0, xu0, tolerance, rows, xl, xu, previous)
    requires |rows| < maxIterations
    requires f(xl) != f(xu)
    requires p.xl == xl && p.xu == xu && p.xr == Estimate(f, xl, xu)
    requires ErrorFollows(previous, p)
    ensures Stops(p.error, tolerance) ==>
      var done := rows + [p];
      Ends(f, xl0, xu0, tolerance, maxIterations,
           Reported(done, Points(Xrs(done), Xls(done), Xus(done)), p.xr))
    ensures !Stops(p.error, tolerance) ==>
      var b := Update(f, xl, xu, p.xr);
      Running(f, xl0, xu0, tolerance, rows + [p], b.xl, b.xu, Some(p.xr))
  {
    ChainExtend(f, xl0, xu0, rows, p);
    ErrorColumnExtend(rows, p);
    var r := rows + [p];
    assert forall i :: 0 <= i < |rows| ==> r[i] == rows[i];
  }

  /** The loop ran out of passes without meeting the stopping test. */
  lemma Exhausted(f: real -> real, xl0: real, xu0: real, tolerance: real, maxIterations: int,
                  rows: seq<Pass>, xl: real, xu: real, previous: Option<real>)
    requires Running(f, xl0, xu0, tolerance, rows, xl, xu, previous)
    requires 1 <= |rows| == maxIterations
    ensures Ends(f, xl0, xu0, tolerance, maxIterations,
                 Reported(rows, Points(Xrs(rows), Xls(rows), Xus(rows)), rows[|rows| - 1].xr))
  {
  }

  /** The next estimate is 0 while the previous one is nonzero: the error divides by zero. */
  lemma ZeroEstimate(f: real -> real, xl0: real, xu0: real, tolerance: real, maxIterations: int,
                     rows: seq<Pass>, xl: real, xu: real, previous: Option<real>)
    requires Running(f, xl0, xu0, tolerance, rows, xl, xu, previous)
    requires |rows| < maxIterations
    requires previous.Some? && previous.value != 0.0
    requires f(xl) != f(xu) && Estimate(f, xl, xu) == 0.0
    ensures Ends(f, xl0, xu0, tolerance, maxIterations, Raised(ZeroDivision, rows))
  {
  }

  method FalsePosition(f: real -> real, xl0: real, xu0: real, tolerance: real, maxIterations: int)
    returns (out: Outcome)
    ensures Ends(f, xl0, xu0, tolerance, maxIterations, out)
  {
    if !Brackets(f, xl0, xu0) {
      return Unbracketed;
    }
    var xl, xu := xl0, xu0;
    var previous: Option<real> := None;
    var xrPoints, xlPoints, xuPoints := [], [], [];
    var rows: seq<Pass> := [];
    var iteration := 1;
    ghost var stopped := false;
    while iteration <= maxIterations
      invariant 1 <= iteration && |rows| == iteration - 1
      invariant rows != [] ==> iteration <= maxIterations + 1
      invariant Running(f, xl0, xu0, tolerance, rows, xl, xu, previous)
      invariant !stopped
      invariant xrPoints == Xrs(rows) && xlPoints == Xls(rows) && xuPoints == Xus(rows)
      decreases maxIterations - iteration
    {
      RunningSigns(f, xl0, xu0, tolerance, rows, xl, xu, previous);
      var xr := Estimate(f, xl, xu);
      xrPoints := xrPoints + [xr];
      xlPoints := xlPoints + [xl];
      xuPoints := xuPoints + [xu];
      var error: Option<real>;
      if previous.Some? && previous.value != 0.0 {
        if xr == 0.0 {
          ZeroEstimate(f, xl0, xu0, tolerance, maxIterations, rows, xl, xu, previous);
          return Raised(ZeroDivision, rows);
        }
        error := Some(PercentError(xr, previous.value));
      } else {
        error := None;
      }
      var pass := Pass(xl, xu, xr, error);
      Advance(f, xl0, xu0, tolerance, maxIterations, rows, xl, xu, previous, pass);
      PointsExtend(rows, pass);
      rows := rows + [pass];
      if Brackets(f, xl, xr) {
        xu := xr;
      } else {
        xl := xr;
      }
      if error.Some? && error.value < tolerance {
        stopped := true;
        break;
      }
      previous := Some(xr);
      iteration := iteration + 1;
    }
    if rows == [] {
      return Raised(UnboundEstimate, []);
    }
    if !stopped {
      Exhausted(f, xl0, xu0, tolerance, maxIterations, rows, xl, xu, previous);
    }
    return Reported(rows, Points(xrPoints, xlPoints, xuPoints), rows[|rows| - 1].xr);
  }

  /** The three lists of a reported run: one entry per pass, each estimate
      inside the bracket recorded beside it, the root the last estimate. */
  lemma ReportedPoints(f: real -> real, xl0: real, xu0: real, tolerance: real, maxIterations: int,
                       out: Outcome)
    requires Ends(f, xl0, xu0, tolerance, maxIterations, out) && out.Reported?
    ensures var n := |out.rows|;
      |out.points.xr| == n && |out.points.xl| == n && |out.points.xu| == n && 1 <= n <= maxIterations
    ensures forall i :: 0 <= i < |out.points.xr| ==>
      Between(out.points.xr[i], out.points.xl[i], out.points.xu[i])
    ensures out.root == out.points.xr[|out.points.xr| - 1]
  {
    ChainNested(f, xl0, xu0, out.rows);
  }

  /** The error column: undefined exactly on the first pass and after an
      estimate of 0, otherwise nonnegative.  So the loop never leaves on the
      first pass. */
  lemma ErrorDefinedness(rows: seq<Pass>, tolerance: real)
    requires ErrorColumn(rows)
    ensures forall i :: 0 <= i < |rows| ==>
      (rows[i].error == None <==> i == 0 || rows[i - 1].xr == 0.0) &&
      (rows[i].error.Some? ==> rows[i].error.value >= 0.0)
    ensures |rows| > 0 && Stops(rows[|rows| - 1].error, tolerance) ==> |rows| >= 2
  {
    forall i | 0 <= i < |rows|
      ensures rows[i].error == None <==> i == 0 || rows[i - 1].xr == 0.0
    {
      assert ErrorFollows(PreviousOf(rows, i), rows[i]);
    }
  }

  /** The passes of a reported run: the sign invariant before every pass,
      brackets that only shrink, and no early exit on the first pass. */
  lemma ReportedPasses(f: real -> real, xl0: real, xu0: real, tolerance: real, maxIterations: int,
                       out: Outcome)
    requires Ends(f, xl0, xu0, tolerance, maxIterations, out) && out.Reported?
    ensures forall i :: 0 <= i < |out.rows| ==> SignInvariant(f, out.rows[i].xl, out.rows[i].xu)
    ensures forall i, j :: 0 <= i <= j < |out.rows| ==>
      Within(BracketOf(out.rows[j]), BracketOf(out.rows[i]))
    ensures |out.rows| < maxIterations ==> |out.rows| >= 2
  {
    ChainKeepsSignInvariant(f, xl0, xu0, out.rows);
    ChainNested(f, xl0, xu0, out.rows);
    ErrorDefinedness(out.rows, tolerance);
  }

  /** The passes are determined by the inputs: two traces from the same
      bracket agree on every pass both make, error included. */
  lemma TraceUnique(f: real -> real, xl0: real, xu0: real, tolerance: real,
                    a: seq<Pass>, b: seq<Pass>, i: nat)
    requires Trace(f, xl0, xu0, tolerance, a) && Trace(f, xl0, xu0, tolerance, b)
    requires i < |a| && i < |b|
    ensures a[i] == b[i]
  {
    ChainUnique(f, xl0, xu0, a, b, i);
    if i > 0 {
      ChainUnique(f, xl0, xu0, a, b, i - 1);
    }
    assert ErrorFollows(PreviousOf(a, i), a[i]);
    assert ErrorFollows(PreviousOf(b, i), b[i]);
  }

  /** After a pass with a nonzero estimate, the estimate of the pass after
      it is not 0: its error divides by it. */
  lemma NextEstimateNonzero(f: real -> real, xl0: real, xu0: real, tolerance: real,
                            rows: seq<Pass>, n: nat)
    requires Trace(f, xl0, xu0, tolerance, rows)
    requires 0 < n < |rows| && rows[n - 1].xr != 0.0
    ensures var b := After(f, xl0, xu0, rows[..n]);
      f(b.xl) != f(b.xu) && Estimate(f, b.xl, b.xu) != 0.0
  {
    ChainPrefix(f, xl0, xu0, rows, n);
    assert ErrorFollows(PreviousOf(rows, n), rows[n]);
  }

  /** A shorter trace from the same bracket is a prefix of a longer one. */
  lemma TracePrefix(f: real -> real, xl0: real, xu0: real, tolerance: real, a: seq<Pass>, b: seq<Pass>)
    requires Trace(f, xl0, xu0, tolerance, a) && Trace(f, xl0, xu0, tolerance, b)
    requires |a| <= |b|
    ensures b[..|a|] == a
  {
    forall i | 0 <= i < |a|
      ensures a[i] == b[i]
    {
      TraceUnique(f, xl0, xu0, tolerance, a, b, i);
    }
  }

  /** A trace whose next estimate would raise ZeroDivision cannot be extended:
      every trace from the same bracket is at most as long. */
  lemma ZeroDivisionLongest(f: real -> real, xl0: real, xu0: real, tolerance: real,
                            a: seq<Pass>, b: seq<Pass>)
    requires Trace(f, xl0, xu0, tolerance, a) && Trace(f, xl0, xu0, tolerance, b)
    requires 0 < |a|
    requires a[|a| - 1].xr != 0.0
    requires var bk := After(f, xl0, xu0, a);
      f(bk.xl) != f(bk.xu) && Estimate(f, bk.xl, bk.xu) == 0.0
    ensures |b| <= |a|
  {
    if |a| < |b| {
      TracePrefix(f, xl0, xu0, tolerance, a, b);
      NextEstimateNonzero(f, xl0, xu0, tolerance, b, |a|);
      assert false;
    }
  }

  /** No run that ends makes more passes than another run that ends. */
  lemma NoLongerRun(f: real -> real, xl0: real, xu0: real, tolerance: real, maxIterations: int,
                    o1: Outcome, o2: Outcome)
    requires Ends(f, xl0, xu0, tolerance, maxIterations, o1)
    requires Ends(f, xl0, xu0, tolerance, maxIterations, o2)
    requires !o1.Unbracketed? && !o2.Unbracketed?
    ensures |o2.rows| <= |o1.rows|
  {
    var r1, r2 := o1.rows, o2.rows;
    var n := |r1|;
    if n < |r2| {
      if o1.Raised? && o1.fault.ZeroDivision? {
        ZeroDivisionLongest(f, xl0, xu0, tolerance, r1, r2);
      } else if o1.Reported? && n < maxIterations {
        TraceUnique(f, xl0, xu0, tolerance, r1, r2, n - 1);
        assert false;
      } else {
        assert false;
      }
    }
  }

  /** A run has exactly one way to end: `Ends` determines the outcome. */
  lemma EndsUnique(f: real -> real, xl0: real, xu0: real, tolerance: real, maxIterations: int,
                   o1: Outcome, o2: Outcome)
    requires Ends(f, xl0, xu0, tolerance, maxIterations, o1)
    requires Ends(f, xl0, xu0, tolerance, maxIterations, o2)
    ensures o1 == o2
  {
    if !o1.Unbracketed? && !o2.Unbracketed? {
      NoLongerRun(f, xl0, xu0, tolerance, maxIterations, o1, o2);
      NoLongerRun(f, xl0, xu0, tolerance, maxIterations, o2, o1);
      TracePrefix(f, xl0, xu0, tolerance, o1.rows, o2.rows);
      assert o1.rows == o2.rows;
    }
  }
}
