/** The `false_position` of working.py: the console variant.  Its error is
    a fraction, any previous estimate counts (including 0), the sign product
    is computed once per pass, the previous estimate is updated before the
    stopping test, and the run ends with a summary of the last estimate, the
    last error and the bracket left after the last update. */
module Working {
  import opened Bracketing

  /** The final summary: approximate root, its error, and the final interval. */
  datatype Summary = Summary(root: real, error: Option<real>, xl: real, xu: real)

  datatype Outcome =
    | Unbracketed                                 // entry test failed: no pass ran
    | Raised(fault: Fault, rows: seq<Pass>)       // a Python exception after the passes in rows
    | Reported(rows: seq<Pass>, summary: Summary)

  /** The error of one pass, given the previous estimate: undefined on the
      first pass, and otherwise the relative change as a fraction. */
  predicate ErrorFollows(previous: Option<real>, p: Pass)
  {
    if previous.Some? then
      p.xr != 0.0 && p.error == Some(RelativeChange(p.xr, previous.value))
    else
      p.error == None
  }

  // ErrorColumn, Trace and Running have the same shape in both variant
  // modules on purpose: each is stated over its own module's ErrorFollows,
  // so each error rule stays next to the loop that applies it.
  ghost predicate ErrorColumn(rows: seq<Pass>)
  {
    forall i :: 0 <= i < |rows| ==> ErrorFollows(PreviousOf(rows, i), rows[i])
  }

  lemma ErrorColumnExtend(rows: seq<Pass>, p: Pass)
    requires ErrorColumn(rows)
    requires ErrorFollows(PreviousOf(rows, |rows|), p)
    ensures ErrorColumn(rows + [p])
  {
    var r := rows + [p];
    forall i | 0 <= i < |r|
      ensures ErrorFollows(PreviousOf(r, i), r[i])
    {
      if i < |rows| {
        assert r[i] == rows[i];
        assert i > 0 ==> r[i - 1] == rows[i - 1];
        assert PreviousOf(r, i) == PreviousOf(rows, i);
      } else {
        assert i > 0 ==> r[i - 1] == rows[|rows| - 1];
        assert PreviousOf(r, i) == PreviousOf(rows, |rows|);
      }
    }
  }

  /** The passes a run from [xl0, xu0] makes, none but possibly the last one
      meeting the stopping test. */
  ghost predicate Trace(f: real -> real, xl0: real, xu0: real, tolerance: real, rows: seq<Pass>)
  {
    && BoundsChain(f, xl0, xu0, rows)
    && ErrorColumn(rows)
    && (forall i :: 0 <= i < |rows| - 1 ==> !Stops(rows[i].error, tolerance))
  }

  /** The state at the head of the loop: the passes so far form a trace that
      has not stopped, the bounds are the bracket they left, and the previous
      estimate is the last one computed. */
  ghost predicate Running(f: real -> real, xl0: real, xu0: real, tolerance: real,
                          rows: seq<Pass>, xl: real, xu: real, previous: Option<real>)
  {
    && Brackets(f, xl0, xu0)
    && Trace(f, xl0, xu0, tolerance, rows)
    && (forall i :: 0 <= i < |rows| ==> !Stops(rows[i].error, tolerance))
    && Bracket(xl, xu) == After(f, xl0, xu0, rows)
    && previous == PreviousOf(rows, |rows|)
  }

  lemma RunningSigns(f: real -> real, xl0: real, xu0: real, tolerance: real,
                     rows: seq<Pass>, xl: real, xu: real, previous: Option<real>)
    requires Running(f, xl0, xu0, tolerance, rows, xl, xu, previous)
    ensures SignInvariant(f, xl, xu)
  {
    ChainKeepsSignInvariant(f, xl0, xu0, rows);
  }

  /** How a run from [xl0, xu0] ends.  Unbracketed exactly when the entry
      test fails.  Otherwise the passes made form a trace in which none
      before the last met the stopping test, and:
      - UnboundEstimate: the cap allowed no pass;
      - ZeroDivision: no pass met the test, the cap allowed another, and that
        next pass's estimate is exactly 0;
      - Reported: between one pass and the cap; fewer than the cap only when
        the last pass met the test; the summary holds the last estimate, the
        last error and the bracket after the last update. */
  ghost predicate Ends(f: real -> real, xl0: real, xu0: real, tolerance: real, maxIterations: int,
                       out: Outcome)
  {
    match out
    case Unbracketed => !Brackets(f, xl0, xu0)
    case Raised(fault, rows) =>
      && Brackets(f, xl0, xu0)
      && Trace(f, xl0, xu0, tolerance, rows)
      && (forall i :: 0 <= i < |rows| ==> !Stops(rows[i].error, tolerance))
      && (match fault
          case UnboundEstimate => maxIterations < 1 && rows == []
          case ZeroDivision =>
            && 0 < |rows| < maxIterations
            && var b := After(f, xl0, xu0, rows);
               f(b.xl) != f(b.xu) && Estimate(f, b.xl, b.xu) == 0.0)
    case Reported(rows, summary) =>
      && Brackets(f, xl0, xu0)
      && Trace(f, xl0, xu0, tolerance, rows)
      && 1 <= |rows| <= maxIterations
      && (|rows| < maxIterations ==> Stops(rows[|rows| - 1].error, tolerance))
      && summary.root == rows[|rows| - 1].xr
      && summary.error == rows[|rows| - 1].error
      && Bracket(summary.xl, summary.xu) == After(f, xl0, xu0, rows)
  }

  /** One pass extends the trace.  If it meets the stopping test the run
      ends reporting it; otherwise the loop goes on from the updated bracket
      with this pass's estimate as the previous one. */
  lemma Advance(f: real -> real, xl0: real, xu0: real, tolerance: real, maxIterations: int,
                rows: seq<Pass>, xl: real, xu: real, previous: Option<real>, p: Pass)
    requires Running(f, xl0, xu0, tolerance, rows, xl, xu, previous)
    requires |rows| < maxIterations
    requires f(xl) != f(xu)
    requires p.xl == xl && p.xu == xu && p.xr == Estimate(f, xl, xu)
    requires ErrorFollows(previous, p)
    ensures var b := Update(f, xl, xu, p.xr);
      Stops(p.error, tolerance) ==>
      Ends(f, xl0, xu0, tolerance, maxIterations,
           Reported(rows + [p], Summary(p.xr, p.error, b.xl, b.xu)))
    ensures !Stops(p.error, tolerance) ==>
      var b := Update(f, xl, xu, p.xr);
      Running(f, xl0, xu0, tolerance, rows + [p], b.xl, b.xu, Some(p.xr))
  {
    ChainExtend(f, xl0, xu0, rows, p);
    ErrorColumnExtend(rows, p);
    var r := rows + [p];
    assert forall i :: 0 <= i < |rows| ==> r[i] == rows[i];
  }

  /** The loop ran out of passes without meeting the stopping test. */
  lemma Exhausted(f: real -> real, xl0: real, xu0: real, tolerance: real, maxIterations: int,
                  rows: seq<Pass>, xl: real, xu: real, previous: Option<real>)
    requires Running(f, xl0, xu0, tolerance, rows, xl, xu, previous)
    requires 1 <= |rows| == maxIterations
    ensures Ends(f, xl0, xu0, tolerance, maxIterations,
                 Reported(rows, Summary(rows[|rows| - 1].xr, rows[|rows| - 1].error, xl, xu)))
  {
  }

  /** The next estimate is 0 after a first pass: the error divides by zero. */
  lemma ZeroEstimate(f: real -> real, xl0: real, xu0: real, tolerance: real, maxIterations: int,
                     rows: seq<Pass>, xl: real, xu: real, previous: Option<real>)
    requires Running(f, xl0, xu0, tolerance, rows, xl, xu, previous)
    requires |rows| < maxIterations
    requires previous.Some?
    requires f(xl) != f(xu) && Estimate(f, xl, xu) == 0.0
    ensures Ends(f, xl0, xu0, tolerance, maxIterations, Raised(ZeroDivision, rows))
  {
  }

  method FalsePosition(f: real -> real, xl0: real, xu0: real, tolerance: real, maxIterations: int)
    returns (out: Outcome)
    ensures Ends(f, xl0, xu0, tolerance, maxIterations, out)
  {
    if !Brackets(f, xl0, xu0) {
      return Unbracketed;
    }
    var xl, xu := xl0, xu0;
    var previous: Option<real> := None;
    var rows: seq<Pass> := [];
    var iteration := 1;
    ghost var stopped := false;
    while iteration <= maxIterations
      invariant 1 <= iteration && |rows| == iteration - 1
      invariant rows != [] ==> iteration <= maxIterations + 1
      invariant Running(f, xl0, xu0, tolerance, rows, xl, xu, previous)
      invariant !stopped
      decreases maxIterations - iteration
    {
      RunningSigns(f, xl0, xu0, tolerance, rows, xl, xu, previous);
      var xr := Estimate(f, xl, xu);
      var error: Option<real>;
      if previous.Some? {
        if xr == 0.0 {
          ZeroEstimate(f, xl0, xu0, tolerance, maxIterations, rows, xl, xu, previous);
          return Raised(ZeroDivision, rows);
        }
        error := Some(RelativeChange(xr, previous.value));
      } else {
        error := None;
      }
      var product := SignProduct(f, xl, xr);
      var pass := Pass(xl, xu, xr, error);
      Advance(f, xl0, xu0, tolerance, maxIterations, rows, xl, xu, previous, pass);
      rows := rows + [pass];
      if product < 0.0 {
        xu := xr;
      } else {
        xl := xr;
      }
      previous := Some(xr);
      if error.Some? && error.value < tolerance {
        stopped := true;
        break;
      }
      iteration := iteration + 1;
    }
    if rows == [] {
      return Raised(UnboundEstimate, []);
    }
    if !stopped {
      Exhausted(f, xl0, xu0, tolerance, maxIterations, rows, xl, xu, previous);
    }
    return Reported(rows, Summary(rows[|rows| - 1].xr, rows[|rows| - 1].error, xl, xu));
  }

  /** The error column: undefined exactly on the first pass, otherwise
      nonnegative.  So the loop never leaves on the first pass. */
  lemma ErrorDefinedness(rows: seq<Pass>, tolerance: real)
    requires ErrorColumn(rows)
    ensures forall i :: 0 <= i < |rows| ==>
      (rows[i].error == None <==> i == 0) &&
      (rows[i].error.Some? ==> rows[i].error.value >= 0.0)
    ensures |rows| > 0 && Stops(rows[|rows| - 1].error, tolerance) ==> |rows| >= 2
  {
    forall i | 0 <= i < |rows|
      ensures rows[i].error == None <==> i == 0
    {
      assert ErrorFollows(PreviousOf(rows, i), rows[i]);
    }
  }

  /** What a reported run promises: every estimate inside the bracket it
      came from, the sign invariant before every pass and in the final
      interval, a final interval inside every pass's bracket, an error that
      is undefined only on the first pass, and no early exit on the first
      pass. */
  lemma ReportedFacts(f: real -> real, xl0: real, xu0: real, tolerance: real, maxIterations: int,
                      out: Outcome)
    requires Ends(f, xl0, xu0, tolerance, maxIterations, out) && out.Reported?
    ensures forall i :: 0 <= i < |out.rows| ==>
      SignInvariant(f, out.rows[i].xl, out.rows[i].xu) &&
      Between(out.rows[i].xr, out.rows[i].xl, out.rows[i].xu) &&
      Within(Bracket(out.summary.xl, out.summary.xu), BracketOf(out.rows[i]))
    ensures SignInvariant(f, out.summary.xl, out.summary.xu)
    ensures Within(Bracket(out.summary.xl, out.summary.xu), Bracket(xl0, xu0))
    ensures Between(out.summary.root, xl0, xu0)
    ensures out.summary.error == None <==> |out.rows| == 1
    ensures out.summary.error.Some? ==> out.summary.error.value >= 0.0
    ensures |out.rows| < maxIterations ==> |out.rows| >= 2
  {
    ChainKeepsSignInvariant(f, xl0, xu0, out.rows);
    ChainNested(f, xl0, xu0, out.rows);
    ErrorDefinedness(out.rows, tolerance);
  }

  /** The passes are determined by the inputs: two traces from the same
      bracket agree on every pass both make, error included. */
  lemma TraceUnique(f: real -> real, xl0: real, xu0: real, tolerance: real,
                    a: seq<Pass>, b: seq<Pass>, i: nat)
    requires Trace(f, xl0, xu0, tolerance, a) && Trace(f, xl0, xu0, tolerance, b)
    requires i < |a| && i < |b|
    ensures a[i] == b[i]
  {
    ChainUnique(f, xl0, xu0, a, b, i);
    if i > 0 {
      ChainUnique(f, xl0, xu0, a, b, i - 1);
    }
    assert ErrorFollows(PreviousOf(a, i), a[i]);
    assert ErrorFollows(PreviousOf(b, i), b[i]);
  }

  /** Once a pass has run, the estimate of the pass after it is not 0: its
      error divides by it. */
  lemma NextEstimateNonzero(f: real -> real, xl0: real, xu0: real, tolerance: real,
                            rows: seq<Pass>, n: nat)
    requires Trace(f, xl0, xu0, tolerance, rows)
    requires 0 < n < |rows|
    ensures var b := After(f, xl0, xu0, rows[..n]);
      f(b.xl) != f(b.xu) && Estimate(f, b.xl, b.xu) != 0.0
  {
    ChainPrefix(f, xl0, xu0, rows, n);
    assert ErrorFollows(PreviousOf(rows, n), rows[n]);
  }

  /** A shorter trace from the same bracket is a prefix of a longer one. */
  lemma TracePrefix(f: real -> real, xl0: real, xu0: real, tolerance: real, a: seq<Pass>, b: seq<Pass>)
    requires Trace(f, xl0, xu0, tolerance, a) && Trace(f, xl0, xu0, tolerance, b)
    requires |a| <= |b|
    ensures b[..|a|] == a
  {
    forall i | 0 <= i < |a|
      ensures a[i] == b[i]
    {
      TraceUnique(f, xl0, xu0, tolerance, a, b, i);
    }
  }

  /** A trace whose next estimate would raise ZeroDivision cannot be extended:
      every trace from the same bracket is at most as long. */
  lemma ZeroDivisionLongest(f: real -> real, xl0: real, xu0: real, tolerance: real,
                            a: seq<Pass>, b: seq<Pass>)
    requires Trace(f, xl0, xu0, tolerance, a) && Trace(f, xl0, xu0, tolerance, b)
    requires 0 < |a|
    requires var bk := After(f, xl0, xu0, a);
      f(bk.xl) != f(bk.xu) && Estimate(f, bk.xl, bk.xu) == 0.0
    ensures |b| <= |a|
  {
    if |a| < |b| {
      TracePrefix(f, xl0, xu0, tolerance, a, b);
      NextEstimateNonzero(f, xl0, xu0, tolerance, b, |a|);
      assert false;
    }
  }

  /** No run that ends makes more passes than another run that ends. */
  lemma NoLongerRun(f: real -> real, xl0: real, xu0: real, tolerance: real, maxIterations: int,
                    o1: Outcome, o2: Outcome)
    requires Ends(f, xl0, xu0, tolerance, maxIterations, o1)
    requires Ends(f, xl0, xu0, tolerance, maxIterations, o2)
    requires !o1.Unbracketed? && !o2.Unbracketed?
    ensures |o2.rows| <= |o1.rows|
  {
    var r1, r2 := o1.rows, o2.rows;
    var n := |r1|;
    if n < |r2| {
      if o1.Raised? && o1.fault.ZeroDivision? {
        ZeroDivisionLongest(f, xl0, xu0, tolerance, r1, r2);
      } else if o1.Reported? && n < maxIterations {
        TraceUnique(f, xl0, xu0, tolerance, r1, r2, n - 1);
        assert false;
      } else {
        assert false;
      }
    }
  }

  /** A run has exactly one way to end: `Ends` determines the outcome. */
  lemma EndsUnique(f: real -> real, xl0: real, xu0: real, tolerance: real, maxIterations: int,
                   o1: Outcome, o2: Outcome)
    requires Ends(f, xl0, xu0, tolerance, maxIterations, o1)
    requires Ends(f, xl0, xu0, tolerance, maxIterations, o2)
    ensures o1 == o2
  {
    if !o1.Unbracketed? && !o2.Unbracketed? {
      NoLongerRun(f, xl0, xu0, tolerance, maxIterations, o1, o2);
      NoLongerRun(f, xl0, xu0, tolerance, maxIterations, o2, o1);
      TracePrefix(f, xl0, xu0, tolerance, o1.rows, o2.rows);
      assert o1.rows == o2.rows;
    }
  }
}
