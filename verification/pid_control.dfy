/** The PID controller with its clamped integral, and what the clamp gives over whole runs. */
module PidControl {

  datatype PidTerms = PidTerms(max: real, min: real, pTerm: real, iTerm: real, dTerm: real, iMax: real)

  /** The two clamps in the order the controller applies them. */
  function ClampIntegral(iMax: real, x: real): (r: real)
    ensures 0.0 <= iMax ==> -iMax <= r <= iMax
    ensures -iMax <= x <= iMax ==> r == x
    ensures 0.0 <= iMax < x ==> r == iMax
    ensures x < -iMax <= 0.0 ==> r == -iMax
  {
    var upper := if x > iMax then iMax else x;
    if upper < -iMax then -iMax else upper
  }

  /** The integral after a run of errors. */
  function Integral(iMax: real, start: real, errors: seq<real>): real {
    if errors == [] then start
    else ClampIntegral(iMax, Integral(iMax, start, errors[..|errors| - 1]) + errors[|errors| - 1])
  }

  function Limited(terms: PidTerms, x: real): (r: real)
    ensures terms.min <= terms.max ==> terms.min <= r <= terms.max
    ensures terms.min <= x <= terms.max ==> r == x
    ensures terms.max < x ==> r == terms.max
    ensures x < terms.min <= terms.max ==> r == terms.min
  {
    if x > terms.max then terms.max else if x < terms.min then terms.min else x
  }

  /** The sum of the three terms, before it is limited. */
  function Unlimited(terms: PidTerms, integral: real, error: real, previous: real): real {
    terms.pTerm * error + terms.iTerm * integral + terms.dTerm * (error - previous)
  }

  /** Each gain acts on its own quantity and in its own direction: with the other gains at
      zero the output is the gain times the error, the integral, or the error's increase. */
  lemma UnlimitedTerms(terms: PidTerms, integral: real, error: real, previous: real)
    ensures terms.iTerm == terms.dTerm == 0.0 ==> Unlimited(terms, integral, error, previous) == terms.pTerm * error
    ensures terms.pTerm == terms.dTerm == 0.0 ==> Unlimited(terms, integral, error, previous) == terms.iTerm * integral
    ensures terms.pTerm == terms.iTerm == 0.0 ==>
      Unlimited(terms, integral, error, previous) == terms.dTerm * (error - previous)
    ensures Unlimited(terms, integral, error, error) - Unlimited(terms, 0.0, error, error) == terms.iTerm * integral
  {}

  class PidState {
    var integral: real
    var preError: real
    var setpoint: real
    ghost var errors: seq<real>   // the errors of the calls so far

    /** The integral is that of a run from zero with this iMax, as it is when every call so
        far had this iMax; the other terms may vary from call to call. */
    ghost predicate Tracks(iMax: real)
      reads this
    {
      integral == Integral(iMax, 0.0, errors)
    }

    constructor (setpoint: real)
      ensures integral == 0.0 && preError == 0.0 && this.setpoint == setpoint && errors == []
      ensures forall iMax :: Tracks(iMax)
    {
      integral, preError := 0.0, 0.0;
      this.setpoint := setpoint;
      errors := [];
    }
  }

  method PidController(terms: PidTerms, state: PidState, position: real) returns (output: real)
    modifies state
    ensures state.setpoint == old(state.setpoint)
    ensures state.preError == position - state.setpoint
    ensures state.errors == old(state.errors) + [state.preError]
    ensures state.integral == ClampIntegral(terms.iMax, old(state.integral) + state.preError)
    ensures old(state.Tracks(terms.iMax)) ==> state.Tracks(terms.iMax)
    ensures output == Limited(terms, Unlimited(terms, state.integral, state.preError, old(state.preError)))
    ensures terms.min <= terms.max ==> terms.min <= output <= terms.max
  {
    var error := position - state.setpoint;
    var pOut := terms.pTerm * error;

    state.integral := state.integral + error;
    if state.integral > terms.iMax {
      state.integral := terms.iMax;
    }
    if state.integral < -terms.iMax {
      state.integral := -terms.iMax;
    }
    var iOut := terms.iTerm * state.integral;

    var derivative := error - state.preError;
    var dOut := terms.dTerm * derivative;

    output := pOut + iOut + dOut;
    assert output == Unlimited(terms, state.integral, error, state.preError);
    if output > terms.max {
      output := terms.max;
    } else {
      if output < terms.min {
        output := terms.min;
      }
    }
    state.preError := error;
    state.errors := state.errors + [error];
    assert state.errors[..|state.errors| - 1] == old(state.errors);
  }

  // ---------- runs ----------

  lemma {:induction false} IntegralBounded(iMax: real, start: real, errors: seq<real>)
    requires 0.0 <= iMax && -iMax <= start <= iMax
    ensures -iMax <= Integral(iMax, start, errors) <= iMax
  {
    if errors != [] {
      IntegralBounded(iMax, start, errors[..|errors| - 1]);
    }
  }

  /** Pointwise ordered errors keep ordered integrals. */
  lemma {:induction false} IntegralMonotone(iMax: real, a: real, b: real, low: seq<real>, high: seq<real>)
    requires 0.0 <= iMax && a <= b && |low| == |high|
    requires forall i :: 0 <= i < |low| ==> low[i] <= high[i]
    ensures Integral(iMax, a, low) <= Integral(iMax, b, high)
  {
    if low != [] {
      var n := |low| - 1;
      IntegralMonotone(iMax, a, b, low[..n], high[..n]);
    }
  }

  /** Under equal errors the gap between two integrals never widens and keeps its sign. */
  lemma {:induction false} IntegralGap(iMax: real, a: real, b: real, errors: seq<real>)
    requires 0.0 <= iMax && a <= b
    ensures 0.0 <= Integral(iMax, b, errors) - Integral(iMax, a, errors) <= b - a
  {
    if errors != [] {
      IntegralGap(iMax, a, b, errors[..|errors| - 1]);
    }
  }

  lemma OneMore(e: real, n: nat)
    ensures e * (n + 1) as real == e * n as real + e
  {}

  lemma {:induction false} IntegralFalls(iMax: real, start: real, errors: seq<real>, e: real)
    requires 0.0 < e && 0.0 <= iMax && -iMax <= start <= iMax
    requires forall i :: 0 <= i < |errors| ==> errors[i] <= -e
    ensures Integral(iMax, start, errors) == -iMax
         || Integral(iMax, start, errors) <= start - e * |errors| as real
  {
    if errors != [] {
      var n := |errors| - 1;
      IntegralFalls(iMax, start, errors[..n], e);
      IntegralBounded(iMax, start, errors[..n]);
      OneMore(e, n);
    }
  }

  /** Windup is unwound in bounded time: from anywhere in its range, once errors have been
      at most -e for n steps with n * e >= 2 * iMax, the integral sits at -iMax. */
  lemma Unwinds(iMax: real, start: real, errors: seq<real>, e: real)
    requires 0.0 < e && 0.0 <= iMax && -iMax <= start <= iMax
    requires forall i :: 0 <= i < |errors| ==> errors[i] <= -e
    requires e * |errors| as real >= 2.0 * iMax
    ensures Integral(iMax, start, errors) == -iMax
  {
    IntegralFalls(iMax, start, errors, e);
    IntegralBounded(iMax, start, errors);
  }

  lemma {:induction false} IntegralAppend(iMax: real, start: real, a: seq<real>, b: seq<real>)
    ensures Integral(iMax, start, a + b) == Integral(iMax, Integral(iMax, start, a), b)
  {
    if b == [] {
      assert a + b == a;
    } else {
      var n := |b| - 1;
      IntegralAppend(iMax, start, a, b[..n]);
      assert (a + b)[..|a + b| - 1] == a + b[..n];
    }
  }

  /** The same two facts about a controller, after any run of calls with one iMax: its
      integral is in range, and is back at -iMax once the newest errors were low for long
      enough, whatever came before. */
  lemma ControllerUnwinds(state: PidState, iMax: real, before: seq<real>, low: seq<real>, e: real)
    requires 0.0 < e && 0.0 <= iMax && state.Tracks(iMax) && state.errors == before + low
    requires forall i :: 0 <= i < |low| ==> low[i] <= -e
    ensures -iMax <= state.integral <= iMax
    ensures e * |low| as real >= 2.0 * iMax ==> state.integral == -iMax
  {
    IntegralAppend(iMax, 0.0, before, low);
    IntegralBounded(iMax, 0.0, before);
    IntegralBounded(iMax, Integral(iMax, 0.0, before), low);
    if e * |low| as real >= 2.0 * iMax {
      Unwinds(iMax, Integral(iMax, 0.0, before), low, e);
    }
  }
}
