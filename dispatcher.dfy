/** The retry/throttle policy shared by the two dispatch loops of the NextDNS engine.
    `Dispatch` is the reference definition of what a loop does with a list of units of work
    (batches or single items) when the remote answers with a given script of outcomes;
    the loops themselves are `TaskRunner.ProcessInBatches` and
    `RewriteService.ProcessElementWise`, each proved equal to it. */
module Dispatcher {
  import opened Outcomes

  /** Sleep after a rate-limited call, in milliseconds. */
  const CooldownMs: nat := 60000

  /** The sleep that follows a call; a fatal call is followed by none, since the loop throws. */
  datatype Pause = Throttle(ms: nat) | Cooldown(ms: nat) | NoPause

  /** One remote call: the position of its unit in the input, the unit, what the remote
      answered, and the sleep that followed. */
  datatype Step<U> = Step(index: nat, unit: U, outcome: Outcome, pause: Pause)

  /** How a loop ended: every unit went through, it threw on a fatal failure (carrying the
      failure's message), or the script of remote answers ran out while it was still retrying. */
  datatype Status = Completed | Aborted(msg: Option<string>) | ScriptExhausted

  datatype Report<U> = Report(steps: seq<Step<U>>, status: Status)

  function PauseAfter(o: Outcome, throttleMs: nat): Pause
  {
    if o.Ok? then Throttle(throttleMs)
    else if IsRateLimited(o) then Cooldown(CooldownMs)
    else NoPause
  }

  function Prepend<U>(s: Step<U>, r: Report<U>): Report<U>
  {
    Report([s] + r.steps, r.status)
  }

  function Append<U>(done: seq<Step<U>>, r: Report<U>): Report<U>
  {
    Report(done + r.steps, r.status)
  }

  /** The calls made for units[k..] when the remote answers the successive calls with
      `script`: a success moves on to the next unit, a rate-limited failure retries the same
      unit, any other failure stops everything. */
  function Dispatch<U>(units: seq<U>, k: nat, script: seq<Outcome>, throttleMs: nat): Report<U>
    requires k <= |units|
    decreases |script|
  {
    if k == |units| then Report([], Completed)
    else if script == [] then Report([], ScriptExhausted)
    else
      var o := script[0];
      var s := Step(k, units[k], o, PauseAfter(o, throttleMs));
      if o.Ok? then Prepend(s, Dispatch(units, k + 1, script[1..], throttleMs))
      else if IsRateLimited(o) then Prepend(s, Dispatch(units, k, script[1..], throttleMs))
      else Report([s], Aborted(o.msg))
  }

  /** One call of the loop, seen from the calls already made: the call for unit k consumes
      the next answer and either moves on, retries unit k, or ends the loop. */
  lemma DispatchCall<U>(done: seq<Step<U>>, units: seq<U>, k: nat, script: seq<Outcome>, t: nat)
    requires k < |units| && script != []
    ensures var o := script[0];
      var r := Append(done, Dispatch(units, k, script, t));
      (o.Ok? ==> r == Append(done + [Step(k, units[k], o, Throttle(t))], Dispatch(units, k + 1, script[1..], t))) &&
      (IsRateLimited(o) ==> r == Append(done + [Step(k, units[k], o, Cooldown(CooldownMs))], Dispatch(units, k, script[1..], t))) &&
      (IsFatal(o) ==> r == Report(done + [Step(k, units[k], o, NoPause)], Aborted(o.msg)))
  {
    var o := script[0];
    var s := Step(k, units[k], o, PauseAfter(o, t));
    if o.Ok? {
      var rest := Dispatch(units, k + 1, script[1..], t);
      assert done + ([s] + rest.steps) == done + [s] + rest.steps;
    } else if IsRateLimited(o) {
      var rest := Dispatch(units, k, script[1..], t);
      assert done + ([s] + rest.steps) == done + [s] + rest.steps;
    }
  }

  /** The units that went through, in the order of their successful calls. */
  function Delivered<U>(steps: seq<Step<U>>): seq<U>
  {
    if steps == [] then []
    else (if steps[0].outcome.Ok? then [steps[0].unit] else []) + Delivered(steps[1..])
  }

  function Throttles<U>(steps: seq<Step<U>>): nat
  {
    if steps == [] then 0 else (if steps[0].pause.Throttle? then 1 else 0) + Throttles(steps[1..])
  }

  function Cooldowns<U>(steps: seq<Step<U>>): nat
  {
    if steps == [] then 0 else (if steps[0].pause.Cooldown? then 1 else 0) + Cooldowns(steps[1..])
  }

  /** Every call consumes the next scripted answer, in order, and is followed by the pause
      that answer calls for: the throttle after a success, the cooldown after a rate limit. */
  lemma {:induction false} DispatchFollowsScript<U>(units: seq<U>, k: nat, script: seq<Outcome>, t: nat)
    requires k <= |units|
    ensures var r := Dispatch(units, k, script, t);
      |r.steps| <= |script| &&
      forall j :: 0 <= j < |r.steps| ==>
        r.steps[j].outcome == script[j] && r.steps[j].pause == PauseAfter(script[j], t)
    decreases |script|
  {
    if k < |units| && script != [] {
      var o := script[0];
      if o.Ok? {
        DispatchFollowsScript(units, k + 1, script[1..], t);
      } else if IsRateLimited(o) {
        DispatchFollowsScript(units, k, script[1..], t);
      }
    }
  }

  /** The calls go to units[k], units[k+1], ... in input order: the first call is for unit k,
      each call carries the unit at its index, a rate-limited call is followed by a call for
      the same unit, a success by a call for the next one, and only the last call can be fatal.
      So no unit is skipped and none is submitted after a fatal failure. */
  lemma {:induction false} DispatchRetriesInOrder<U>(units: seq<U>, k: nat, script: seq<Outcome>, t: nat)
    requires k <= |units|
    ensures var s := Dispatch(units, k, script, t).steps;
      (|s| > 0 ==> s[0].index == k) &&
      (forall j :: 0 <= j < |s| ==> k <= s[j].index < |units| && s[j].unit == units[s[j].index]) &&
      (forall j :: 0 <= j < |s| - 1 ==>
        !IsFatal(s[j].outcome) &&
        s[j + 1].index == if s[j].outcome.Ok? then s[j].index + 1 else s[j].index)
    decreases |script|
  {
    if k < |units| && script != [] {
      var o := script[0];
      if o.Ok? {
        DispatchRetriesInOrder(units, k + 1, script[1..], t);
      } else if IsRateLimited(o) {
        DispatchRetriesInOrder(units, k, script[1..], t);
      }
    }
  }

  /** How the loop ends is decided by its last call: it completes exactly when the last unit's
      call succeeded (or there was nothing to do), it aborts exactly when the last call failed
      fatally, carrying that failure's message, and otherwise the script ran out. */
  lemma {:induction false} DispatchStatus<U>(units: seq<U>, k: nat, script: seq<Outcome>, t: nat)
    requires k <= |units|
    ensures var r := Dispatch(units, k, script, t); var s := r.steps;
      (r.status == Completed <==>
        if s == [] then k == |units| else s[|s| - 1].outcome.Ok? && s[|s| - 1].index == |units| - 1) &&
      (r.status.Aborted? <==> s != [] && IsFatal(s[|s| - 1].outcome)) &&
      (r.status.Aborted? ==> r.status.msg == s[|s| - 1].outcome.msg) &&
      (r.status == ScriptExhausted ==> |s| == |script|)
    decreases |script|
  {
    if k < |units| && script != [] {
      var o := script[0];
      var r := Dispatch(units, k, script, t);
      if o.Ok? {
        DispatchStatus(units, k + 1, script[1..], t);
        var rest := Dispatch(units, k + 1, script[1..], t);
        assert rest.steps != [] ==> r.steps[|r.steps| - 1] == rest.steps[|rest.steps| - 1];
      } else if IsRateLimited(o) {
        DispatchStatus(units, k, script[1..], t);
        var rest := Dispatch(units, k, script[1..], t);
        assert rest.steps != [] ==> r.steps[|r.steps| - 1] == rest.steps[|rest.steps| - 1];
      }
    }
  }

  /** How many units went through: never more than units[k..] holds, all of them on
      completion, and on abort the fatal call was for the first one that did not. */
  lemma {:induction false} DeliveredCount<U>(units: seq<U>, k: nat, script: seq<Outcome>, t: nat)
    requires k <= |units|
    ensures var r := Dispatch(units, k, script, t); var n := |Delivered(r.steps)|;
      k + n <= |units| &&
      (r.status == Completed ==> k + n == |units|) &&
      (r.status.Aborted? ==> r.steps != [] && r.steps[|r.steps| - 1].index == k + n)
    decreases |script|
  {
    if k < |units| && script != [] {
      var o := script[0];
      var r := Dispatch(units, k, script, t);
      if o.Ok? {
        DeliveredCount(units, k + 1, script[1..], t);
        var rest := Dispatch(units, k + 1, script[1..], t);
        assert r.steps[1..] == rest.steps;
        assert rest.steps != [] ==> r.steps[|r.steps| - 1] == rest.steps[|rest.steps| - 1];
      } else if IsRateLimited(o) {
        DeliveredCount(units, k, script[1..], t);
        var rest := Dispatch(units, k, script[1..], t);
        assert r.steps[1..] == rest.steps;
        assert rest.steps != [] ==> r.steps[|r.steps| - 1] == rest.steps[|rest.steps| - 1];
      } else {
        assert r.steps[1..] == [];
      }
    }
  }

  /** The units that went through are the next |d| units after k, in order. */
  lemma {:induction false} DeliveredSlice<U>(units: seq<U>, k: nat, script: seq<Outcome>, t: nat)
    requires k <= |units|
    ensures var d := Delivered(Dispatch(units, k, script, t).steps);
      k + |d| <= |units| && d == units[k..k + |d|]
    decreases |script|
  {
    if k < |units| && script != [] {
      var o := script[0];
      var r := Dispatch(units, k, script, t);
      if o.Ok? {
        DeliveredSlice(units, k + 1, script[1..], t);
        var rest := Dispatch(units, k + 1, script[1..], t);
        var e := Delivered(rest.steps);
        assert r.steps[1..] == rest.steps;
        assert Delivered(r.steps) == [units[k]] + e;
        assert units[k..k + 1 + |e|] == [units[k]] + units[k + 1..k + 1 + |e|];
      } else if IsRateLimited(o) {
        DeliveredSlice(units, k, script[1..], t);
        var rest := Dispatch(units, k, script[1..], t);
        assert r.steps[1..] == rest.steps;
        assert Delivered(r.steps) == Delivered(rest.steps);
      } else {
        assert r.steps[1..] == [];
        assert Delivered(r.steps) == [];
      }
    } else {
      assert Dispatch(units, k, script, t).steps == [];
    }
  }

  /** The i-th unit that went through is units[k + i]. */
  lemma DeliveredInOrder<U>(units: seq<U>, k: nat, script: seq<Outcome>, t: nat)
    requires k <= |units|
    ensures forall i :: 0 <= i < |Delivered(Dispatch(units, k, script, t).steps)| ==>
      k + i < |units| && Delivered(Dispatch(units, k, script, t).steps)[i] == units[k + i]
  {
    DeliveredSlice(units, k, script, t);
  }

  /** The delivered units are exactly units[k..k+d], in order and each once; on completion
      that is all of units[k..]; on abort the fatal call was for the first undelivered unit. */
  lemma DispatchDelivers<U>(units: seq<U>, k: nat, script: seq<Outcome>, t: nat)
    requires k <= |units|
    ensures var r := Dispatch(units, k, script, t); var d := Delivered(r.steps);
      k + |d| <= |units| && d == units[k..k + |d|] &&
      (r.status == Completed ==> d == units[k..]) &&
      (r.status.Aborted? ==> r.steps != [] && r.steps[|r.steps| - 1].index == k + |d|)
  {
    DeliveredCount(units, k, script, t);
    DeliveredSlice(units, k, script, t);
  }

  /** Exactly one throttle per successful call and one cooldown per rate-limited call: every
      call but a final fatal one is followed by one of the two pauses. */
  lemma {:induction false} DispatchPauseCounts<U>(units: seq<U>, k: nat, script: seq<Outcome>, t: nat)
    requires k <= |units|
    ensures var r := Dispatch(units, k, script, t);
      Throttles(r.steps) == |Delivered(r.steps)| &&
      Throttles(r.steps) + Cooldowns(r.steps) + (if r.status.Aborted? then 1 else 0) == |r.steps|
    decreases |script|
  {
    if k < |units| && script != [] {
      var o := script[0];
      var r := Dispatch(units, k, script, t);
      if o.Ok? {
        DispatchPauseCounts(units, k + 1, script[1..], t);
        assert r.steps[1..] == Dispatch(units, k + 1, script[1..], t).steps;
      } else if IsRateLimited(o) {
        DispatchPauseCounts(units, k, script[1..], t);
        assert r.steps[1..] == Dispatch(units, k, script[1..], t).steps;
      } else {
        assert r.steps[1..] == [];
      }
    }
  }

  /** `n` rate-limited answers with message `msg`. */
  function RateLimitedAnswers(n: nat, msg: string): (s: seq<Outcome>)
  {
    if n == 0 then [] else [Fail(Some(msg))] + RateLimitedAnswers(n - 1, msg)
  }

  /** A call that is rate-limited `n` times and then succeeds: the unit is never abandoned,
      the loop sleeps the cooldown exactly `n` times, and it reports success. */
  lemma {:induction false} RetryUntilSuccess<U>(units: seq<U>, k: nat, n: nat, msg: string, t: nat)
    requires k == |units| - 1
    requires Contains(msg, RateLimitCode)
    ensures var r := Dispatch(units, k, RateLimitedAnswers(n, msg) + [Ok], t);
      r.status == Completed && |r.steps| == n + 1 && Cooldowns(r.steps) == n &&
      Delivered(r.steps) == [units[k]]
    decreases n
  {
    var script := RateLimitedAnswers(n, msg) + [Ok];
    var r := Dispatch(units, k, script, t);
    if n == 0 {
      assert script == [Ok] && script[1..] == [];
      assert Dispatch(units, k + 1, script[1..], t).steps == [];
    } else {
      RetryUntilSuccess(units, k, n - 1, msg, t);
      assert script[1..] == RateLimitedAnswers(n - 1, msg) + [Ok];
      assert r.steps[1..] == Dispatch(units, k, script[1..], t).steps;
    }
  }
}
