/**
  The sequencer `sequence()`: steps registered with `chain` run one after another,
  each started only when the previous one calls `resolve` or `reject` on its
  controller. Every controller carries a snapshot `{value, error}` of the latest
  resolved value and the latest rejection.

  A step is modelled by what it does with its controller: it resolves with a value,
  rejects with an error, or calls neither.
 */
module Sequence {
  import opened JsValue

  /** The `response` snapshot a step's controller carries. */
  datatype Response = Response(value: Value, error: Value)

  /** What a step does with its controller. */
  datatype Outcome = Resolve(v: Value) | Reject(e: Value) | Stall

  type Step = Response -> Outcome

  /** The registered steps and the latest resolved value and rejection. */
  datatype Sequencer = Sequencer(chained: seq<Step>, value: Value, error: Value)

  /** One step invocation: which step ran and the snapshot it received. */
  datatype Call = Call(step: nat, response: Response)

  /** What the top-level `execute` call returns. */
  datatype Returned = ReturnedTrue | ReturnedUndefined | Threw

  /** The invocations a run makes and the state it leaves behind. */
  datatype Run = Run(calls: seq<Call>, value: Value, error: Value)

  datatype Execution = Execution(calls: seq<Call>, after: Sequencer, returned: Returned)

  /** A fresh sequencer: no steps, value and error `undefined`. */
  function NewSequencer(): (r: Sequencer)
    ensures |r.chained| == 0 && r.value == Undefined && r.error == Undefined
  {
    Sequencer([], Undefined, Undefined)
  }

  /** `chain(func)`: appends the step and returns the sequencer itself. */
  function Chain(sq: Sequencer, f: Step): (r: Sequencer)
    ensures |r.chained| == |sq.chained| + 1 && r.chained[|sq.chained|] == f
    ensures forall i :: 0 <= i < |sq.chained| ==> r.chained[i] == sq.chained[i]
    ensures r.value == sq.value && r.error == sq.error
  {
    sq.(chained := sq.chained + [f])
  }

  /** The snapshot after a step's outcome: `resolve` sets `value` only, `reject` sets `error` only. */
  function Advance(resp: Response, o: Outcome): Response {
    match o
    case Resolve(v) => resp.(value := v)
    case Reject(e) => resp.(error := e)
    case Stall => resp
  }

  /**
    `execute(i)` for an index within the steps, with the current value and error:
    step `i` is called with the snapshot; a `resolve` or `reject` records its argument
    and runs step `i + 1`; a step that calls neither ends the run.
   */
  function RunFrom(steps: seq<Step>, i: nat, value: Value, error: Value): (r: Run)
    ensures i >= |steps| ==> r.calls == [] && r.value == value && r.error == error
    ensures i < |steps| ==> 0 < |r.calls| <= |steps| - i
    ensures forall k :: 0 <= k < |r.calls| ==> r.calls[k].step == i + k
    decreases |steps| - i
  {
    if i >= |steps| then Run([], value, error)
    else
      var resp := Response(value, error);
      var o := steps[i](resp);
      if o.Stall? then Run([Call(i, resp)], value, error)
      else
        var next := Advance(resp, o);
        var rest := RunFrom(steps, i + 1, next.value, next.error);
        Run([Call(i, resp)] + rest.calls, rest.value, rest.error)
  }

  /** The outcome a recorded call produced. */
  function OutcomeOf(steps: seq<Step>, c: Call): Outcome
    requires c.step < |steps|
  {
    steps[c.step](c.response)
  }

  /** A step that resolves or rejects is followed by the run from the next step, on the advanced snapshot. */
  lemma RunCons(steps: seq<Step>, i: nat, value: Value, error: Value)
    requires i < |steps| && !steps[i](Response(value, error)).Stall?
    ensures var next := Advance(Response(value, error), steps[i](Response(value, error)));
      RunFrom(steps, i, value, error).calls
      == [Call(i, Response(value, error))] + RunFrom(steps, i + 1, next.value, next.error).calls
  {
  }

  /**
    A run stops at the first step that calls neither `resolve` nor `reject`, or after the
    last step: every call but the last advanced, and the last one either stalled or was
    the last step.
   */
  lemma {:induction false} RunStops(steps: seq<Step>, i: nat, value: Value, error: Value)
    requires i < |steps|
    ensures var cs := RunFrom(steps, i, value, error).calls;
      && (forall k :: 0 <= k < |cs| - 1 ==> !OutcomeOf(steps, cs[k]).Stall?)
      && (OutcomeOf(steps, cs[|cs| - 1]).Stall? || i + |cs| == |steps|)
    decreases |steps| - i
  {
    var resp := Response(value, error);
    var o := steps[i](resp);
    if !o.Stall? && i + 1 < |steps| {
      var next := Advance(resp, o);
      var cs := RunFrom(steps, i, value, error).calls;
      var rest := RunFrom(steps, i + 1, next.value, next.error).calls;
      RunStops(steps, i + 1, next.value, next.error);
      RunCons(steps, i, value, error);
      assert forall k :: 1 <= k < |cs| ==> cs[k] == rest[k - 1];
    }
  }

  /**
    The snapshots: the first call sees the value and error the run started with, and each
    later call sees the previous snapshot advanced by the previous call's outcome.
   */
  lemma {:induction false} RunSnapshots(steps: seq<Step>, i: nat, value: Value, error: Value)
    requires i < |steps|
    ensures var cs := RunFrom(steps, i, value, error).calls;
      && cs[0].response == Response(value, error)
      && forall k :: 0 < k < |cs| ==> cs[k].response == Advance(cs[k - 1].response, OutcomeOf(steps, cs[k - 1]))
    decreases |steps| - i
  {
    var resp := Response(value, error);
    var o := steps[i](resp);
    if !o.Stall? && i + 1 < |steps| {
      var next := Advance(resp, o);
      var cs := RunFrom(steps, i, value, error).calls;
      var rest := RunFrom(steps, i + 1, next.value, next.error).calls;
      RunSnapshots(steps, i + 1, next.value, next.error);
      RunCons(steps, i, value, error);
      assert forall k :: 1 <= k < |cs| ==> cs[k] == rest[k - 1];
    }
  }

  /** The argument of the latest `resolve` among `os`, or `init` when there is none. */
  function LatestResolve(os: seq<Outcome>, init: Value): Value {
    if |os| == 0 then init
    else if os[|os| - 1].Resolve? then os[|os| - 1].v
    else LatestResolve(os[..|os| - 1], init)
  }

  /** The argument of the latest `reject` among `os`, or `init` when there is none. */
  function LatestReject(os: seq<Outcome>, init: Value): Value {
    if |os| == 0 then init
    else if os[|os| - 1].Reject? then os[|os| - 1].e
    else LatestReject(os[..|os| - 1], init)
  }

  /** The outcomes of the first `k` recorded calls. */
  function Outcomes(steps: seq<Step>, cs: seq<Call>, k: nat): (r: seq<Outcome>)
    requires k <= |cs| && forall j :: 0 <= j < |cs| ==> cs[j].step < |steps|
    ensures |r| == k
    ensures forall j :: 0 <= j < k ==> r[j] == OutcomeOf(steps, cs[j])
  {
    seq(k, j requires 0 <= j < k => OutcomeOf(steps, cs[j]))
  }

  /**
    The snapshot a step receives holds the argument of the latest earlier `resolve` as
    `value` and of the latest earlier `reject` as `error`, each starting from what the
    run began with: `resolve` never clears `error` and `reject` never clears `value`.
   */
  lemma {:induction false} SnapshotIsLatest(steps: seq<Step>, i: nat, value: Value, error: Value, k: nat)
    requires i < |steps|
    requires k < |RunFrom(steps, i, value, error).calls|
    ensures var cs := RunFrom(steps, i, value, error).calls;
      && cs[k].response.value == LatestResolve(Outcomes(steps, cs, k), value)
      && cs[k].response.error == LatestReject(Outcomes(steps, cs, k), error)
    decreases k
  {
    var cs := RunFrom(steps, i, value, error).calls;
    RunSnapshots(steps, i, value, error);
    if k > 0 {
      SnapshotIsLatest(steps, i, value, error, k - 1);
      var os := Outcomes(steps, cs, k);
      assert os[..k - 1] == Outcomes(steps, cs, k - 1);
    }
  }

  /**
    `execute(index)`: a non-number index counts as 0; an index at or past the number of
    steps returns `true` without running anything; a negative index throws, because
    there is no step to call; otherwise the steps run from the index on, and the latest
    value and error stay with the sequencer for the next `execute`.
   */
  function Execute(sq: Sequencer, index: Value): (r: Execution)
    ensures r.after.chained == sq.chained
    ensures r.returned == ReturnedTrue <==> StartIndex(index) >= |sq.chained|
    ensures r.returned != ReturnedUndefined ==> r.calls == [] && r.after == sq
  {
    var n := StartIndex(index);
    if n >= |sq.chained| then Execution([], sq, ReturnedTrue)
    else if n < 0 then Execution([], sq, Threw)
    else
      var run := RunFrom(sq.chained, n, sq.value, sq.error);
      Execution(run.calls, sq.(value := run.value, error := run.error), ReturnedUndefined)
  }

  /** `typeof index === "number" ? index : 0`. */
  function StartIndex(index: Value): int {
    if index.Num? then index.n else 0
  }

  /** Steps run strictly in registration order from the start index, one call per step at most. */
  lemma ExecuteOrder(sq: Sequencer, n: nat)
    requires n < |sq.chained|
    ensures var r := Execute(sq, Num(n));
      && r.returned == ReturnedUndefined
      && 0 < |r.calls| <= |sq.chained| - n
      && (forall k :: 0 <= k < |r.calls| ==> r.calls[k].step == n + k)
      && r.calls[0].response == Response(sq.value, sq.error)
  {
    RunSnapshots(sq.chained, n, sq.value, sq.error);
  }

  /** A value that is not a number starts the run at the first step. */
  lemma ExecuteNonNumber(sq: Sequencer, index: Value)
    requires !index.Num?
    ensures Execute(sq, index) == Execute(sq, Num(0))
  {
  }

  /** The run's final value and error are those of the snapshot after its last call. */
  lemma {:induction false} RunFinal(steps: seq<Step>, i: nat, value: Value, error: Value)
    requires i < |steps|
    ensures var r := RunFrom(steps, i, value, error);
      var last := r.calls[|r.calls| - 1];
      Response(r.value, r.error) == Advance(last.response, OutcomeOf(steps, last))
    decreases |steps| - i
  {
    var resp := Response(value, error);
    var o := steps[i](resp);
    if !o.Stall? && i + 1 < |steps| {
      var next := Advance(resp, o);
      RunFinal(steps, i + 1, next.value, next.error);
    }
  }
}
