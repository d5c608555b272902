/** The step cursor of frontend/src/components/BellmanFord.jsx: the React state
    `currentStep` with the buttons "◀ Anterior" and "Próximo ▶", and the places that set it
    directly. `stepCount` stands for `result.steps.length`, `None` for `result === null`. */
module StepCursor {
  import opened JsValues

  /** `nextStep`: advance only when there is a result and a later step. */
  function NextIndex(current: int, stepCount: Option<nat>): (r: int)
    ensures r == current || r == current + 1
    ensures r == current + 1 <==> stepCount.Some? && current < stepCount.value - 1
    ensures stepCount.Some? && current < stepCount.value ==> r < stepCount.value
  {
    if stepCount.Some? && current < stepCount.value - 1 then current + 1 else current
  }

  /** `prevStep`: step back only above 0. */
  function PrevIndex(current: int): (r: int)
    ensures r == current || r == current - 1
    ensures r == current - 1 <==> current > 0
    ensures current >= 0 ==> r >= 0
  {
    if current > 0 then current - 1 else current
  }

  /** `currentStep` lies in 0 .. steps.length - 1, or is 0 when there is nothing to show. */
  predicate InRange(current: int, stepCount: Option<nat>) {
    0 <= current && (stepCount.Some? && stepCount.value > 0 ==> current < stepCount.value)
  }

  /** Both buttons keep the cursor in range. */
  lemma StepsKeepRange(current: int, stepCount: Option<nat>)
    requires InRange(current, stepCount)
    ensures InRange(NextIndex(current, stepCount), stepCount)
    ensures InRange(PrevIndex(current), stepCount)
  {
  }

  /** From a step in range, "Anterior" undoes "Próximo" whenever "Próximo" moved, and
      "Próximo" undoes "Anterior" whenever "Anterior" moved. */
  lemma StepsUndo(current: int, stepCount: Option<nat>)
    ensures current >= 0 && NextIndex(current, stepCount) != current ==>
              PrevIndex(NextIndex(current, stepCount)) == current
    ensures PrevIndex(current) != current && stepCount.Some? && current < stepCount.value ==>
              NextIndex(PrevIndex(current), stepCount) == current
  {
  }

  /** From anywhere in range, `n` presses of "Próximo" reach the last step or move n places. */
  function NextTimes(current: int, stepCount: Option<nat>, n: nat): int {
    if n == 0 then current else NextIndex(NextTimes(current, stepCount, n - 1), stepCount)
  }

  lemma {:induction false} NextTimesReachesLast(current: int, count: nat, n: nat)
    requires 0 <= current < count
    ensures NextTimes(current, Some(count), n) == if current + n < count then current + n else count - 1
  {
    if n > 0 {
      NextTimesReachesLast(current, count, n - 1);
    }
  }

  /** The cursor as React state: `currentStep` and the length of the steps of `result`. */
  class Cursor {
    var currentStep: int
    var stepCount: Option<nat>

    /** `useState(0)` with `result` still `null`. */
    constructor ()
      ensures currentStep == 0 && stepCount == None
    {
      currentStep := 0;
      stepCount := None;
    }

    predicate Valid()
      reads this
    {
      InRange(currentStep, stepCount)
    }

    method NextStep()
      modifies this
      ensures currentStep == NextIndex(old(currentStep), old(stepCount))
      ensures stepCount == old(stepCount)
      ensures old(Valid()) ==> Valid()
    {
      if stepCount.Some? && currentStep < stepCount.value - 1 {
        currentStep := currentStep + 1;
      }
      if old(Valid()) {
        StepsKeepRange(old(currentStep), stepCount);
      }
    }

    method PrevStep()
      modifies this
      ensures currentStep == PrevIndex(old(currentStep))
      ensures stepCount == old(stepCount)
      ensures old(Valid()) ==> Valid()
    {
      if currentStep > 0 {
        currentStep := currentStep - 1;
      }
      if old(Valid()) {
        StepsKeepRange(old(currentStep), stepCount);
      }
    }

    /** `executeAlgorithm` before the request: `setResult(null)`, `setCurrentStep(0)`. */
    method Start()
      modifies this
      ensures currentStep == 0 && stepCount == None && Valid()
    {
      stepCount := None;
      currentStep := 0;
    }

    /** `setResult(response.data)`: the cursor stays at 0, which is in range. */
    method Receive(count: nat)
      modifies this
      ensures currentStep == old(currentStep) && stepCount == Some(count)
      ensures old(currentStep) == 0 ==> Valid()
    {
      stepCount := Some(count);
    }

    /** A loaded execution jumps to its last step, `steps.length - 1`; that is -1, out of
        range, for an execution without steps. */
    method Load(count: nat)
      modifies this
      ensures currentStep == count - 1 && stepCount == Some(count)
      ensures Valid() <==> count > 0
    {
      stepCount := Some(count);
      currentStep := count - 1;
    }

    /** `reset`: back to no result and step 0. */
    method Reset()
      modifies this
      ensures currentStep == 0 && stepCount == None && Valid()
    {
      stepCount := None;
      currentStep := 0;
    }
  }
}
