/** The bounded recorder of operation steps: when it is full it gives up successes, never failures. */
module OperationRecorder {
  import opened Basics

  datatype Outcome = Succeeded | Failed | Deferred | UnknownOutcome

  datatype Step = Step(outcome: Outcome, details: string)

  predicate IsFailure(step: Step) {
    step.outcome.Failed? || step.outcome.Deferred?
  }

  /** A sequence without one of its elements, and another one at its end. */
  function Replace<T>(s: seq<T>, index: nat, last: T): (r: seq<T>)
    requires index < |s|
    ensures |r| == |s| && r[|s| - 1] == last
    ensures forall k :: 0 <= k < |s| - 1 ==> r[k] == if k < index then s[k] else s[k + 1]
  {
    (s[..index] + s[index + 1..]) + [last]
  }

  function FirstSuccess(steps: seq<Step>): (index: nat)
    ensures index <= |steps|
    ensures index < |steps| ==> steps[index].outcome.Succeeded?
    ensures forall k :: 0 <= k < index ==> !steps[k].outcome.Succeeded?
  {
    if steps == [] || steps[0].outcome.Succeeded? then 0 else 1 + FirstSuccess(steps[1..])
  }

  /** The kept steps after one more was appended. */
  function Kept(steps: seq<Step>, value: Step, maxSteps: nat): seq<Step> {
    if |steps| < maxSteps then steps + [value]
    else if IsFailure(value) && FirstSuccess(steps) < |steps| then Replace(steps, FirstSuccess(steps), value)
    else steps
  }

  // -------------------------------------------------------------------------------------------
  // The recorder

  class Recorder {
    var steps: seq<Step>
    var dropped: nat
    const maxSteps: nat
    /** Every step ever appended. */
    ghost var history: seq<Step>

    ghost predicate Valid()
      reads this
    {
      && steps == StepsAt(history, Recorded(history, maxSteps).kept)
      && dropped == Recorded(history, maxSteps).dropped
    }

    constructor (maxSteps: nat)
      ensures Valid() && history == [] && this.maxSteps == maxSteps
    {
      this.maxSteps := maxSteps;
      steps, dropped, history := [], 0, [];
    }

    method FindSuccess() returns (index: nat)
      ensures index == FirstSuccess(steps)
    {
      index := 0;
      while index < |steps| && !steps[index].outcome.Succeeded?
        invariant 0 <= index <= FirstSuccess(steps)
      {
        index := index + 1;
      }
    }

    /** Appends one step; when the log is full, a failure takes the place of the first success. */
    method Append(value: Step)
      requires Valid()
      modifies this
      ensures Valid() && history == old(history) + [value]
      ensures steps == Kept(old(steps), value, maxSteps)
      ensures dropped == old(dropped) + if |old(steps)| < maxSteps then 0 else 1
    {
      AppendedSteps(history, value, maxSteps);
      history := history + [value];
      if |steps| >= maxSteps {
        dropped := dropped + 1;
        if IsFailure(value) {
          var index := FindSuccess();
          if index < |steps| {
            steps := Replace(steps, index, value);
          }
        }
        return;
      }
      steps := steps + [value];
    }
  }

  // -------------------------------------------------------------------------------------------
  // The same log, as positions in the history of all appended steps

  datatype Log = Log(kept: seq<nat>, dropped: nat)

  function StepsAt(history: seq<Step>, kept: seq<nat>): (steps: seq<Step>)
    requires forall k :: 0 <= k < |kept| ==> kept[k] < |history|
    ensures |steps| == |kept|
    ensures forall k :: 0 <= k < |kept| ==> steps[k] == history[kept[k]]
  {
    seq(|kept|, k requires 0 <= k < |kept| => history[kept[k]])
  }

  /** The kept positions after the last step of the history was appended. */
  function Appended(history: seq<Step>, log: Log, maxSteps: nat): (after: Log)
    requires history != [] && forall k :: 0 <= k < |log.kept| ==> log.kept[k] < |history| - 1
    ensures forall k :: 0 <= k < |after.kept| ==> after.kept[k] < |history|
  {
    var last := |history| - 1;
    var index := FirstSuccess(StepsAt(history, log.kept));
    if |log.kept| < maxSteps then Log(log.kept + [last], log.dropped)
    else if IsFailure(history[last]) && index < |log.kept| then
      Log(Replace(log.kept, index, last), log.dropped + 1)
    else Log(log.kept, log.dropped + 1)
  }

  /** The log after a whole history was appended step by step. */
  function Recorded(history: seq<Step>, maxSteps: nat): (log: Log)
    ensures forall k :: 0 <= k < |log.kept| ==> log.kept[k] < |history|
  {
    if history == [] then Log([], 0)
    else Appended(history, Recorded(history[..|history| - 1], maxSteps), maxSteps)
  }

  lemma StepsAtReplaced(history: seq<Step>, kept: seq<nat>, index: nat, last: nat)
    requires index < |kept| && last < |history| && forall k :: 0 <= k < |kept| ==> kept[k] < |history|
    ensures forall k :: 0 <= k < |kept| ==> Replace(kept, index, last)[k] < |history|
    ensures StepsAt(history, Replace(kept, index, last)) == Replace(StepsAt(history, kept), index, history[last])
  {
  }

  /** Appending to the positions and appending to the steps themselves agree. */
  lemma AppendedSteps(front: seq<Step>, value: Step, maxSteps: nat)
    ensures var before, after := Recorded(front, maxSteps), Recorded(front + [value], maxSteps);
            && StepsAt(front + [value], after.kept) == Kept(StepsAt(front, before.kept), value, maxSteps)
            && after.dropped == before.dropped + if |before.kept| < maxSteps then 0 else 1
  {
    var history, before := front + [value], Recorded(front, maxSteps);
    assert history[..|history| - 1] == front;
    assert StepsAt(history, before.kept) == StepsAt(front, before.kept);
    var index := FirstSuccess(StepsAt(front, before.kept));
    if |before.kept| >= maxSteps && IsFailure(value) && index < |before.kept| {
      StepsAtReplaced(history, before.kept, index, |front|);
    }
  }

  // -------------------------------------------------------------------------------------------
  // Guarantees over a whole history

  /** The positions of the failed and deferred steps among some positions, in order. */
  function Failures(history: seq<Step>, positions: seq<nat>): seq<nat>
    requires forall k :: 0 <= k < |positions| ==> positions[k] < |history|
  {
    if positions == [] then []
    else
      var last := positions[|positions| - 1];
      Failures(history, positions[..|positions| - 1]) + if IsFailure(history[last]) then [last] else []
  }

  /** The positions of all failed and deferred steps of a history, in order. */
  function AllFailures(history: seq<Step>): seq<nat> {
    if history == [] then []
    else
      var last := |history| - 1;
      AllFailures(history[..last]) + if IsFailure(history[last]) then [last] else []
  }

  ghost predicate Increasing(kept: seq<nat>) {
    forall i, j :: 0 <= i < j < |kept| ==> kept[i] < kept[j]
  }

  /** All failures are the failed and deferred steps, in order. */
  lemma {:induction false} AllFailuresAre(history: seq<Step>)
    ensures forall k: nat :: k in AllFailures(history) <==> k < |history| && history[k].outcome in {Failed, Deferred}
    ensures Increasing(AllFailures(history))
  {
    if history != [] {
      var before := AllFailures(history[..|history| - 1]);
      AllFailuresAre(history[..|history| - 1]);
      forall i | 0 <= i < |before| ensures before[i] < |history| - 1 {
        assert before[i] in before;
      }
    }
  }

  /** The kept failures are the failed and deferred ones of the kept steps. */
  lemma {:induction false} FailuresAre(history: seq<Step>, positions: seq<nat>)
    requires forall k :: 0 <= k < |positions| ==> positions[k] < |history|
    ensures forall p: nat :: p in Failures(history, positions)
                             <==> p in positions && history[p].outcome in {Failed, Deferred}
  {
    if positions != [] {
      var end := |positions| - 1;
      FailuresAre(history, positions[..end]);
      assert positions == positions[..end] + [positions[end]];
    }
  }

  lemma AppendedIsOrdered(front: seq<Step>, value: Step, log: Log, maxSteps: nat)
    requires forall k :: 0 <= k < |log.kept| ==> log.kept[k] < |front|
    requires Increasing(log.kept)
    ensures Increasing(Appended(front + [value], log, maxSteps).kept)
  {
    AppendedCases(front, value, log, maxSteps);
    if |log.kept| < maxSteps {
      IncreasingAppend(log.kept, |front|);
    } else if !IsStuck(front, log, maxSteps) && IsFailure(value) {
      IncreasingReplace(log.kept, FirstSuccess(StepsAt(front, log.kept)), |front|);
    }
  }

  lemma IncreasingAppend(kept: seq<nat>, last: nat)
    requires Increasing(kept) && forall k :: 0 <= k < |kept| ==> kept[k] < last
    ensures Increasing(kept + [last])
  {
  }

  lemma IncreasingReplace(kept: seq<nat>, index: nat, last: nat)
    requires Increasing(kept) && index < |kept| && forall k :: 0 <= k < |kept| ==> kept[k] < last
    ensures Increasing(Replace(kept, index, last))
  {
    var rest := kept[..index] + kept[index + 1..];
    assert forall k :: 0 <= k < |rest| ==> rest[k] == if k < index then kept[k] else kept[k + 1];
    IncreasingAppend(rest, last);
  }

  /** The log is an order-preserving part of the history, bounded, with every other step counted. */
  lemma {:induction false} LogIsBoundedPart(history: seq<Step>, maxSteps: nat)
    ensures Increasing(Recorded(history, maxSteps).kept)
    ensures |Recorded(history, maxSteps).kept| <= maxSteps
    ensures |Recorded(history, maxSteps).kept| + Recorded(history, maxSteps).dropped == |history|
    ensures Recorded(history, maxSteps).dropped > 0 ==> |Recorded(history, maxSteps).kept| == maxSteps
  {
    if history != [] {
      var front, value := history[..|history| - 1], history[|history| - 1];
      LogIsBoundedPart(front, maxSteps);
      assert history == front + [value];
      AppendedIsOrdered(front, value, Recorded(front, maxSteps), maxSteps);
    }
  }

  lemma {:induction false} FailuresAppend(history: seq<Step>, first: seq<nat>, second: seq<nat>)
    requires forall k :: 0 <= k < |first| ==> first[k] < |history|
    requires forall k :: 0 <= k < |second| ==> second[k] < |history|
    ensures Failures(history, first + second) == Failures(history, first) + Failures(history, second)
  {
    if second == [] {
      assert first + second == first;
    } else {
      FailuresAppend(history, first, second[..|second| - 1]);
      assert (first + second)[..|first + second| - 1] == first + second[..|second| - 1];
    }
  }

  lemma {:induction false} FailuresOfPrefix(history: seq<Step>, last: Step, positions: seq<nat>)
    requires forall k :: 0 <= k < |positions| ==> positions[k] < |history|
    ensures Failures(history + [last], positions) == Failures(history, positions)
  {
    if positions != [] { FailuresOfPrefix(history, last, positions[..|positions| - 1]); }
  }

  lemma FailuresOne(history: seq<Step>, position: nat)
    requires position < |history|
    ensures Failures(history, [position]) == if IsFailure(history[position]) then [position] else []
  {
    assert [position][..0] == [];
  }

  /** Giving up a success loses no failure. */
  lemma FailuresSkip(history: seq<Step>, kept: seq<nat>, index: nat)
    requires index < |kept| && forall k :: 0 <= k < |kept| ==> kept[k] < |history|
    requires history[kept[index]].outcome.Succeeded?
    ensures Failures(history, kept[..index] + kept[index + 1..]) == Failures(history, kept)
  {
    var front, back := kept[..index], kept[index + 1..];
    SplitAt(kept, index);
    FailuresAppend(history, front, [kept[index]] + back);
    FailuresAppend(history, [kept[index]], back);
    FailuresAppend(history, front, back);
    FailuresOne(history, kept[index]);
    ConcatEmpty(Failures(history, back));
  }

  lemma FailuresAppendOne(history: seq<Step>, kept: seq<nat>, last: nat)
    requires last < |history| && forall k :: 0 <= k < |kept| ==> kept[k] < |history|
    ensures Failures(history, kept + [last])
            == Failures(history, kept) + if IsFailure(history[last]) then [last] else []
  {
    assert (kept + [last])[..|kept|] == kept;
  }

  lemma ReplacedFailures(history: seq<Step>, kept: seq<nat>, index: nat, last: nat)
    requires index < |kept| && last < |history| && forall k :: 0 <= k < |kept| ==> kept[k] < |history|
    requires history[kept[index]].outcome.Succeeded? && IsFailure(history[last])
    ensures forall k :: 0 <= k < |kept| ==> Replace(kept, index, last)[k] < |history|
    ensures Failures(history, Replace(kept, index, last)) == Failures(history, kept) + [last]
  {
    FailuresSkip(history, kept, index);
    FailuresAppendOne(history, kept[..index] + kept[index + 1..], last);
  }

  /** A log that lost a failure is full of steps that did not succeed, and then never changes again. */
  ghost predicate IsStuck(history: seq<Step>, log: Log, maxSteps: nat)
    requires forall k :: 0 <= k < |log.kept| ==> log.kept[k] < |history|
  {
    |log.kept| >= maxSteps && forall k :: 0 <= k < |log.kept| ==> !history[log.kept[k]].outcome.Succeeded?
  }

  /** What one more step does to the kept positions, told from what the log holds before it. */
  lemma AppendedCases(front: seq<Step>, value: Step, log: Log, maxSteps: nat)
    requires forall k :: 0 <= k < |log.kept| ==> log.kept[k] < |front|
    ensures var kept := Appended(front + [value], log, maxSteps).kept;
            if |log.kept| < maxSteps then kept == log.kept + [|front|]
            else if IsStuck(front, log, maxSteps) || !IsFailure(value) then kept == log.kept
            else
              var index := FirstSuccess(StepsAt(front, log.kept));
              index < |log.kept| && front[log.kept[index]].outcome.Succeeded?
              && kept == Replace(log.kept, index, |front|)
  {
    assert StepsAt(front + [value], log.kept) == StepsAt(front, log.kept);
  }

  lemma FailuresGrowWithRoom(front: seq<Step>, value: Step, log: Log, maxSteps: nat)
    requires forall k :: 0 <= k < |log.kept| ==> log.kept[k] < |front|
    requires |log.kept| < maxSteps
    ensures Failures(front + [value], Appended(front + [value], log, maxSteps).kept)
            == Failures(front, log.kept) + if IsFailure(value) then [|front|] else []
  {
    AppendedCases(front, value, log, maxSteps);
    FailuresOfPrefix(front, value, log.kept);
    FailuresAppendOne(front + [value], log.kept, |front|);
  }

  lemma FailureReplacesSuccess(front: seq<Step>, value: Step, log: Log, maxSteps: nat)
    requires forall k :: 0 <= k < |log.kept| ==> log.kept[k] < |front|
    requires |log.kept| >= maxSteps && IsFailure(value) && !IsStuck(front, log, maxSteps)
    ensures Failures(front + [value], Appended(front + [value], log, maxSteps).kept)
            == Failures(front, log.kept) + [|front|]
  {
    AppendedCases(front, value, log, maxSteps);
    ReplacedByFailure(front, value, log.kept, FirstSuccess(StepsAt(front, log.kept)));
  }

  lemma ReplacedByFailure(front: seq<Step>, value: Step, kept: seq<nat>, index: nat)
    requires index < |kept| && forall k :: 0 <= k < |kept| ==> kept[k] < |front|
    requires front[kept[index]].outcome.Succeeded? && IsFailure(value)
    ensures forall k :: 0 <= k < |kept| ==> Replace(kept, index, |front|)[k] < |front + [value]|
    ensures Failures(front + [value], Replace(kept, index, |front|)) == Failures(front, kept) + [|front|]
  {
    FailuresOfPrefix(front, value, kept);
    ReplacedFailures(front + [value], kept, index, |front|);
  }

  /** How the failures kept in the log grow with one more step. */
  lemma FailuresGrow(front: seq<Step>, value: Step, log: Log, maxSteps: nat)
    requires forall k :: 0 <= k < |log.kept| ==> log.kept[k] < |front|
    ensures Failures(front + [value], Appended(front + [value], log, maxSteps).kept)
            == Failures(front, log.kept)
               + if IsFailure(value) && !IsStuck(front, log, maxSteps) then [|front|] else []
  {
    if |log.kept| < maxSteps {
      FailuresGrowWithRoom(front, value, log, maxSteps);
    } else if IsFailure(value) && !IsStuck(front, log, maxSteps) {
      FailureReplacesSuccess(front, value, log, maxSteps);
    } else {
      AppendedCases(front, value, log, maxSteps);
      FailuresOfPrefix(front, value, log.kept);
      ConcatEmpty(Failures(front, log.kept));
    }
  }

  lemma PrefixOfLonger<T>(a: seq<T>, b: seq<T>, more: seq<T>)
    requires a <= b
    ensures a + [] <= b + more
  {
  }

  lemma StuckStays(front: seq<Step>, value: Step, log: Log, maxSteps: nat)
    requires forall k :: 0 <= k < |log.kept| ==> log.kept[k] < |front|
    requires IsStuck(front, log, maxSteps)
    ensures IsStuck(front + [value], Appended(front + [value], log, maxSteps), maxSteps)
  {
    AppendedCases(front, value, log, maxSteps);
  }

  /** The kept failures are the earliest, and all of them unless the log is stuck. */
  ghost predicate HasEarliest(history: seq<Step>, log: Log, maxSteps: nat, all: seq<nat>)
    requires forall k :: 0 <= k < |log.kept| ==> log.kept[k] < |history|
  {
    Failures(history, log.kept) <= all && (Failures(history, log.kept) == all || IsStuck(history, log, maxSteps))
  }

  /** One step of the induction, of a log that is stuck already. */
  lemma StuckKeepsEarliest(front: seq<Step>, value: Step, log: Log, maxSteps: nat, all: seq<nat>, more: seq<nat>)
    requires forall k :: 0 <= k < |log.kept| ==> log.kept[k] < |front|
    requires HasEarliest(front, log, maxSteps, all) && IsStuck(front, log, maxSteps)
    ensures HasEarliest(front + [value], Appended(front + [value], log, maxSteps), maxSteps, all + more)
  {
    FailuresGrow(front, value, log, maxSteps);
    StuckStays(front, value, log, maxSteps);
    PrefixOfLonger(Failures(front, log.kept), all, more);
  }

  /** One step of the induction, of a log that still has all failures. */
  lemma EarliestStep(front: seq<Step>, value: Step, log: Log, maxSteps: nat, all: seq<nat>, more: seq<nat>)
    requires forall k :: 0 <= k < |log.kept| ==> log.kept[k] < |front|
    requires HasEarliest(front, log, maxSteps, all)
    requires more == if IsFailure(value) then [|front|] else []
    ensures HasEarliest(front + [value], Appended(front + [value], log, maxSteps), maxSteps, all + more)
  {
    if IsStuck(front, log, maxSteps) {
      StuckKeepsEarliest(front, value, log, maxSteps, all, more);
    } else {
      FailuresGrow(front, value, log, maxSteps);
    }
  }

  lemma RecordedOneMore(front: seq<Step>, value: Step, maxSteps: nat)
    ensures Recorded(front + [value], maxSteps) == Appended(front + [value], Recorded(front, maxSteps), maxSteps)
  {
    assert (front + [value])[..|front|] == front;
  }

  lemma AllFailuresOneMore(front: seq<Step>, value: Step)
    ensures AllFailures(front + [value]) == AllFailures(front) + if IsFailure(value) then [|front|] else []
  {
    assert (front + [value])[..|front|] == front;
  }

  /**
   The kept failures are the earliest ones: they are a prefix of all failures, and a failure is
   missing only once the log is full of steps that did not succeed.
   */
  lemma KeepsEarliestFailures(history: seq<Step>, maxSteps: nat)
    ensures Failures(history, Recorded(history, maxSteps).kept) <= AllFailures(history)
    ensures Failures(history, Recorded(history, maxSteps).kept) == AllFailures(history)
            || IsStuck(history, Recorded(history, maxSteps), maxSteps)
  {
    RecordedHasEarliest(history, maxSteps);
  }

  lemma {:induction false} RecordedHasEarliest(history: seq<Step>, maxSteps: nat)
    ensures HasEarliest(history, Recorded(history, maxSteps), maxSteps, AllFailures(history))
  {
    if history != [] {
      var front, value := history[..|history| - 1], history[|history| - 1];
      var more := if IsFailure(value) then [|front|] else [];
      RecordedHasEarliest(front, maxSteps);
      assert history == front + [value];
      AllFailuresOneMore(front, value);
      RecordedOneMore(front, value, maxSteps);
      EarliestStep(front, value, Recorded(front, maxSteps), maxSteps, AllFailures(front), more);
    }
  }

  /** A failed or deferred step of the log stays in it, whatever is appended. */
  lemma KeptFailureStays(history: seq<Step>, more: Step, maxSteps: nat, k: nat)
    requires k in Recorded(history, maxSteps).kept && k < |history|
    requires history[k].outcome in {Failed, Deferred}
    ensures k in Recorded(history + [more], maxSteps).kept
  {
    var before, after := Recorded(history, maxSteps).kept, Recorded(history + [more], maxSteps).kept;
    FailuresStay(history, more, maxSteps);
    FailuresAre(history, before);
    FailuresAre(history + [more], after);
    var kept := Failures(history, before);
    var i :| 0 <= i < |kept| && kept[i] == k;
    assert Failures(history + [more], after)[i] == k;
  }

  /**
   What one append does, told from the outcomes: with room the step is added; in a full log a failed or
   deferred step takes the place of the first success, and any other step is lost.
   */
  lemma AppendMeans(steps: seq<Step>, value: Step, maxSteps: nat)
    ensures |steps| < maxSteps ==> Kept(steps, value, maxSteps) == steps + [value]
    ensures |steps| >= maxSteps && value.outcome !in {Failed, Deferred} ==> Kept(steps, value, maxSteps) == steps
    ensures |steps| >= maxSteps && (forall k :: 0 <= k < |steps| ==> steps[k].outcome != Succeeded)
            ==> Kept(steps, value, maxSteps) == steps
    ensures |steps| >= maxSteps && value.outcome in {Failed, Deferred} ==>
              forall i :: 0 <= i < |steps| && steps[i].outcome == Succeeded
                          && (forall k :: 0 <= k < i ==> steps[k].outcome != Succeeded)
                          ==> Kept(steps, value, maxSteps) == steps[..i] + steps[i + 1..] + [value]
  {
    var index := FirstSuccess(steps);
    forall i | 0 <= i < |steps| && steps[i].outcome == Succeeded
               && (forall k :: 0 <= k < i ==> steps[k].outcome != Succeeded)
      ensures i == index
    {
    }
  }

  /** No failed or deferred step that was kept once is ever given up. */
  lemma FailuresStay(history: seq<Step>, more: Step, maxSteps: nat)
    ensures Failures(history, Recorded(history, maxSteps).kept)
            <= Failures(history + [more], Recorded(history + [more], maxSteps).kept)
  {
    assert (history + [more])[..|history|] == history;
    FailuresGrow(history, more, Recorded(history, maxSteps), maxSteps);
  }
}
