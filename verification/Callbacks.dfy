/** What every callback is, said over the steps of a run alone: the operation that prepared the SQE gets the result and
    the flags of the step that completed it. */
module Callbacks {
  import opened Submission

  // ----- what a list of steps amounts to

  /** The operations that took an SQE, in order; their positions are the tickets. */
  function Ops(steps: seq<Step>): seq<Op> {
    if steps == [] then []
    else
      var init, last := steps[..|steps| - 1], steps[|steps| - 1];
      if last.Prepare? then Ops(init) + [last.op] else Ops(init)
  }

  /** How many SQEs were submitted. */
  function Sent(steps: seq<Step>): nat {
    if steps == [] then 0
    else
      var init, last := steps[..|steps| - 1], steps[|steps| - 1];
      if last.Submit? then Sent(init) + last.count else Sent(init)
  }

  /** `count` tickets from `first` on. */
  function Tickets(first: nat, count: nat): (t: seq<nat>)
    ensures |t| == count && forall i :: 0 <= i < count ==> t[i] == first + i
  {
    if count == 0 then [] else Tickets(first, count - 1) + [first + count - 1]
  }

  /** The tickets in flight: SQEs are submitted in the order of their tickets, and completed at any place. */
  function Flight(steps: seq<Step>): seq<nat> {
    if steps == [] then []
    else
      var init, last := steps[..|steps| - 1], steps[|steps| - 1];
      var flight := Flight(init);
      match last
      case Submit(count) => flight + Tickets(Sent(init), count)
      case Complete(at, _, _) => if at < |flight| then flight[..at] + flight[at + 1..] else flight
      case _ => flight
  }

  function Completes(steps: seq<Step>): nat {
    if steps == [] then 0
    else Completes(steps[..|steps| - 1]) + if steps[|steps| - 1].Complete? then 1 else 0
  }

  function CallBacks(steps: seq<Step>): nat {
    if steps == [] then 0
    else CallBacks(steps[..|steps| - 1]) + if steps[|steps| - 1].CallBack? then 1 else 0
  }

  /** Step `k` completes the SQE at the place that it names, and `cqe` says so: its ticket, the operation that took it,
      and the result and flags of the step. */
  predicate Answers(steps: seq<Step>, k: nat, cqe: Cqe)
    requires k < |steps| && steps[k].Complete?
  {
    var flight, at := Flight(steps[..k]), steps[k].at;
    && at < |flight| && flight[at] < |Ops(steps)|
    && cqe == Cqe(flight[at], Ops(steps)[flight[at]], steps[k].res, steps[k].flags)
  }

  // ----- the state agrees with it

  /** Where the SQEs are. */
  predicate Located(steps: seq<Step>, s: State) {
    && s.issued == Ops(steps) && |s.queued| + Sent(steps) == |Ops(steps)|
    && (forall i :: 0 <= i < |s.queued| ==> s.queued[i] == Sqe(Sent(steps) + i, s.issued[Sent(steps) + i]))
    && |s.inFlight| == |Flight(steps)|
    && forall i :: 0 <= i < |s.inFlight| ==>
                     && s.inFlight[i].ticket == Flight(steps)[i] < |s.issued|
                     && s.inFlight[i].op == s.issued[s.inFlight[i].ticket]
  }

  /** The completions are those of the `Complete` steps, in order. */
  predicate Answered(steps: seq<Step>, s: State) {
    && |s.history| == Completes(steps)
    && forall k :: 0 <= k < |steps| && steps[k].Complete? ==>
                     && Completes(steps[..k]) < |s.history|
                     && Answers(steps, k, s.history[Completes(steps[..k])])
  }

  /** The callbacks are those of the `CallBack` steps, in order, each on a result that was completed before. */
  predicate Called(steps: seq<Step>, s: State) {
    && |s.calls| == CallBacks(steps)
    && forall i :: 0 <= i < |steps| && steps[i].CallBack? ==>
                     && CallBacks(steps[..i]) < |s.calls|
                     && s.calls[CallBacks(steps[..i])].at == steps[i].at < Completes(steps[..i])
  }

  lemma LocatedNext(depth: nat, steps: seq<Step>, s: State, step: Step)
    requires Located(steps, s) && Enabled(depth, s, step)
    ensures Located(steps + [step], Next(depth, s, step))
  {
    var more := steps + [step];
    assert more[..|more| - 1] == steps && more[|more| - 1] == step;
    match step
    case Submit(count) => LocatedSubmit(steps, s, count);
    case Complete(at, res, flags) => LocatedComplete(steps, s, step);
    case _ =>
  }

  lemma LocatedSubmit(steps: seq<Step>, s: State, count: nat)
    requires Located(steps, s) && count <= |s.queued|
    ensures Located(steps + [Submit(count)], Submitted(s, count))
  {
    hide Ops;
    var more, t := steps + [Submit(count)], Submitted(s, count);
    assert more[..|more| - 1] == steps && more[|more| - 1] == Submit(count);
    assert Ops(more) == Ops(steps) by {
      OpsOther(steps, Submit(count));
    }
    assert Flight(more) == Flight(steps) + Tickets(Sent(steps), count);
  }

  lemma LocatedComplete(steps: seq<Step>, s: State, step: Step)
    requires Located(steps, s) && step.Complete? && step.at < |s.inFlight|
    ensures Located(steps + [step], Completed(s, step.at, step.res, step.flags))
  {
    hide Ops;
    var more := steps + [step];
    assert more[..|more| - 1] == steps && more[|more| - 1] == step;
    OpsOther(steps, step);
    assert Flight(more) == Flight(steps)[..step.at] + Flight(steps)[step.at + 1..];
  }

  lemma OpsOther(steps: seq<Step>, step: Step)
    requires !step.Prepare?
    ensures Ops(steps + [step]) == Ops(steps)
  {
    assert (steps + [step])[..|steps|] == steps;
  }

  lemma AnsweredNext(depth: nat, steps: seq<Step>, s: State, step: Step)
    requires Located(steps, s) && Answered(steps, s) && Enabled(depth, s, step)
    ensures Answered(steps + [step], Next(depth, s, step))
  {
    hide Answers, Flight, Located;
    var more, t := steps + [step], Next(depth, s, step);
    assert more[..|more| - 1] == steps && more[|more| - 1] == step;
    assert t.history[..|s.history|] == s.history;
    forall k | 0 <= k < |more| && more[k].Complete?
      ensures Completes(more[..k]) < |t.history| && Answers(more, k, t.history[Completes(more[..k])])
    {
      if k < |steps| {
        assert more[..k] == steps[..k] && more[k] == steps[k];
        AnswersLater(steps, step, k, s.history[Completes(steps[..k])]);
      } else {
        AnswersNow(depth, steps, s, step);
      }
    }
  }

  lemma AnswersLater(steps: seq<Step>, step: Step, k: nat, cqe: Cqe)
    requires k < |steps| && steps[k].Complete? && Answers(steps, k, cqe)
    ensures Answers(steps + [step], k, cqe)
  {
    hide Flight;
    var more := steps + [step];
    assert more[..|more| - 1] == steps && more[..k] == steps[..k];
  }

  lemma AnswersNow(depth: nat, steps: seq<Step>, s: State, step: Step)
    requires Located(steps, s) && Enabled(depth, s, step) && step.Complete?
    ensures var t := Next(depth, s, step);
            t.history == s.history + [t.history[|s.history|]] &&
            Answers(steps + [step], |steps|, t.history[|s.history|])
  {
    hide Flight;
    var more := steps + [step];
    assert more[..|more| - 1] == steps && more[..|steps|] == steps && more[|more| - 1] == step;
  }

  lemma CalledNext(depth: nat, steps: seq<Step>, s: State, step: Step)
    requires Called(steps, s) && Enabled(depth, s, step) && |s.fetched| <= Completes(steps)
    ensures Called(steps + [step], Next(depth, s, step))
  {
    var more, t := steps + [step], Next(depth, s, step);
    assert more[..|more| - 1] == steps && more[|more| - 1] == step;
    assert t.calls[..|s.calls|] == s.calls;
    forall i | 0 <= i < |more| && more[i].CallBack?
      ensures CallBacks(more[..i]) < |t.calls|
      ensures t.calls[CallBacks(more[..i])].at == more[i].at < Completes(more[..i])
    {
      assert more[..i] == steps[..i];
      if i < |steps| {
        assert t.calls[CallBacks(steps[..i])] == s.calls[CallBacks(steps[..i])];
      }
    }
  }

  /** After every run, what the state holds is what the steps amount to. */
  lemma {:induction false} RunExact(depth: nat, steps: seq<Step>)
    requires Legal(depth, INITIAL, steps)
    ensures var s := Exec(depth, INITIAL, steps);
            Located(steps, s) && Answered(steps, s) && Called(steps, s)
    decreases |steps|
  {
    hide Located, Answered, Called, Next, Enabled;
    if steps == [] {
      AtStart();
    } else {
      var init, last := steps[..|steps| - 1], steps[|steps| - 1];
      assert steps == init + [last];
      ExecAppend(depth, INITIAL, init, [last]);
      var s := Exec(depth, INITIAL, init);
      OneStep(depth, s, last);
      RunExact(depth, init);
      RunInv(depth, init);
      FetchedAreAnswered(init, s);
      LocatedNext(depth, init, s, last);
      AnsweredNext(depth, init, s, last);
      CalledNext(depth, init, s, last);
    }
  }

  lemma AtStart()
    ensures Located([], INITIAL) && Answered([], INITIAL) && Called([], INITIAL)
  {
  }

  lemma OneStep(depth: nat, s: State, step: Step)
    requires Legal(depth, s, [step])
    ensures Enabled(depth, s, step) && Exec(depth, s, [step]) == Next(depth, s, step)
  {
    hide Enabled, Next;
    assert [step][1..] == [];
  }

  lemma FetchedAreAnswered(steps: seq<Step>, s: State)
    requires Inv(s) && Answered(steps, s)
    ensures |s.fetched| <= Completes(steps)
  {
    hide Places;
    assert |s.fetched + s.completed| == |s.history|;
  }

  /** The step that makes completion number `n`. */
  lemma {:induction false} CompleteStep(steps: seq<Step>, n: nat) returns (k: nat)
    requires n < Completes(steps)
    ensures k < |steps| && steps[k].Complete? && Completes(steps[..k]) == n
  {
    var last := |steps| - 1;
    var init := steps[..last];
    if n < Completes(init) {
      k := CompleteStep(init, n);
      assert steps[..k] == init[..k];
    } else {
      k := last;
    }
  }

  /** After every run, and over its steps alone: the callback made by step `i` hands over the completion of the step
      `k`, before it, that completed the result called; so its operation is the one that took the SQE which that step
      names, and its result and flags are those of that step. */
  lemma CallbackExact(depth: nat, steps: seq<Step>, i: nat) returns (k: nat)
    requires Legal(depth, INITIAL, steps) && i < |steps| && steps[i].CallBack?
    ensures k < i && steps[k].Complete? && Completes(steps[..k]) == steps[i].at
    ensures var calls := Exec(depth, INITIAL, steps).calls;
            && |calls| == CallBacks(steps) && CallBacks(steps[..i]) < |calls|
            && Answers(steps, k, calls[CallBacks(steps[..i])].cqe)
  {
    hide Located, Answers, Flight, Legal, Exec, Places;
    var s := Exec(depth, INITIAL, steps);
    RunExact(depth, steps);
    RunInv(depth, steps);
    var at := steps[i].at;
    k := CompleteStep(steps[..i], at);
    assert steps[..i][..k] == steps[..k] && steps[..i][k] == steps[k];
    var call := s.calls[CallBacks(steps[..i])];
    assert call.cqe == s.fetched[call.at] == s.history[call.at];
  }
}
