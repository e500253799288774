/** `submit_and_wait`: prepare, submit, wait for one result and call it back, whichever operation it belongs to. */
module SubmitAndWait {
  import opened Errors
  import opened Submission

  // ----- one call

  datatype Completion = Completion(at: nat, res: int, flags: nat)

  /** What may happen during one call: there is no SQE; the submission fails; it takes `count` SQEs but the wait fails;
      or the wait ends with a result. Whatever happens, the kernel may make completions. */
  datatype Behaviour =
    | NoSqe(completions: seq<Completion>)
    | SubmitError(completions: seq<Completion>)
    | WaitError(count: nat, completions: seq<Completion>)
    | Returns(count: nat, completions: seq<Completion>)

  function Completing(ks: seq<Completion>): (steps: seq<Step>)
    ensures |steps| == |ks|
  {
    if ks == [] then [] else [Complete(ks[0].at, ks[0].res, ks[0].flags)] + Completing(ks[1..])
  }

  /** What `submit_and_wait` does: prepare, submit, wait, fetch, and call back whichever operation completed. */
  function CallSteps(s: State, op: Op, b: Behaviour): seq<Step> {
    match b
    case NoSqe(ks) => [QueueFull(op)] + Completing(ks)
    case SubmitError(ks) => [Prepare(op), SubmitFails] + Completing(ks)
    case WaitError(count, ks) => [Prepare(op), Submit(count)] + Completing(ks) + [FetchNothing]
    case Returns(count, ks) => [Prepare(op), Submit(count)] + Completing(ks) + [Fetch, CallBack(|s.fetched|)]
  }

  predicate Possible(depth: nat, s: State, op: Op, b: Behaviour) {
    Legal(depth, s, CallSteps(s, op, b))
  }

  /** The state after the call. */
  function Call(depth: nat, s: State, op: Op, b: Behaviour): State
    requires Possible(depth, s, op, b)
  {
    Exec(depth, s, CallSteps(s, op, b))
  }

  /** The result that the operation object holds: that of its last callback. */
  function Result(calls: seq<Callback>, op: Op): Option<Cqe> {
    if calls == [] then None
    else
      var c := calls[|calls| - 1].cqe;
      if c.op == op then Some(c) else Result(calls[..|calls| - 1], op)
  }

  /** The call returns the completion of the SQE that it submitted. */
  predicate OwnResult(depth: nat, s: State, op: Op, b: Behaviour)
    requires Possible(depth, s, op, b)
  {
    var r := Result(Call(depth, s, op, b).calls, op);
    b.Returns? && r.Some? && r.value.ticket == |s.issued|
  }

  /** Whenever the call returns a result, it is its own. */
  ghost predicate SureOfOwnResult(depth: nat, s: State, op: Op) {
    forall b: Behaviour :: b.Returns? && Possible(depth, s, op, b) ==> OwnResult(depth, s, op, b)
  }

  // ----- SQEs that are still to be answered

  /** How many SQEs are queued, in flight or waiting to be fetched. */
  function Pending(s: State): nat {
    |s.queued| + |s.inFlight| + |s.completed|
  }

  predicate Idle(s: State) {
    Pending(s) == 0
  }

  function Balance(steps: seq<Step>): int {
    if steps == [] then 0
    else Balance(steps[1..]) + if steps[0].Prepare? then 1 else if steps[0].Fetch? then -1 else 0
  }

  lemma {:induction false} ExecPending(depth: nat, s: State, steps: seq<Step>)
    requires Legal(depth, s, steps)
    ensures Pending(Exec(depth, s, steps)) == Pending(s) + Balance(steps)
    decreases |steps|
  {
    if steps != [] {
      ExecPending(depth, Next(depth, s, steps[0]), steps[1..]);
    }
  }

  lemma {:induction false} BalanceAppend(a: seq<Step>, b: seq<Step>)
    ensures Balance(a + b) == Balance(a) + Balance(b)
  {
    if a == [] {
      assert a + b == b;
    } else {
      assert (a + b)[0] == a[0] && (a + b)[1..] == a[1..] + b;
      BalanceAppend(a[1..], b);
    }
  }

  lemma {:induction false} CompletingBalance(ks: seq<Completion>)
    ensures Balance(Completing(ks)) == 0
  {
    if ks != [] {
      CompletingBalance(ks[1..]);
    }
  }

  lemma ShortBalance(x: Step, y: Step)
    ensures Balance([x]) == if x.Prepare? then 1 else if x.Fetch? then -1 else 0
    ensures Balance([x, y]) == Balance([x]) + Balance([y])
  {
    assert [x, y][1..] == [y] && [x][1..] == [] && [y][1..] == [];
  }

  /** Each call that fails behind `to_sqe` leaves one SQE more to be answered; every other call leaves as many as there
      were. */
  lemma CallPending(depth: nat, s: State, op: Op, b: Behaviour)
    requires Possible(depth, s, op, b)
    ensures Pending(Call(depth, s, op, b)) == Pending(s) + if Fails(b) then 1 else 0
  {
    hide Balance, Completing, Legal, Exec;
    var steps, ks := CallSteps(s, op, b), Completing(b.completions);
    ExecPending(depth, s, steps);
    CompletingBalance(b.completions);
    match b
    case NoSqe(_) =>
      BalanceAppend([QueueFull(op)], ks);
      ShortBalance(QueueFull(op), QueueFull(op));
    case SubmitError(_) =>
      BalanceAppend([Prepare(op), SubmitFails], ks);
      ShortBalance(Prepare(op), SubmitFails);
      ShortBalance(SubmitFails, SubmitFails);
    case WaitError(count, _) =>
      BalanceAppend([Prepare(op), Submit(count)] + ks, [FetchNothing]);
      BalanceAppend([Prepare(op), Submit(count)], ks);
      ShortBalance(Prepare(op), Submit(count));
      ShortBalance(Submit(count), Submit(count));
      ShortBalance(FetchNothing, FetchNothing);
    case Returns(count, _) =>
      BalanceAppend([Prepare(op), Submit(count)] + ks, [Fetch, CallBack(|s.fetched|)]);
      BalanceAppend([Prepare(op), Submit(count)], ks);
      ShortBalance(Prepare(op), Submit(count));
      ShortBalance(Submit(count), Submit(count));
      ShortBalance(Fetch, CallBack(|s.fetched|));
      ShortBalance(CallBack(|s.fetched|), CallBack(|s.fetched|));
  }

  /** The SQE was taken, but no result was fetched. */
  predicate Fails(b: Behaviour) {
    b.SubmitError? || b.WaitError?
  }

  // ----- whose result is returned

  /** Completions move SQEs from flight to the end of the completion queue, and nothing else. */
  lemma {:induction false} CompletingMoves(depth: nat, s: State, ks: seq<Completion>)
    requires Legal(depth, s, Completing(ks))
    ensures var t := Exec(depth, s, Completing(ks));
            && t.issued == s.issued && t.queued == s.queued && t.fetched == s.fetched && t.calls == s.calls
            && s.completed <= t.completed
            && |t.inFlight| == |s.inFlight| - |ks| && |t.completed| == |s.completed| + |ks|
    decreases |ks|
  {
    if ks != [] {
      var k := ks[0];
      assert Completing(ks)[0] == Complete(k.at, k.res, k.flags) && Completing(ks)[1..] == Completing(ks[1..]);
      CompletingMoves(depth, Completed(s, k.at, k.res, k.flags), ks[1..]);
    }
  }

  /** The state in which the wait of a call that returns ends. */
  function Waited(depth: nat, s: State, op: Op, b: Behaviour): (w: State)
    requires b.Returns? && b.count <= |s.queued| + 1
    requires Legal(depth, Submitted(Prepared(s, op), b.count), Completing(b.completions))
    ensures w.fetched == s.fetched
  {
    CompletingMoves(depth, Submitted(Prepared(s, op), b.count), b.completions);
    Exec(depth, Submitted(Prepared(s, op), b.count), Completing(b.completions))
  }

  lemma CallReturns(depth: nat, s: State, op: Op, b: Behaviour)
    requires b.Returns?
    ensures Possible(depth, s, op, b) <==>
            && |s.queued| < depth && b.count <= |s.queued| + 1
            && Legal(depth, Submitted(Prepared(s, op), b.count), Completing(b.completions))
            && Waited(depth, s, op, b).completed != []
    ensures Possible(depth, s, op, b) ==>
              Call(depth, s, op, b) == CalledBack(Fetched(Waited(depth, s, op, b)), |s.fetched|)
  {
    hide Completing;
    var first, last := [Prepare(op), Submit(b.count)], [Fetch, CallBack(|s.fetched|)];
    ExecAppend(depth, s, first + Completing(b.completions), last);
    ExecAppend(depth, s, first, Completing(b.completions));
    TwoSteps(depth, s, Prepare(op), Submit(b.count));
    if Legal(depth, s, first + Completing(b.completions)) {
      var w := Waited(depth, s, op, b);
      CompletingMoves(depth, Submitted(Prepared(s, op), b.count), b.completions);
      TwoSteps(depth, w, Fetch, CallBack(|s.fetched|));
    }
  }

  lemma TwoSteps(depth: nat, s: State, x: Step, y: Step)
    ensures Legal(depth, s, [x, y]) <==> Enabled(depth, s, x) && Enabled(depth, Next(depth, s, x), y)
    ensures Legal(depth, s, [x, y]) ==> Exec(depth, s, [x, y]) == Next(depth, Next(depth, s, x), y)
  {
    hide Enabled, Next;
    assert [x, y][1..] == [y] && [y][1..] == [];
    if Enabled(depth, s, x) {
      var t := Next(depth, s, x);
      assert Legal(depth, t, [y]) <==> Enabled(depth, t, y);
      assert Enabled(depth, t, y) ==> Exec(depth, t, [y]) == Next(depth, t, y);
    }
  }

  /** What a call leaves behind, whatever happens during it: an SQE is taken unless there is none; it stays queued when
      the submission fails, and otherwise the first `count` SQEs are in flight; each completion moves one of them on;
      and only a call that returns takes the oldest completion and calls it back. */
  predicate Leaves(s: State, op: Op, b: Behaviour, t: State) {
    var own, n := Sqe(|s.issued|, op), |b.completions|;
    var count := if b.NoSqe? || b.SubmitError? then 0 else b.count;
    && t.issued == (if b.NoSqe? then s.issued else s.issued + [op])
    && count <= |s.queued| + 1
    && t.queued == (if b.NoSqe? then s.queued else (s.queued + [own])[count..])
    && |t.inFlight| + n == |s.inFlight| + count
    && |t.fetched| + |t.completed| == |s.fetched| + |s.completed| + n
    && s.fetched + s.completed <= t.fetched + t.completed
    && (if b.Returns? then |t.fetched| == |s.fetched| + 1 &&
                           t.calls == s.calls + [Callback(|s.fetched|, t.fetched[|s.fetched|])]
        else t.fetched == s.fetched && t.calls == s.calls)
  }

  lemma CallExact(depth: nat, s: State, op: Op, b: Behaviour)
    requires Possible(depth, s, op, b)
    ensures Leaves(s, op, b, Call(depth, s, op, b))
  {
    hide Completing, Legal, Exec;
    var ks := Completing(b.completions);
    match b
    case NoSqe(_) =>
      ExecAppend(depth, s, [QueueFull(op)], ks);
      OnlyStep(depth, s, QueueFull(op));
      CompletingMoves(depth, s, b.completions);
    case SubmitError(_) =>
      ExecAppend(depth, s, [Prepare(op), SubmitFails], ks);
      TwoSteps(depth, s, Prepare(op), SubmitFails);
      CompletingMoves(depth, Prepared(s, op), b.completions);
    case WaitError(count, _) =>
      ExecAppend(depth, s, [Prepare(op), Submit(count)] + ks, [FetchNothing]);
      ExecAppend(depth, s, [Prepare(op), Submit(count)], ks);
      TwoSteps(depth, s, Prepare(op), Submit(count));
      CompletingMoves(depth, Submitted(Prepared(s, op), count), b.completions);
      OnlyStep(depth, Exec(depth, Submitted(Prepared(s, op), count), ks), FetchNothing);
    case Returns(_, _) =>
      ReturnLeaves(depth, s, op, b);
  }

  lemma ReturnLeaves(depth: nat, s: State, op: Op, b: Behaviour)
    requires Possible(depth, s, op, b) && b.Returns?
    ensures Leaves(s, op, b, Call(depth, s, op, b))
  {
    hide Completing, Legal, Exec, Possible, Call;
    CallReturns(depth, s, op, b);
    var a := Submitted(Prepared(s, op), b.count);
    CompletingMoves(depth, a, b.completions);
    var w := Exec(depth, a, Completing(b.completions));
    assert w == Waited(depth, s, op, b);
    assert s.fetched + s.completed <= w.fetched + w.completed;
    assert Fetched(w).fetched + Fetched(w).completed == w.fetched + w.completed;
  }

  lemma OnlyStep(depth: nat, s: State, x: Step)
    ensures Legal(depth, s, [x]) <==> Enabled(depth, s, x)
    ensures Legal(depth, s, [x]) ==> Exec(depth, s, [x]) == Next(depth, s, x)
  {
    hide Enabled, Next;
    assert [x][1..] == [];
  }

  /** From an idle ring, whatever the kernel does, a call that returns gives its own result, and the ring is idle
      again. */
  lemma IdleCall(depth: nat, s: State, op: Op, b: Behaviour)
    requires Idle(s) && Possible(depth, s, op, b) && b.Returns?
    ensures OwnResult(depth, s, op, b) && Idle(Call(depth, s, op, b))
    ensures var c := b.completions;
            |c| == 1 && Result(Call(depth, s, op, b).calls, op) == Some(Cqe(|s.issued|, op, c[0].res, c[0].flags))
  {
    hide Possible, Call;
    CallReturns(depth, s, op, b);
    CallPending(depth, s, op, b);
    var own := Sqe(|s.issued|, op);
    var a := Submitted(Prepared(s, op), b.count);
    assert Prepared(s, op).queued == [own];
    CompletingMoves(depth, a, b.completions);
    assert b.count == 1 && a.inFlight == [own];
    var c := b.completions[0];
    assert b.completions[1..] == [];
    assert Completing(b.completions) == [Complete(c.at, c.res, c.flags)];
    var w := Completed(a, c.at, c.res, c.flags);
    assert Exec(depth, w, []) == w;
    assert Waited(depth, s, op, b) == w;
    assert w.completed == [Cqe(|s.issued|, op, c.res, c.flags)];
    LastCall(Fetched(w).calls, Callback(|s.fetched|, w.completed[0]));
  }

  lemma LastCall(calls: seq<Callback>, c: Callback)
    ensures Result(calls + [c], c.cqe.op) == Some(c.cqe)
  {
  }

  /** Callback `i` is the last one of an operation. */
  predicate LastOf(calls: seq<Callback>, op: Op, i: nat) {
    i < |calls| && calls[i].cqe.op == op && forall j :: i < j < |calls| ==> calls[j].cqe.op != op
  }

  /** What an operation holds was handed to it by its last callback; it holds nothing if there was none. */
  lemma {:induction false} ResultExact(calls: seq<Callback>, op: Op)
    ensures match Result(calls, op)
            case Some(c) => exists i: nat :: LastOf(calls, op, i) && calls[i].cqe == c
            case None => forall i :: 0 <= i < |calls| ==> calls[i].cqe.op != op
  {
    if calls != [] {
      var n := |calls| - 1;
      var init := calls[..n];
      ResultExact(init, op);
      if calls[n].cqe.op == op {
        assert LastOf(calls, op, n);
      } else if Result(init, op).Some? {
        var i: nat :| LastOf(init, op, i) && init[i].cqe == Result(init, op).value;
        assert LastOf(calls, op, i);
      } else {
        assert forall i :: 0 <= i < n ==> calls[i] == init[i];
      }
    }
  }

  /** The wait ends with an older completion. */
  function StaleBehaviour(s: State): Behaviour {
    Returns(|s.queued| + 1, if s.completed != [] then [] else [Completion(0, 0, 0)])
  }

  /** If the ring is not idle, the kernel may complete an older SQE first, and the call returns something else. */
  lemma StaleCall(depth: nat, s: State, op: Op)
    requires Inv(s) && !Idle(s) && |s.queued| < depth
    ensures Possible(depth, s, op, StaleBehaviour(s)) && !OwnResult(depth, s, op, StaleBehaviour(s))
  {
    hide Inv, Possible, Call;
    var n, b := |s.issued|, StaleBehaviour(s);
    OldTickets(s);
    var a := Submitted(Prepared(s, op), b.count);
    assert a.inFlight == s.inFlight + (s.queued + [Sqe(n, op)]);
    var w: State;
    if s.completed != [] {
      w := a;
    } else {
      assert a.inFlight[0].ticket < n;
      w := Completed(a, 0, 0, 0);
      assert b.completions[1..] == [];
      assert Completing(b.completions) == [Complete(0, 0, 0)];
      assert Exec(depth, w, []) == w;
    }
    assert Waited(depth, s, op, b) == w;
    assert w.completed[0].ticket < n;
    CallReturns(depth, s, op, b);
    var calls := Call(depth, s, op, b).calls;
    assert calls == s.calls + [Callback(|s.fetched|, w.completed[0])];
    ResultExact(calls, op);
    assert forall i :: 0 <= i < |calls| ==> calls[i].cqe.ticket < n;
  }

  lemma OldTickets(s: State)
    requires Inv(s)
    ensures forall i :: 0 <= i < |s.queued| ==> s.queued[i].ticket < |s.issued|
    ensures forall i :: 0 <= i < |s.inFlight| ==> s.inFlight[i].ticket < |s.issued|
    ensures forall i :: 0 <= i < |s.completed| ==> s.completed[i].ticket < |s.issued|
    ensures forall i :: 0 <= i < |s.calls| ==> s.calls[i].cqe.ticket < |s.issued|
  {
    assert forall i :: 0 <= i < |s.fetched| ==> s.fetched[i] == s.history[i];
    assert forall i :: 0 <= i < |s.completed| ==> s.completed[i] == s.history[|s.fetched| + i];
  }

  /** `submit_and_wait` returns its own result, if it returns one, for sure exactly when the ring is idle before the
      call; except that with a full queue it cannot return any. */
  lemma OwnResultExact(depth: nat, s: State, op: Op)
    requires Inv(s)
    ensures SureOfOwnResult(depth, s, op) <==> Idle(s) || |s.queued| >= depth
  {
    hide Inv, Possible, OwnResult;
    if Idle(s) {
      forall b: Behaviour | b.Returns? && Possible(depth, s, op, b) ensures OwnResult(depth, s, op, b) {
        IdleCall(depth, s, op, b);
      }
    } else if |s.queued| >= depth {
      forall b: Behaviour | b.Returns? ensures !Possible(depth, s, op, b) {
        CallReturns(depth, s, op, b);
      }
    } else {
      StaleCall(depth, s, op);
    }
  }

  // ----- runs of submit_and_wait

  /** A run made of `submit_and_wait` calls only, with or without errors. */
  predicate SyncRun(depth: nat, ops: seq<Op>, bs: seq<Behaviour>, states: seq<State>) {
    && |bs| == |ops| && |states| == |ops| + 1 && states[0] == INITIAL
    && forall i :: 0 <= i < |ops| ==>
                     Possible(depth, states[i], ops[i], bs[i]) && states[i + 1] == Call(depth, states[i], ops[i], bs[i])
  }

  /** The steps of the first `n` calls. */
  function SyncSteps(ops: seq<Op>, bs: seq<Behaviour>, states: seq<State>, n: nat): seq<Step>
    requires n <= |ops| && n <= |bs| && n <= |states|
  {
    if n == 0 then [] else SyncSteps(ops, bs, states, n - 1) + CallSteps(states[n - 1], ops[n - 1], bs[n - 1])
  }

  /** Such a run is a run of steps. */
  lemma {:induction false} SyncRunIsRun(depth: nat, ops: seq<Op>, bs: seq<Behaviour>, states: seq<State>, n: nat)
    requires SyncRun(depth, ops, bs, states) && n <= |ops|
    ensures Legal(depth, INITIAL, SyncSteps(ops, bs, states, n))
    ensures Exec(depth, INITIAL, SyncSteps(ops, bs, states, n)) == states[n]
  {
    hide Legal, Exec, CallSteps;
    if n == 0 {
      NoSteps(depth, INITIAL);
    } else {
      SyncRunIsRun(depth, ops, bs, states, n - 1);
      ExecAppend(depth, INITIAL, SyncSteps(ops, bs, states, n - 1), CallSteps(states[n - 1], ops[n - 1], bs[n - 1]));
    }
  }

  lemma NoSteps(depth: nat, s: State)
    ensures Legal(depth, s, []) && Exec(depth, s, []) == s
  {
  }

  function Failures(bs: seq<Behaviour>, n: nat): nat
    requires n <= |bs|
  {
    if n == 0 then 0 else Failures(bs, n - 1) + if Fails(bs[n - 1]) then 1 else 0
  }

  /** What is left to be answered is one SQE for each call that failed. */
  lemma {:induction false} SyncRunPending(depth: nat, ops: seq<Op>, bs: seq<Behaviour>, states: seq<State>, n: nat)
    requires SyncRun(depth, ops, bs, states) && n <= |ops|
    ensures Pending(states[n]) == Failures(bs, n)
  {
    hide Possible, Call, Fails;
    if n > 0 {
      SyncRunPending(depth, ops, bs, states, n - 1);
      CallPending(depth, states[n - 1], ops[n - 1], bs[n - 1]);
    }
  }

  lemma {:induction false} FailuresExact(bs: seq<Behaviour>, n: nat)
    requires n <= |bs|
    ensures Failures(bs, n) == 0 <==> forall j :: 0 <= j < n ==> !Fails(bs[j])
  {
    if n > 0 {
      FailuresExact(bs, n - 1);
    }
  }

  /** At every point of every run of calls, the next one is sure of its own result exactly when none before it had a
      submit or wait error, or the queue is full. */
  lemma SyncRunExact(depth: nat, ops: seq<Op>, bs: seq<Behaviour>, states: seq<State>, n: nat, op: Op)
    requires SyncRun(depth, ops, bs, states) && n <= |ops|
    ensures SureOfOwnResult(depth, states[n], op) <==>
            (forall j :: 0 <= j < n ==> !Fails(bs[j])) || |states[n].queued| >= depth
  {
    hide Inv, Fails, Possible, Call, SureOfOwnResult, Legal, Exec;
    SyncRunIsRun(depth, ops, bs, states, n);
    RunInv(depth, SyncSteps(ops, bs, states, n));
    SyncRunPending(depth, ops, bs, states, n);
    FailuresExact(bs, n);
    OwnResultExact(depth, states[n], op);
  }

  /** In particular, every call that returns a result before the first such error returns its own. */
  lemma SyncRunOwnResults(depth: nat, ops: seq<Op>, bs: seq<Behaviour>, states: seq<State>, n: nat)
    requires SyncRun(depth, ops, bs, states) && n < |ops| && bs[n].Returns?
    requires forall j :: 0 <= j < n ==> !Fails(bs[j])
    ensures Idle(states[n]) && OwnResult(depth, states[n], ops[n], bs[n])
  {
    hide Fails, Possible, Call, OwnResult;
    SyncRunPending(depth, ops, bs, states, n);
    FailuresExact(bs, n);
    IdleCall(depth, states[n], ops[n], bs[n]);
  }

  /** At a real input: a failed submission leaves its SQE queued, and the next `submit_and_wait` on the ring may return
      the result of the operation that had failed. */
  lemma FailedSubmitLeavesSqe(depth: nat, first: Op, second: Op)
    requires depth >= 2
    ensures Possible(depth, INITIAL, first, SubmitError([]))
    ensures var s := Call(depth, INITIAL, first, SubmitError([]));
            && s.queued == [Sqe(0, first)]
            && exists b: Behaviour :: b.Returns? && Possible(depth, s, second, b) && !OwnResult(depth, s, second, b)
  {
    hide OwnResult;
    var steps := [Prepare(first), SubmitFails];
    assert CallSteps(INITIAL, first, SubmitError([])) == steps;
    TwoSteps(depth, INITIAL, Prepare(first), SubmitFails);
    var s := Prepared(INITIAL, first);
    InitialInv();
    PreparedInv(INITIAL, first);
    StaleCall(depth, s, second);
    assert StaleBehaviour(s).Returns?;
  }
}
