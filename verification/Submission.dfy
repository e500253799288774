/** Submission and completion of one-shot operations: SQEs taken by `to_sqe`, submitted by `submit`, completed by the
    kernel in any order it likes, and fetched by `fetch_result` or `wait_for_result` as results that the user may call
    back. */
module Submission {

  /** The address of an operation object, which is the user data of its SQE and CQE. */
  type Op = nat

  /** An SQE that was taken; tickets number them in the order in which they were taken. */
  datatype Sqe = Sqe(ticket: nat, op: Op)

  datatype Cqe = Cqe(ticket: nat, op: Op, res: int, flags: nat)

  /** A call of `callback` on the result fetched at some place, with what it hands to the operation. */
  datatype Callback = Callback(at: nat, cqe: Cqe)

  datatype State = State(
    /** The operation of each SQE taken, by ticket. */
    issued: seq<Op>,
    /** Taken, but not yet submitted. */
    queued: seq<Sqe>,
    inFlight: seq<Sqe>,
    /** The completion queue. */
    completed: seq<Cqe>,
    /** The results fetched, in order. They are values, which the user may keep. */
    fetched: seq<Cqe>,
    /** The callbacks made, in order. */
    calls: seq<Callback>,
    /** Everything that the kernel ever completed, in order. */
    history: seq<Cqe>)

  const INITIAL := State([], [], [], [], [], [], [])

  // ----- the steps

  datatype Step =
    | Prepare(op: Op)                              // `to_sqe` gets an SQE
    | QueueFull(op: Op)                            // `to_sqe` gets none; nothing is submitted
    | Submit(count: nat)                           // `io_uring_submit` takes the first `count` SQEs
    | SubmitFails                                  // `io_uring_submit` returns an error
    | Complete(at: nat, res: int, flags: nat)      // the kernel completes some SQE in flight
    | Fetch                                        // a result is fetched
    | FetchNothing                                 // the completion queue is empty, or the wait fails
    | CallBack(at: nat)                            // the user calls a fetched result, perhaps not for the first time

  predicate Enabled(depth: nat, s: State, step: Step) {
    match step
    case Prepare(_) => |s.queued| < depth
    case QueueFull(_) => |s.queued| >= depth
    case Submit(count) => count <= |s.queued|
    case SubmitFails => true
    case Complete(at, _, _) => at < |s.inFlight|
    case Fetch => s.completed != []
    case FetchNothing => true
    case CallBack(at) => at < |s.fetched|
  }

  function Prepared(s: State, op: Op): State {
    s.(issued := s.issued + [op], queued := s.queued + [Sqe(|s.issued|, op)])
  }

  function Submitted(s: State, count: nat): State
    requires count <= |s.queued|
  {
    s.(inFlight := s.inFlight + s.queued[..count], queued := s.queued[count..])
  }

  function Completed(s: State, at: nat, res: int, flags: nat): State
    requires at < |s.inFlight|
  {
    var sqe := s.inFlight[at];
    var cqe := Cqe(sqe.ticket, sqe.op, res, flags);
    s.(inFlight := s.inFlight[..at] + s.inFlight[at + 1..],
       completed := s.completed + [cqe],
       history := s.history + [cqe])
  }

  function Fetched(s: State): State
    requires s.completed != []
  {
    s.(completed := s.completed[1..], fetched := s.fetched + [s.completed[0]])
  }

  function CalledBack(s: State, at: nat): State
    requires at < |s.fetched|
  {
    s.(calls := s.calls + [Callback(at, s.fetched[at])])
  }

  function Next(depth: nat, s: State, step: Step): State
    requires Enabled(depth, s, step)
  {
    match step
    case Prepare(op) => Prepared(s, op)
    case QueueFull(_) => s
    case Submit(count) => Submitted(s, count)
    case SubmitFails => s
    case Complete(at, res, flags) => Completed(s, at, res, flags)
    case Fetch => Fetched(s)
    case FetchNothing => s
    case CallBack(at) => CalledBack(s, at)
  }

  /** The steps can be taken one after the other, on a ring whose submission queue holds `depth` SQEs. */
  predicate Legal(depth: nat, s: State, steps: seq<Step>)
    decreases |steps|
  {
    steps == [] || (Enabled(depth, s, steps[0]) && Legal(depth, Next(depth, s, steps[0]), steps[1..]))
  }

  function Exec(depth: nat, s: State, steps: seq<Step>): State
    requires Legal(depth, s, steps)
    decreases |steps|
  {
    if steps == [] then s else Exec(depth, Next(depth, s, steps[0]), steps[1..])
  }

  lemma {:induction false} ExecAppend(depth: nat, s: State, a: seq<Step>, b: seq<Step>)
    ensures Legal(depth, s, a + b) <==> Legal(depth, s, a) && Legal(depth, Exec(depth, s, a), b)
    ensures Legal(depth, s, a + b) ==> Exec(depth, s, a + b) == Exec(depth, Exec(depth, s, a), b)
    decreases |a|
  {
    hide Enabled, Next;
    if a == [] {
      assert a + b == b;
    } else {
      assert (a + b)[0] == a[0] && (a + b)[1..] == a[1..] + b;
      if Enabled(depth, s, a[0]) {
        ExecAppend(depth, Next(depth, s, a[0]), a[1..], b);
      }
    }
  }

  // ----- what every step keeps

  function SqeTickets(q: seq<Sqe>): (t: seq<nat>)
    ensures |t| == |q| && forall i :: 0 <= i < |q| ==> t[i] == q[i].ticket
  {
    seq(|q|, i requires 0 <= i < |q| => q[i].ticket)
  }

  function CqeTickets(q: seq<Cqe>): (t: seq<nat>)
    ensures |t| == |q| && forall i :: 0 <= i < |q| ==> t[i] == q[i].ticket
  {
    seq(|q|, i requires 0 <= i < |q| => q[i].ticket)
  }

  function Range(n: nat): (t: seq<nat>)
    ensures |t| == n && forall i :: 0 <= i < n ==> t[i] == i
  {
    seq(n, i => i)
  }

  function Sqes(q: seq<Sqe>): multiset<nat> {
    multiset(SqeTickets(q))
  }

  function Cqes(q: seq<Cqe>): multiset<nat> {
    multiset(CqeTickets(q))
  }

  /** The tickets in the four places, with their multiplicities. */
  function Places(s: State): multiset<nat> {
    Sqes(s.queued) + Sqes(s.inFlight) + Cqes(s.completed) + Cqes(s.fetched)
  }

  predicate SqesFaithful(issued: seq<Op>, q: seq<Sqe>) {
    forall i :: 0 <= i < |q| ==> q[i].ticket < |issued| && q[i].op == issued[q[i].ticket]
  }

  predicate CqesFaithful(issued: seq<Op>, q: seq<Cqe>) {
    forall i :: 0 <= i < |q| ==> q[i].ticket < |issued| && q[i].op == issued[q[i].ticket]
  }

  /** Every SQE taken is in exactly one of the four places; each carries the operation that took it; the completions are
      fetched in the order in which the kernel made them, unchanged, each once; and a callback hands over what was
      fetched. */
  predicate Inv(s: State) {
    && Places(s) == multiset(Range(|s.issued|))
    && SqesFaithful(s.issued, s.queued) && SqesFaithful(s.issued, s.inFlight)
    && CqesFaithful(s.issued, s.history)
    && s.fetched + s.completed == s.history
    && forall i :: 0 <= i < |s.calls| ==>
                     s.calls[i].at < |s.fetched| && s.calls[i].cqe == s.fetched[s.calls[i].at]
  }

  lemma SqesAppend(a: seq<Sqe>, b: seq<Sqe>)
    ensures Sqes(a + b) == Sqes(a) + Sqes(b)
  {
    assert SqeTickets(a + b) == SqeTickets(a) + SqeTickets(b);
  }

  lemma CqesAppend(a: seq<Cqe>, b: seq<Cqe>)
    ensures Cqes(a + b) == Cqes(a) + Cqes(b)
  {
    assert CqeTickets(a + b) == CqeTickets(a) + CqeTickets(b);
  }

  lemma SqesOne(x: Sqe)
    ensures Sqes([x]) == multiset{x.ticket}
  {
    assert SqeTickets([x]) == [x.ticket];
  }

  lemma CqesOne(x: Cqe)
    ensures Cqes([x]) == multiset{x.ticket}
  {
    assert CqeTickets([x]) == [x.ticket];
  }

  lemma PreparedInv(s: State, op: Op)
    requires Inv(s)
    ensures Inv(Prepared(s, op))
  {
    hide Sqes, Cqes;
    var n := |s.issued|;
    SqesAppend(s.queued, [Sqe(n, op)]);
    SqesOne(Sqe(n, op));
    assert Range(n + 1) == Range(n) + [n];
  }

  lemma SubmittedInv(s: State, count: nat)
    requires Inv(s) && count <= |s.queued|
    ensures Inv(Submitted(s, count))
  {
    hide Sqes, Cqes;
    var a, b := s.queued[..count], s.queued[count..];
    assert s.queued == a + b;
    SqesAppend(a, b);
    SqesAppend(s.inFlight, a);
  }

  /** Completing moves one ticket from flight to the completion queue. */
  lemma CompletedPlaces(s: State, at: nat, res: int, flags: nat)
    requires at < |s.inFlight|
    ensures Places(Completed(s, at, res, flags)) == Places(s)
  {
    hide Sqes, Cqes;
    var a, x, b := s.inFlight[..at], s.inFlight[at], s.inFlight[at + 1..];
    var cqe := Cqe(x.ticket, x.op, res, flags);
    assert s.inFlight == a + ([x] + b);
    SqesAppend(a, [x] + b);
    SqesAppend([x], b);
    SqesAppend(a, b);
    SqesOne(x);
    CqesOne(cqe);
    CqesAppend(s.completed, [cqe]);
  }

  lemma CompletedInv(s: State, at: nat, res: int, flags: nat)
    requires Inv(s) && at < |s.inFlight|
    ensures Inv(Completed(s, at, res, flags))
  {
    hide Places;
    CompletedPlaces(s, at, res, flags);
    var x := s.inFlight[at];
    var cqe := Cqe(x.ticket, x.op, res, flags);
    assert s.fetched + (s.completed + [cqe]) == s.history + [cqe];
  }

  /** Fetching moves one ticket from the completion queue to the user. */
  lemma FetchedPlaces(s: State)
    requires s.completed != []
    ensures Places(Fetched(s)) == Places(s)
  {
    hide Sqes, Cqes;
    var c, rest := s.completed[0], s.completed[1..];
    assert s.completed == [c] + rest;
    CqesAppend([c], rest);
    CqesAppend(s.fetched, [c]);
    CqesOne(c);
  }

  lemma FetchedInv(s: State)
    requires Inv(s) && s.completed != []
    ensures Inv(Fetched(s))
  {
    hide Places;
    FetchedPlaces(s);
    var c, rest := s.completed[0], s.completed[1..];
    assert s.fetched + [c] + rest == s.fetched + ([c] + rest);
    assert s.completed == [c] + rest;
  }

  lemma InitialInv()
    ensures Inv(INITIAL)
  {
  }

  lemma NextInv(depth: nat, s: State, step: Step)
    requires Inv(s) && Enabled(depth, s, step)
    ensures Inv(Next(depth, s, step))
  {
    hide Inv;
    match step
    case Prepare(op) => PreparedInv(s, op);
    case QueueFull(_) =>
    case Submit(count) => SubmittedInv(s, count);
    case SubmitFails =>
    case Complete(at, res, flags) => CompletedInv(s, at, res, flags);
    case Fetch => FetchedInv(s);
    case FetchNothing =>
    case CallBack(at) => CalledBackInv(s, at);
  }

  lemma CalledBackInv(s: State, at: nat)
    requires Inv(s) && at < |s.fetched|
    ensures Inv(CalledBack(s, at))
  {
    hide Sqes, Cqes, SqesFaithful, CqesFaithful;
  }

  lemma {:induction false} ExecInv(depth: nat, s: State, steps: seq<Step>)
    requires Inv(s) && Legal(depth, s, steps)
    ensures Inv(Exec(depth, s, steps))
    decreases |steps|
  {
    hide Inv, Enabled, Next;
    if steps != [] {
      NextInv(depth, s, steps[0]);
      ExecInv(depth, Next(depth, s, steps[0]), steps[1..]);
    }
  }

  /** After every run. */
  lemma RunInv(depth: nat, steps: seq<Step>)
    requires Legal(depth, INITIAL, steps)
    ensures Inv(Exec(depth, INITIAL, steps))
  {
    hide Inv, Legal, Exec;
    InitialInv();
    ExecInv(depth, INITIAL, steps);
  }

  /** In every run, no more SQEs are queued than the submission queue holds. */
  lemma {:induction false} QueueBound(depth: nat, s: State, steps: seq<Step>)
    requires Legal(depth, s, steps) && |s.queued| <= depth
    ensures |Exec(depth, s, steps).queued| <= depth
    decreases |steps|
  {
    if steps != [] {
      QueueBound(depth, Next(depth, s, steps[0]), steps[1..]);
    }
  }

  /** After every run, each SQE taken is in exactly one place. */
  lemma ExactlyOnePlace(depth: nat, steps: seq<Step>, ticket: nat)
    requires Legal(depth, INITIAL, steps) && ticket < |Exec(depth, INITIAL, steps).issued|
    ensures var s := Exec(depth, INITIAL, steps);
            Sqes(s.queued)[ticket] + Sqes(s.inFlight)[ticket]
            + Cqes(s.completed)[ticket] + Cqes(s.fetched)[ticket] == 1
  {
    RunInv(depth, steps);
    RangeOnce(|Exec(depth, INITIAL, steps).issued|, ticket);
  }

  lemma {:induction false} RangeOnce(n: nat, t: nat)
    ensures multiset(Range(n))[t] == if t < n then 1 else 0
  {
    if n > 0 {
      RangeOnce(n - 1, t);
      assert Range(n) == Range(n - 1) + [n - 1];
    }
  }

  /** After every run: each callback goes to the operation that prepared the SQE, with the result and flags of its
      completion; the results are fetched in completion order; and two callbacks concern the same SQE exactly when the
      user called the same fetched result twice. */
  lemma CallbacksAreFaithful(depth: nat, steps: seq<Step>)
    requires Legal(depth, INITIAL, steps)
    ensures var s := Exec(depth, INITIAL, steps);
            && s.fetched <= s.history
            && (forall i :: 0 <= i < |s.calls| ==>
                  var c := s.calls[i];
                  && c.at < |s.fetched| && c.cqe == s.fetched[c.at]
                  && c.cqe.ticket < |s.issued| && c.cqe.op == s.issued[c.cqe.ticket])
            && (forall i, j :: 0 <= i < |s.calls| && 0 <= j < |s.calls| ==>
                  (s.calls[i].cqe.ticket == s.calls[j].cqe.ticket <==> s.calls[i].at == s.calls[j].at))
  {
    hide Legal, Exec, Places;
    var s := Exec(depth, INITIAL, steps);
    RunInv(depth, steps);
    FetchedOnce(s);
    assert forall i :: 0 <= i < |s.fetched| ==> s.fetched[i] == s.history[i];
  }

  lemma FetchedOnce(s: State)
    requires Inv(s)
    ensures forall i, j :: 0 <= i < |s.fetched| && 0 <= j < |s.fetched| && s.fetched[i].ticket == s.fetched[j].ticket
              ==> i == j
  {
    var t := CqeTickets(s.fetched);
    forall i, j | 0 <= i < |s.fetched| && 0 <= j < |s.fetched| && s.fetched[i].ticket == s.fetched[j].ticket
      ensures i == j
    {
      var ticket := t[i];
      RangeOnce(|s.issued|, ticket);
      assert multiset(t)[ticket] <= 1;
      if i < j {
        TwiceCounts(t, i, j);
      } else if j < i {
        TwiceCounts(t, j, i);
      }
    }
  }

  lemma TwiceCounts(t: seq<nat>, i: nat, j: nat)
    requires i < j < |t| && t[i] == t[j]
    ensures multiset(t)[t[i]] >= 2
  {
    var a, b := t[..j], t[j..];
    assert t == a + b && a[i] == t[i] && b[0] == t[j];
    assert t[i] in multiset(a) && t[i] in multiset(b);
  }
}
