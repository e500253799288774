/** What each command does to the rings and to what the native side sees, in every run. */
module RegistryEffects {
  import opened Errors
  import opened NativeCalls
  import opened BufferRegistry

  /** No slot of the ring is in use, and no native ring is live on the io_uring that it had; everything else stays. */
  predicate Cleared(s: System, t: System, r: nat, w: World, v: World)
    requires r < |s.rings|
  {
    var fd := s.rings[r].fd;
    && OnlyChanges(s, t, r) && NoGroups(t.rings[r].slots)
    && v.live == map b | b in w.live && w.live[b].fd != fd :: w.live[b]
  }

  /** The effect of a command, from state `s` with world `w` to state `t` with world `v`. */
  predicate Effect(s: System, c: Command, t: System, w: World, v: World)
    requires c.ring < |s.rings|
  {
    var r := c.ring;
    var fd := s.rings[r].fd;
    match c
    case Init(_, outcome) =>
      && OnlyChanges(s, t, r) && t.rings[r].slots == (if outcome.ProbeFails? then EmptyTable() else s.rings[r].slots)
      && v.live == w.live && NoGroups(t.rings[r].slots)
      && (if outcome.Ready? then v.open == w.open + {outcome.fd as int} && t.rings[r].fd == outcome.fd
          else v.open == w.open && t.rings[r].fd < 0)
    case Register(_, entries, bgid, made) =>
      && InTable(s, r, bgid)
      && (if s.rings[r].slots[bgid].buf.None? && made.Some? then
            && t.rings == s.rings[r := RingState(fd, s.rings[r].slots[bgid := Slot(Some(r), made, entries, bgid)])]
            && v.open == w.open && made.value !in w.live
            && v.live == w.live[made.value := Lease(fd, entries, bgid)]
          else t == s)
    case Unregister(_, bgid) =>
      && InTable(s, r, bgid)
      && OnlyChanges(s, t, r) && t.rings[r].fd == fd && |t.rings[r].slots| == |s.rings[r].slots|
      && t.rings[r].slots[bgid].buf.None?
      && (forall i :: 0 <= i < |s.rings[r].slots| && i != bgid ==> t.rings[r].slots[i] == s.rings[r].slots[i])
      && v.open == w.open
      && v.live == map b | b in w.live && !(w.live[b].fd == fd && w.live[b].bgid == bgid) :: w.live[b]
    case Exit(_) => Cleared(s, t, r, w, v) && t.rings[r].fd < 0 && v.open == w.open - {fd}
    case Reinit(_, outcome) =>
      && Cleared(s, t, r, w, v)
      && (if outcome.Ready? then v.open == w.open - {fd} + {outcome.fd as int} && t.rings[r].fd == outcome.fd
          else v.open == w.open - {fd} && t.rings[r].fd < 0)
    case Swap(_, q) =>
      && q < |s.rings| && |t.rings| == |s.rings| && t.trace == s.trace && v == w
      && t.rings[r] == RingState(s.rings[q].fd, s.rings[r].slots)
      && t.rings[q] == RingState(fd, s.rings[q].slots)
      && forall p :: 0 <= p < |s.rings| && p != r && p != q ==> t.rings[p] == s.rings[p]
    case Renew(_) =>
      && Cleared(s, t, r, w, v) && t.rings[r] == RingState(-1, EmptyTable()) && v.open == w.open - {fd}
  }

  /** Every step has its effect, and only adds to the native calls made so far. */
  lemma StepExact(s: System, c: Command)
    requires Inv(s) && Admissible(s, c)
    ensures Inv(Step(s, c)) && s.trace <= Step(s, c).trace
    ensures Effect(s, c, Step(s, c), Replay(s.trace).value, Replay(Step(s, c).trace).value)
  {
    StepInv(s, c);
    match c
    case Init(r, outcome) => InitEffect(s, r, outcome);
    case Register(r, entries, bgid, made) => RegisterEffect(s, r, entries, bgid, made);
    case Unregister(r, bgid) => UnregisterEffect(s, r, bgid);
    case Exit(r) => ExitEffect(s, r);
    case Reinit(r, outcome) => ReinitEffect(s, r, outcome);
    case Swap(q, r) =>
    case Renew(r) => RenewEffect(s, r);
  }

  lemma InitEffect(s: System, r: nat, outcome: InitOutcome)
    requires Inv(s) && Admissible(s, Init(r, outcome))
    ensures Inv(Inited(s, r, outcome)) && s.trace <= Inited(s, r, outcome).trace
    ensures Effect(s, Init(r, outcome), Inited(s, r, outcome),
                   Replay(s.trace).value, Replay(Inited(s, r, outcome).trace).value)
  {
    hide Replay, Matches, Clearing;
    InitedInv(s, r, outcome);
    InvalidHasNoGroups(s.rings, r, Replay(s.trace).value);
  }

  lemma RegisterEffect(s: System, r: nat, entries: nat, bgid: nat, made: Option<nat>)
    requires Inv(s) && Admissible(s, Register(r, entries, bgid, made))
    ensures Inv(Registered(s, r, entries, bgid, made)) && s.trace <= Registered(s, r, entries, bgid, made).trace
    ensures Effect(s, Register(r, entries, bgid, made), Registered(s, r, entries, bgid, made),
                   Replay(s.trace).value, Replay(Registered(s, r, entries, bgid, made).trace).value)
  {
    hide Replay, Matches;
    RegisteredInv(s, r, entries, bgid, made);
  }

  lemma UnregisterEffect(s: System, r: nat, bgid: nat)
    requires Inv(s) && Admissible(s, Unregister(r, bgid))
    ensures Inv(Unregistered(s, r, bgid)) && s.trace <= Unregistered(s, r, bgid).trace
    ensures Effect(s, Unregister(r, bgid), Unregistered(s, r, bgid),
                   Replay(s.trace).value, Replay(Unregistered(s, r, bgid).trace).value)
  {
    hide Replay, Matches;
    UnregisteredInv(s, r, bgid);
    var live, fd := Replay(s.trace).value.live, s.rings[r].fd;
    assert Without(live, fd, bgid, bgid + 1) ==
           map b | b in live && !(live[b].fd == fd && live[b].bgid == bgid) :: live[b];
  }

  lemma ExitEffect(s: System, r: nat)
    requires Inv(s) && r < |s.rings|
    ensures Inv(Exited(s, r)) && s.trace <= Exited(s, r).trace
    ensures Effect(s, Exit(r), Exited(s, r), Replay(s.trace).value, Replay(Exited(s, r).trace).value)
  {
    hide Replay, Matches, Clearing;
    ExitedInv(s, r);
    InvalidHasNoGroups(Exited(s, r).rings, r, Replay(Exited(s, r).trace).value);
  }

  lemma ReinitEffect(s: System, r: nat, outcome: InitOutcome)
    requires Inv(s) && Admissible(s, Reinit(r, outcome))
    ensures Inv(Inited(Exited(s, r), r, outcome)) && s.trace <= Inited(Exited(s, r), r, outcome).trace
    ensures Effect(s, Reinit(r, outcome), Inited(Exited(s, r), r, outcome),
                   Replay(s.trace).value, Replay(Inited(Exited(s, r), r, outcome).trace).value)
  {
    hide Replay, Matches, Clearing, Exited, Inited, FreshFd;
    ExitedInv(s, r);
    ExitEffect(s, r);
    InitEffect(Exited(s, r), r, outcome);
  }

  lemma RenewEffect(s: System, r: nat)
    requires Inv(s) && r < |s.rings|
    ensures Inv(Destroyed(s, r)) && s.trace <= Destroyed(s, r).trace
    ensures Effect(s, Renew(r), Destroyed(s, r), Replay(s.trace).value, Replay(Destroyed(s, r).trace).value)
  {
    hide Replay, Matches, Clearing, Exited;
    ExitEffect(s, r);
    ExitedInv(s, r);
    DestroyedInv(s, r);
  }

  /** In every run, every command has its effect. */
  lemma RunSteps(n: nat, cs: seq<Command>, states: seq<System>, k: nat)
    requires Run(n, cs, states) && k < |cs|
    ensures Inv(states[k]) && Inv(states[k + 1]) && cs[k].ring < n == |states[k].rings|
    ensures states[k].trace <= states[k + 1].trace
    ensures Effect(states[k], cs[k], states[k + 1], Replay(states[k].trace).value, Replay(states[k + 1].trace).value)
  {
    hide Inv, Step, Effect;
    RunInv(n, cs, states, k);
    StepExact(states[k], cs[k]);
    CommandRing(states[k], cs[k]);
  }

  /** After the destructors of all rings, in any order and at any point of any run: every native ring that was set up
      has been freed by exactly one call, with the arguments of its setup and before its io_uring was torn down; and
      nothing else was freed. */
  lemma EachFreedOnce(n: nat, cs: seq<Command>, states: seq<System>, k: nat, order: seq<nat>)
    requires Run(n, cs, states) && k < |states| && AllRings(|states[k].rings|, order)
    ensures var trace := DestroyedIn(states[k], order).trace;
            && (forall j: nat :: j < |trace| && trace[j].SetupBufRing? ==> exists l: nat :: FreedBy(trace, j, l))
            && (forall l: nat :: l < |trace| && trace[l].FreeBufRing? ==> exists j: nat :: FreedBy(trace, j, l))
            && (forall i: nat, j: nat, l: nat :: FreedBy(trace, i, l) && FreedBy(trace, j, l) ==> i == j)
            && (forall j: nat, l: nat, m: nat :: FreedBy(trace, j, l) && FreedBy(trace, j, m) ==> l == m)
  {
    hide Replay, FreedBy, DestroyedIn, Run;
    DestructorFreesAll(n, cs, states, k, order);
    FreedOnce(DestroyedIn(states[k], order).trace);
  }

  lemma CommandRing(s: System, c: Command)
    requires Admissible(s, c)
    ensures c.ring < |s.rings|
  {
  }

  /** What the callers may ask for: exit and destruction always; unregistering any sixteen-bit identifier always, and
      registering one on every valid ring; and swapping rings that have no group. The kernel sets up no native ring that
      is live. */
  lemma AdmissibleExact(s: System, r: nat, q: nat, bgid: nat, entries: nat)
    requires Inv(s)
    ensures Admissible(s, Exit(r)) <==> r < |s.rings|
    ensures Admissible(s, Renew(r)) <==> r < |s.rings|
    ensures Admissible(s, Unregister(r, bgid)) <==> r < |s.rings| && bgid < 0x1_0000
    ensures Admissible(s, Register(r, entries, bgid, None)) <==>
            r < |s.rings| && bgid < 0x1_0000 && s.rings[r].fd >= 0
    ensures forall b: nat ::
              Admissible(s, Register(r, entries, bgid, Some(b))) <==>
              && r < |s.rings| && bgid < 0x1_0000 && s.rings[r].fd >= 0
              && b !in Replay(s.trace).value.live
    ensures Admissible(s, Swap(q, r)) <==>
            && q < |s.rings| && r < |s.rings|
            && (q == r ||
                ((forall i :: 0 <= i < |s.rings[q].slots| ==> s.rings[q].slots[i].buf == None) &&
                 (forall i :: 0 <= i < |s.rings[r].slots| ==> s.rings[r].slots[i].buf == None)))
  {
    hide Replay, Exited, Matches;
    if r < |s.rings| {
      TableSize(s, r);
    }
  }

  /** Init is for rings that are not valid, and reinit for all; the kernel opens no io_uring that is open by then. */
  lemma AdmissibleInit(s: System, r: nat, fd: nat)
    requires Inv(s)
    ensures Admissible(s, Init(r, QueueFails)) <==> r < |s.rings| && s.rings[r].fd < 0
    ensures Admissible(s, Init(r, Ready(fd))) <==>
            r < |s.rings| && s.rings[r].fd < 0 && fd !in Replay(s.trace).value.open
    ensures Admissible(s, Init(r, ProbeFails(fd))) <==> Admissible(s, Init(r, Ready(fd)))
    ensures Admissible(s, Reinit(r, QueueFails)) <==> r < |s.rings|
    ensures Admissible(s, Reinit(r, Ready(fd))) <==>
            r < |s.rings| && (fd == s.rings[r].fd || fd !in Replay(s.trace).value.open)
    ensures Admissible(s, Reinit(r, ProbeFails(fd))) <==> Admissible(s, Reinit(r, Ready(fd)))
  {
    hide Replay, Exited, Matches, Elsewhere;
    if r < |s.rings| {
      ExitedInv(s, r);
    }
  }
}
