/** What becomes of the buffer groups when the rings that hold them are swapped. */
module RingSwap {
  import opened Errors
  import opened NativeCalls
  import opened BufferRegistry

  // ----- what destructors free

  lemma {:induction false} ClearingFrees(rings: seq<RingState>, slots: seq<Slot>, n: nat)
    requires n <= |slots|
    ensures NoSetups(Clearing(rings, slots, n))
    ensures forall i, b :: 0 <= i < n && slots[i].buf == Some(b) ==>
                             FreeBufRing(b, Lease(PointedFd(rings, slots[i]), slots[i].entries, slots[i].bgid))
                             in Clearing(rings, slots, n)
  {
    hide PointedFd;
    if n > 0 {
      ClearingFrees(rings, slots, n - 1);
    }
  }

  /** The native calls of the destructor of a ring. */
  function DestructorCalls(s: System, r: nat): seq<Event>
    requires r < |s.rings|
  {
    var t, ring := Exited(s, r), s.rings[r];
    var rest := t.rings[r].slots;
    (if ring.fd < 0 then [] else Clearing(s.rings, ring.slots, |ring.slots|) + [QueueExit(ring.fd)])
    + Clearing(t.rings, rest, |rest|)
  }

  lemma DestroyedCalls(s: System, r: nat)
    requires r < |s.rings|
    ensures Destroyed(s, r).trace == s.trace + DestructorCalls(s, r)
    ensures s.trace <= Destroyed(s, r).trace && Destroyed(s, r).trace[|s.trace|..] == DestructorCalls(s, r)
  {
    hide Clearing;
  }

  /** The destructor of a ring frees what its slots hold, on the io_uring that they point to. */
  lemma DestroyedFrees(s: System, r: nat, i: nat)
    requires InTable(s, r, i) && s.rings[r].slots[i].buf.Some?
    ensures var slot := s.rings[r].slots[i];
            Adds(s.trace, Destroyed(s, r).trace,
                 FreeBufRing(slot.buf.value, Lease(PointedFd(s.rings, slot), slot.entries, slot.bgid)))
  {
    hide PointedFd, Destroyed, Clearing;
    DestroyedContinues(s, r);
    DestroyedCalls(s, r);
    ClearingFrees(s.rings, s.rings[r].slots, |s.rings[r].slots|);
  }

  lemma DestroyedContinues(s: System, r: nat)
    requires r < |s.rings|
    ensures Continues(s.trace, Destroyed(s, r).trace)
  {
    hide Destroyed, Clearing;
    DestroyedCalls(s, r);
    var rest := Exited(s, r).rings[r].slots;
    ClearingFrees(s.rings, s.rings[r].slots, |s.rings[r].slots|);
    ClearingFrees(Exited(s, r).rings, rest, |rest|);
  }

  /** Destroying rings in any order frees what each of them holds, on the io_uring that it has at the start. */
  lemma {:induction false} DestroyedInFrees(s: System, order: seq<nat>, r: nat, i: nat)
    requires forall k :: 0 <= k < |order| ==> order[k] < |s.rings|
    requires InTable(s, r, i) && s.rings[r].slots[i].buf.Some? && s.rings[r].slots[i].rawRing == Some(r)
    ensures var t, slot := DestroyedIn(s, order), s.rings[r].slots[i];
            var ev := FreeBufRing(slot.buf.value, Lease(s.rings[r].fd, slot.entries, slot.bgid));
            && Continues(s.trace, t.trace)
            && (if r in order then Adds(s.trace, t.trace, ev) else t.rings[r] == s.rings[r])
  {
    hide Destroyed, Adds, Continues;
    var slot := s.rings[r].slots[i];
    var ev := FreeBufRing(slot.buf.value, Lease(s.rings[r].fd, slot.entries, slot.bgid));
    if order == [] {
      ContinuesItself(s.trace);
    } else {
      var init, last := order[..|order| - 1], order[|order| - 1];
      var t := DestroyedIn(s, init);
      assert order == init + [last];
      DestroyedInFrees(s, init, r, i);
      DestroyedContinues(t, last);
      Continued(s.trace, t.trace, Destroyed(t, last).trace, ev);
      DestroyedElsewhere(t, last);
      if r !in init && last == r {
        DestroyedFrees(t, r, i);
      }
    }
  }

  lemma DestroyedElsewhere(s: System, r: nat)
    requires r < |s.rings|
    ensures OnlyChanges(s, Destroyed(s, r), r)
  {
  }

  /** A swap is harmless exactly when neither ring has a group: otherwise, in whatever order the rings are destroyed,
      some native ring is freed on an io_uring that it was not set up on. */
  lemma SwapExact(s: System, q: nat, r: nat, order: seq<nat>)
    requires Inv(s) && q < |s.rings| && r < |s.rings| && AllRings(|s.rings|, order)
    ensures Replay(DestroyedIn(Swapped(s, q, r), order).trace) ==
            if Swappable(s, q, r) then Some(World({}, map[])) else None
  {
    hide Inv, Replay, DestroyedIn, Swapped, Swappable, NoGroups;
    var t := Swapped(s, q, r);
    SwappedInv(s, q, r);
    SwappedSize(s, q, r);
    if Swappable(s, q, r) {
      DestroyedInInv(t, order);
      NothingLeft(DestroyedIn(t, order));
    } else {
      NotSwappable(s, q, r);
      if !NoGroups(s.rings[q].slots) {
        SwapLoses(s, t, q, r, order);
      } else {
        SwapLoses(s, t, r, q, order);
      }
    }
  }

  lemma SwappedSize(s: System, q: nat, r: nat)
    requires q < |s.rings| && r < |s.rings|
    ensures var t := Swapped(s, q, r);
            && t.trace == s.trace && |t.rings| == |s.rings|
            && t.rings[q] == s.rings[q].(fd := s.rings[r].fd) && t.rings[r] == s.rings[r].(fd := s.rings[q].fd)
  {
  }

  lemma NotSwappable(s: System, q: nat, r: nat)
    requires q < |s.rings| && r < |s.rings| && !Swappable(s, q, r)
    ensures q != r && (!NoGroups(s.rings[q].slots) || !NoGroups(s.rings[r].slots))
  {
  }

  /** Ring `q` has a group and has been given the io_uring of ring `r`. */
  lemma SwapLoses(s: System, t: System, q: nat, r: nat, order: seq<nat>)
    requires Inv(s) && q < |s.rings| && r < |s.rings| && q != r && !NoGroups(s.rings[q].slots)
    requires t.trace == s.trace && |t.rings| == |s.rings| && t.rings[q] == s.rings[q].(fd := s.rings[r].fd)
    requires q in order && forall k :: 0 <= k < |order| ==> order[k] < |t.rings|
    ensures Replay(DestroyedIn(t, order).trace).None?
  {
    hide Replay, DestroyedIn, OpenExactly, Owned, Adds;
    var slots, w := s.rings[q].slots, Replay(s.trace).value;
    var i :| 0 <= i < |slots| && slots[i].buf.Some?;
    assert Owns(s.rings[q], q, w.live);
    DistinctFds(s.rings, w.open, q, r);
    DestroyedInFrees(t, order, q, i);
    WrongFails(t.trace, DestroyedIn(t, order).trace, slots[i].buf.value,
               Lease(t.rings[q].fd, slots[i].entries, slots[i].bgid));
  }

  /** A run of two rings that ends with both valid and a group on the first. */
  const EXAMPLE := [Init(0, Ready(3)), Init(1, Ready(4)), Register(0, 8, 7, Some(0))]

  function ExampleStates(): seq<System> {
    var s0 := Initial(2);
    var s1 := Inited(s0, 0, Ready(3));
    var s2 := Inited(s1, 1, Ready(4));
    var s3 := Registered(s2, 0, 8, 7, Some(0));
    [s0, s1, s2, s3]
  }

  lemma ExampleRun()
    ensures Run(2, EXAMPLE, ExampleStates())
  {
    hide Replay, Matches, Allowed, Exited;
    var s := ExampleStates();
    InitialInv(2);
    EmptyReplay();
    InitedInv(s[0], 0, Ready(3));
    InitedInv(s[1], 1, Ready(4));
    assert Admissible(s[0], EXAMPLE[0]) && s[1] == Step(s[0], EXAMPLE[0]);
    assert Admissible(s[1], EXAMPLE[1]) && s[2] == Step(s[1], EXAMPLE[1]);
    assert Admissible(s[2], EXAMPLE[2]) && s[3] == Step(s[2], EXAMPLE[2]);
  }

  lemma EmptyReplay()
    ensures Replay([]) == Some(World({}, map[]))
  {
  }

  /** At a reachable pair of rings: after a group is registered on one of two valid rings and the rings are swapped, the
      destructors make a native call that is not allowed, in either order. */
  lemma SwapExample()
    ensures Run(2, EXAMPLE, ExampleStates())
    ensures var s := ExampleStates()[3];
            && |s.rings| == 2
            && Replay(DestroyedIn(s, [0, 1]).trace) == Some(World({}, map[]))
            && Replay(DestroyedIn(Swapped(s, 0, 1), [0, 1]).trace) == None
            && Replay(DestroyedIn(Swapped(s, 0, 1), [1, 0]).trace) == None
  {
    hide Replay, DestroyedIn, Inv, Run, Swapped;
    var s := ExampleStates()[3];
    ExampleRun();
    RunInv(2, EXAMPLE, ExampleStates(), 3);
    assert AllRings(2, [0, 1]) && AllRings(2, [1, 0]) by {
      assert [0, 1][0] == 0 && [0, 1][1] == 1 && [1, 0][0] == 1 && [1, 0][1] == 0;
    }
    assert s.rings[0].slots[7].buf.Some?;
    DestructorFreesAll(2, EXAMPLE, ExampleStates(), 3, [0, 1]);
    SwapExact(s, 0, 1, [0, 1]);
    SwapExact(s, 0, 1, [1, 0]);
  }
}
