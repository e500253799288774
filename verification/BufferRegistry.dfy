/** The provided-buffer groups of the `ring` objects of a program: tables of slots that own native buffer rings through
    moves, swaps and destructors, and the lives of the io_urings that they point to. */
module BufferRegistry {
  import opened Errors
  import opened NativeCalls

  /** `buffer_ring_size_max`. */
  const SLOTS: nat := 65536

  // ----- the rings, as values

  /** `buffer_ring`: a pointer to the io_uring of some ring object, given by the index of that object, and the native
      ring that is owned, if any. */
  datatype Slot = Slot(rawRing: Option<nat>, buf: Option<nat>, entries: nat, bgid: int)

  const EMPTY := Slot(None, None, 0, -1)

  /** What a move leaves behind: the pointer stays. */
  function MovedFrom(slot: Slot): Slot {
    Slot(slot.rawRing, None, 0, -1)
  }

  /** `ring`: its io_uring, and its table of slots. */
  datatype RingState = RingState(fd: int, slots: seq<Slot>)

  /** All ring objects, and the native calls made so far. */
  datatype System = System(rings: seq<RingState>, trace: seq<Event>)

  const INVALID_FD := -1

  function EmptyTable(): (t: seq<Slot>)
    ensures |t| == SLOTS && forall i :: 0 <= i < SLOTS ==> t[i] == EMPTY
  {
    seq(SLOTS, _ => EMPTY)
  }

  /** A default-constructed ring. */
  function NewRing(): RingState {
    RingState(INVALID_FD, EmptyTable())
  }

  function Initial(n: nat): System {
    System(seq(n, _ => NewRing()), [])
  }

  /** The io_uring that a slot points to at present. */
  function PointedFd(rings: seq<RingState>, slot: Slot): int {
    if slot.rawRing.Some? && slot.rawRing.value < |rings| then rings[slot.rawRing.value].fd else INVALID_FD
  }

  /** What the destructor of a slot does. */
  function Destruction(rings: seq<RingState>, slot: Slot): seq<Event> {
    if slot.buf.None? then []
    else [FreeBufRing(slot.buf.value, Lease(PointedFd(rings, slot), slot.entries, slot.bgid))]
  }

  /** What destroying the first `n` slots of a table does. */
  function Clearing(rings: seq<RingState>, slots: seq<Slot>, n: nat): seq<Event>
    requires n <= |slots|
  {
    if n == 0 then [] else Clearing(rings, slots, n - 1) + Destruction(rings, slots[n - 1])
  }

  function Exited(s: System, r: nat): System
    requires r < |s.rings|
  {
    var ring := s.rings[r];
    if ring.fd < 0 then s
    else System(s.rings[r := NewRing()], s.trace + Clearing(s.rings, ring.slots, |ring.slots|) + [QueueExit(ring.fd)])
  }

  /** What the destructor of a ring does: exit, and then the slots that are left die with their table. The place is as
      good as new. */
  function Destroyed(s: System, r: nat): System
    requires r < |s.rings|
  {
    var t := Exited(s, r);
    var slots := t.rings[r].slots;
    System(t.rings[r := NewRing()], t.trace + Clearing(t.rings, slots, |slots|))
  }

  /** What the kernel and the allocator answer to `do_init`. */
  datatype InitOutcome = QueueFails | ProbeFails(fd: nat) | Ready(fd: nat)

  function Opened(s: System, r: nat, fd: nat): System
    requires r < |s.rings|
  {
    System(s.rings[r := s.rings[r].(fd := fd)], s.trace + [QueueInit(fd)])
  }

  function Inited(s: System, r: nat, outcome: InitOutcome): System
    requires r < |s.rings|
  {
    match outcome
    case QueueFails => s.(rings := s.rings[r := s.rings[r].(fd := INVALID_FD)])
    case ProbeFails(fd) => Exited(Opened(s, r, fd), r)
    case Ready(fd) => Opened(s, r, fd)
  }

  predicate InTable(s: System, r: nat, bgid: nat) {
    r < |s.rings| && bgid < |s.rings[r].slots|
  }

  function WithSlot(rings: seq<RingState>, r: nat, bgid: nat, slot: Slot): seq<RingState>
    requires r < |rings| && bgid < |rings[r].slots|
  {
    rings[r := rings[r].(slots := rings[r].slots[bgid := slot])]
  }

  /** `made` is the native ring that the kernel sets up, if it does. */
  function Registered(s: System, r: nat, entries: nat, bgid: nat, made: Option<nat>): System
    requires InTable(s, r, bgid)
  {
    if s.rings[r].slots[bgid].buf.Some? || made.None? then s
    else System(WithSlot(s.rings, r, bgid, Slot(Some(r), made, entries, bgid)),
                s.trace + [SetupBufRing(made.value, Lease(s.rings[r].fd, entries, bgid))])
  }

  function Unregistered(s: System, r: nat, bgid: nat): System
    requires InTable(s, r, bgid)
  {
    var slot := s.rings[r].slots[bgid];
    if slot.buf.None? then s
    else System(WithSlot(s.rings, r, bgid, EMPTY), s.trace + Destruction(s.rings, slot))
  }

  /** `ring::swap` exchanges the io_urings and leaves the slots where they are, pointing where they did. */
  function Swapped(s: System, q: nat, r: nat): System
    requires q < |s.rings| && r < |s.rings|
  {
    var a, b := s.rings[q], s.rings[r];
    s.(rings := s.rings[q := a.(fd := b.fd)][r := b.(fd := a.fd)])
  }

  // ----- the invariant

  /** The open io_urings are those of the valid rings, no two of which share one. */
  predicate OpenExactly(rings: seq<RingState>, open: set<int>) {
    && (forall r :: 0 <= r < |rings| && rings[r].fd >= 0 ==> rings[r].fd in open)
    && (forall fd :: fd in open ==> fd >= 0 && exists r :: 0 <= r < |rings| && rings[r].fd == fd)
    && (forall q, r :: 0 <= q < r < |rings| && rings[q].fd >= 0 ==> rings[q].fd != rings[r].fd)
  }

  /** Each slot in use points to the ring that it is in, and owns a live native ring of its io_uring under its own
      index. */
  predicate Owns(ring: RingState, r: nat, live: map<nat, Lease>) {
    forall i :: 0 <= i < |ring.slots| && ring.slots[i].buf.Some? ==>
      && ring.fd >= 0
      && ring.slots[i].rawRing == Some(r)
      && ring.slots[i].bgid == i
      && ring.slots[i].buf.value in live
      && live[ring.slots[i].buf.value] == Lease(ring.fd, ring.slots[i].entries, i)
  }

  predicate Holds(ring: RingState, lease: Lease, b: nat) {
    ring.fd == lease.fd && 0 <= lease.bgid < |ring.slots| && ring.slots[lease.bgid].buf == Some(b)
  }

  /** Every live native ring is held by the ring with its io_uring, in the slot that its identifier names. */
  predicate Owned(rings: seq<RingState>, live: map<nat, Lease>) {
    forall b :: b in live ==> exists r :: 0 <= r < |rings| && Holds(rings[r], live[b], b)
  }

  predicate Matches(rings: seq<RingState>, w: World) {
    && OpenExactly(rings, w.open)
    && (forall r :: 0 <= r < |rings| ==> |rings[r].slots| == SLOTS && Owns(rings[r], r, w.live))
    && Owned(rings, w.live)
  }

  /** Every native call so far was allowed, the open io_urings are those of the valid rings, and the live native rings
      are exactly those of the slots in use. */
  predicate Inv(s: System) {
    Replay(s.trace).Some? && Matches(s.rings, Replay(s.trace).value)
  }

  lemma InitialInv(n: nat)
    ensures Inv(Initial(n))
  {
  }

  lemma RegisteredInv(s: System, r: nat, entries: nat, bgid: nat, made: Option<nat>)
    requires Inv(s) && InTable(s, r, bgid) && s.rings[r].fd >= 0
    requires made.Some? ==> made.value !in Replay(s.trace).value.live
    ensures Inv(Registered(s, r, entries, bgid, made))
    ensures var w, v := Replay(s.trace).value, Replay(Registered(s, r, entries, bgid, made).trace).value;
            if s.rings[r].slots[bgid].buf.None? && made.Some?
            then v == w.(live := w.live[made.value := Lease(s.rings[r].fd, entries, bgid)])
            else v == w
  {
    hide Replay;
    if s.rings[r].slots[bgid].buf.None? && made.Some? {
      var lease := Lease(s.rings[r].fd, entries, bgid);
      ReplayAppend(s.trace, SetupBufRing(made.value, lease));
      RegisteredMatches(s.rings, r, made.value, lease, Replay(s.trace).value);
    }
  }

  lemma SameOpen(rings: seq<RingState>, after: seq<RingState>, open: set<int>)
    requires |after| == |rings| && forall r :: 0 <= r < |rings| ==> after[r].fd == rings[r].fd
    requires OpenExactly(rings, open)
    ensures OpenExactly(after, open)
  {
    forall fd | fd in open ensures exists r :: 0 <= r < |after| && after[r].fd == fd {
      var r :| 0 <= r < |rings| && rings[r].fd == fd;
      assert after[r].fd == fd;
    }
  }

  lemma RegisteredMatches(rings: seq<RingState>, r: nat, b: nat, lease: Lease, w: World)
    requires Matches(rings, w) && r < |rings| && 0 <= lease.bgid < SLOTS && rings[r].fd == lease.fd >= 0
    requires b !in w.live && rings[r].slots[lease.bgid].buf.None?
    ensures Matches(WithSlot(rings, r, lease.bgid, Slot(Some(r), Some(b), lease.entries, lease.bgid)),
                    w.(live := w.live[b := lease]))
  {
    hide OpenExactly, Owns, Owned;
    var slot := Slot(Some(r), Some(b), lease.entries, lease.bgid);
    var after, live := WithSlot(rings, r, lease.bgid, slot), w.live[b := lease];
    SameOpen(rings, after, w.open);
    RegisteredOwned(rings, r, b, lease, w.live, slot);
    forall q | 0 <= q < |after| ensures Owns(after[q], q, live) {
      RegisteredOwns(rings[q], q, b, lease, w.live);
    }
  }

  lemma RegisteredOwns(ring: RingState, q: nat, b: nat, lease: Lease, live: map<nat, Lease>)
    requires Owns(ring, q, live) && 0 <= lease.bgid < |ring.slots| && b !in live
    ensures var slot := Slot(Some(q), Some(b), lease.entries, lease.bgid);
            ring.fd == lease.fd >= 0 ==> Owns(ring.(slots := ring.slots[lease.bgid := slot]), q, live[b := lease])
    ensures Owns(ring, q, live[b := lease])
  {
  }

  lemma RegisteredOwned(rings: seq<RingState>, r: nat, b: nat, lease: Lease, live: map<nat, Lease>, slot: Slot)
    requires Owned(rings, live) && r < |rings| && 0 <= lease.bgid < |rings[r].slots| && rings[r].fd == lease.fd
    requires rings[r].slots[lease.bgid].buf.None? && slot.buf == Some(b)
    ensures Owned(WithSlot(rings, r, lease.bgid, slot), live[b := lease])
  {
    var after, more := WithSlot(rings, r, lease.bgid, slot), live[b := lease];
    forall c | c in more ensures exists q :: 0 <= q < |after| && Holds(after[q], more[c], c) {
      if c == b {
        assert Holds(after[r], lease, b);
      } else {
        var q :| 0 <= q < |rings| && Holds(rings[q], live[c], c);
        assert Holds(after[q], more[c], c);
      }
    }
  }

  /** The live native rings without those of an io_uring whose identifiers are within bounds. */
  function Without(live: map<nat, Lease>, fd: int, low: int, high: int): map<nat, Lease> {
    map b | b in live && !(live[b].fd == fd && low <= live[b].bgid < high) :: live[b]
  }

  lemma OneLess(live: map<nat, Lease>, fd: int, low: int, i: int, buf: Option<nat>)
    requires forall b :: b in live && live[b].fd == fd && live[b].bgid == i <==> buf == Some(b)
    requires low <= i
    ensures Without(live, fd, low, i + 1) ==
            if buf.Some? then Without(live, fd, low, i) - {buf.value} else Without(live, fd, low, i)
  {
  }

  /** Freeing what a slot in use owns is allowed, and removes that native ring only. */
  lemma FreeOne(s: System, r: nat, i: nat, trace: seq<Event>, low: nat)
    requires Inv(s) && r < |s.rings| && low <= i < SLOTS
    requires var w := Replay(s.trace).value;
             Replay(trace) == Some(World(w.open, Without(w.live, s.rings[r].fd, low, i)))
    ensures var w := Replay(s.trace).value;
            Replay(trace + Destruction(s.rings, s.rings[r].slots[i]))
            == Some(World(w.open, Without(w.live, s.rings[r].fd, low, i + 1)))
  {
    hide Replay, Owned, OpenExactly;
    var w, fd, slot := Replay(s.trace).value, s.rings[r].fd, s.rings[r].slots[i];
    HolderIs(s.rings, w, r, i);
    if slot.buf.Some? {
      var b := slot.buf.value;
      ReplayAppend(trace, FreeBufRing(b, Lease(fd, slot.entries, slot.bgid)));
      assert w.live[b] == Lease(fd, slot.entries, i) && slot.bgid == i;
      OneLess(w.live, fd, low, i, slot.buf);
    } else {
      assert trace + [] == trace;
      OneLess(w.live, fd, low, i, None);
    }
  }

  /** A live native ring of a ring's io_uring is in that ring's slot of its identifier, and nowhere else. */
  lemma HolderIs(rings: seq<RingState>, w: World, r: nat, i: nat)
    requires Matches(rings, w) && r < |rings| && i < SLOTS
    ensures forall b :: b in w.live && w.live[b].fd == rings[r].fd && w.live[b].bgid == i <==>
                          rings[r].slots[i].buf == Some(b)
  {
    forall b | b in w.live && w.live[b].fd == rings[r].fd && w.live[b].bgid == i
      ensures rings[r].slots[i].buf == Some(b)
    {
      var q :| 0 <= q < |rings| && Holds(rings[q], w.live[b], b);
      assert rings[q].fd >= 0;
      assert q == r;
    }
  }

  lemma UnregisteredInv(s: System, r: nat, bgid: nat)
    requires Inv(s) && InTable(s, r, bgid)
    ensures Inv(Unregistered(s, r, bgid))
    ensures var w, v := Replay(s.trace).value, Replay(Unregistered(s, r, bgid).trace).value;
            v == w.(live := Without(w.live, s.rings[r].fd, bgid, bgid + 1))
  {
    hide Replay;
    var w, fd := Replay(s.trace).value, s.rings[r].fd;
    assert Without(w.live, fd, bgid, bgid) == w.live;
    FreeOne(s, r, bgid, s.trace, bgid);
    if s.rings[r].slots[bgid].buf.Some? {
      UnregisteredMatches(s.rings, r, bgid, w);
    } else {
      assert s.trace + [] == s.trace;
    }
  }

  lemma UnregisteredMatches(rings: seq<RingState>, r: nat, i: nat, w: World)
    requires Matches(rings, w) && r < |rings| && i < SLOTS
    ensures Matches(WithSlot(rings, r, i, EMPTY), w.(live := Without(w.live, rings[r].fd, i, i + 1)))
  {
    hide OpenExactly, Owns, Owned, Without;
    var after, live := WithSlot(rings, r, i, EMPTY), Without(w.live, rings[r].fd, i, i + 1);
    SameOpen(rings, after, w.open);
    UnregisteredOwned(rings, r, i, w.live);
    forall q | 0 <= q < |after| ensures Owns(after[q], q, live) {
      DistinctFds(rings, w.open, q, r);
      UnregisteredOwns(rings[q], q, rings[r].fd, i, w.live);
    }
  }

  lemma DistinctFds(rings: seq<RingState>, open: set<int>, q: nat, r: nat)
    requires OpenExactly(rings, open) && q < |rings| && r < |rings|
    ensures q != r && rings[q].fd >= 0 ==> rings[q].fd != rings[r].fd
  {
  }

  lemma UnregisteredOwns(ring: RingState, q: nat, fd: int, i: nat, live: map<nat, Lease>)
    requires Owns(ring, q, live) && i < |ring.slots|
    ensures Owns(ring.(slots := ring.slots[i := EMPTY]), q, Without(live, fd, i, i + 1))
    ensures ring.fd != fd || ring.fd < 0 ==> Owns(ring, q, Without(live, fd, i, i + 1))
  {
  }

  lemma UnregisteredOwned(rings: seq<RingState>, r: nat, i: nat, live: map<nat, Lease>)
    requires Owned(rings, live) && r < |rings| && i < |rings[r].slots|
    ensures Owned(WithSlot(rings, r, i, EMPTY), Without(live, rings[r].fd, i, i + 1))
  {
    var after, left := WithSlot(rings, r, i, EMPTY), Without(live, rings[r].fd, i, i + 1);
    forall b | b in left ensures exists q :: 0 <= q < |after| && Holds(after[q], left[b], b) {
      var q :| 0 <= q < |rings| && Holds(rings[q], live[b], b);
      assert Holds(after[q], left[b], b);
    }
  }

  /** Clearing frees the native rings of the slots one after the other, each of them allowed. */
  lemma {:induction false} ClearingReplays(s: System, r: nat, n: nat)
    requires Inv(s) && r < |s.rings| && n <= SLOTS
    ensures var w := Replay(s.trace).value;
            Replay(s.trace + Clearing(s.rings, s.rings[r].slots, n))
            == Some(World(w.open, Without(w.live, s.rings[r].fd, 0, n)))
    decreases n
  {
    hide Replay, Matches, Destruction;
    var w, slots := Replay(s.trace).value, s.rings[r].slots;
    assert |slots| == SLOTS by {
      TableSize(s, r);
    }
    if n == 0 {
      assert s.trace + [] == s.trace;
      assert Without(w.live, s.rings[r].fd, 0, 0) == w.live;
    } else {
      var before := Clearing(s.rings, slots, n - 1);
      ClearingReplays(s, r, n - 1);
      FreeOne(s, r, n - 1, s.trace + before, 0);
      var last := Destruction(s.rings, slots[n - 1]);
      assert s.trace + (before + last) == s.trace + before + last;
    }
  }

  lemma TableSize(s: System, r: nat)
    requires Inv(s) && r < |s.rings|
    ensures |s.rings[r].slots| == SLOTS
  {
  }

  /** The live native rings of other io_urings. */
  function Elsewhere(live: map<nat, Lease>, fd: int): map<nat, Lease> {
    map b | b in live && live[b].fd != fd :: live[b]
  }

  /** No other ring is touched. */
  predicate OnlyChanges(s: System, t: System, r: nat) {
    |t.rings| == |s.rings| && forall q :: 0 <= q < |s.rings| && q != r ==> t.rings[q] == s.rings[q]
  }

  /** Exit frees the native rings of its own io_uring, each of them allowed, and then tears it down. */
  lemma ExitedInv(s: System, r: nat)
    requires Inv(s) && r < |s.rings|
    ensures Inv(Exited(s, r)) && OnlyChanges(s, Exited(s, r), r) && Exited(s, r).rings[r].fd < 0
    ensures var w, fd := Replay(s.trace).value, s.rings[r].fd;
            Replay(Exited(s, r).trace) == Some(World(w.open - {fd}, Elsewhere(w.live, fd)))
  {
    hide Replay, Matches, Clearing, Elsewhere, Without;
    var w, ring := Replay(s.trace).value, s.rings[r];
    ExitedMatches(s.rings, r, w);
    if ring.fd >= 0 {
      TableSize(s, r);
      ClearingReplays(s, r, SLOTS);
      ReplayAppend(s.trace + Clearing(s.rings, ring.slots, SLOTS), QueueExit(ring.fd));
    }
  }

  lemma ExitedMatches(rings: seq<RingState>, r: nat, w: World)
    requires Matches(rings, w) && r < |rings|
    ensures var fd := rings[r].fd;
            && (fd < 0 ==> World(w.open - {fd}, Elsewhere(w.live, fd)) == w)
            && (fd >= 0 ==> fd in w.open)
            && Without(w.live, fd, 0, SLOTS) == Elsewhere(w.live, fd)
            && (forall b :: b in Elsewhere(w.live, fd) ==> Elsewhere(w.live, fd)[b].fd != fd)
            && Matches(rings[r := NewRing()], World(w.open - {fd}, Elsewhere(w.live, fd)))
  {
    hide OpenExactly, Owns, Owned;
    var fd, after := rings[r].fd, rings[r := NewRing()];
    ExitedOpen(rings, r, w.open);
    LeasesInTable(rings, w);
    ExitedOwned(rings, r, w.live);
    forall q | 0 <= q < |rings| ensures Owns(after[q], q, Elsewhere(w.live, fd)) {
      DistinctFds(rings, w.open, q, r);
      ExitedOwns(rings[q], q, fd, w.live);
    }
  }

  lemma ExitedOpen(rings: seq<RingState>, r: nat, open: set<int>)
    requires OpenExactly(rings, open) && r < |rings|
    ensures OpenExactly(rings[r := NewRing()], open - {rings[r].fd})
    ensures if rings[r].fd < 0 then open - {rings[r].fd} == open else rings[r].fd in open
  {
    var after, left := rings[r := NewRing()], open - {rings[r].fd};
    forall fd | fd in left ensures exists q :: 0 <= q < |after| && after[q].fd == fd {
      var q :| 0 <= q < |rings| && rings[q].fd == fd;
      assert after[q].fd == fd;
    }
  }

  lemma LeasesInTable(rings: seq<RingState>, w: World)
    requires Matches(rings, w)
    ensures forall b :: b in w.live ==> w.live[b].fd >= 0 && 0 <= w.live[b].bgid < SLOTS
  {
    forall b | b in w.live ensures w.live[b].fd >= 0 && 0 <= w.live[b].bgid < SLOTS {
      var r :| 0 <= r < |rings| && Holds(rings[r], w.live[b], b);
      assert Owns(rings[r], r, w.live);
    }
  }

  lemma ExitedOwns(ring: RingState, q: nat, fd: int, live: map<nat, Lease>)
    requires Owns(ring, q, live)
    ensures Owns(NewRing(), q, Elsewhere(live, fd))
    ensures ring.fd != fd || ring.fd < 0 ==> Owns(ring, q, Elsewhere(live, fd))
  {
  }

  lemma ExitedOwned(rings: seq<RingState>, r: nat, live: map<nat, Lease>)
    requires Owned(rings, live) && r < |rings|
    ensures Owned(rings[r := NewRing()], Elsewhere(live, rings[r].fd))
  {
    var after, left := rings[r := NewRing()], Elsewhere(live, rings[r].fd);
    forall b | b in left ensures exists q :: 0 <= q < |after| && Holds(after[q], left[b], b) {
      var q :| 0 <= q < |rings| && Holds(rings[q], live[b], b);
      assert Holds(after[q], left[b], b);
    }
  }

  /** The kernel hands out no io_uring that is open. */
  predicate FreshFd(trace: seq<Event>, outcome: InitOutcome) {
    !outcome.QueueFails? && Replay(trace).Some? ==> outcome.fd !in Replay(trace).value.open
  }

  /** Init opens an io_uring, and leaves it open exactly if the probe succeeds. */
  lemma InitedInv(s: System, r: nat, outcome: InitOutcome)
    requires Inv(s) && r < |s.rings| && s.rings[r].fd < 0 && FreshFd(s.trace, outcome)
    ensures Inv(Inited(s, r, outcome)) && OnlyChanges(s, Inited(s, r, outcome), r)
    ensures var w := Replay(s.trace).value;
            Replay(Inited(s, r, outcome).trace) ==
            Some(if outcome.Ready? then w.(open := w.open + {outcome.fd as int}) else w)
  {
    hide Replay, Matches, Exited, Elsewhere;
    var w := Replay(s.trace).value;
    if outcome.QueueFails? {
      NoNegative(s.rings, w);
      FdMatches(s.rings, r, INVALID_FD, w);
    } else {
      ReplayAppend(s.trace, QueueInit(outcome.fd));
      FdMatches(s.rings, r, outcome.fd, w);
      ExitedInv(Opened(s, r, outcome.fd), r);
      NoLease(s.rings, w, outcome.fd);
      assert w.open + {outcome.fd as int} - {outcome.fd as int} == w.open;
    }
  }

  lemma NoNegative(rings: seq<RingState>, w: World)
    requires Matches(rings, w)
    ensures INVALID_FD !in w.open
  {
  }

  lemma NoLease(rings: seq<RingState>, w: World, fd: int)
    requires Matches(rings, w) && fd !in w.open
    ensures Elsewhere(w.live, fd) == w.live
  {
    forall b | b in w.live ensures w.live[b].fd != fd {
      LeasesInTable(rings, w);
      var r :| 0 <= r < |rings| && Holds(rings[r], w.live[b], b);
    }
  }

  /** A ring that is not valid may be given an io_uring that no other ring has. */
  lemma FdMatches(rings: seq<RingState>, r: nat, fd: int, w: World)
    requires Matches(rings, w) && r < |rings| && rings[r].fd < 0 && fd !in w.open
    ensures Matches(rings[r := rings[r].(fd := fd)], w.(open := if fd < 0 then w.open else w.open + {fd}))
  {
    hide OpenExactly, Owns, Owned, NoGroups;
    var after := rings[r := rings[r].(fd := fd)];
    FdOpen(rings, r, fd, w.open);
    InvalidHasNoGroups(rings, r, w);
    NoGroupsOwn(after[r], r, w.live);
    FdOwned(rings, r, fd, w.live);
  }

  lemma FdOpen(rings: seq<RingState>, r: nat, fd: int, open: set<int>)
    requires OpenExactly(rings, open) && r < |rings| && rings[r].fd < 0 && fd !in open
    ensures OpenExactly(rings[r := rings[r].(fd := fd)], if fd < 0 then open else open + {fd})
  {
    var after := rings[r := rings[r].(fd := fd)];
    forall x | x in open ensures exists q :: 0 <= q < |after| && after[q].fd == x {
      var q :| 0 <= q < |rings| && rings[q].fd == x;
      assert after[q].fd == x;
    }
    assert after[r].fd == fd;
  }

  lemma FdOwned(rings: seq<RingState>, r: nat, fd: int, live: map<nat, Lease>)
    requires Owned(rings, live) && r < |rings| && NoGroups(rings[r].slots)
    ensures Owned(rings[r := rings[r].(fd := fd)], live)
  {
    var after := rings[r := rings[r].(fd := fd)];
    forall b | b in live ensures exists q :: 0 <= q < |after| && Holds(after[q], live[b], b) {
      var q :| 0 <= q < |rings| && Holds(rings[q], live[b], b);
      assert Holds(after[q], live[b], b);
    }
  }

  lemma NoGroupsOwn(ring: RingState, r: nat, live: map<nat, Lease>)
    requires NoGroups(ring.slots)
    ensures Owns(ring, r, live)
  {
  }

  predicate NoGroups(slots: seq<Slot>) {
    forall i :: 0 <= i < |slots| ==> slots[i].buf.None?
  }

  lemma {:induction false} NothingToClear(rings: seq<RingState>, slots: seq<Slot>, n: nat)
    requires NoGroups(slots) && n <= |slots|
    ensures Clearing(rings, slots, n) == []
  {
    if n > 0 {
      NothingToClear(rings, slots, n - 1);
      assert Destruction(rings, slots[n - 1]) == [];
    }
  }

  /** The destructor does what exit does: no slot is in use when its table dies. */
  lemma DestroyedInv(s: System, r: nat)
    requires Inv(s) && r < |s.rings|
    ensures Inv(Destroyed(s, r)) && OnlyChanges(s, Destroyed(s, r), r) && Destroyed(s, r).rings[r] == NewRing()
    ensures Destroyed(s, r).trace == Exited(s, r).trace
  {
    hide Replay, Matches, Exited, NoGroups;
    ExitedInv(s, r);
    var t := Exited(s, r);
    var w := Replay(t.trace).value;
    InvalidHasNoGroups(t.rings, r, w);
    NothingToClear(t.rings, t.rings[r].slots, |t.rings[r].slots|);
    assert t.trace + [] == t.trace;
    ExitedMatches(t.rings, r, w);
  }

  lemma InvalidHasNoGroups(rings: seq<RingState>, r: nat, w: World)
    requires Matches(rings, w) && r < |rings| && rings[r].fd < 0
    ensures NoGroups(rings[r].slots)
  {
    assert Owns(rings[r], r, w.live);
  }

  // ----- swapping two rings

  /** Both rings exist, and either they are one or neither has a group. */
  predicate Swappable(s: System, q: nat, r: nat) {
    && q < |s.rings| && r < |s.rings|
    && (q == r || (NoGroups(s.rings[q].slots) && NoGroups(s.rings[r].slots)))
  }

  /** Swapping keeps the invariant exactly when neither ring has a group. */
  lemma SwappedInv(s: System, q: nat, r: nat)
    requires Inv(s) && q < |s.rings| && r < |s.rings|
    ensures Inv(Swapped(s, q, r)) <==> Swappable(s, q, r)
  {
    hide Replay, Matches, NoGroups;
    var w := Replay(s.trace).value;
    if q == r {
      assert Swapped(s, q, r).rings == s.rings;
    } else if Swappable(s, q, r) {
      SwappedMatches(s.rings, q, r, w);
    } else if !NoGroups(s.rings[q].slots) {
      LeaseStays(s.rings, q, r, w);
    } else {
      LeaseStays(s.rings, r, q, w);
    }
  }

  lemma SwappedMatches(rings: seq<RingState>, q: nat, r: nat, w: World)
    requires Matches(rings, w) && q < |rings| && r < |rings| && q != r
    requires NoGroups(rings[q].slots) && NoGroups(rings[r].slots)
    ensures Matches(rings[q := rings[q].(fd := rings[r].fd)][r := rings[r].(fd := rings[q].fd)], w)
  {
    hide OpenExactly, Owns, Owned, NoGroups;
    var after := rings[q := rings[q].(fd := rings[r].fd)];
    SwappedOpen(rings, q, r, w.open);
    NoGroupsOwn(after[q], q, w.live);
    NoGroupsOwn(after[r].(fd := rings[q].fd), r, w.live);
    FdOwned(rings, q, rings[r].fd, w.live);
    FdOwned(after, r, rings[q].fd, w.live);
  }

  lemma SwappedOpen(rings: seq<RingState>, q: nat, r: nat, open: set<int>)
    requires OpenExactly(rings, open) && q < |rings| && r < |rings|
    ensures OpenExactly(rings[q := rings[q].(fd := rings[r].fd)][r := rings[r].(fd := rings[q].fd)], open)
  {
    var after := rings[q := rings[q].(fd := rings[r].fd)][r := rings[r].(fd := rings[q].fd)];
    forall fd | fd in open ensures exists p :: 0 <= p < |after| && after[p].fd == fd {
      var p :| 0 <= p < |rings| && rings[p].fd == fd;
      assert after[if p == q then r else if p == r then q else p].fd == fd;
    }
  }

  /** A slot in use holds a native ring of its own io_uring, and so not of any other. */
  lemma LeaseStays(rings: seq<RingState>, q: nat, r: nat, w: World)
    requires Matches(rings, w) && q < |rings| && r < |rings| && q != r && !NoGroups(rings[q].slots)
    ensures forall after: seq<RingState> ::
              |after| == |rings| && after[q] == rings[q].(fd := rings[r].fd) ==> !Matches(after, w)
  {
    var i :| 0 <= i < |rings[q].slots| && rings[q].slots[i].buf.Some?;
    assert Owns(rings[q], q, w.live);
    DistinctFds(rings, w.open, q, r);
    forall after: seq<RingState> | |after| == |rings| && after[q] == rings[q].(fd := rings[r].fd)
      ensures !Matches(after, w)
    {
      assert after[q].slots[i].buf.Some?;
      assert !Owns(after[q], q, w.live);
    }
  }

  // ----- every run

  datatype Command =
    | Init(ring: nat, outcome: InitOutcome)
    | Register(ring: nat, entries: nat, bgid: nat, made: Option<nat>)
    | Unregister(ring: nat, bgid: nat)
    | Exit(ring: nat)
    | Reinit(ring: nat, outcome: InitOutcome)
    | Swap(ring: nat, other: nat)
    | Renew(ring: nat)              // the object is destroyed, and another one constructed in its place

  /** What the wrapper asserts of its callers; that the kernel hands out no address and no io_uring that is in use; and
      that rings with groups are not swapped. */
  predicate Admissible(s: System, c: Command) {
    && c.ring < |s.rings|
    && match c
       case Init(r, outcome) => s.rings[r].fd < 0 && FreshFd(s.trace, outcome)
       case Register(r, _, bgid, made) =>
         && s.rings[r].fd >= 0 && InTable(s, r, bgid)
         && (made.Some? && Replay(s.trace).Some? ==> made.value !in Replay(s.trace).value.live)
       case Unregister(r, bgid) => InTable(s, r, bgid)
       case Exit(_) => true
       case Reinit(r, outcome) => FreshFd(Exited(s, r).trace, outcome)
       case Swap(q, r) => Swappable(s, q, r)
       case Renew(_) => true
  }

  function Step(s: System, c: Command): System
    requires Admissible(s, c)
  {
    match c
    case Init(r, outcome) => Inited(s, r, outcome)
    case Register(r, entries, bgid, made) => Registered(s, r, entries, bgid, made)
    case Unregister(r, bgid) => Unregistered(s, r, bgid)
    case Exit(r) => Exited(s, r)
    case Reinit(r, outcome) => Inited(Exited(s, r), r, outcome)
    case Swap(q, r) => Swapped(s, q, r)
    case Renew(r) => Destroyed(s, r)
  }

  /** `states` is a run of the commands from `n` default-constructed rings. */
  predicate Run(n: nat, cs: seq<Command>, states: seq<System>) {
    && |states| == |cs| + 1
    && states[0] == Initial(n)
    && forall k :: 0 <= k < |cs| ==> Admissible(states[k], cs[k]) && states[k + 1] == Step(states[k], cs[k])
  }

  lemma StepInv(s: System, c: Command)
    requires Inv(s) && Admissible(s, c)
    ensures Inv(Step(s, c)) && |Step(s, c).rings| == |s.rings|
  {
    hide Inv, Replay, Exited, Inited, Destroyed, FreshFd, Swappable;
    match c
    case Init(r, outcome) => InitedInv(s, r, outcome);
    case Register(r, entries, bgid, made) =>
      InvReplays(s);
      RegisteredInv(s, r, entries, bgid, made);
    case Unregister(r, bgid) => UnregisteredInv(s, r, bgid);
    case Exit(r) => ExitedInv(s, r);
    case Reinit(r, outcome) =>
      ExitedInv(s, r);
      InitedInv(Exited(s, r), r, outcome);
    case Swap(q, r) =>
      SwappableRings(s, q, r);
      SwappedInv(s, q, r);
    case Renew(r) => DestroyedInv(s, r);
  }

  lemma InvReplays(s: System)
    requires Inv(s)
    ensures Replay(s.trace).Some?
  {
  }

  lemma SwappableRings(s: System, q: nat, r: nat)
    requires Swappable(s, q, r)
    ensures q < |s.rings| && r < |s.rings|
  {
  }

  /** In every state of every run: every native call was allowed, and the live native rings are exactly those of the
      slots in use, each pointing to its own ring and under its own index. */
  lemma {:induction false} RunInv(n: nat, cs: seq<Command>, states: seq<System>, k: nat)
    requires Run(n, cs, states) && k < |states|
    ensures Inv(states[k]) && |states[k].rings| == n
  {
    hide Inv, Step, Admissible;
    if k == 0 {
      InitialInv(n);
    } else {
      RunInv(n, cs, states, k - 1);
      StepInv(states[k - 1], cs[k - 1]);
    }
  }

  // ----- the end of every run

  /** Every one of `n` ring objects is named. */
  predicate AllRings(n: nat, order: seq<nat>) {
    (forall i :: 0 <= i < |order| ==> order[i] < n) && (forall r: nat :: r < n ==> r in order)
  }

  /** The rings are destroyed in some order. */
  function DestroyedIn(s: System, order: seq<nat>): (t: System)
    requires forall i :: 0 <= i < |order| ==> order[i] < |s.rings|
    ensures |t.rings| == |s.rings|
  {
    if order == [] then s
    else Destroyed(DestroyedIn(s, order[..|order| - 1]), order[|order| - 1])
  }

  lemma {:induction false} DestroyedInInv(s: System, order: seq<nat>)
    requires Inv(s) && forall i :: 0 <= i < |order| ==> order[i] < |s.rings|
    ensures Inv(DestroyedIn(s, order))
    ensures forall r :: r in order ==> DestroyedIn(s, order).rings[r].fd < 0
  {
    hide Inv, Destroyed;
    if order != [] {
      var init, last := order[..|order| - 1], order[|order| - 1];
      DestroyedInInv(s, init);
      DestroyedInv(DestroyedIn(s, init), last);
      assert order == init + [last];
    }
  }

  lemma NothingLeft(s: System)
    requires Inv(s) && forall r :: 0 <= r < |s.rings| ==> s.rings[r].fd < 0
    ensures Replay(s.trace) == Some(World({}, map[]))
  {
    var w := Replay(s.trace).value;
    LeasesInTable(s.rings, w);
    assert forall b :: b !in w.live;
    assert w.live.Keys == {};
    assert w.live == map[];
    assert forall fd :: fd !in w.open;
    assert w.open == {};
  }

  /** After the destructors of all rings, in any order and at any point of any run: nothing is live, nothing is open,
      and there were as many frees as setups, every one of them of a live ring with the arguments of its setup. */
  lemma DestructorFreesAll(n: nat, cs: seq<Command>, states: seq<System>, k: nat, order: seq<nat>)
    requires Run(n, cs, states) && k < |states| && AllRings(|states[k].rings|, order)
    ensures var trace := DestroyedIn(states[k], order).trace;
            Replay(trace) == Some(World({}, map[])) && Setups(trace) == Frees(trace)
  {
    hide Replay, DestroyedIn, Inv, Run;
    RunInv(n, cs, states, k);
    DestroyedInInv(states[k], order);
    NothingLeft(DestroyedIn(states[k], order));
    SetupsMinusFrees(DestroyedIn(states[k], order).trace);
  }
}
