/** The ring objects, step by step: slots are moved, swapped and destroyed as the source does it. */
module RingObjects {
  import opened Errors
  import opened NativeCalls
  import opened BufferRegistry

  /** The ring objects of a program, at their places in memory. */
  class Rings {
    var rings: seq<RingState>
    /** The native calls made so far. */
    var trace: seq<Event>

    function Contents(): System
      reads this
    {
      System(rings, trace)
    }

    constructor (n: nat)
      ensures Contents() == Initial(n)
    {
      rings := seq(n, _ => NewRing());
      trace := [];
    }

    /** `~buffer_ring`: the free names the io_uring that the slot points to. */
    method Destroy(slot: Slot)
      modifies this`trace
      ensures trace == old(trace) + Destruction(rings, slot)
    {
      if slot.buf.Some? {
        trace := trace + [FreeBufRing(slot.buf.value, Lease(PointedFd(rings, slot), slot.entries, slot.bgid))];
      }
    }

    /** Move assignment: a temporary takes over the source, is swapped with the target field by field, and dies with
        what the target held; the source keeps its pointer only. */
    method MoveAssign(r: nat, bgid: nat, source: Slot) returns (moved: Slot)
      requires InTable(Contents(), r, bgid)
      modifies this
      ensures moved == MovedFrom(source) && rings == WithSlot(old(rings), r, bgid, source)
      ensures trace == old(trace) + Destruction(old(rings), old(rings)[r].slots[bgid])
    {
      var temporary := Slot(source.rawRing, source.buf, source.entries, source.bgid);
      moved := source.(buf := None, entries := 0, bgid := -1);
      var target := rings[r].slots[bgid];
      target, temporary := target.(rawRing := temporary.rawRing), temporary.(rawRing := target.rawRing);
      target, temporary := target.(buf := temporary.buf), temporary.(buf := target.buf);
      target, temporary := target.(entries := temporary.entries), temporary.(entries := target.entries);
      target, temporary := target.(bgid := temporary.bgid), temporary.(bgid := target.bgid);
      rings := WithSlot(rings, r, bgid, target);
      Destroy(temporary);
    }

    /** `register_buffer_group`; `made` is the answer of the native setup. A slot in use is an error, and so is a failed
        setup; neither changes anything. */
    method RegisterBufferGroup(r: nat, entries: nat, bgid: nat, made: Option<nat>) returns (ok: bool)
      requires InTable(Contents(), r, bgid) && rings[r].fd >= 0
      modifies this
      ensures ok <==> old(rings)[r].slots[bgid].buf.None? && made.Some?
      ensures Contents() == Registered(old(Contents()), r, entries, bgid, made)
    {
      if rings[r].slots[bgid].buf.Some? {
        return false;
      }
      if made.None? {
        return false;
      }
      trace := trace + [SetupBufRing(made.value, Lease(rings[r].fd, entries, bgid))];
      var res := Slot(Some(r), made, entries, bgid);
      ghost var before := trace;
      res := MoveAssign(r, bgid, res);
      Destroy(res);
      assert trace == before;
      ok := true;
    }

    /** `unregister_buffer_group`. */
    method UnregisterBufferGroup(r: nat, bgid: nat)
      requires InTable(Contents(), r, bgid)
      modifies this
      ensures Contents() == Unregistered(old(Contents()), r, bgid)
    {
      if rings[r].slots[bgid].buf.Some? {
        var blank := EMPTY;
        blank := MoveAssign(r, bgid, blank);
        Destroy(blank);
      }
    }

    /** `find_buffer_group`: what is found is the live native ring of this io_uring with that identifier. There is at
        most one, and nothing is found exactly if there is none. */
    method FindBufferGroup(r: nat, bgid: nat) returns (found: Option<nat>)
      requires Inv(Contents()) && InTable(Contents(), r, bgid)
      ensures var live := Replay(trace).value.live;
              forall b :: found == Some(b) <==> b in live && live[b].fd == rings[r].fd && live[b].bgid == bgid
    {
      hide Replay;
      HolderIs(rings, Replay(trace).value, r, bgid);
      if rings[r].slots[bgid].buf.Some? {
        found := rings[r].slots[bgid].buf;
      } else {
        found := None;
      }
    }

    /** Destroys the slots of a table, one after the other. */
    method DestroyTable(slots: seq<Slot>)
      modifies this`trace
      ensures trace == old(trace) + Clearing(rings, slots, |slots|)
    {
      hide Destruction;
      ghost var start := trace;
      assert start + [] == start;
      for i := 0 to |slots|
        invariant trace == start + Clearing(rings, slots, i)
      {
        assert start + Clearing(rings, slots, i) + Destruction(rings, slots[i]) ==
               start + (Clearing(rings, slots, i) + Destruction(rings, slots[i]));
        Destroy(slots[i]);
      }
    }

    /** `exit`: the slots are destroyed and the table renewed before the io_uring is torn down. */
    method ExitRing(r: nat)
      requires r < |rings|
      modifies this
      ensures Contents() == Exited(old(Contents()), r)
    {
      hide Clearing;
      if rings[r].fd >= 0 {
        DestroyTable(rings[r].slots);
        rings := rings[r := rings[r].(slots := EmptyTable())];
        trace := trace + [QueueExit(rings[r].fd)];
        rings := rings[r := rings[r].(fd := INVALID_FD)];
      }
    }

    /** `~ring`: exit, and then the table dies. */
    method DestroyRing(r: nat)
      requires r < |rings|
      modifies this
      ensures Contents() == Destroyed(old(Contents()), r)
    {
      hide Clearing;
      ExitRing(r);
      DestroyTable(rings[r].slots);
      rings := rings[r := NewRing()];
    }

    /** `do_init`. */
    method DoInit(r: nat, outcome: InitOutcome) returns (ok: bool)
      requires r < |rings| && rings[r].fd < 0
      modifies this
      ensures ok <==> outcome.Ready?
      ensures Contents() == Inited(old(Contents()), r, outcome)
    {
      hide Exited;
      if outcome.QueueFails? {
        rings := rings[r := rings[r].(fd := INVALID_FD)];
        return false;
      }
      rings := rings[r := rings[r].(fd := outcome.fd)];
      trace := trace + [QueueInit(outcome.fd)];
      if outcome.ProbeFails? {
        ExitRing(r);
        return false;
      }
      ok := true;
    }

    /** `reinit`. */
    method ReinitRing(r: nat, outcome: InitOutcome) returns (ok: bool)
      requires r < |rings|
      modifies this
      ensures ok <==> outcome.Ready?
      ensures Contents() == Inited(Exited(old(Contents()), r), r, outcome)
    {
      ExitRing(r);
      ok := DoInit(r, outcome);
    }

    /** `swap`: the io_urings change places, and nothing else. */
    method SwapRings(q: nat, r: nat)
      requires q < |rings| && r < |rings|
      modifies this`rings
      ensures Contents() == Swapped(old(Contents()), q, r)
    {
      var raw := rings[q].fd;
      rings := rings[q := rings[q].(fd := rings[r].fd)];
      rings := rings[r := rings[r].(fd := raw)];
    }
  }
}
