/** The native calls that the buffer groups lead to, and which of them are allowed: a buffer ring is freed while it is
    live, on the io_uring that it was set up on, and before that io_uring is torn down. */
module NativeCalls {
  import opened Errors

  /** The arguments with which a native buffer ring is created, and with which it must be freed. */
  datatype Lease = Lease(fd: int, entries: nat, bgid: int)

  /** The native calls, in the order in which they are made. */
  datatype Event =
    | QueueInit(fd: int)
    | QueueExit(fd: int)
    | SetupBufRing(buf: nat, lease: Lease)
    | FreeBufRing(buf: nat, lease: Lease)

  /** The io_urings that are open and the native buffer rings that are live. */
  datatype World = World(open: set<int>, live: map<nat, Lease>)

  /** A buffer ring is set up on an open io_uring, at an address not in use, and freed while it is live, with the
      arguments of its setup; an io_uring is torn down when it is open and no buffer ring of it is live. */
  predicate Allowed(w: World, ev: Event) {
    match ev
    case QueueInit(fd) => fd !in w.open
    case QueueExit(fd) => fd in w.open && forall b :: b in w.live ==> w.live[b].fd != fd
    case SetupBufRing(b, lease) => lease.fd in w.open && b !in w.live
    case FreeBufRing(b, lease) => b in w.live && w.live[b] == lease
  }

  function After(w: World, ev: Event): World {
    match ev
    case QueueInit(fd) => w.(open := w.open + {fd})
    case QueueExit(fd) => w.(open := w.open - {fd})
    case SetupBufRing(b, lease) => w.(live := w.live[b := lease])
    case FreeBufRing(b, _) => w.(live := w.live - {b})
  }

  /** The world after a trace, or nothing if some call in it was not allowed. */
  function Replay(trace: seq<Event>): Option<World> {
    if trace == [] then Some(World({}, map[]))
    else
      match Replay(trace[..|trace| - 1])
      case None => None
      case Some(w) =>
        var ev := trace[|trace| - 1];
        if Allowed(w, ev) then Some(After(w, ev)) else None
  }

  lemma ReplayAppend(trace: seq<Event>, ev: Event)
    ensures Replay(trace + [ev]) ==
            match Replay(trace)
            case None => None
            case Some(w) => if Allowed(w, ev) then Some(After(w, ev)) else None
  {
    assert (trace + [ev])[..|trace|] == trace;
  }

  function Setups(trace: seq<Event>): nat {
    if trace == [] then 0
    else Setups(trace[..|trace| - 1]) + if trace[|trace| - 1].SetupBufRing? then 1 else 0
  }

  function Frees(trace: seq<Event>): nat {
    if trace == [] then 0
    else Frees(trace[..|trace| - 1]) + if trace[|trace| - 1].FreeBufRing? then 1 else 0
  }

  /** Conservation: what was set up and not freed is live. */
  lemma {:induction false} SetupsMinusFrees(trace: seq<Event>)
    requires Replay(trace).Some?
    ensures Setups(trace) == Frees(trace) + |Replay(trace).value.live|
  {
    if trace != [] {
      var init, ev := trace[..|trace| - 1], trace[|trace| - 1];
      SetupsMinusFrees(init);
      var w := Replay(init).value;
      if ev.FreeBufRing? {
        assert (w.live - {ev.buf}).Keys == w.live.Keys - {ev.buf};
      } else if ev.SetupBufRing? {
        assert w.live[ev.buf := ev.lease].Keys == w.live.Keys + {ev.buf};
      }
    }
  }

  lemma {:induction false} NoneStays(trace: seq<Event>, more: seq<Event>)
    requires Replay(trace).None?
    ensures Replay(trace + more).None?
  {
    if more == [] {
      assert trace + more == trace;
    } else {
      var init, ev := more[..|more| - 1], more[|more| - 1];
      NoneStays(trace, init);
      ReplayAppend(trace + init, ev);
      assert trace + more == trace + init + [ev];
    }
  }

  // ----- the same, by the positions of the calls

  predicate Concerns(ev: Event, b: nat) {
    (ev.SetupBufRing? || ev.FreeBufRing?) && ev.buf == b
  }

  /** Before call `n`, io_uring `fd` was opened and not torn down since. */
  predicate OpenAt(trace: seq<Event>, n: nat, fd: int)
    requires n <= |trace|
  {
    exists j :: 0 <= j < n && trace[j] == QueueInit(fd) && forall k :: j < k < n ==> trace[k] != QueueExit(fd)
  }

  /** Before call `n`, native ring `b` was set up so, and no call has concerned it since. */
  predicate LiveAt(trace: seq<Event>, n: nat, b: nat, lease: Lease)
    requires n <= |trace|
  {
    exists j :: 0 <= j < n && trace[j] == SetupBufRing(b, lease) && forall k :: j < k < n ==> !Concerns(trace[k], b)
  }

  /** Call `n` is allowed by the calls before it. */
  ghost predicate AllowedAt(trace: seq<Event>, n: nat)
    requires n < |trace|
  {
    match trace[n]
    case QueueInit(fd) => !OpenAt(trace, n, fd)
    case QueueExit(fd) => OpenAt(trace, n, fd) && forall b, lease :: LiveAt(trace, n, b, lease) ==> lease.fd != fd
    case SetupBufRing(b, lease) => OpenAt(trace, n, lease.fd) && forall other :: !LiveAt(trace, n, b, other)
    case FreeBufRing(b, lease) => LiveAt(trace, n, b, lease)
  }

  /** A world says what the calls of a trace left open and live. */
  ghost predicate Reflects(w: World, trace: seq<Event>, n: nat)
    requires n <= |trace|
  {
    && (forall fd :: fd in w.open <==> OpenAt(trace, n, fd))
    && (forall b, lease :: (b in w.live && w.live[b] == lease) <==> LiveAt(trace, n, b, lease))
  }

  lemma OpenNext(trace: seq<Event>, n: nat, fd: int)
    requires n < |trace|
    ensures OpenAt(trace, n + 1, fd) <==>
            trace[n] == QueueInit(fd) || (OpenAt(trace, n, fd) && trace[n] != QueueExit(fd))
  {
    if OpenAt(trace, n, fd) && trace[n] != QueueExit(fd) {
      var j :| 0 <= j < n && trace[j] == QueueInit(fd) && forall k :: j < k < n ==> trace[k] != QueueExit(fd);
      assert trace[j] == QueueInit(fd) && forall k :: j < k < n + 1 ==> trace[k] != QueueExit(fd);
    }
    if OpenAt(trace, n + 1, fd) && trace[n] != QueueInit(fd) {
      var j :| 0 <= j < n + 1 && trace[j] == QueueInit(fd) && forall k :: j < k < n + 1 ==> trace[k] != QueueExit(fd);
      assert j < n && trace[n] != QueueExit(fd);
    }
  }

  lemma LiveNext(trace: seq<Event>, n: nat, b: nat, lease: Lease)
    requires n < |trace|
    ensures LiveAt(trace, n + 1, b, lease) <==>
            trace[n] == SetupBufRing(b, lease) || (LiveAt(trace, n, b, lease) && !Concerns(trace[n], b))
  {
    if LiveAt(trace, n, b, lease) && !Concerns(trace[n], b) {
      var j :| 0 <= j < n && trace[j] == SetupBufRing(b, lease) && forall k :: j < k < n ==> !Concerns(trace[k], b);
      assert trace[j] == SetupBufRing(b, lease) && forall k :: j < k < n + 1 ==> !Concerns(trace[k], b);
    }
    if LiveAt(trace, n + 1, b, lease) && trace[n] != SetupBufRing(b, lease) {
      var j :|
        0 <= j < n + 1 && trace[j] == SetupBufRing(b, lease) && forall k :: j < k < n + 1 ==> !Concerns(trace[k], b);
      assert j < n && !Concerns(trace[n], b);
    }
  }

  lemma ReflectsNext(w: World, trace: seq<Event>, n: nat)
    requires n < |trace| && Reflects(w, trace, n)
    ensures Allowed(w, trace[n]) <==> AllowedAt(trace, n)
    ensures Allowed(w, trace[n]) ==> Reflects(After(w, trace[n]), trace, n + 1)
  {
    hide OpenAt, LiveAt;
    var ev := trace[n];
    AllowedAlike(w, trace, n);
    if Allowed(w, ev) {
      var v, m := After(w, ev), n + 1;
      forall fd ensures fd in v.open <==> OpenAt(trace, m, fd) {
        OpenNext(trace, n, fd);
      }
      forall b, lease ensures (b in v.live && v.live[b] == lease) <==> LiveAt(trace, m, b, lease) {
        LiveNext(trace, n, b, lease);
      }
    }
  }

  lemma AllowedAlike(w: World, trace: seq<Event>, n: nat)
    requires n < |trace| && Reflects(w, trace, n)
    ensures Allowed(w, trace[n]) <==> AllowedAt(trace, n)
  {
    hide OpenAt, LiveAt;
    match trace[n]
    case QueueInit(fd) =>
    case QueueExit(fd) =>
      if AllowedAt(trace, n) {
        forall b | b in w.live ensures w.live[b].fd != fd {
          assert LiveAt(trace, n, b, w.live[b]);
        }
      }
    case SetupBufRing(b, lease) =>
      assert b in w.live ==> LiveAt(trace, n, b, w.live[b]);
    case FreeBufRing(b, lease) =>
  }

  /** Replaying a trace succeeds exactly if every call in it is allowed by those before it, and gives what they left. */
  lemma {:induction false} ReplayExact(trace: seq<Event>, n: nat)
    requires n <= |trace|
    ensures Replay(trace[..n]).Some? <==> forall i :: 0 <= i < n ==> AllowedAt(trace, i)
    ensures Replay(trace[..n]).Some? ==> Reflects(Replay(trace[..n]).value, trace, n)
    decreases n
  {
    hide AllowedAt, Reflects, Allowed, After;
    if n == 0 {
      NothingYet(trace);
    } else {
      ReplayExact(trace, n - 1);
      assert trace[..n][..n - 1] == trace[..n - 1];
      var before := Replay(trace[..n - 1]);
      if before.Some? {
        ReflectsNext(before.value, trace, n - 1);
      }
    }
  }

  lemma NothingYet(trace: seq<Event>)
    ensures Reflects(World({}, map[]), trace, 0)
  {
  }

  /** The native ring set up by call `j` is freed by call `k`, with the arguments of its setup, no call has concerned
      it in between, and its io_uring has not been torn down in between. */
  predicate FreedBy(trace: seq<Event>, j: nat, k: nat) {
    && j < k < |trace| && trace[j].SetupBufRing? && trace[k].FreeBufRing?
    && trace[k].buf == trace[j].buf && trace[k].lease == trace[j].lease
    && forall i :: j < i < k ==> !Concerns(trace[i], trace[j].buf) && trace[i] != QueueExit(trace[j].lease.fd)
  }

  /** In every allowed trace, each free is the free of one setup; and if nothing is left live, each setup has its free.
      */
  lemma FreedOnce(trace: seq<Event>)
    requires Replay(trace).Some?
    ensures forall k: nat :: k < |trace| && trace[k].FreeBufRing? ==> exists j: nat :: FreedBy(trace, j, k)
    ensures Replay(trace).value.live == map[] ==>
              forall j: nat :: j < |trace| && trace[j].SetupBufRing? ==> exists k: nat :: FreedBy(trace, j, k)
    ensures forall i: nat, j: nat, k: nat :: FreedBy(trace, i, k) && FreedBy(trace, j, k) ==> i == j
    ensures forall j: nat, k: nat, l: nat :: FreedBy(trace, j, k) && FreedBy(trace, j, l) ==> k == l
  {
    hide Replay, FreedBy, AllowedAt, Reflects;
    assert trace[..|trace|] == trace;
    ReplayExact(trace, |trace|);
    forall k: nat | k < |trace| && trace[k].FreeBufRing? ensures exists j: nat :: FreedBy(trace, j, k) {
      var j := SetupOf(trace, k);
    }
    if Replay(trace).value.live == map[] {
      forall j: nat | j < |trace| && trace[j].SetupBufRing? ensures exists k: nat :: FreedBy(trace, j, k) {
        var k := FreeOf(trace, j, Replay(trace).value);
      }
    }
    forall i: nat, j: nat, k: nat | FreedBy(trace, i, k) && FreedBy(trace, j, k) ensures i == j {
      SameFree(trace, i, k, j, k);
    }
    forall j: nat, k: nat, l: nat | FreedBy(trace, j, k) && FreedBy(trace, j, l) ensures k == l {
      SameFree(trace, j, k, j, l);
    }
  }

  lemma SameFree(trace: seq<Event>, i: nat, k: nat, j: nat, l: nat)
    requires FreedBy(trace, i, k) && FreedBy(trace, j, l) && (i == j || k == l)
    ensures i == j && k == l
  {
    assert Concerns(trace[i], trace[i].buf) && Concerns(trace[j], trace[j].buf);
    assert Concerns(trace[k], trace[k].buf) && Concerns(trace[l], trace[l].buf);
  }

  lemma SetupOf(trace: seq<Event>, k: nat) returns (j: nat)
    requires k < |trace| && trace[k].FreeBufRing? && forall i :: 0 <= i < |trace| ==> AllowedAt(trace, i)
    ensures FreedBy(trace, j, k)
  {
    hide OpenAt;
    var b, lease := trace[k].buf, trace[k].lease;
    assert AllowedAt(trace, k);
    j :| 0 <= j < k && trace[j] == SetupBufRing(b, lease) && forall i :: j < i < k ==> !Concerns(trace[i], b);
    forall i | j < i < k ensures trace[i] != QueueExit(lease.fd) {
      assert AllowedAt(trace, i) && LiveAt(trace, i, b, lease);
    }
  }

  /** The next call that concerns the native ring is its free. */
  lemma FreeOf(trace: seq<Event>, j: nat, w: World) returns (k: nat)
    requires j < |trace| && trace[j].SetupBufRing? && forall i :: 0 <= i < |trace| ==> AllowedAt(trace, i)
    requires Reflects(w, trace, |trace|) && w.live == map[]
    ensures FreedBy(trace, j, k)
  {
    hide OpenAt;
    var b, lease := trace[j].buf, trace[j].lease;
    k := j + 1;
    while k < |trace| && !Concerns(trace[k], b)
      invariant j < k <= |trace| && forall i :: j < i < k ==> !Concerns(trace[i], b)
    {
      k := k + 1;
    }
    assert LiveAt(trace, k, b, lease);
    assert k < |trace|;
    assert AllowedAt(trace, k);
    OneLease(trace, k, b, lease);
    forall i | j < i < k ensures trace[i] != QueueExit(lease.fd) {
      assert AllowedAt(trace, i) && LiveAt(trace, i, b, lease);
    }
  }

  lemma OneLease(trace: seq<Event>, n: nat, b: nat, lease: Lease)
    requires n <= |trace| && LiveAt(trace, n, b, lease)
    ensures forall other :: LiveAt(trace, n, b, other) ==> other == lease
  {
    forall other | LiveAt(trace, n, b, other) ensures other == lease {
      var i :| 0 <= i < n && trace[i] == SetupBufRing(b, lease) && forall k :: i < k < n ==> !Concerns(trace[k], b);
      var j :| 0 <= j < n && trace[j] == SetupBufRing(b, other) && forall k :: j < k < n ==> !Concerns(trace[k], b);
      assert Concerns(trace[i], b) && Concerns(trace[j], b);
    }
  }

  // ----- traces that go wrong

  predicate NoSetups(events: seq<Event>) {
    forall i :: 0 <= i < |events| ==> !events[i].SetupBufRing?
  }

  /** The trace `after` adds to `before` without setting anything up. */
  predicate Continues(before: seq<Event>, after: seq<Event>) {
    before <= after && NoSetups(after[|before|..])
  }

  /** ... and the call `ev` is among what it adds. */
  predicate Adds(before: seq<Event>, after: seq<Event>, ev: Event) {
    Continues(before, after) && ev in after[|before|..]
  }

  /** A free that does not match what is live stays wrong as long as nothing is set up. */
  lemma {:induction false} WrongStays(trace: seq<Event>, more: seq<Event>, b: nat, lease: Lease)
    requires NoSetups(more)
    requires Replay(trace).Some? ==> !Allowed(Replay(trace).value, FreeBufRing(b, lease))
    ensures Replay(trace + more).Some? ==> !Allowed(Replay(trace + more).value, FreeBufRing(b, lease))
  {
    hide Replay;
    if more == [] {
      assert trace + more == trace;
    } else {
      var init, ev := more[..|more| - 1], more[|more| - 1];
      WrongStays(trace, init, b, lease);
      ReplayAppend(trace + init, ev);
      assert trace + more == trace + init + [ev];
    }
  }

  /** A trace that makes such a free is not allowed, whatever else is in it. */
  lemma WrongFails(before: seq<Event>, after: seq<Event>, b: nat, lease: Lease)
    requires Adds(before, after, FreeBufRing(b, lease))
    requires Replay(before).Some? ==> !Allowed(Replay(before).value, FreeBufRing(b, lease))
    ensures Replay(after).None?
  {
    hide Replay, Allowed;
    var ev, more := FreeBufRing(b, lease), after[|before|..];
    var i :| 0 <= i < |more| && more[i] == ev;
    WrongStays(before, more[..i], b, lease);
    ReplayAppend(before + more[..i], ev);
    NoneStays(before + more[..i] + [ev], more[i + 1..]);
    assert more == more[..i] + [ev] + more[i + 1..];
    assert after == before + more[..i] + [ev] + more[i + 1..];
  }

  lemma Continued(a: seq<Event>, b: seq<Event>, c: seq<Event>, ev: Event)
    requires Continues(a, b) && Continues(b, c)
    ensures Continues(a, c)
    ensures Adds(a, b, ev) || Adds(b, c, ev) ==> Adds(a, c, ev)
  {
    var x, y := b[|a|..], c[|b|..];
    assert c[|a|..] == x + y;
  }

  lemma ContinuesItself(trace: seq<Event>)
    ensures Continues(trace, trace)
  {
  }
}
