/**
 The array of polled descriptors in `main` of the server: compaction in place, and admission.
 */
module PollArray {
  const MAX_CONNECTIONS := 200
  const FD_CLOSED := -1
  const FD_STOP_POLLING := -2
  const POLLIN := 1

  datatype Pollfd = Pollfd(fd: int, events: int, revents: int)

  predicate Unused(fd: int) { fd == FD_CLOSED || fd == FD_STOP_POLLING }

  /** The descriptors still in use, in their order. */
  function Live(fds: seq<int>): (r: seq<int>)
    ensures |r| <= |fds|
  {
    if fds == [] then [] else Kept(fds[0]) + Live(fds[1..])
  }

  function Kept(fd: int): (r: seq<int>)
    ensures |r| <= 1
  {
    if Unused(fd) then [] else [fd]
  }

  function Descriptors(slots: seq<Pollfd>): (r: seq<int>)
    ensures |r| == |slots| && forall k :: 0 <= k < |r| ==> r[k] == slots[k].fd
  {
    seq(|slots|, k requires 0 <= k < |slots| => slots[k].fd)
  }

  lemma {:induction false} FirstLive(fds: seq<int>)
    requires fds != []
    ensures Live(fds) == Kept(fds[0]) + Live(fds[1..])
  {
    hide Kept;
  }

  lemma {:induction false} NoneLive()
    ensures Live([]) == []
  {
  }

  lemma Associative(a: seq<int>, b: seq<int>, c: seq<int>)
    ensures a + (b + c) == a + b + c
  {
  }

  lemma {:induction false} LiveConcat(a: seq<int>, b: seq<int>)
    ensures Live(a + b) == Live(a) + Live(b)
  {
    hide Live, Kept;
    if a == [] {
      NoneLive();
      assert a + b == b && [] + Live(b) == Live(b);
    } else {
      LiveConcat(a[1..], b);
      FirstLive(a);
      FirstLive(a + b);
      assert (a + b)[0] == a[0] && (a + b)[1..] == a[1..] + b;
      Associative(Kept(a[0]), Live(a[1..]), Live(b));
    }
  }

  lemma KeptCount(d: int, fd: int)
    ensures multiset(Kept(d))[fd] == if d == fd && !Unused(fd) then 1 else 0
  {
  }

  /** What is kept, and how often. */
  lemma {:induction false} LiveCount(fds: seq<int>, fd: int)
    ensures multiset(Live(fds))[fd] == if Unused(fd) then 0 else multiset(fds)[fd]
  {
    if fds == [] {
    } else {
      hide Kept, Unused;
      LiveCount(fds[1..], fd);
      KeptCount(fds[0], fd);
      assert fds == [fds[0]] + fds[1..];
      assert multiset(Live(fds)) == multiset(Kept(fds[0])) + multiset(Live(fds[1..]));
    }
  }

  /** Where all are in use, compaction changes nothing; in particular after a compaction. */
  lemma {:induction false} LiveOfLive(fds: seq<int>)
    ensures (forall k :: 0 <= k < |fds| ==> !Unused(fds[k])) ==> Live(fds) == fds
    ensures Live(Live(fds)) == Live(fds)
  {
    if fds == [] {
    } else {
      LiveOfLive(fds[1..]);
      assert fds == [fds[0]] + fds[1..];
      LiveConcat(Kept(fds[0]), Live(fds[1..]));
      assert Live([fds[0]]) == Kept(fds[0]);
    }
  }

  /** `slots` leads from the slots of `now` to slots of `was` with the same descriptor, in the same order. */
  ghost predicate LeadsBack(slots: seq<int>, now: seq<int>, was: seq<int>) {
    && |slots| == |now|
    && (forall k :: 0 <= k < |slots| ==> 0 <= slots[k] < |was| && was[slots[k]] == now[k])
    && (forall j, k :: 0 <= j < k < |slots| ==> slots[j] < slots[k])
  }

  /** Neither of the two marks is left, every other descriptor occurs as often as before, and in the same order. */
  ghost predicate OnlyMarksGone(now: seq<int>, was: seq<int>) {
    && -1 !in now && -2 !in now
    && (forall fd: int :: fd != -1 && fd != -2 ==> multiset(now)[fd] == multiset(was)[fd])
    && exists slots :: LeadsBack(slots, now, was)
  }

  /** The slots that `Live` takes its descriptors from, where the first one is slot `at`. */
  function LiveSlots(fds: seq<int>, at: int): (r: seq<int>)
    ensures |r| == |Live(fds)|
    ensures forall k :: 0 <= k < |r| ==> at <= r[k] < at + |fds| && fds[r[k] - at] == Live(fds)[k]
    ensures forall j, k :: 0 <= j < k < |r| ==> r[j] < r[k]
  {
    if fds == [] then [] else
      var rest := LiveSlots(fds[1..], at + 1);
      if Unused(fds[0]) then rest else [at] + rest
  }

  lemma {:induction false} LiveOnlyMarksGone(fds: seq<int>)
    ensures OnlyMarksGone(Live(fds), fds)
  {
    hide Live;
    LiveCount(fds, -1);
    LiveCount(fds, -2);
    forall fd: int | fd != -1 && fd != -2 ensures multiset(Live(fds))[fd] == multiset(fds)[fd] {
      LiveCount(fds, fd);
    }
    assert LeadsBack(LiveSlots(fds, 0), Live(fds), fds);
  }

  lemma {:induction false} LiveWithout(fds: seq<int>, i: nat)
    requires i < |fds| && Unused(fds[i])
    ensures Live(fds[..i] + fds[i + 1..]) == Live(fds)
  {
    assert fds == fds[..i] + fds[i..];
    LiveConcat(fds[..i], fds[i..]);
    LiveConcat(fds[..i], fds[i + 1..]);
    assert Live(fds[i..]) == Live(fds[i + 1..]) by {
      assert fds[i..][1..] == fds[i + 1..];
    }
  }

  /** Both marks go, and nothing else. */
  lemma {:induction false} BothMarksGo()
    ensures Live([5, -2, 7, -1, 0]) == [5, 7, 0]
  {
    hide Live;
    LiveWithout([5, -2, 7, -1, 0], 1);
    assert [5, -2, 7, -1, 0][..1] + [5, -2, 7, -1, 0][2..] == [5, 7, -1, 0];
    LiveWithout([5, 7, -1, 0], 2);
    assert [5, 7, -1, 0][..2] + [5, 7, -1, 0][3..] == [5, 7, 0];
    LiveOfLive([5, 7, 0]);
  }

  /** The array when slot `i` of the first `n` has been taken out and the rest moved up. */
  function Removed(all: seq<int>, n: nat, i: nat): (r: seq<int>)
    requires i < n <= |all|
    ensures |r| == |all|
  {
    all[..i] + all[i + 1..n] + all[n - 1..]
  }

  lemma RemovedFrom(was: seq<int>, n: nat, i: nat, all: seq<int>)
    requires i < n <= |was| == |all|
    requires forall k :: i <= k < n - 1 ==> all[k] == was[k + 1]
    requires forall k :: 0 <= k < i || n - 1 <= k < |was| ==> all[k] == was[k]
    ensures all == Removed(was, n, i)
  {
  }

  /** Compaction of the first `n0` slots of `was` has got to slot `i` of `n`. */
  ghost predicate Halfway(all: seq<int>, n: nat, i: nat, was: seq<int>, n0: nat)
    requires i <= n <= n0 <= |was| && |all| == |was|
  {
    && (forall k :: 0 <= k < i ==> !Unused(all[k]))
    && Live(all[..n]) == Live(was[..n0])
    && (i < n ==> all[n - 1] == was[n0 - 1])
    && (forall k :: n <= k < n0 ==> all[k] == was[n0 - 1])
    && all[n0..] == was[n0..]
  }

  lemma HalfwayStart(was: seq<int>, n0: nat)
    requires n0 <= |was|
    ensures Halfway(was, n0, 0, was, n0)
  {
  }

  lemma HalfwayPassed(all: seq<int>, n: nat, i: nat, was: seq<int>, n0: nat)
    requires i < n <= n0 <= |was| && |all| == |was| && Halfway(all, n, i, was, n0) && !Unused(all[i])
    ensures Halfway(all, n, i + 1, was, n0)
  {
  }

  lemma HalfwayRemoved(all: seq<int>, n: nat, i: nat, was: seq<int>, n0: nat)
    requires i < n <= n0 <= |was| && |all| == |was| && Halfway(all, n, i, was, n0) && Unused(all[i])
    ensures Halfway(Removed(all, n, i), n - 1, i, was, n0)
  {
    hide Live;
    LiveWithout(all[..n], i);
    assert Removed(all, n, i)[..n - 1] == all[..n][..i] + all[..n][i + 1..];
    assert Removed(all, n, i)[n0..] == all[n0..];
  }

  lemma HalfwayEnd(all: seq<int>, n: nat, was: seq<int>, n0: nat)
    requires n <= n0 <= |was| && |all| == |was| && Halfway(all, n, n, was, n0)
    ensures all[..n] == Live(was[..n0]) && all[n0..] == was[n0..]
    ensures forall k :: n <= k < n0 ==> all[k] == was[n0 - 1]
  {
    LiveOfLive(all[..n]);
  }

  /** What can happen to the array between two polls; a slot need not be one of those polled. */
  datatype Event =
    | Compaction
    | Hangup(i: nat)
    | Readable(i: nat)
    | Connections(descriptors: seq<int>)
    | Released(i: nat, fd: int)

  function Min(a: int, b: int): int { if a < b then a else b }

  /** The event is about a slot of the array. */
  predicate InArray(e: Event) {
    match e
    case Hangup(i) => i < MAX_CONNECTIONS
    case Readable(i) => i < MAX_CONNECTIONS
    case Released(i, _) => i < MAX_CONNECTIONS
    case _ => true
  }

  /** A write to a slot, as far as it concerns the polled descriptors. */
  function Write(fds: seq<int>, i: nat, fd: int): (r: seq<int>)
    ensures |r| == |fds|
  {
    if i < |fds| then fds[i := fd] else fds
  }

  /** The effect on the polled descriptors. */
  function After(fds: seq<int>, e: Event): seq<int> {
    match e
    case Compaction => Live(fds)
    case Hangup(i) => Live(Write(fds, i, FD_CLOSED))
    case Readable(i) => Write(fds, i, FD_STOP_POLLING)
    case Connections(ds) =>
      if |fds| <= MAX_CONNECTIONS then fds + ds[..Min(|ds|, MAX_CONNECTIONS - |fds|)] else fds
    case Released(i, fd) => Write(fds, i, fd)
  }

  function AfterAll(fds: seq<int>, es: seq<Event>): seq<int>
    decreases es
  {
    if es == [] then fds else AfterAll(After(fds, es[0]), es[1..])
  }

  class PollSet {
    const fds: array<Pollfd>
    var nfds: int

    ghost predicate Valid()
      reads this
    {
      fds.Length == MAX_CONNECTIONS && 0 <= nfds <= MAX_CONNECTIONS
    }

    ghost function Polled(): seq<int>
      reads this, fds
      requires Valid()
    {
      Descriptors(fds[..nfds])
    }

    /** The descriptors of all slots, polled or not. */
    ghost function All(): (s: seq<int>)
      reads this, fds
      requires Valid()
      ensures |s| == MAX_CONNECTIONS && s[..nfds] == Polled()
    {
      Descriptors(fds[..])
    }

    /** Only descriptors move: what a slot asks of poll and what poll answered stay where they are. */
    twostate predicate OnlyDescriptors()
      reads this, fds
    {
      && fds.Length == MAX_CONNECTIONS
      && forall k :: 0 <= k < MAX_CONNECTIONS ==>
           fds[k].events == old(fds[k].events) && fds[k].revents == old(fds[k].revents)
    }

    constructor (listener: int)
      ensures Valid() && fresh(fds) && Polled() == [listener] && fds[0].events == POLLIN
    {
      fds := new Pollfd[MAX_CONNECTIONS](_ => Pollfd(0, 0, 0));
      nfds := 1;
      new;
      fds[0] := Pollfd(listener, POLLIN, 0);
    }

    /** The inner loop and `nfds--`: everything behind slot `i` moves up, the slot given up keeps its descriptor. */
    method RemoveSlot(i: int)
      requires Valid() && 0 <= i < nfds
      modifies `nfds, fds
      ensures Valid() && nfds == old(nfds) - 1 && OnlyDescriptors()
      ensures All() == Removed(old(All()), old(nfds), i)
    {
      hide Removed;
      var j := i;
      while j < nfds - 1
        invariant i <= j <= nfds - 1 && nfds == old(nfds)
        invariant OnlyDescriptors()
        invariant forall k :: i <= k < j ==> fds[k].fd == old(fds[k + 1].fd)
        invariant forall k :: 0 <= k < i || j <= k < MAX_CONNECTIONS ==> fds[k] == old(fds[k])
      {
        fds[j] := fds[j].(fd := fds[j + 1].fd);
        j := j + 1;
      }
      RemovedFrom(old(All()), nfds, i, All());
      nfds := nfds - 1;
    }

    /**
     Compaction: the descriptors in use remain, in their order; slots given up keep the descriptor that was
     last, and nothing else changes.
     */
    method Compact()
      requires Valid()
      modifies `nfds, fds
      ensures Valid() && OnlyDescriptors()
      ensures Polled() == Live(old(Polled())) && OnlyMarksGone(Polled(), old(Polled()))
      ensures forall k :: nfds <= k < old(nfds) ==> All()[k] == old(All()[nfds - 1])
      ensures All()[old(nfds)..] == old(All()[nfds..])
    {
      hide Live, Removed, Halfway, OnlyMarksGone;
      ghost var was := All();
      var i := 0;
      HalfwayStart(was, nfds);
      while i < nfds
        invariant 0 <= i <= nfds <= old(nfds) && OnlyDescriptors()
        invariant Halfway(All(), nfds, i, was, old(nfds))
        decreases nfds - i
      {
        if fds[i].fd == -1 || fds[i].fd == -2 {
          HalfwayRemoved(All(), nfds, i, was, old(nfds));
          RemoveSlot(i);
          i := i - 1;
        } else {
          HalfwayPassed(All(), nfds, i, was, old(nfds));
        }
        i := i + 1;
      }
      HalfwayEnd(All(), nfds, was, old(nfds));
      LiveOnlyMarksGone(old(Polled()));
    }

    /**
     A peer that hung up: its slot is given up and the array compacted at once. After an earlier hang-up in the
     same pass the slot can lie behind those still polled.
     */
    method HangUp(i: int)
      requires Valid() && 0 <= i < MAX_CONNECTIONS
      modifies `nfds, fds
      ensures Valid() && OnlyDescriptors()
      ensures Polled() == Live(Write(old(Polled()), i, FD_CLOSED))
      ensures i >= old(nfds) ==> OnlyMarksGone(Polled(), old(Polled()))
      ensures i < old(nfds) ==> OnlyMarksGone(Polled(), old(Polled())[i := -1])
    {
      hide OnlyMarksGone;
      SetDescriptor(i, -1);
      Compact();
    }

    /**
     The accept loop, given the descriptors that accept returns before it would block. A descriptor that
     finds the array full is closed and ends the loop.
     */
    method Accept(connections: seq<int>) returns (accepted: nat, closed: seq<int>)
      requires Valid()
      modifies `nfds, fds
      ensures Valid() && nfds >= old(nfds)
      ensures accepted == Min(|connections|, MAX_CONNECTIONS - old(nfds))
      ensures Polled() == old(Polled()) + connections[..accepted]
      ensures closed == if accepted < |connections| then [connections[accepted]] else []
      ensures forall k :: 0 <= k < old(nfds) || nfds <= k < MAX_CONNECTIONS ==> fds[k] == old(fds[k])
      ensures forall k :: old(nfds) <= k < nfds ==> fds[k].events == POLLIN && fds[k].revents == old(fds[k].revents)
    {
      closed := [];
      accepted := 0;
      while accepted < |connections|
        invariant Valid() && accepted <= |connections| && nfds == old(nfds) + accepted && closed == []
        invariant Polled() == old(Polled()) + connections[..accepted]
        invariant forall k :: 0 <= k < old(nfds) || nfds <= k < MAX_CONNECTIONS ==> fds[k] == old(fds[k])
        invariant forall k :: old(nfds) <= k < nfds ==> fds[k].events == POLLIN && fds[k].revents == old(fds[k].revents)
      {
        var descriptor := connections[accepted];
        if nfds == 200 {
          closed := [descriptor];
          break;
        }
        fds[nfds] := fds[nfds].(fd := descriptor);
        fds[nfds] := fds[nfds].(events := POLLIN);
        nfds := nfds + 1;
        accepted := accepted + 1;
      }
    }

    /** Writes to one slot: at a hang-up, to stop polling a readable descriptor, or by a worker that is done with it. */
    method SetDescriptor(i: int, fd: int)
      requires Valid() && 0 <= i < MAX_CONNECTIONS
      modifies fds
      ensures OnlyDescriptors() && Polled() == Write(old(Polled()), i, fd)
      ensures fds[i].fd == fd && forall k :: 0 <= k < MAX_CONNECTIONS && k != i ==> fds[k] == old(fds[k])
    {
      fds[i] := fds[i].(fd := fd);
    }

    /** Any sequence of events: no slot outside the array is ever touched. */
    method Serve(es: seq<Event>)
      requires Valid() && forall n :: 0 <= n < |es| ==> InArray(es[n])
      modifies `nfds, fds
      ensures Valid() && Polled() == AfterAll(old(Polled()), es)
    {
      var n := 0;
      assert es[0..] == es;
      while n < |es|
        invariant n <= |es| && Valid() && AfterAll(Polled(), es[n..]) == AfterAll(old(Polled()), es)
      {
        ghost var before := Polled();
        match es[n] {
          case Compaction =>
            Compact();
          case Hangup(i) =>
            HangUp(i);
          case Readable(i) =>
            SetDescriptor(i, FD_STOP_POLLING);
          case Connections(ds) =>
            var accepted, closed := Accept(ds);
          case Released(i, fd) =>
            SetDescriptor(i, fd);
        }
        assert Polled() == After(before, es[n]);
        assert es[n..][1..] == es[n + 1..];
        n := n + 1;
      }
    }
  }

  /** What each event does, for one array each. */
  lemma {:induction false} OneEventEach()
    ensures After([3, 5, 7], Readable(1)) == [3, -2, 7] && After([3, 5, 7], Released(1, 6)) == [3, 6, 7]
    ensures After([3, 5, 7], Hangup(1)) == [3, 7] && After([3, -2, 7], Compaction) == [3, 7]
    ensures After([3, 5, 7], Connections([8, 9])) == [3, 5, 7, 8, 9]
    ensures After([3, 5, 7], Readable(3)) == After([3, 5, 7], Released(3, 6)) == [3, 5, 7]
    ensures After([3, 5, 7], Hangup(3)) == [3, 5, 7]
  {
    hide Live;
    assert Write([3, 5, 7], 1, FD_CLOSED) == [3, -1, 7];
    LiveWithout([3, -1, 7], 1);
    LiveWithout([3, -2, 7], 1);
    assert [3, -1, 7][..1] + [3, -1, 7][2..] == [3, 7] == [3, -2, 7][..1] + [3, -2, 7][2..];
    LiveOfLive([3, 7]);
    LiveOfLive([3, 5, 7]);
  }

  // ---------------------------------------------------------------- descriptors being served

  /** The slots handed to workers, with the descriptors that they held. */
  type Serving = map<nat, int>

  function ServingAfter(fds: seq<int>, serving: Serving, e: Event): Serving {
    match e
    case Readable(i) => if i < |fds| then serving[i := fds[i]] else serving
    case Released(i, _) => serving - {i}
    case _ => serving
  }

  /** Nobody hangs up, workers put back what they were given, and nothing is compacted while one of them is at work. */
  predicate Undisturbed(fds: seq<int>, serving: Serving, es: seq<Event>)
    decreases es
  {
    es == [] || (
      && (match es[0]
          case Compaction => serving == map[]
          case Hangup(_) => false
          case Readable(i) => i < |fds| && i !in serving
          case Connections(_) => true
          case Released(i, fd) => i in serving && fd == serving[i])
      && Undisturbed(After(fds, es[0]), ServingAfter(fds, serving, es[0]), es[1..]))
  }

  function ServingAfterAll(fds: seq<int>, serving: Serving, es: seq<Event>): Serving
    decreases es
  {
    if es == [] then serving else
      ServingAfterAll(After(fds, es[0]), ServingAfter(fds, serving, es[0]), es[1..])
  }

  /** The descriptors with those that are being served in their slots. */
  function Restored(fds: seq<int>, serving: Serving): seq<int> {
    seq(|fds|, k requires 0 <= k < |fds| => if k in serving then serving[k] else fds[k])
  }

  lemma {:induction false} NothingLostAtOnce(fds: seq<int>, serving: Serving, e: Event)
    requires Undisturbed(fds, serving, [e]) && forall i <- serving :: i < |fds|
    ensures Live(Restored(fds, serving)) <= Live(Restored(After(fds, e), ServingAfter(fds, serving, e)))
    ensures forall i <- ServingAfter(fds, serving, e) :: i < |After(fds, e)|
  {
    hide Live;
    var before, after := Restored(fds, serving), Restored(After(fds, e), ServingAfter(fds, serving, e));
    match e
    case Compaction =>
      assert before == fds && after == Live(fds);
      LiveOfLive(fds);
    case Connections(ds) =>
      var joined := After(fds, e)[|fds|..];
      assert after == before + joined;
      LiveConcat(before, joined);
    case Readable(_) =>
      assert after == before;
    case Released(_, _) =>
      assert after == before;
    case Hangup(_) =>
  }

  /**
   As long as nobody hangs up, workers put back what they were given and nothing is compacted under them, no
   connection is lost: those in use or being served remain, in their order, and new ones come behind them.
   */
  lemma {:induction false} NoConnectionIsLost(fds: seq<int>, serving: Serving, es: seq<Event>)
    requires Undisturbed(fds, serving, es) && forall i <- serving :: i < |fds|
    ensures Live(Restored(fds, serving)) <= Live(Restored(AfterAll(fds, es), ServingAfterAll(fds, serving, es)))
    decreases es
  {
    hide Live, After, ServingAfter, Restored;
    if es == [] {
    } else {
      NothingLostAtOnce(fds, serving, es[0]);
      NoConnectionIsLost(After(fds, es[0]), ServingAfter(fds, serving, es[0]), es[1..]);
    }
  }

  lemma {:induction false} LiveWith(fds: seq<int>, j: nat, fd: int)
    requires j < |fds| && Unused(fds[j]) && !Unused(fd)
    ensures |Live(fds[j := fd])| == |Live(fds)| + 1
  {
    hide Live;
    LiveWithout(fds, j);
    LiveConcat(fds[..j], fds[j + 1..]);
    assert fds[j := fd] == fds[..j] + ([fd] + fds[j + 1..]);
    LiveConcat(fds[..j], [fd] + fds[j + 1..]);
    LiveConcat([fd], fds[j + 1..]);
    LiveOfLive([fd]);
  }

  lemma {:induction false} TwoEvents(fds: seq<int>, e: Event, e': Event)
    ensures AfterAll(fds, [e, e']) == After(After(fds, e), e')
  {
    hide After;
    assert [e, e'][1..] == [e'];
    assert AfterAll(After(fds, e), [e']) == AfterAll(After(After(fds, e), e'), []);
  }

  /**
   A hang-up compacts at once, whoever is at work. The slot of a worker is gone then, it puts its descriptor
   into another one, and one descriptor less is polled than if it had been done before the hang-up.
   */
  lemma {:induction false} HangupUnderWorker(fds: seq<int>, i: nat, j: nat, fd: int)
    requires j < |fds| && i != j && fds[j] == FD_STOP_POLLING && !Unused(fd)
    ensures |AfterAll(fds, [Hangup(i), Released(j, fd)])| + 1 == |AfterAll(fds, [Released(j, fd), Hangup(i)])|
  {
    hide Live, AfterAll;
    var hung := Write(fds, i, FD_CLOSED);
    TwoEvents(fds, Released(j, fd), Hangup(i));
    TwoEvents(fds, Hangup(i), Released(j, fd));
    assert Write(Write(fds, j, fd), i, FD_CLOSED) == hung[j := fd];
    LiveWith(hung, j, fd);
  }

  /** Never more than 200 descriptors are polled, whatever happens. */
  lemma {:induction false} NeverTooMany(fds: seq<int>, es: seq<Event>)
    requires |fds| <= 200
    ensures |AfterAll(fds, es)| <= 200
    decreases es
  {
    if es == [] {
    } else {
      NeverTooMany(After(fds, es[0]), es[1..]);
    }
  }

  /** The listening socket stays in slot 0 as long as it does not hang up and nobody else writes that slot. */
  lemma {:induction false} ListenerStays(fds: seq<int>, es: seq<Event>)
    requires |fds| > 0 && !Unused(fds[0])
    requires forall k :: 0 <= k < |es| ==>
               match es[k]
               case Hangup(i) => i != 0
               case Readable(i) => i != 0
               case Released(i, _) => i != 0
               case _ => true
    ensures AfterAll(fds, es) != [] && AfterAll(fds, es)[0] == fds[0]
    decreases es
  {
    if es == [] {
    } else {
      var next := After(fds, es[0]);
      assert next != [] && next[0] == fds[0];
      ListenerStays(next, es[1..]);
    }
  }
}
