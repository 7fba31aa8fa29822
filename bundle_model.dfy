/**
 * The state machine of the compositor's buffer-switching bundle
 * (mir::compositor::SwitchingBundle), as a value.
 *
 * A bundle owns a fixed pool of slots, numbered 0 .. nbuffers-1; a slot's
 * number is the id of the buffer in it. Each slot has a role (free, held by
 * the client, ready, shown) and two reader counts: how many compositor and
 * how many snapshot acquisitions of it are outstanding. Ready frames wait in
 * a FIFO; `last` is the most recently composited slot, which compositors
 * re-display while no newer frame is ready.
 *
 * Every operation of the bundle is one atomic transition under one lock, so
 * each is a function from the state before to the state after and a reply.
 */
module BundleModel {
  import opened Wrappers

  datatype Role = Free | Client | Ready | Shown

  datatype Slot = Slot(role: Role, compositors: nat, snapshots: nat)

  datatype Bundle = Bundle(
    slots: seq<Slot>,
    ready: seq<nat>,          // ready frames, oldest first
    clients: seq<nat>,        // buffers the client holds, in acquisition order
    last: nat,                // the last-composited slot
    framedropping: bool,
    clientWaiting: bool,      // a client_acquire is blocked
    forcePending: bool)       // a force arrived while no client was waiting

  datatype Grant = Granted(buffer: nat) | WouldBlock

  /** A release either succeeds or is a protocol violation (std::logic_error). */
  datatype Status = Ok | LogicError

  function Readers(sl: Slot): nat
  {
    sl.compositors + sl.snapshots
  }

  predicate Distinct(q: seq<nat>)
  {
    forall a, b :: 0 <= a < b < |q| ==> q[a] != q[b]
  }

  /** Every slot number the state mentions is a slot of the pool. */
  predicate WellFormed(s: Bundle)
  {
    && |s.slots| >= 1
    && s.last < |s.slots|
    && (forall k :: 0 <= k < |s.ready| ==> s.ready[k] < |s.slots|)
    && (forall k :: 0 <= k < |s.clients| ==> s.clients[k] < |s.slots|)
  }

  /** The bundle invariant: the queues list exactly the slots in their role. */
  predicate Inv(s: Bundle)
  {
    WellFormed(s) && QueuesMatch(s) && ReadersMatch(s)
  }

  /** The ready FIFO and the client's list hold exactly the slots in those roles. */
  predicate QueuesMatch(s: Bundle)
  {
    var n := |s.slots|;
    && Distinct(s.ready)
    && Distinct(s.clients)
    && (forall k :: 0 <= k < |s.ready| ==> s.ready[k] < n && s.slots[s.ready[k]].role == Ready)
    && (forall k :: 0 <= k < |s.clients| ==> s.clients[k] < n && s.slots[s.clients[k]].role == Client)
    && (forall i :: 0 <= i < n && s.slots[i].role == Ready ==> i in s.ready)
    && (forall i :: 0 <= i < n && s.slots[i].role == Client ==> i in s.clients)
  }

  /** Which slots may be on display and which may have readers. */
  predicate ReadersMatch(s: Bundle)
  {
    var n := |s.slots|;
    && s.last < n
    // with two or more buffers the last-composited frame is always displayable
    && (n >= 2 ==> s.slots[s.last].role == Shown)
    // an older shown frame is kept only while a reader holds it
    && (forall i :: 0 <= i < n && i != s.last && s.slots[i].role == Shown ==> Readers(s.slots[i]) > 0)
    // readers hold only shown slots, except that a single buffer is shared
    && (n >= 2 ==> forall i :: 0 <= i < n && s.slots[i].role != Shown ==> Readers(s.slots[i]) == 0)
  }

  /** The state right after construction: slot 0 holds the blank frame on display. */
  function Initial(nbuffers: nat): (s: Bundle)
    requires nbuffers >= 1
    ensures |s.slots| == nbuffers && s.last == 0
    ensures !s.framedropping && !s.clientWaiting && !s.forcePending && s.ready == [] && s.clients == []
    ensures forall i :: 0 <= i < nbuffers ==> s.slots[i] == InitialSlot(i)
  {
    Bundle(seq(nbuffers, i => InitialSlot(i)), [], [], 0, false, false, false)
  }

  /** A new bundle satisfies the invariant and has no readers. */
  lemma InitialInv(nbuffers: nat)
    requires nbuffers >= 1
    ensures Inv(Initial(nbuffers))
    ensures forall i :: 0 <= i < nbuffers ==> Readers(Initial(nbuffers).slots[i]) == 0
  {
    var s := Initial(nbuffers);
    assert s.slots[0].role == Shown;
    assert forall i :: 1 <= i < nbuffers ==> s.slots[i].role == Free;
  }

  function InitialSlot(i: int): Slot
  {
    if i == 0 then Slot(Shown, 0, 0) else Slot(Free, 0, 0)
  }

  /** The lowest-numbered free slot, if any. */
  function FirstFree(slots: seq<Slot>): (r: Option<nat>)
    ensures r.Some? ==> r.value < |slots| && slots[r.value].role == Free
    ensures r.Some? ==> forall j :: 0 <= j < r.value ==> slots[j].role != Free
    ensures r.None? ==> forall j :: 0 <= j < |slots| ==> slots[j].role != Free
  {
    if |slots| == 0 then None
    else if slots[0].role == Free then Some(0)
    else match FirstFree(slots[1..])
      case None => None
      case Some(k) => Some(k + 1)
  }

  /** Hand slot i to the client. */
  function Take(s: Bundle, i: nat): Bundle
    requires i < |s.slots|
  {
    s.(slots := s.slots[i := s.slots[i].(role := Client)],
       clients := s.clients + [i],
       clientWaiting := false)
  }

  lemma TakeKeepsInv(s: Bundle, base: Bundle, i: nat)
    requires Inv(s)
    requires i < |s.slots|
    requires s.slots[i].role == Free ||
             (s.slots[i].role == Ready && |s.ready| > 0 && s.ready[0] == i) ||
             (|s.slots| == 1 && s.slots[i].role == Shown)
    requires base == if s.slots[i].role == Ready then s.(ready := s.ready[1..], forcePending := false) else s
    ensures Inv(Take(base, i))
  {
    TakeKeepsQueues(s, base, i);
    TakeKeepsReaders(s, base, i);
  }

  lemma TakeKeepsReaders(s: Bundle, base: Bundle, i: nat)
    requires Inv(s)
    requires i < |s.slots|
    requires s.slots[i].role == Free || s.slots[i].role == Ready || (|s.slots| == 1 && s.slots[i].role == Shown)
    requires base == if s.slots[i].role == Ready then s.(ready := s.ready[1..], forcePending := false) else s
    ensures WellFormed(Take(base, i)) && ReadersMatch(Take(base, i))
  {
    var t := Take(base, i);
    assert forall j :: 0 <= j < |s.slots| && j != i ==> t.slots[j] == s.slots[j];
  }

  lemma TakeKeepsQueues(s: Bundle, base: Bundle, i: nat)
    requires Inv(s)
    requires i < |s.slots|
    requires s.slots[i].role == Free ||
             (s.slots[i].role == Ready && |s.ready| > 0 && s.ready[0] == i) ||
             (|s.slots| == 1 && s.slots[i].role == Shown)
    requires base == if s.slots[i].role == Ready then s.(ready := s.ready[1..], forcePending := false) else s
    ensures QueuesMatch(Take(base, i))
  {
    var t := Take(base, i);
    var n := |s.slots|;
    assert i !in s.clients;
    forall k | 0 <= k < |t.ready|
      ensures t.ready[k] < n && t.slots[t.ready[k]].role == Ready
    {
      if s.slots[i].role == Ready {
        assert t.ready[k] == s.ready[k + 1];
      } else {
        assert t.ready[k] == s.ready[k];
      }
    }
    forall j | 0 <= j < n && t.slots[j].role == Ready
      ensures j in t.ready
    {
      assert j != i && s.slots[j].role == Ready;
      var k :| 0 <= k < |s.ready| && s.ready[k] == j;
      if s.slots[i].role == Ready {
        assert k != 0;
        assert t.ready[k - 1] == j;
      }
    }
  }

  /**
   * One attempt of client_acquire. A free slot is taken first; failing that,
   * when frames may be dropped, the oldest ready frame is taken back from the
   * compositor, which also uses up a pending force; a single buffer is taken
   * while nobody reads it; otherwise the caller would block.
   */
  function AcquireForClient(s: Bundle, dropFrames: bool): (r: (Bundle, Grant))
    requires WellFormed(s)
    ensures WellFormed(r.0)
    ensures r.0.last == s.last && r.0.framedropping == s.framedropping
    ensures r.1.Granted? ==> r.1.buffer < |s.slots| && r.0.clients == s.clients + [r.1.buffer]
    ensures r.1.WouldBlock? ==> r.0 == s.(clientWaiting := true)
  {
    match FirstFree(s.slots)
    case Some(i) =>
      (Take(s, i), Granted(i))
    case None =>
      if dropFrames && |s.ready| > 0 then
        (Take(s.(ready := s.ready[1..], forcePending := false), s.ready[0]), Granted(s.ready[0]))
      else if |s.slots| == 1 && s.slots[0] == Slot(Shown, 0, 0) then
        (Take(s, 0), Granted(0))
      else
        (s.(clientWaiting := true), WouldBlock)
  }

  lemma AcquireForClientKeepsInv(s: Bundle, dropFrames: bool)
    requires Inv(s)
    ensures Inv(AcquireForClient(s, dropFrames).0)
  {
    match FirstFree(s.slots)
    case Some(i) =>
      TakeKeepsInv(s, s, i);
    case None =>
      if dropFrames && |s.ready| > 0 {
        TakeKeepsInv(s, s.(ready := s.ready[1..], forcePending := false), s.ready[0]);
      } else if |s.slots| == 1 && s.slots[0] == Slot(Shown, 0, 0) {
        TakeKeepsInv(s, s, 0);
      }
  }

  /**
   * client_acquire under the bundle's own framedropping policy. A pending
   * force makes this one acquisition follow the frame-dropping rule too, so
   * one that would block takes back the oldest ready frame instead.
   */
  function ClientAcquire(s: Bundle): (r: (Bundle, Grant))
    requires WellFormed(s)
    ensures WellFormed(r.0)
    ensures r.0.last == s.last && r.0.framedropping == s.framedropping
    ensures r.1.Granted? ==> r.0.clients == s.clients + [r.1.buffer] && !r.0.clientWaiting
  {
    AcquireForClient(s, s.framedropping || s.forcePending)
  }

  /** client_release: only the oldest buffer the client holds may be released. */
  function ClientRelease(s: Bundle, b: nat): (r: (Bundle, Status))
    requires WellFormed(s)
    ensures WellFormed(r.0)
    ensures r.1 == Ok <==> |s.clients| > 0 && s.clients[0] == b
    ensures r.1 == Ok ==> r.0.ready == s.ready + [b] && r.0.clients == s.clients[1..]
    ensures r.1 == LogicError ==> r.0 == s
  {
    if |s.clients| > 0 && s.clients[0] == b then
      (Submit(s, b), Ok)
    else
      (s, LogicError)
  }

  /** The client's oldest buffer b becomes the newest ready frame. */
  function Submit(s: Bundle, b: nat): (t: Bundle)
    requires WellFormed(s) && |s.clients| > 0 && s.clients[0] == b
    ensures WellFormed(t)
    ensures t.ready == s.ready + [b] && t.clients == s.clients[1..]
    ensures b < |t.slots| && t.slots[b].role == Ready
  {
    var t := s.(slots := s.slots[b := s.slots[b].(role := Ready)],
                clients := s.clients[1..],
                ready := s.ready + [b]);
    assert forall k :: 0 <= k < |t.clients| ==> t.clients[k] == s.clients[k + 1];
    t
  }

  lemma ClientReleaseKeepsInv(s: Bundle, b: nat)
    requires Inv(s)
    ensures Inv(ClientRelease(s, b).0)
  {
    if |s.clients| > 0 && s.clients[0] == b {
      SubmitKeepsInv(s, b);
    }
  }

  lemma SubmitKeepsInv(s: Bundle, b: nat)
    requires Inv(s) && |s.clients| > 0 && s.clients[0] == b
    ensures Inv(Submit(s, b))
  {
    {
      var t := Submit(s, b);
      var n := |s.slots|;
      assert b !in s.ready;
      forall k | 0 <= k < |t.clients|
        ensures t.clients[k] < n && t.slots[t.clients[k]].role == Client
      {
        assert t.clients[k] == s.clients[k + 1];
      }
      forall j | 0 <= j < n && t.slots[j].role == Client
        ensures j in t.clients
      {
        var k :| 0 <= k < |s.clients| && s.clients[k] == j;
        assert k != 0;
        assert t.clients[k - 1] == j;
      }
      forall k | 0 <= k < |t.ready|
        ensures t.ready[k] < n && t.slots[t.ready[k]].role == Ready
      {
        if k < |s.ready| {
          assert t.ready[k] == s.ready[k];
        }
      }
      forall j | 0 <= j < n && t.slots[j].role == Ready
        ensures j in t.ready
      {
        if j != b {
          var k :| 0 <= k < |s.ready| && s.ready[k] == j;
          assert t.ready[k] == j;
        } else {
          assert t.ready[|s.ready|] == j;
        }
      }
    }
  }

  /**
   * compositor_acquire: the oldest ready frame if there is one (the frame it
   * replaces on display goes free once nobody reads it), else the
   * last-composited frame again.
   */
  function CompositorAcquire(s: Bundle): (r: (Bundle, nat))
    requires WellFormed(s)
    ensures WellFormed(r.0)
    ensures r.0.last == r.1 && r.0.clients == s.clients && r.0.framedropping == s.framedropping
    ensures |s.ready| > 0 ==> r.1 == s.ready[0] && r.0.ready == s.ready[1..]
    ensures |s.ready| == 0 ==> r.1 == s.last && r.0.ready == []
  {
    if |s.ready| > 0 then
      (Present(s), s.ready[0])
    else
      (s.(slots := s.slots[s.last := s.slots[s.last].(compositors := s.slots[s.last].compositors + 1)]), s.last)
  }

  /** The oldest ready frame goes on display, read by one compositor. */
  function Present(s: Bundle): (t: Bundle)
    requires WellFormed(s) && |s.ready| > 0
    ensures WellFormed(t)
    ensures t.last == s.ready[0] && t.ready == s.ready[1..] && t.slots[t.last].role == Shown
  {
    var i := s.ready[0];
    var shown := s.slots[i := Slot(Shown, s.slots[i].compositors + 1, s.slots[i].snapshots)];
    var slots := if s.last != i && Readers(s.slots[s.last]) == 0
                 then shown[s.last := Slot(Free, 0, 0)] else shown;
    var t := s.(slots := slots, ready := s.ready[1..], last := i);
    assert forall k :: 0 <= k < |t.ready| ==> t.ready[k] == s.ready[k + 1];
    t
  }

  lemma CompositorAcquireKeepsInv(s: Bundle)
    requires Inv(s)
    ensures Inv(CompositorAcquire(s).0)
  {
    if |s.ready| > 0 {
      PresentKeepsInv(s);
    }
  }

  lemma PresentKeepsInv(s: Bundle)
    requires Inv(s) && |s.ready| > 0
    ensures Inv(Present(s))
  {
    PresentKeepsQueues(s);
    PresentKeepsReaders(s);
  }

  lemma PresentKeepsQueues(s: Bundle)
    requires Inv(s) && |s.ready| > 0
    ensures QueuesMatch(Present(s))
  {
    PresentKeepsReadyQueue(s);
    PresentKeepsClientList(s);
  }

  /** Present changes only the role of the new frame (to Shown) and of the old one (to Free). */
  lemma PresentRoles(s: Bundle)
    requires Inv(s) && |s.ready| > 0
    ensures |Present(s).slots| == |s.slots|
    ensures Present(s).slots[s.ready[0]].role == Shown
    ensures forall j :: 0 <= j < |s.slots| && Present(s).slots[j].role != s.slots[j].role ==>
              j == s.ready[0] || (j == s.last && Present(s).slots[j].role == Free)
  {
    var t := Present(s);
    assert forall j :: 0 <= j < |s.slots| && j != s.ready[0] && j != s.last ==> t.slots[j] == s.slots[j];
  }

  lemma PresentKeepsReadyQueue(s: Bundle)
    requires Inv(s) && |s.ready| > 0
    ensures var t := Present(s);
            && Distinct(t.ready)
            && (forall k :: 0 <= k < |t.ready| ==> t.ready[k] < |t.slots| && t.slots[t.ready[k]].role == Ready)
            && (forall j :: 0 <= j < |t.slots| && t.slots[j].role == Ready ==> j in t.ready)
  {
    var t := Present(s);
    var n := |s.slots|;
    PresentRoles(s);
    forall k | 0 <= k < |t.ready|
      ensures t.ready[k] < n && t.slots[t.ready[k]].role == Ready
    {
      assert t.ready[k] == s.ready[k + 1];
    }
    forall j | 0 <= j < n && t.slots[j].role == Ready
      ensures j in t.ready
    {
      var k :| 0 <= k < |s.ready| && s.ready[k] == j;
      assert k != 0;
      assert t.ready[k - 1] == j;
    }
  }

  lemma PresentKeepsClientList(s: Bundle)
    requires Inv(s) && |s.ready| > 0
    ensures var t := Present(s);
            && Distinct(t.clients)
            && (forall k :: 0 <= k < |t.clients| ==> t.clients[k] < |t.slots| && t.slots[t.clients[k]].role == Client)
            && (forall j :: 0 <= j < |t.slots| && t.slots[j].role == Client ==> j in t.clients)
  {
    var t := Present(s);
    PresentRoles(s);
    forall k | 0 <= k < |t.clients|
      ensures t.clients[k] < |t.slots| && t.slots[t.clients[k]].role == Client
    {
      assert s.slots[s.clients[k]].role == Client;
    }
  }

  lemma PresentKeepsReaders(s: Bundle)
    requires Inv(s) && |s.ready| > 0
    ensures ReadersMatch(Present(s))
  {
    var t := Present(s);
    var n := |s.slots|;
    var i := s.ready[0];
    assert |t.slots| == n;
    assert forall j :: 0 <= j < n && j != i && j != s.last ==> t.slots[j] == s.slots[j];
    assert t.slots[i].role == Shown;
    assert n >= 2 ==> i != s.last;
  }

  /** What a slot becomes once a reader lets go of it. */
  function Settle(s: Bundle, b: nat, sl: Slot): (r: Slot)
    ensures r == sl || (r == Slot(Free, 0, 0) && Readers(sl) == 0 && b != s.last)
  {
    if b != s.last && sl.role == Shown && Readers(sl) == 0 then Slot(Free, 0, 0) else sl
  }

  /** compositor_release: b must be held by a compositor. */
  function CompositorRelease(s: Bundle, b: nat): (r: (Bundle, Status))
    requires WellFormed(s)
    ensures WellFormed(r.0)
    ensures r.1 == Ok <==> b < |s.slots| && s.slots[b].compositors > 0
    ensures r.1 == LogicError ==> r.0 == s
    ensures r.0.ready == s.ready && r.0.clients == s.clients && r.0.last == s.last
  {
    if b < |s.slots| && s.slots[b].compositors > 0 then
      var sl := s.slots[b].(compositors := s.slots[b].compositors - 1);
      (s.(slots := s.slots[b := Settle(s, b, sl)]), Ok)
    else
      (s, LogicError)
  }

  lemma CompositorReleaseKeepsInv(s: Bundle, b: nat)
    requires Inv(s)
    ensures Inv(CompositorRelease(s, b).0)
  {
    if b < |s.slots| && s.slots[b].compositors > 0 {
      SettleKeepsInv(s, b, s.slots[b].(compositors := s.slots[b].compositors - 1));
    }
  }

  /** A reader letting go of slot b keeps the invariant. */
  lemma SettleKeepsInv(s: Bundle, b: nat, sl: Slot)
    requires Inv(s) && b < |s.slots|
    requires sl.role == s.slots[b].role && Readers(sl) + 1 == Readers(s.slots[b])
    ensures Inv(s.(slots := s.slots[b := Settle(s, b, sl)]))
  {
    var t := s.(slots := s.slots[b := Settle(s, b, sl)]);
    assert forall j :: 0 <= j < |s.slots| ==> t.slots[j].role == s.slots[j].role || (j == b && t.slots[j].role == Free);
    assert s.slots[b].role == Shown || |s.slots| == 1;
  }

  /** snapshot_acquire: the last-composited frame; the ready queue is left alone. */
  function SnapshotAcquire(s: Bundle): (r: (Bundle, nat))
    requires WellFormed(s)
    ensures WellFormed(r.0)
    ensures r.1 == s.last && r.0.ready == s.ready && r.0.clients == s.clients && r.0.last == s.last
    ensures r.0.slots[r.1].snapshots > 0
  {
    (s.(slots := s.slots[s.last := s.slots[s.last].(snapshots := s.slots[s.last].snapshots + 1)]), s.last)
  }

  lemma SnapshotAcquireKeepsInv(s: Bundle)
    requires Inv(s)
    ensures Inv(SnapshotAcquire(s).0)
  {
  }

  /** snapshot_release: b must be held by a snapshot. */
  function SnapshotRelease(s: Bundle, b: nat): (r: (Bundle, Status))
    requires WellFormed(s)
    ensures WellFormed(r.0)
    ensures r.1 == Ok <==> b < |s.slots| && s.slots[b].snapshots > 0
    ensures r.1 == LogicError ==> r.0 == s
    ensures r.0.ready == s.ready && r.0.clients == s.clients && r.0.last == s.last
  {
    if b < |s.slots| && s.slots[b].snapshots > 0 then
      var sl := s.slots[b].(snapshots := s.slots[b].snapshots - 1);
      (s.(slots := s.slots[b := Settle(s, b, sl)]), Ok)
    else
      (s, LogicError)
  }

  lemma SnapshotReleaseKeepsInv(s: Bundle, b: nat)
    requires Inv(s)
    ensures Inv(SnapshotRelease(s, b).0)
  {
    if b < |s.slots| && s.slots[b].snapshots > 0 {
      SettleKeepsInv(s, b, s.slots[b].(snapshots := s.slots[b].snapshots - 1));
    }
  }

  /** allow_framedropping: takes effect on the next client_acquire. */
  function AllowFramedropping(s: Bundle, allow: bool): (r: Bundle)
    requires WellFormed(s)
    ensures WellFormed(r)
    ensures r.framedropping == allow && r.(framedropping := s.framedropping) == s
  {
    s.(framedropping := allow)
  }

  /**
   * force_requests_to_complete: a client blocked in client_acquire gets one
   * acquisition under the frame-dropping rule, whatever the policy; the
   * policy itself is untouched. When no client is waiting, or the waiting
   * client finds nothing to take back, the force is kept pending for the
   * next client_acquire that would block.
   */
  function ForceRequestsToComplete(s: Bundle): (r: (Bundle, Option<nat>))
    requires WellFormed(s)
    ensures WellFormed(r.0)
    ensures r.0.framedropping == s.framedropping
    ensures r.1.Some? ==> s.clientWaiting && !r.0.clientWaiting && r.0.clients == s.clients + [r.1.value]
    ensures r.1.None? ==> r.0 == s.(forcePending := true)
  {
    if s.clientWaiting then
      var (t, g) := AcquireForClient(s, true);
      if g.Granted? then (t, Some(g.buffer)) else (s.(forcePending := true), None)
    else
      (s.(forcePending := true), None)
  }

  lemma ForceRequestsToCompleteKeepsInv(s: Bundle)
    requires Inv(s)
    ensures Inv(ForceRequestsToComplete(s).0)
  {
    AcquireForClientKeepsInv(s, true);
    assert Inv(s.(forcePending := true));
  }

  /** A waiting client is always served by a force while some frame is ready. */
  lemma ForceServesWaitingClient(s: Bundle)
    requires WellFormed(s) && s.clientWaiting && s.ready != []
    ensures ForceRequestsToComplete(s).1.Some?
  {
    assert AcquireForClient(s, true).1.Granted?;
  }
}
