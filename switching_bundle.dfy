/**
 * mir::compositor::SwitchingBundle as an object: a fixed array of slots, a
 * FIFO of ready frames, the client's buffers, the last-composited slot, the
 * framedropping flag and the waiting and pending-force marks, each updated
 * in place. Every method is proved to
 * perform exactly the transition BundleModel defines for it.
 */
module Compositor {
  import opened Wrappers
  import opened BundleModel

  datatype PixelFormat = Abgr8888 | Argb8888 | OtherFormat(code: nat)

  datatype BufferUsage = Hardware | Software

  /** The properties every buffer of the pool is allocated with. */
  datatype BufferProperties = BufferProperties(width: int, height: int, format: PixelFormat, usage: BufferUsage)

  datatype ConstructionError = InvalidBufferCount

  class SwitchingBundle {
    const bufferProperties: BufferProperties
    const slots: array<Slot>
    var ready: seq<nat>
    var clients: seq<nat>
    var last: nat
    var framedropping: bool
    var clientWaiting: bool
    var forcePending: bool

    ghost function State(): Bundle
      reads this, slots
    {
      Bundle(slots[..], ready, clients, last, framedropping, clientWaiting, forcePending)
    }

    ghost predicate Valid()
      reads this, slots
    {
      Inv(State())
    }

    /** Allocates the pool: slot 0 holds the blank frame on display. */
    constructor (nbuffers: nat, properties: BufferProperties)
      requires nbuffers >= 1
      ensures State() == Initial(nbuffers) && bufferProperties == properties
      ensures Valid() && fresh(slots)
    {
      bufferProperties := properties;
      slots := new Slot[nbuffers](i => InitialSlot(i));
      ready, clients, last := [], [], 0;
      framedropping, clientWaiting, forcePending := false, false, false;
      new;
      assert slots[..] == seq(nbuffers, i => InitialSlot(i));
      InitialInv(nbuffers);
    }

    function Properties(): (p: BufferProperties)
      ensures p == bufferProperties
    {
      bufferProperties
    }

    function FramedroppingAllowed(): (allowed: bool)
      reads this
      ensures allowed == framedropping
    {
      framedropping
    }

    method AllowFramedropping(allow: bool)
      requires Valid()
      modifies this
      ensures Valid() && State() == BundleModel.AllowFramedropping(old(State()), allow)
    {
      framedropping := allow;
    }

    /** The lowest-numbered free slot, found by a scan of the pool. */
    method FindFree() returns (r: Option<nat>)
      ensures r == FirstFree(slots[..])
    {
      var i := 0;
      while i < slots.Length && slots[i].role != Free
        invariant 0 <= i <= slots.Length
        invariant forall j :: 0 <= j < i ==> slots[j].role != Free
      {
        i := i + 1;
      }
      r := if i < slots.Length then Some(i) else None;
    }

    /** Hands slot i to the client. */
    method TakeSlot(i: nat)
      requires i < slots.Length
      modifies this, slots
      ensures slots[..] == old(slots[..])[i := old(slots[i]).(role := Client)]
      ensures clients == old(clients) + [i] && !clientWaiting
      ensures ready == old(ready) && last == old(last) && framedropping == old(framedropping)
      ensures forcePending == old(forcePending)
    {
      slots[i] := slots[i].(role := Client);
      clients := clients + [i];
      clientWaiting := false;
    }

    /** Takes the oldest ready frame back for the client; this uses up a pending force. */
    method TakeOldestReady() returns (i: nat)
      requires WellFormed(State()) && |ready| > 0
      modifies this, slots
      ensures i == old(ready[0])
      ensures State() == Take(old(State()).(ready := old(ready[1..]), forcePending := false), i)
    {
      i := ready[0];
      ready, forcePending := ready[1..], false;
      TakeSlot(i);
    }

    method AcquireForClient(dropFrames: bool) returns (g: Grant)
      requires Valid()
      modifies this, slots
      ensures (State(), g) == BundleModel.AcquireForClient(old(State()), dropFrames)
      ensures Valid()
    {
      ghost var s := State();
      AcquireForClientKeepsInv(s, dropFrames);
      var free := FindFree();
      if free.Some? {
        TakeSlot(free.value);
        g := Granted(free.value);
        assert State() == Take(s, free.value);
      } else if dropFrames && |ready| > 0 {
        var i := TakeOldestReady();
        g := Granted(i);
      } else if slots.Length == 1 && slots[0] == Slot(Shown, 0, 0) {
        TakeSlot(0);
        g := Granted(0);
        assert State() == Take(s, 0);
      } else {
        clientWaiting := true;
        g := WouldBlock;
        assert State() == s.(clientWaiting := true);
      }
    }

    /**
     * client_acquire; WouldBlock stands for the caller waiting on the bundle.
     * A pending force lets this acquisition drop a frame rather than block.
     */
    method ClientAcquire() returns (g: Grant)
      requires Valid()
      modifies this, slots
      ensures (State(), g) == BundleModel.ClientAcquire(old(State()))
      ensures Valid()
    {
      g := AcquireForClient(framedropping || forcePending);
    }

    method ClientRelease(b: nat) returns (status: Status)
      requires Valid()
      modifies this, slots
      ensures (State(), status) == BundleModel.ClientRelease(old(State()), b)
      ensures Valid()
    {
      ClientReleaseKeepsInv(State(), b);
      if |clients| > 0 && clients[0] == b {
        slots[b] := slots[b].(role := Ready);
        clients := clients[1..];
        ready := ready + [b];
        status := Ok;
      } else {
        status := LogicError;
      }
    }

    method CompositorAcquire() returns (buffer: nat)
      requires Valid()
      modifies this, slots
      ensures (State(), buffer) == BundleModel.CompositorAcquire(old(State()))
      ensures Valid()
    {
      CompositorAcquireKeepsInv(State());
      if |ready| > 0 {
        buffer := PresentNext();
      } else {
        buffer := last;
        slots[last] := slots[last].(compositors := slots[last].compositors + 1);
      }
    }

    /** Puts the oldest ready frame on display, freeing the one it replaces if unread. */
    method PresentNext() returns (buffer: nat)
      requires WellFormed(State()) && |ready| > 0
      modifies this, slots
      ensures State() == Present(old(State())) && buffer == old(ready[0])
    {
      ghost var s := State();
      buffer := ready[0];
      ready := ready[1..];
      var shownBefore := slots[last];
      slots[buffer] := Slot(Shown, slots[buffer].compositors + 1, slots[buffer].snapshots);
      ghost var shown := slots[..];
      if last != buffer && Readers(shownBefore) == 0 {
        slots[last] := Slot(Free, 0, 0);
      }
      last := buffer;
      assert shown == s.slots[buffer := Slot(Shown, s.slots[buffer].compositors + 1, s.slots[buffer].snapshots)];
    }

    /** Stores what slot b becomes once a reader has let go of it. */
    method SettleSlot(b: nat, sl: Slot)
      requires b < slots.Length
      modifies slots
      ensures slots[..] == old(slots[..])[b := Settle(State(), b, sl)]
    {
      if b != last && sl.role == Shown && Readers(sl) == 0 {
        slots[b] := Slot(Free, 0, 0);
      } else {
        slots[b] := sl;
      }
    }

    method CompositorRelease(b: nat) returns (status: Status)
      requires Valid()
      modifies this, slots
      ensures (State(), status) == BundleModel.CompositorRelease(old(State()), b)
      ensures Valid()
    {
      CompositorReleaseKeepsInv(State(), b);
      if b < slots.Length && slots[b].compositors > 0 {
        SettleSlot(b, slots[b].(compositors := slots[b].compositors - 1));
        status := Ok;
      } else {
        status := LogicError;
      }
    }

    method SnapshotAcquire() returns (buffer: nat)
      requires Valid()
      modifies this, slots
      ensures (State(), buffer) == BundleModel.SnapshotAcquire(old(State()))
      ensures Valid()
    {
      SnapshotAcquireKeepsInv(State());
      buffer := last;
      slots[last] := slots[last].(snapshots := slots[last].snapshots + 1);
    }

    method SnapshotRelease(b: nat) returns (status: Status)
      requires Valid()
      modifies this, slots
      ensures (State(), status) == BundleModel.SnapshotRelease(old(State()), b)
      ensures Valid()
    {
      SnapshotReleaseKeepsInv(State(), b);
      if b < slots.Length && slots[b].snapshots > 0 {
        SettleSlot(b, slots[b].(snapshots := slots[b].snapshots - 1));
        status := Ok;
      } else {
        status := LogicError;
      }
    }

    /** Returns the buffer handed to a client that was waiting, if any; otherwise the force stays pending. */
    method ForceRequestsToComplete() returns (completed: Option<nat>)
      requires Valid()
      modifies this, slots
      ensures (State(), completed) == BundleModel.ForceRequestsToComplete(old(State()))
      ensures Valid()
    {
      ForceRequestsToCompleteKeepsInv(State());
      completed := None;
      if clientWaiting {
        var g := AcquireForClient(true);
        if g.Granted? {
          completed := Some(g.buffer);
        } else {
          // nothing could be handed over: the client keeps waiting and the
          // force stays pending for its next attempt
          forcePending := true;
        }
      } else {
        // nobody waits yet: the next acquisition that would block completes
        forcePending := true;
      }
    }
  }

  /** Construction: a non-positive buffer count is rejected (std::logic_error). */
  method NewSwitchingBundle(nbuffers: int, properties: BufferProperties)
    returns (r: Result<SwitchingBundle, ConstructionError>)
    ensures r.Failure? <==> nbuffers <= 0
    ensures r.Success? ==> fresh(r.value) && r.value.Valid() && r.value.State() == Initial(nbuffers)
    ensures r.Success? ==> r.value.Properties() == properties && !r.value.FramedroppingAllowed()
  {
    if nbuffers <= 0 {
      r := Failure(InvalidBufferCount);
    } else {
      var bundle := new SwitchingBundle(nbuffers, properties);
      r := Success(bundle);
    }
  }
}
