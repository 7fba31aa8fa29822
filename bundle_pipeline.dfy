/**
 * Longer runs of the switching bundle: how many frames can wait, clients
 * that submit back to back with framedropping on, compositors flushing the
 * pipeline, and buffer alternation under synchronous double buffering.
 */
module BundlePipeline {
  import opened Wrappers
  import opened BundleModel

  // ---------------------------------------------------------------------
  // How many frames can wait

  function Elements(q: seq<nat>): set<nat>
  {
    set k | 0 <= k < |q| :: q[k]
  }

  lemma {:induction false} DistinctElements(q: seq<nat>)
    requires Distinct(q)
    ensures |Elements(q)| == |q|
  {
    if q != [] {
      var rest := q[1..];
      assert Distinct(rest) by {
        forall a, b | 0 <= a < b < |rest| ensures rest[a] != rest[b] {
          assert rest[a] == q[a + 1] && rest[b] == q[b + 1];
        }
      }
      DistinctElements(rest);
      assert Elements(q) == {q[0]} + Elements(rest) by {
        forall e | e in Elements(q) ensures e in {q[0]} + Elements(rest) {
          var k :| 0 <= k < |q| && q[k] == e;
          if k > 0 {
            assert rest[k - 1] == e;
          }
        }
        forall e | e in Elements(rest) ensures e in Elements(q) {
          var k :| 0 <= k < |rest| && rest[k] == e;
          assert q[k + 1] == e;
        }
      }
      assert forall k :: 0 <= k < |rest| ==> rest[k] == q[k + 1] && q[k + 1] != q[0];
      assert q[0] !in Elements(rest);
    }
  }

  lemma {:induction false} SubsetSize(a: set<nat>, b: set<nat>)
    requires a <= b
    ensures |a| <= |b|
    decreases |a|
  {
    if a != {} {
      var e :| e in a;
      SubsetSize(a - {e}, b - {e});
    }
  }

  /** The slot numbers below n, as a sequence. */
  function Iota(n: nat): (q: seq<nat>)
    ensures |q| == n && forall k :: 0 <= k < n ==> q[k] == k
  {
    seq(n, k => k)
  }

  /** Distinct slot numbers below n that avoid one of them number at most n-1. */
  lemma DistinctAvoidingBound(q: seq<nat>, n: nat, x: nat)
    requires Distinct(q) && x < n
    requires forall k :: 0 <= k < |q| ==> q[k] < n && q[k] != x
    ensures |q| <= n - 1
  {
    var all := Iota(n);
    DistinctElements(q);
    DistinctElements(all);
    assert Elements(q) <= Elements(all) - {x} by {
      forall e | e in Elements(q) ensures e in Elements(all) - {x} {
        var k :| 0 <= k < |q| && q[k] == e;
        assert all[e] == e;
      }
    }
    assert x in Elements(all) by {
      assert all[x] == x;
    }
    SubsetSize(Elements(q), Elements(all) - {x});
  }

  /**
   * With two or more buffers at most nbuffers-1 frames wait for the
   * compositor: the frame on display is never among them.
   */
  lemma ReadyBound(s: Bundle)
    requires Inv(s) && |s.slots| >= 2
    ensures |s.ready| <= |s.slots| - 1
  {
    assert s.slots[s.last].role == Shown;
    assert forall k :: 0 <= k < |s.ready| ==> s.slots[s.ready[k]].role == Ready;
    DistinctAvoidingBound(s.ready, |s.slots|, s.last);
  }

  // ---------------------------------------------------------------------
  // Clients submitting back to back with framedropping on

  /** Nothing is held by the client or by any reader. */
  predicate Idle(s: Bundle)
  {
    s.clients == [] && forall i :: 0 <= i < |s.slots| ==> Readers(s.slots[i]) == 0
  }

  /**
   * With framedropping on and at least two buffers, a client holding no
   * buffer never blocks while no reader holds an old frame: it gets a free
   * slot or takes back the oldest ready frame.
   */
  lemma FramedroppingClientNeverBlocks(s: Bundle)
    requires Inv(s) && |s.slots| >= 2 && s.framedropping && s.clients == []
    requires forall j :: 0 <= j < |s.slots| && j != s.last ==> Readers(s.slots[j]) == 0
    ensures ClientAcquire(s).1.Granted?
  {
    if FirstFree(s.slots).None? {
      var j := if s.last == 0 then 1 else 0;
      assert s.slots[j].role != Client by {
        assert forall i :: 0 <= i < |s.slots| && s.slots[i].role == Client ==> i in s.clients;
      }
      assert s.slots[j].role == Ready;
      assert j in s.ready;
    }
  }

  /** One client frame: acquire a buffer and submit it straight away. */
  function ClientCycle(s: Bundle): (r: (Bundle, Grant))
    requires WellFormed(s)
    ensures WellFormed(r.0) && |r.0.slots| == |s.slots|
  {
    var (t, g) := ClientAcquire(s);
    if g.Granted? then (ClientRelease(t, g.buffer).0, g) else (t, g)
  }

  /** k client frames in a row; the grants are recorded. */
  function Cycles(s: Bundle, k: nat): (r: (Bundle, seq<Grant>))
    requires WellFormed(s)
    ensures WellFormed(r.0) && |r.0.slots| == |s.slots| && |r.1| == k
    decreases k
  {
    if k == 0 then (s, [])
    else
      var (t, g) := ClientCycle(s);
      var (u, gs) := Cycles(t, k - 1);
      (u, [g] + gs)
  }

  /** A buffer taken from a slot nobody reads and submitted at once becomes the newest ready frame. */
  lemma TakeSubmitShape(base: Bundle, b: nat)
    requires WellFormed(base) && b < |base.slots| && base.clients == []
    requires forall i :: 0 <= i < |base.slots| ==> Readers(base.slots[i]) == 0
    ensures var t := Submit(Take(base, b), b);
            && t.ready == base.ready + [b]
            && Idle(t) && t.last == base.last && t.framedropping == base.framedropping
  {
    var t := Submit(Take(base, b), b);
    assert t.slots == base.slots[b := base.slots[b].(role := Ready)];
    assert forall i :: 0 <= i < |t.slots| ==> Readers(t.slots[i]) == Readers(base.slots[i]);
  }

  /** t follows s after a framedropping client frame that submitted b. */
  predicate FrameQueued(s: Bundle, t: Bundle, b: nat)
  {
    && Inv(t) && Idle(t) && t.last == s.last && t.framedropping
    && |t.ready| > 0 && t.ready[|t.ready| - 1] == b
  }

  /** One framedropping client frame: it is granted, submitted, and becomes the newest ready frame. */
  lemma FramedroppingCycle(s: Bundle)
    requires Inv(s) && Idle(s) && |s.slots| >= 2 && s.framedropping
    ensures ClientAcquire(s).1.Granted?
    ensures ClientRelease(ClientAcquire(s).0, ClientAcquire(s).1.buffer).1 == Ok
    ensures FrameQueued(s, ClientCycle(s).0, ClientAcquire(s).1.buffer)
  {
    FramedroppingClientNeverBlocks(s);
    var t1 := ClientAcquire(s).0;
    var b := ClientAcquire(s).1.buffer;
    var base := if FirstFree(s.slots).Some? then s else s.(ready := s.ready[1..], forcePending := false);
    assert t1 == Take(base, b);
    TakeSubmitShape(base, b);
    AcquireForClientKeepsInv(s, true);
    ClientReleaseKeepsInv(t1, b);
    assert ClientCycle(s).0 == Submit(t1, b);
  }

  /** u follows s after framedropping client frames: idle, same display, at most nbuffers-1 frames waiting. */
  predicate StillIdle(s: Bundle, u: Bundle)
  {
    Inv(u) && Idle(u) && u.last == s.last && u.framedropping && |u.ready| <= |s.slots| - 1
  }

  /** Framedropping client frames keep the bundle idle between frames and the display unchanged. */
  lemma {:induction false} FramedroppingCyclesKeepIdle(s: Bundle, k: nat)
    requires Inv(s) && Idle(s) && |s.slots| >= 2 && s.framedropping
    ensures StillIdle(s, Cycles(s, k).0)
    decreases k
  {
    if k > 0 {
      FramedroppingCycle(s);
      var t := ClientCycle(s).0;
      FramedroppingCyclesKeepIdle(t, k - 1);
      assert Cycles(s, k).0 == Cycles(t, k - 1).0;
    } else {
      ReadyBound(s);
    }
  }

  /** Every grant in gs handed out a buffer. */
  predicate AllGranted(gs: seq<Grant>)
  {
    forall i :: 0 <= i < |gs| ==> gs[i].Granted?
  }

  lemma AllGrantedCons(g: Grant, gs: seq<Grant>)
    requires g.Granted? && AllGranted(gs)
    ensures AllGranted([g] + gs)
  {
    forall i | 0 <= i < |[g] + gs| ensures ([g] + gs)[i].Granted? {
      if i > 0 {
        assert ([g] + gs)[i] == gs[i - 1];
      }
    }
  }

  /** The newest ready frame of u is the last buffer granted in gs. */
  predicate LastGrantQueued(u: Bundle, gs: seq<Grant>)
    requires AllGranted(gs) && |gs| > 0
  {
    |u.ready| > 0 && u.ready[|u.ready| - 1] == gs[|gs| - 1].buffer
  }

  /** With framedropping on, any number of back-to-back client frames never block. */
  lemma {:induction false} FramedroppingClientsNeverBlock(s: Bundle, k: nat)
    requires Inv(s) && Idle(s) && |s.slots| >= 2 && s.framedropping
    ensures AllGranted(Cycles(s, k).1)
    decreases k
  {
    if k > 0 {
      FramedroppingCycle(s);
      var c := ClientCycle(s);
      FramedroppingClientsNeverBlock(c.0, k - 1);
      var r := Cycles(c.0, k - 1);
      assert Cycles(s, k).1 == [c.1] + r.1;
      AllGrantedCons(c.1, r.1);
    }
  }

  /** With framedropping on, the newest ready frame is always the one submitted last. */
  lemma {:induction false} FramedroppingLastFrameQueued(s: Bundle, k: nat)
    requires Inv(s) && Idle(s) && |s.slots| >= 2 && s.framedropping && k > 0
    ensures AllGranted(Cycles(s, k).1)
    ensures LastGrantQueued(Cycles(s, k).0, Cycles(s, k).1)
    decreases k
  {
    FramedroppingClientsNeverBlock(s, k);
    FramedroppingCycle(s);
    var c := ClientCycle(s);
    var r := Cycles(c.0, k - 1);
    assert Cycles(s, k) == (r.0, [c.1] + r.1);
    if k > 1 {
      FramedroppingLastFrameQueued(c.0, k - 1);
      assert ([c.1] + r.1)[k - 1] == r.1[k - 2];
    }
  }

  // ---------------------------------------------------------------------
  // Compositors flushing the pipeline

  /** One monitor composites whatever comes next and lets go of it at once. */
  function FlushOnce(s: Bundle): (r: (Bundle, nat))
    requires WellFormed(s)
    ensures WellFormed(r.0)
  {
    var (t, b) := CompositorAcquire(s);
    (CompositorRelease(t, b).0, b)
  }

  /** k such composite-and-release rounds. */
  function Flush(s: Bundle, k: nat): (t: Bundle)
    requires WellFormed(s)
    ensures WellFormed(t)
    decreases k
  {
    if k == 0 then s else Flush(FlushOnce(s).0, k - 1)
  }

  /** A compositor can always release what it has just acquired. */
  lemma CompositorReleasesOwnBuffer(s: Bundle)
    requires WellFormed(s)
    ensures var (t, b) := CompositorAcquire(s);
            CompositorRelease(t, b).1 == Ok
  {
    var (t, b) := CompositorAcquire(s);
    assert t.slots[b].compositors > 0;
  }

  /** A snapshot can always release what it has just acquired. */
  lemma SnapshotReleasesOwnBuffer(s: Bundle)
    requires WellFormed(s)
    ensures var (t, b) := SnapshotAcquire(s);
            SnapshotRelease(t, b).1 == Ok
  {
    var (t, b) := SnapshotAcquire(s);
    assert t.slots[b].snapshots > 0;
  }

  /** One round on an idle bundle: the oldest ready frame goes on display, or nothing changes. */
  lemma FlushOnceShape(s: Bundle)
    requires WellFormed(s) && Idle(s)
    ensures var (t, b) := FlushOnce(s);
            && Idle(t) && t.framedropping == s.framedropping
            && (|s.ready| > 0 ==> b == s.ready[0] && t.ready == s.ready[1..] && t.last == b)
            && (|s.ready| == 0 ==> t == s && b == s.last)
  {
    var (t1, b) := CompositorAcquire(s);
    var t := CompositorRelease(t1, b).0;
    assert t1.slots[b].compositors == s.slots[b].compositors + 1;
    assert t.slots == t1.slots[b := t1.slots[b].(compositors := t1.slots[b].compositors - 1)];
    if |s.ready| == 0 {
      assert t.slots == s.slots;
    } else {
      assert t.slots[b] == Slot(Shown, 0, 0);
      forall i | 0 <= i < |t.slots| ensures Readers(t.slots[i]) == 0 {
        if i != b && i != s.last {
          assert t.slots[i] == s.slots[i];
        }
      }
    }
  }

  /** A round keeps the bundle invariant. */
  lemma FlushOnceKeepsInv(s: Bundle)
    requires Inv(s)
    ensures Inv(FlushOnce(s).0)
  {
    var (t1, b) := CompositorAcquire(s);
    CompositorAcquireKeepsInv(s);
    CompositorReleaseKeepsInv(t1, b);
  }

  /** Flushing an idle bundle with nothing ready changes nothing. */
  lemma {:induction false} FlushNothingReady(s: Bundle, k: nat)
    requires WellFormed(s) && Idle(s) && s.ready == []
    ensures Flush(s, k) == s
    decreases k
  {
    if k > 0 {
      FlushOnceShape(s);
      FlushNothingReady(s, k - 1);
    }
  }

  /** k rounds on an idle bundle put the k-th ready frame on display and leave the rest waiting. */
  lemma {:induction false} FlushDrains(s: Bundle, k: nat)
    requires WellFormed(s) && Idle(s) && k <= |s.ready|
    ensures var t := Flush(s, k);
            && Idle(t) && t.ready == s.ready[k..]
            && (k > 0 ==> t.last == s.ready[k - 1])
    decreases k
  {
    if k > 0 {
      var t := FlushOnce(s).0;
      FlushOnceShape(s);
      FlushDrains(t, k - 1);
      assert s.ready[1..][k - 1..] == s.ready[k..];
      if k > 1 {
        assert t.ready[k - 2] == s.ready[k - 1];
      }
    }
  }

  /** Nothing is held or waiting, and frame f is on display. */
  predicate Drained(t: Bundle, f: nat)
  {
    Idle(t) && t.ready == [] && t.last == f
  }

  /** Rounds beyond the ready frames leave the newest of them on display and nothing waiting. */
  lemma {:induction false} FlushDrainsAll(s: Bundle, k: nat)
    requires WellFormed(s) && Idle(s) && 0 < |s.ready| <= k
    ensures Drained(Flush(s, k), s.ready[|s.ready| - 1])
    decreases k
  {
    var t := FlushOnce(s).0;
    FlushOnceShape(s);
    assert Flush(s, k) == Flush(t, k - 1);
    if |s.ready| == 1 {
      FlushNothingReady(t, k - 1);
      assert Drained(t, s.ready[0]);
    } else {
      FlushDrainsAll(t, k - 1);
      assert t.ready[|t.ready| - 1] == s.ready[|s.ready| - 1];
    }
  }

  /**
   * Once at least |ready|-1 rounds have run, the next compositor_acquire
   * returns the newest frame that was ready before the flush.
   */
  /** An idle bundle with frames waiting, and at least enough rounds to bring up the newest but one. */
  predicate FlushCovers(s: Bundle, k: nat)
  {
    WellFormed(s) && Idle(s) && |s.ready| > 0 && k + 1 >= |s.ready|
  }

  lemma FlushReachesNewest(s: Bundle, k: nat)
    requires FlushCovers(s, k)
    ensures CompositorAcquire(Flush(s, k)).1 == s.ready[|s.ready| - 1]
  {
    var n := |s.ready|;
    if k + 1 == n {
      FlushDrains(s, k);
      assert Flush(s, k).ready == [s.ready[n - 1]];
    } else {
      FlushDrainsAll(s, k);
    }
  }

  /**
   * With framedropping on, after k >= 1 back-to-back client frames and
   * nbuffers-1 composite-and-release rounds, compositor_acquire returns the
   * buffer the client submitted last.
   */
  lemma FramedroppingFlushShowsLastFrame(s: Bundle, k: nat, u: Bundle, gs: seq<Grant>, n: nat)
    requires Inv(s) && Idle(s) && |s.slots| >= 2 && s.framedropping && k >= 1
    requires (u, gs) == Cycles(s, k) && n + 1 == |s.slots|
    ensures |gs| == k && gs[k - 1].Granted?
    ensures CompositorAcquire(Flush(u, n)).1 == gs[k - 1].buffer
  {
    FramedroppingCyclesKeepIdle(s, k);
    FramedroppingLastFrameQueued(s, k);
    NewestIsLastGrant(u, gs, n);
  }

  lemma NewestIsLastGrant(u: Bundle, gs: seq<Grant>, n: nat)
    requires AllGranted(gs) && |gs| > 0 && LastGrantQueued(u, gs) && FlushCovers(u, n)
    ensures CompositorAcquire(Flush(u, n)).1 == gs[|gs| - 1].buffer
  {
    FlushReachesNewest(u, n);
  }

  // ---------------------------------------------------------------------
  // Clients without framedropping: free slots run out

  /** The number of free slots. */
  function FreeCount(slots: seq<Slot>): nat
  {
    if slots == [] then 0
    else FreeCount(slots[..|slots| - 1]) + (if slots[|slots| - 1].role == Free then 1 else 0)
  }

  lemma {:induction false} FreeCountZero(slots: seq<Slot>)
    ensures FreeCount(slots) == 0 <==> forall j :: 0 <= j < |slots| ==> slots[j].role != Free
  {
    if slots != [] {
      var init := slots[..|slots| - 1];
      FreeCountZero(init);
      assert forall j :: 0 <= j < |init| ==> init[j] == slots[j];
    }
  }

  /** Handing a free slot to someone else leaves one free slot fewer. */
  lemma {:induction false} FreeCountTake(slots: seq<Slot>, i: nat, sl: Slot)
    requires i < |slots| && slots[i].role == Free && sl.role != Free
    ensures FreeCount(slots[i := sl]) == FreeCount(slots) - 1
  {
    var n := |slots|;
    var upd := slots[i := sl];
    if i == n - 1 {
      assert upd[..n - 1] == slots[..n - 1];
    } else {
      assert upd[..n - 1] == slots[..n - 1][i := sl];
      FreeCountTake(slots[..n - 1], i, sl);
    }
  }

  /** Turning a slot that is not free into another role that is not free keeps the count. */
  lemma {:induction false} FreeCountKeep(slots: seq<Slot>, i: nat, sl: Slot)
    requires i < |slots| && slots[i].role != Free && sl.role != Free
    ensures FreeCount(slots[i := sl]) == FreeCount(slots)
  {
    var n := |slots|;
    var upd := slots[i := sl];
    if i == n - 1 {
      assert upd[..n - 1] == slots[..n - 1];
    } else {
      assert upd[..n - 1] == slots[..n - 1][i := sl];
      FreeCountKeep(slots[..n - 1], i, sl);
    }
  }

  /** A new bundle has nbuffers-1 free slots: slot 0 shows the blank frame. */
  lemma {:induction false} InitialFreeCount(nbuffers: nat)
    requires nbuffers >= 1
    ensures FreeCount(Initial(nbuffers).slots) == nbuffers - 1
  {
    if nbuffers > 1 {
      InitialFreeCount(nbuffers - 1);
      assert Initial(nbuffers).slots[..nbuffers - 1] == Initial(nbuffers - 1).slots;
    }
  }

  /** A client frame without framedropping takes a free slot and queues it. */
  lemma FreeCycle(s: Bundle)
    requires WellFormed(s) && s.clients == [] && !s.framedropping && FreeCount(s.slots) > 0
    ensures ClientAcquire(s).1.Granted?
    ensures var (t, g) := ClientCycle(s);
            && ClientRelease(ClientAcquire(s).0, g.buffer).1 == Ok
            && FreeCount(t.slots) == FreeCount(s.slots) - 1
            && t.clients == [] && !t.framedropping && |t.ready| == |s.ready| + 1
            && t.forcePending == s.forcePending && !t.clientWaiting
  {
    FreeCountZero(s.slots);
    var b := FirstFree(s.slots).value;
    var t1 := Take(s, b);
    FreeCountTake(s.slots, b, s.slots[b].(role := Client));
    FreeCountKeep(t1.slots, b, t1.slots[b].(role := Ready));
    assert t1.slots[b := t1.slots[b].(role := Ready)] == Submit(t1, b).slots;
  }

  /** u follows s after k frames that each used up a free buffer and left it queued. */
  predicate FreeUsedUp(s: Bundle, u: Bundle, k: nat)
  {
    && FreeCount(u.slots) + k == FreeCount(s.slots) && u.clients == [] && !u.framedropping
    && |u.ready| == |s.ready| + k && u.forcePending == s.forcePending && !u.clientWaiting
  }

  /** k client frames without framedropping, while free slots last, are all granted. */
  lemma {:induction false} FreeCycles(s: Bundle, k: nat)
    requires WellFormed(s) && s.clients == [] && !s.framedropping && !s.clientWaiting && FreeCount(s.slots) >= k
    ensures AllGranted(Cycles(s, k).1)
    ensures FreeUsedUp(s, Cycles(s, k).0, k)
    decreases k
  {
    if k > 0 {
      FreeCycle(s);
      var c := ClientCycle(s);
      FreeCycles(c.0, k - 1);
      var r := Cycles(c.0, k - 1);
      assert Cycles(s, k) == (r.0, [c.1] + r.1);
      AllGrantedCons(c.1, r.1);
    }
  }

  /** What a force leaves behind once it has done its work: framedropping off and nothing pending. */
  predicate ForceSpent(u: Bundle)
  {
    !u.framedropping && !u.forcePending
  }

  /**
   * A client that has submitted nbuffers-1 frames that nobody composited
   * blocks on its next client_acquire; force_requests_to_complete then hands
   * it a buffer, and framedropping stays off.
   */
  lemma WaitingClientUnblocksOnShutdown(nbuffers: nat)
    requires nbuffers >= 2
    ensures AllGranted(Cycles(Initial(nbuffers), nbuffers - 1).1)
    ensures var u := Cycles(Initial(nbuffers), nbuffers - 1).0;
            && ClientAcquire(u) == (u.(clientWaiting := true), WouldBlock)
            && ForceRequestsToComplete(u.(clientWaiting := true)).1.Some?
            && ForceSpent(ForceRequestsToComplete(u.(clientWaiting := true)).0)
  {
    var s := Initial(nbuffers);
    InitialFreeCount(nbuffers);
    FreeCycles(s, nbuffers - 1);
    var u := Cycles(s, nbuffers - 1).0;
    assert FreeCount(u.slots) == 0 && |u.ready| > 0 && !u.framedropping;
    FreeCountZero(u.slots);
    assert FirstFree(u.slots).None?;
  }

  /**
   * A client frame while a force is pending and no slot is free: the
   * acquisition that would block takes back the oldest ready frame, the
   * client can release it, and the force is used up.
   */
  lemma ForcedCycle(s: Bundle)
    requires WellFormed(s) && s.clients == [] && !s.framedropping && s.forcePending
    requires FreeCount(s.slots) == 0 && |s.ready| > 0
    ensures ClientAcquire(s).1 == Granted(s.ready[0])
    ensures ClientRelease(ClientAcquire(s).0, s.ready[0]).1 == Ok
    ensures ForceSpent(ClientCycle(s).0)
  {
    FreeCountZero(s.slots);
  }

  /** The forced frame as the client's last one: granted, and the force is used up. */
  lemma ForcedLastCycle(s: Bundle)
    requires WellFormed(s) && s.clients == [] && !s.framedropping && s.forcePending
    requires FreeCount(s.slots) == 0 && |s.ready| > 0
    ensures AllGranted(Cycles(s, 1).1) && ForceSpent(Cycles(s, 1).0)
  {
    ForcedCycle(s);
    var c := ClientCycle(s);
    assert Cycles(c.0, 0) == (c.0, []) && [c.1] + [] == [c.1];
    assert Cycles(s, 1) == (c.0, [c.1]);
  }

  /**
   * With a force pending, a client that has k frames to draw and k-1 free
   * slots gets every frame: the free slots first, then one forced reclaim.
   */
  lemma {:induction false} LatchedCycles(s: Bundle, k: nat)
    requires WellFormed(s) && s.clients == [] && !s.framedropping && !s.clientWaiting && s.forcePending
    requires k >= 1 && FreeCount(s.slots) + 1 == k && (|s.ready| > 0 || k > 1)
    ensures AllGranted(Cycles(s, k).1) && ForceSpent(Cycles(s, k).0)
    decreases k
  {
    if k == 1 {
      ForcedLastCycle(s);
    } else {
      FreeCycle(s);
      var c := ClientCycle(s);
      LatchedCycles(c.0, k - 1);
      var r := Cycles(c.0, k - 1);
      assert Cycles(s, k) == (r.0, [c.1] + r.1);
      AllGrantedCons(c.1, r.1);
    }
  }

  /**
   * The other order of the shutdown tests: the force arrives after j of the
   * client's nbuffers frames, before the client has blocked. It is kept, so
   * every one of the nbuffers frames is granted; afterwards framedropping is
   * still off and the force is used up, so a later client blocks again.
   */
  lemma ForceBeforeBlockUnblocks(nbuffers: nat, j: nat)
    requires nbuffers >= 2 && j < nbuffers
    ensures AllGranted(Cycles(Initial(nbuffers), j).1)
    ensures var u := Cycles(Initial(nbuffers), j).0;
            && ForceRequestsToComplete(u).1 == None
            && AllGranted(Cycles(ForceRequestsToComplete(u).0, nbuffers - j).1)
            && ForceSpent(Cycles(ForceRequestsToComplete(u).0, nbuffers - j).0)
  {
    var s := Initial(nbuffers);
    InitialFreeCount(nbuffers);
    FreeCycles(s, j);
    var u := Cycles(s, j).0;
    assert ForceRequestsToComplete(u).0 == u.(forcePending := true);
    LatchedCycles(u.(forcePending := true), nbuffers - j);
  }

  /** k client acquisitions in a row, none of them released. */
  function Acquisitions(s: Bundle, k: nat): (r: (Bundle, seq<Grant>))
    requires WellFormed(s)
    ensures WellFormed(r.0) && |r.1| == k
    decreases k
  {
    if k == 0 then (s, [])
    else
      var (t, g) := ClientAcquire(s);
      var (u, gs) := Acquisitions(t, k - 1);
      (u, [g] + gs)
  }

  /** Without framedropping, a client can hold as many buffers as there are free slots. */
  lemma {:induction false} FreeAcquisitions(s: Bundle, k: nat)
    requires WellFormed(s) && !s.framedropping && FreeCount(s.slots) >= k
    ensures AllGranted(Acquisitions(s, k).1)
    ensures FreeCount(Acquisitions(s, k).0.slots) + k == FreeCount(s.slots)
    ensures !Acquisitions(s, k).0.framedropping
    decreases k
  {
    if k > 0 {
      FreeCountZero(s.slots);
      var c := ClientAcquire(s);
      FreeCountTake(s.slots, c.1.buffer, s.slots[c.1.buffer].(role := Client));
      FreeAcquisitions(c.0, k - 1);
      var r := Acquisitions(c.0, k - 1);
      assert Acquisitions(s, k) == (r.0, [c.1] + r.1);
      AllGrantedCons(c.1, r.1);
    }
  }

  /**
   * A client may hold nbuffers-1 buffers of a new bundle at once, and a
   * compositor can still acquire and release a frame meanwhile.
   */
  lemma ClientsStealAllButOne(nbuffers: nat)
    requires nbuffers >= 1
    ensures AllGranted(Acquisitions(Initial(nbuffers), nbuffers - 1).1)
    ensures var (t, b) := CompositorAcquire(Acquisitions(Initial(nbuffers), nbuffers - 1).0);
            CompositorRelease(t, b).1 == Ok
  {
    InitialFreeCount(nbuffers);
    FreeAcquisitions(Initial(nbuffers), nbuffers - 1);
    CompositorReleasesOwnBuffer(Acquisitions(Initial(nbuffers), nbuffers - 1).0);
  }

  // ---------------------------------------------------------------------
  // Readers and the client never share a buffer

  /**
   * With two or more buffers, client_acquire never hands out the buffer on
   * display or a buffer a compositor or snapshot still holds.
   */
  lemma ClientNeverGetsReadSlot(s: Bundle, dropFrames: bool)
    requires Inv(s) && |s.slots| >= 2
    ensures var g := AcquireForClient(s, dropFrames).1;
            g.Granted? ==> g.buffer < |s.slots| && g.buffer != s.last && Readers(s.slots[g.buffer]) == 0
  {
    if FirstFree(s.slots).None? && dropFrames && |s.ready| > 0 {
      assert s.slots[s.ready[0]].role == Ready;
    }
  }

  /**
   * A new frame reaching the display is never a buffer some reader still
   * holds, so two compositors that each acquired a fresh frame hold
   * different buffers.
   */
  lemma FreshFrameDiffersFromHeld(s: Bundle, held: nat)
    requires Inv(s) && |s.slots| >= 2 && |s.ready| > 0
    requires held < |s.slots| && Readers(s.slots[held]) > 0
    ensures CompositorAcquire(s).1 != held
  {
    assert s.slots[s.ready[0]].role == Ready;
  }

  /** snapshot_acquire returns the buffer the compositor acquired, and moves no frame. */
  lemma SnapshotSeesCompositedFrame(s: Bundle)
    requires WellFormed(s)
    ensures var (t, b) := CompositorAcquire(s);
            var (u, c) := SnapshotAcquire(t);
            c == b && u.ready == t.ready && u.last == t.last && u.clients == t.clients
  {
  }
}
