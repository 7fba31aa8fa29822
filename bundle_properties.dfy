/**
 * What the switching bundle promises, proved about BundleModel: error
 * cases of the three release calls, presentation order and re-display,
 * double-buffer alternation, framedropping, non-blocking consumers and the
 * forced completion of a waiting client.
 */
module BundleProperties {
  import opened Wrappers
  import opened BundleModel

  /** One call on the bundle. */
  datatype Op =
    | ClientAcquireOp
    | ClientReleaseOp(buffer: nat)
    | CompositorAcquireOp
    | CompositorReleaseOp(buffer: nat)
    | SnapshotAcquireOp
    | SnapshotReleaseOp(buffer: nat)
    | AllowFramedroppingOp(allow: bool)
    | ForceRequestsToCompleteOp

  /** What the call returned. */
  datatype Reply =
    | Acquired(buffer: nat)
    | Blocked
    | Released(status: Status)
    | Completed(granted: Option<nat>)
    | Done

  function Apply(s: Bundle, op: Op): (r: (Bundle, Reply))
    requires WellFormed(s)
    ensures WellFormed(r.0) && |r.0.slots| == |s.slots|
  {
    match op
    case ClientAcquireOp =>
      var (t, g) := ClientAcquire(s);
      (t, if g.Granted? then Acquired(g.buffer) else Blocked)
    case ClientReleaseOp(b) =>
      var (t, st) := ClientRelease(s, b);
      (t, Released(st))
    case CompositorAcquireOp =>
      var (t, b) := CompositorAcquire(s);
      (t, Acquired(b))
    case CompositorReleaseOp(b) =>
      var (t, st) := CompositorRelease(s, b);
      (t, Released(st))
    case SnapshotAcquireOp =>
      var (t, b) := SnapshotAcquire(s);
      (t, Acquired(b))
    case SnapshotReleaseOp(b) =>
      var (t, st) := SnapshotRelease(s, b);
      (t, Released(st))
    case AllowFramedroppingOp(allow) =>
      (AllowFramedropping(s, allow), Done)
    case ForceRequestsToCompleteOp =>
      var (t, c) := ForceRequestsToComplete(s);
      (t, Completed(c))
  }

  /** A sequence of calls, one after another; every reply is recorded. */
  function Run(s: Bundle, ops: seq<Op>): (r: (Bundle, seq<Reply>))
    requires WellFormed(s)
    ensures WellFormed(r.0) && |r.0.slots| == |s.slots| && |r.1| == |ops|
    decreases |ops|
  {
    if ops == [] then (s, [])
    else
      var (t, reply) := Apply(s, ops[0]);
      var (u, replies) := Run(t, ops[1..]);
      (u, [reply] + replies)
  }

  /** Every call keeps the bundle invariant. */
  lemma ApplyKeepsInv(s: Bundle, op: Op)
    requires Inv(s)
    ensures Inv(Apply(s, op).0)
  {
    match op
    case ClientAcquireOp => AcquireForClientKeepsInv(s, s.framedropping || s.forcePending);
    case ClientReleaseOp(b) => ClientReleaseKeepsInv(s, b);
    case CompositorAcquireOp => CompositorAcquireKeepsInv(s);
    case CompositorReleaseOp(b) => CompositorReleaseKeepsInv(s, b);
    case SnapshotAcquireOp => SnapshotAcquireKeepsInv(s);
    case SnapshotReleaseOp(b) => SnapshotReleaseKeepsInv(s, b);
    case AllowFramedroppingOp(allow) =>
    case ForceRequestsToCompleteOp => ForceRequestsToCompleteKeepsInv(s);
  }

  /** Any sequence of calls keeps the bundle invariant. */
  lemma {:induction false} RunKeepsInv(s: Bundle, ops: seq<Op>)
    requires Inv(s)
    ensures Inv(Run(s, ops).0)
    decreases |ops|
  {
    if ops != [] {
      ApplyKeepsInv(s, ops[0]);
      RunKeepsInv(Apply(s, ops[0]).0, ops[1..]);
    }
  }

  /** Running ops1 then ops2 is running ops1 + ops2: same final state, replies concatenated. */
  predicate RunsCompose(s: Bundle, ops1: seq<Op>, ops2: seq<Op>)
    requires WellFormed(s)
  {
    var mid := Run(s, ops1);
    var last := Run(mid.0, ops2);
    Run(s, ops1 + ops2) == (last.0, mid.1 + last.1)
  }

  lemma {:induction false} RunAppend(s: Bundle, ops1: seq<Op>, ops2: seq<Op>)
    requires WellFormed(s)
    ensures RunsCompose(s, ops1, ops2)
    decreases |ops1|
  {
    if ops1 == [] {
      assert ops1 + ops2 == ops2;
      assert [] + Run(s, ops2).1 == Run(s, ops2).1;
    } else {
      var t := Apply(s, ops1[0]);
      RunAppend(t.0, ops1[1..], ops2);
      assert (ops1 + ops2)[1..] == ops1[1..] + ops2;
      var mid := Run(t.0, ops1[1..]);
      var rest := Run(mid.0, ops2).1;
      assert [t.1] + (mid.1 + rest) == ([t.1] + mid.1) + rest;
    }
  }

  // ---------------------------------------------------------------------
  // Release errors

  /** Client buffers are released in acquisition order; a second release fails. */
  lemma OutOfOrderClientRelease(s: Bundle, first: nat, second: nat)
    requires Inv(s) && s.clients == [first, second]
    ensures ClientRelease(s, second) == (s, LogicError)
    ensures var (t, st) := ClientRelease(s, first);
            st == Ok && ClientRelease(t, first) == (t, LogicError)
  {
    assert QueuesMatch(s);
    assert s.clients[0] == first && s.clients[1] == second;
    assert first != second;
    var t := Submit(s, first);
    assert t.clients == [second];
  }

  /** A buffer released by the client cannot be released by it again. */
  lemma {:induction false} ClientReleaseTwice(s: Bundle, b: nat)
    requires Inv(s) && ClientRelease(s, b).1 == Ok
    ensures var t := ClientRelease(s, b).0; ClientRelease(t, b) == (t, LogicError)
  {
    var t := ClientRelease(s, b).0;
    if |t.clients| > 0 {
      assert t.clients[0] == s.clients[1];
    }
  }

  /** A buffer the client holds is no compositor's or snapshot's to release. */
  lemma ClientBufferNotReleasableByReaders(s: Bundle, b: nat)
    requires Inv(s) && |s.slots| >= 2 && b in s.clients
    ensures CompositorRelease(s, b) == (s, LogicError)
    ensures SnapshotRelease(s, b) == (s, LogicError)
  {
    var k :| 0 <= k < |s.clients| && s.clients[k] == b;
    assert s.slots[b].role == Client;
  }

  /** Releasing the only compositor hold twice fails the second time. */
  lemma CompositorReleaseTwice(s: Bundle, b: nat)
    requires WellFormed(s) && b < |s.slots| && s.slots[b].compositors == 1
    ensures var (t, st) := CompositorRelease(s, b);
            st == Ok && CompositorRelease(t, b) == (t, LogicError)
  {
  }

  /** Releasing the only snapshot hold twice fails the second time. */
  lemma SnapshotReleaseTwice(s: Bundle, b: nat)
    requires WellFormed(s) && b < |s.slots| && s.slots[b].snapshots == 1
    ensures var (t, st) := SnapshotRelease(s, b);
            st == Ok && SnapshotRelease(t, b) == (t, LogicError)
  {
  }

  /**
   * The sequence of test snapshot_release_verifies_parameter, for every pool
   * of two or more buffers: the frame a compositor holds cannot be released
   * as a snapshot's, a snapshot then shares it, the client is given another
   * buffer that is not a snapshot's either, and the snapshot's own hold is
   * released exactly once.
   */
  lemma SnapshotReleaseVerifiesParameter(nbuffers: nat)
    requires nbuffers >= 2
    ensures var (s1, c) := CompositorAcquire(Initial(nbuffers));
            var (s2, snap) := SnapshotAcquire(s1);
            var (s3, st3) := CompositorRelease(s2, c);
            var (s4, g) := ClientAcquire(s3);
            var (s5, st5) := SnapshotRelease(s4, snap);
            && SnapshotRelease(s1, c) == (s1, LogicError)
            && snap == c && st3 == Ok
            && g.Granted? && g.buffer != snap
            && SnapshotRelease(s4, g.buffer) == (s4, LogicError)
            && st5 == Ok && SnapshotRelease(s5, snap) == (s5, LogicError)
  {
    var s0 := Initial(nbuffers);
    assert s0.slots[0] == Slot(Shown, 0, 0) && s0.slots[1] == Slot(Free, 0, 0);
    var (s1, c) := CompositorAcquire(s0);
    assert c == 0 && s1.slots[0] == Slot(Shown, 1, 0);
    var (s2, snap) := SnapshotAcquire(s1);
    assert snap == 0 && s2.slots[0] == Slot(Shown, 1, 1) && s2.slots[1] == Slot(Free, 0, 0);
    var (s3, st3) := CompositorRelease(s2, c);
    assert st3 == Ok && s3.slots[0].snapshots == 1 && s3.slots[1] == Slot(Free, 0, 0);
    assert FirstFree(s3.slots) == Some(1);
    var (s4, g) := ClientAcquire(s3);
    assert g == Granted(1) && s4.slots[1].snapshots == 0 && s4.slots[0].snapshots == 1;
    var (s5, st5) := SnapshotRelease(s4, snap);
    assert st5 == Ok && s5.slots[0].snapshots == 0;
  }

  // ---------------------------------------------------------------------
  // Presentation order and re-display

  predicate NoClientRelease(ops: seq<Op>)
  {
    forall k :: 0 <= k < |ops| ==> !ops[k].ClientReleaseOp?
  }

  predicate IsConsumerAcquire(op: Op)
  {
    op == CompositorAcquireOp || op == SnapshotAcquireOp
  }

  /** With no frame pending, any call except client_release keeps the displayed frame. */
  lemma StepKeepsDisplay(s: Bundle, op: Op)
    requires WellFormed(s) && s.ready == [] && !op.ClientReleaseOp?
    ensures Apply(s, op).0.ready == [] && Apply(s, op).0.last == s.last
    ensures IsConsumerAcquire(op) ==> Apply(s, op).1 == Acquired(s.last)
  {
  }

  /**
   * Until the client submits a new frame, every compositor_acquire and
   * snapshot_acquire, from any number of monitors, returns the same buffer.
   */
  lemma {:induction false} RedisplayUntilNextFrame(s: Bundle, ops: seq<Op>)
    requires WellFormed(s) && s.ready == [] && NoClientRelease(ops)
    ensures Run(s, ops).0.ready == [] && Run(s, ops).0.last == s.last
    ensures forall k :: 0 <= k < |ops| && IsConsumerAcquire(ops[k]) ==> Run(s, ops).1[k] == Acquired(s.last)
    decreases |ops|
  {
    if ops != [] {
      StepKeepsDisplay(s, ops[0]);
      var t := Apply(s, ops[0]).0;
      assert NoClientRelease(ops[1..]) by {
        forall k | 0 <= k < |ops[1..]| ensures !ops[1..][k].ClientReleaseOp? {
          assert ops[1..][k] == ops[k + 1];
        }
      }
      RedisplayUntilNextFrame(t, ops[1..]);
      forall k | 0 <= k < |ops| && IsConsumerAcquire(ops[k])
        ensures Run(s, ops).1[k] == Acquired(s.last)
      {
        if k > 0 {
          assert ops[k] == ops[1..][k - 1];
        }
      }
    }
  }

  /** Running a call followed by more calls is that call, then the rest. */
  lemma RunCons(s: Bundle, op: Op, ops: seq<Op>)
    requires WellFormed(s)
    ensures var (t, reply) := Apply(s, op);
            Run(s, [op] + ops) == (Run(t, ops).0, [reply] + Run(t, ops).1)
  {
    assert ([op] + ops)[1..] == ops;
  }

  /**
   * After a client_release with no older frame pending, the next
   * compositor_acquire returns that buffer, and so does every later
   * compositor or snapshot acquisition until the next client_release.
   */
  lemma FreshFrameThenRedisplay(s: Bundle, b: nat, ops: seq<Op>)
    requires WellFormed(s) && s.ready == [] && |s.clients| > 0 && s.clients[0] == b
    requires NoClientRelease(ops)
    ensures var replies := Run(s, [ClientReleaseOp(b), CompositorAcquireOp] + ops).1;
            && replies[0] == Released(Ok)
            && replies[1] == Acquired(b)
            && forall k :: 0 <= k < |ops| && IsConsumerAcquire(ops[k]) ==> replies[k + 2] == Acquired(b)
  {
    var s2 := CompositorAcquire(ClientRelease(s, b).0).0;
    FreshFramePrefix(s, b, ops);
    RedisplayUntilNextFrame(s2, ops);
    var rest := Run(s2, ops).1;
    forall k | 0 <= k < |ops| && IsConsumerAcquire(ops[k])
      ensures ([Released(Ok), Acquired(b)] + rest)[k + 2] == Acquired(b)
    {
      AfterTwo(Released(Ok), Acquired(b), rest, k);
    }
  }

  lemma AfterTwo(x: Reply, y: Reply, rest: seq<Reply>, k: nat)
    requires k < |rest|
    ensures |[x, y] + rest| == |rest| + 2 && ([x, y] + rest)[k + 2] == rest[k]
  {
  }

  /** Releasing the client's frame and compositing it: both succeed, and the frame is on display. */
  lemma FreshFramePrefix(s: Bundle, b: nat, ops: seq<Op>)
    requires WellFormed(s) && s.ready == [] && |s.clients| > 0 && s.clients[0] == b
    ensures var s2 := CompositorAcquire(ClientRelease(s, b).0).0;
            && s2.ready == [] && s2.last == b
            && Run(s, [ClientReleaseOp(b), CompositorAcquireOp] + ops).1 == [Released(Ok), Acquired(b)] + Run(s2, ops).1
  {
    var s1 := ClientRelease(s, b).0;
    var s2 := CompositorAcquire(s1).0;
    ReleaseThenPresent(s, b);
    assert [ClientReleaseOp(b), CompositorAcquireOp] + ops == [ClientReleaseOp(b)] + ([CompositorAcquireOp] + ops);
    RunCons(s, ClientReleaseOp(b), [CompositorAcquireOp] + ops);
    RunCons(s1, CompositorAcquireOp, ops);
    assert [Released(Ok)] + ([Acquired(b)] + Run(s2, ops).1) == [Released(Ok), Acquired(b)] + Run(s2, ops).1;
  }

  /** client_release of the client's frame then compositor_acquire, as single calls. */
  lemma ReleaseThenPresent(s: Bundle, b: nat)
    requires WellFormed(s) && s.ready == [] && |s.clients| > 0 && s.clients[0] == b
    ensures var s1 := ClientRelease(s, b).0;
            var s2 := CompositorAcquire(s1).0;
            && Apply(s, ClientReleaseOp(b)) == (s1, Released(Ok))
            && Apply(s1, CompositorAcquireOp) == (s2, Acquired(b))
            && s2.ready == [] && s2.last == b
  {
    var s1 := ClientRelease(s, b).0;
    assert s1.ready == [b];
  }

  // ---------------------------------------------------------------------
  // Synchronous swapping

  /** Nothing is held, queued or read: the state between frames of a synchronous client. */
  predicate Quiescent(s: Bundle)
  {
    && s.ready == [] && s.clients == [] && !s.framedropping
    && forall i :: 0 <= i < |s.slots| ==> Readers(s.slots[i]) == 0
  }

  /** One frame: the client draws and submits it, two monitors each show it once. */
  function FrameOps(b: nat): seq<Op>
  {
    SubmitOps(b) + ShowOps(b) + ShowOps(b)
  }

  /** The client draws into buffer b and submits it. */
  function SubmitOps(b: nat): seq<Op>
  {
    [ClientAcquireOp, ClientReleaseOp(b)]
  }

  /** One monitor composites buffer b and lets go of it. */
  function ShowOps(b: nat): seq<Op>
  {
    [CompositorAcquireOp, CompositorReleaseOp(b)]
  }

  /** Between synchronous frames every slot but the one on display is free. */
  lemma QuiescentSlotsFree(s: Bundle)
    requires Inv(s) && Quiescent(s)
    ensures forall j :: 0 <= j < |s.slots| && j != s.last ==> s.slots[j].role == Free
    ensures s.slots[s.last] == Slot(Shown, 0, 0) || s.slots[s.last] == Slot(Free, 0, 0)
  {
    assert Readers(s.slots[s.last]) == 0;
    forall j | 0 <= j < |s.slots| && j != s.last
      ensures s.slots[j].role == Free
    {
      assert Readers(s.slots[j]) == 0;
    }
  }

  /**
   * Between synchronous frames the client never blocks: it is handed a free
   * slot other than the one on display (with one buffer, that buffer).
   */
  lemma QuiescentClientGetsFreeSlot(s: Bundle)
    requires Inv(s) && Quiescent(s)
    ensures ClientAcquire(s).1.Granted?
    ensures var b := ClientAcquire(s).1.buffer;
            && b < |s.slots|
            && ClientAcquire(s).0 == Take(s, b)
            && (|s.slots| >= 2 ==> b != s.last && s.slots[b].role == Free)
            && (|s.slots| == 2 ==> b == 1 - s.last)
  {
    QuiescentSlotsFree(s);
    IdleClientAcquire(s);
  }

  lemma IdleClientAcquire(s: Bundle)
    requires WellFormed(s) && s.ready == []
    requires forall j :: 0 <= j < |s.slots| && j != s.last ==> s.slots[j].role == Free
    requires s.slots[s.last] == Slot(Shown, 0, 0) || s.slots[s.last] == Slot(Free, 0, 0)
    requires |s.slots| >= 2 ==> s.slots[s.last].role == Shown
    ensures ClientAcquire(s).1.Granted?
    ensures var b := ClientAcquire(s).1.buffer;
            && b < |s.slots|
            && ClientAcquire(s).0 == Take(s, b)
            && (|s.slots| >= 2 ==> b != s.last && s.slots[b].role == Free)
            && (|s.slots| == 2 ==> b == 1 - s.last)
  {
    if |s.slots| >= 2 {
      var j := if s.last == 0 then 1 else 0;
      assert s.slots[j].role == Free;
    }
  }

  /** Two calls in a row. */
  lemma RunPair(s: Bundle, op1: Op, op2: Op)
    requires WellFormed(s)
    ensures var (t, r1) := Apply(s, op1);
            var (u, r2) := Apply(t, op2);
            Run(s, [op1, op2]) == (u, [r1, r2])
  {
    assert [op1, op2] == [op1] + [op2];
    assert [op2] == [op2] + [];
    var t := Apply(s, op1).0;
    var u := Apply(t, op2).0;
    RunCons(s, op1, [op2]);
    RunCons(t, op2, []);
    assert Run(u, []) == (u, []);
    assert [Apply(s, op1).1] + ([Apply(t, op2).1] + []) == [Apply(s, op1).1, Apply(t, op2).1];
  }

  /** The state once the client has submitted buffer b into a quiescent bundle. */
  function Submitted(s: Bundle, b: nat): Bundle
    requires b < |s.slots|
  {
    s.(slots := s.slots[b := Slot(Ready, 0, 0)], ready := [b], clientWaiting := false)
  }

  /** The state once buffer b has been shown and released: the frame it replaced is free. */
  function Displayed(s: Bundle, b: nat): Bundle
    requires s.last < |s.slots| && b < |s.slots|
  {
    s.(slots := s.slots[s.last := Slot(Free, 0, 0)][b := Slot(Shown, 0, 0)], last := b, clientWaiting := false)
  }

  /** A buffer taken from a pool with no other client buffer and submitted at once. */
  lemma TakeThenSubmit(s: Bundle, b: nat)
    requires WellFormed(s) && b < |s.slots| && s.clients == []
    requires s.slots[b].compositors == 0 && s.slots[b].snapshots == 0
    ensures Submit(Take(s, b), b) == s.(slots := s.slots[b := Slot(Ready, 0, 0)], ready := s.ready + [b], clientWaiting := false)
  {
    var s1 := Take(s, b);
    assert s1.slots == s.slots[b := Slot(Client, 0, 0)];
    assert s1.clients == [b];
    var sub := Submit(s1, b);
    assert sub.slots == s.slots[b := Slot(Ready, 0, 0)];
  }

  /** The client draws into a buffer it was just given and submits it. */
  lemma SyncSubmit(s: Bundle, b: nat)
    requires WellFormed(s) && b < |s.slots| && s.clients == [] && s.ready == []
    requires s.slots[b].compositors == 0 && s.slots[b].snapshots == 0
    requires ClientAcquire(s) == (Take(s, b), Granted(b))
    ensures Run(s, SubmitOps(b)) == (Submitted(s, b), [Acquired(b), Released(Ok)])
  {
    var s1 := Take(s, b);
    TakeThenSubmit(s, b);
    assert s.ready + [b] == [b];
    assert Apply(s, ClientAcquireOp) == (s1, Acquired(b));
    assert Apply(s1, ClientReleaseOp(b)) == (Submitted(s, b), Released(Ok));
    RunPair(s, ClientAcquireOp, ClientReleaseOp(b));
  }

  /** Both compositors' first acquisition shows the submitted frame. */
  lemma SyncPresent(s: Bundle, b: nat)
    requires WellFormed(s) && b < |s.slots| && s.ready == []
    requires Readers(s.slots[s.last]) == 0
    requires |s.slots| >= 2 ==> b != s.last
    ensures Run(Submitted(s, b), ShowOps(b))
            == (Displayed(s, b), [Acquired(b), Released(Ok)])
  {
    var s2 := Submitted(s, b);
    var s3 := Present(s2);
    assert s3.slots[b] == Slot(Shown, 1, 0) && s3.last == b;
    var s4 := CompositorRelease(s3, b).0;
    assert s4.slots == s3.slots[b := Slot(Shown, 0, 0)];
    assert s4.slots == Displayed(s, b).slots;
    assert Apply(s2, CompositorAcquireOp) == (s3, Acquired(b));
    assert Apply(s3, CompositorReleaseOp(b)) == (s4, Released(Ok));
    RunPair(s2, CompositorAcquireOp, CompositorReleaseOp(b));
  }

  /** After the frame is shown and released, nothing is held. */
  lemma DisplayedQuiescent(s: Bundle, b: nat)
    requires WellFormed(s) && b < |s.slots| && Quiescent(s)
    ensures Quiescent(Displayed(s, b)) && Displayed(s, b).slots[b] == Slot(Shown, 0, 0)
  {
    var t := Displayed(s, b);
    forall i | 0 <= i < |t.slots|
      ensures Readers(t.slots[i]) == 0
    {
      if i != b && i != s.last {
        assert t.slots[i] == s.slots[i];
      }
    }
  }

  /** Re-displaying an unread frame and letting go of it changes nothing. */
  lemma ShowAgain(u: Bundle)
    requires WellFormed(u) && u.ready == [] && u.slots[u.last] == Slot(Shown, 0, 0)
    ensures Run(u, ShowOps(u.last)) == (u, [Acquired(u.last), Released(Ok)])
  {
    var u1 := CompositorAcquire(u).0;
    assert u1.slots == u.slots[u.last := Slot(Shown, 1, 0)];
    assert CompositorRelease(u1, u.last).0.slots == u.slots;
    RunPair(u, CompositorAcquireOp, CompositorReleaseOp(u.last));
  }

  /**
   * A synchronous frame delivers the buffer the client drew into, to both
   * monitors, and leaves the bundle quiescent with that frame on display.
   * With two buffers the client always gets the buffer not on display.
   */
  lemma {:induction false} SyncFrame(s: Bundle)
    requires Inv(s) && Quiescent(s)
    ensures ClientAcquire(s).1.Granted?
    ensures var b := ClientAcquire(s).1.buffer;
            var (t, replies) := Run(s, FrameOps(b));
            && replies == [Acquired(b), Released(Ok), Acquired(b), Released(Ok), Acquired(b), Released(Ok)]
            && Quiescent(t) && t.last == b
            && (|s.slots| == 2 ==> b == 1 - s.last)
  {
    QuiescentClientGetsFreeSlot(s);
    var b := ClientAcquire(s).1.buffer;
    assert Readers(s.slots[b]) == 0 && Readers(s.slots[s.last]) == 0;
    FrameRun(s, b);
    var pair := [Acquired(b), Released(Ok)];
    assert pair + pair + pair == [Acquired(b), Released(Ok), Acquired(b), Released(Ok), Acquired(b), Released(Ok)];
  }

  /** Three runs back to back. */
  lemma RunThree(s: Bundle, ops1: seq<Op>, ops2: seq<Op>, ops3: seq<Op>)
    requires WellFormed(s)
    ensures var (t1, r1) := Run(s, ops1);
            var (t2, r2) := Run(t1, ops2);
            var (t3, r3) := Run(t2, ops3);
            Run(s, ops1 + ops2 + ops3) == (t3, r1 + r2 + r3)
  {
    RunAppend(s, ops1 + ops2, ops3);
    RunAppend(s, ops1, ops2);
  }

  lemma FrameRun(s: Bundle, b: nat)
    requires WellFormed(s) && b < |s.slots| && Quiescent(s)
    requires |s.slots| >= 2 ==> b != s.last
    requires ClientAcquire(s) == (Take(s, b), Granted(b))
    ensures var pair := [Acquired(b), Released(Ok)];
            Run(s, FrameOps(b)) == (Displayed(s, b), pair + pair + pair)
    ensures Quiescent(Displayed(s, b))
  {
    assert Readers(s.slots[b]) == 0 && Readers(s.slots[s.last]) == 0;
    SyncSubmit(s, b);
    SyncPresent(s, b);
    DisplayedQuiescent(s, b);
    ShowAgain(Displayed(s, b));
    RunThree(s, SubmitOps(b), ShowOps(b), ShowOps(b));
  }

  // ---------------------------------------------------------------------
  // Synchronous double buffering

  /** One synchronous frame: the state it leaves and the buffer it showed. */
  function NextSyncFrame(s: Bundle): (r: (Bundle, nat))
    requires Inv(s) && Quiescent(s)
    ensures Inv(r.0) && Quiescent(r.0) && |r.0.slots| == |s.slots| && r.0.last == r.1
    ensures |s.slots| == 2 ==> r.1 == 1 - s.last
  {
    NextSyncFrameFacts(s);
    var b := ClientAcquire(s).1.buffer;
    (Displayed(s, b), b)
  }

  /** The state NextSyncFrame names is the one the frame's calls produce. */
  lemma NextSyncFrameFacts(s: Bundle)
    requires Inv(s) && Quiescent(s)
    ensures ClientAcquire(s).1.Granted?
    ensures var b := ClientAcquire(s).1.buffer;
            && b < |s.slots| && s.last < |s.slots|
            && Run(s, FrameOps(b)).0 == Displayed(s, b)
            && Inv(Displayed(s, b)) && Quiescent(Displayed(s, b))
            && (|s.slots| == 2 ==> b == 1 - s.last)
  {
    QuiescentClientGetsFreeSlot(s);
    var b := ClientAcquire(s).1.buffer;
    assert Readers(s.slots[b]) == 0 && Readers(s.slots[s.last]) == 0;
    FrameRun(s, b);
    RunKeepsInv(s, FrameOps(b));
  }

  /** The buffers shown by k synchronous frames, in order. */
  function SyncFrames(s: Bundle, k: nat): (frames: seq<nat>)
    requires Inv(s) && Quiescent(s)
    ensures |frames| == k
    decreases k
  {
    if k == 0 then []
    else
      var (t, b) := NextSyncFrame(s);
      [b] + SyncFrames(t, k - 1)
  }

  /** Each frame shows the other of two buffers than the one before it, starting from the buffer after last. */
  predicate Alternating(frames: seq<nat>, last: nat)
  {
    && (|frames| > 0 ==> frames[0] + last == 1)
    && (forall i :: 0 < i < |frames| ==> frames[i] + frames[i - 1] == 1)
  }

  lemma {:induction false} AlternatingCons(b: nat, rest: seq<nat>, last: nat)
    requires b + last == 1 && Alternating(rest, b)
    ensures Alternating([b] + rest, last)
  {
    var frames := [b] + rest;
    forall i | 0 < i < |frames| ensures frames[i] + frames[i - 1] == 1 {
      assert frames[i] == rest[i - 1];
      if i > 1 {
        assert frames[i - 1] == rest[i - 2];
      }
    }
  }

  /** Alternating between two buffers repeats with period two. */
  lemma AlternatingPeriodTwo(frames: seq<nat>, last: nat)
    requires Alternating(frames, last)
    ensures forall i :: 2 <= i < |frames| ==> frames[i] == frames[i - 2]
  {
    forall i | 2 <= i < |frames| ensures frames[i] == frames[i - 2] {
      assert frames[i] + frames[i - 1] == 1 && frames[i - 1] + frames[i - 2] == 1;
    }
  }

  /**
   * With two buffers and framedropping off, composited frames alternate
   * between the two buffers: frame i shows the buffer frame i-2 showed.
   */
  lemma {:induction false} DoubleBufferAlternates(s: Bundle, k: nat)
    requires Inv(s) && Quiescent(s) && |s.slots| == 2
    ensures Alternating(SyncFrames(s, k), s.last)
    ensures forall i :: 2 <= i < k ==> SyncFrames(s, k)[i] == SyncFrames(s, k)[i - 2]
    decreases k
  {
    if k > 0 {
      var next := NextSyncFrame(s);
      DoubleBufferAlternates(next.0, k - 1);
      assert SyncFrames(s, k) == [next.1] + SyncFrames(next.0, k - 1);
      AlternatingCons(next.1, SyncFrames(next.0, k - 1), s.last);
    }
    AlternatingPeriodTwo(SyncFrames(s, k), s.last);
  }

  /**
   * Two buffers, a force before the client has blocked: the client's second
   * frame, which would otherwise block, takes back the frame it submitted.
   */
  lemma EarlyForceIsRemembered()
    ensures Run(Initial(2), [ForceRequestsToCompleteOp, ClientAcquireOp, ClientReleaseOp(1), ClientAcquireOp]).1
            == [Completed(None), Acquired(1), Released(Ok), Acquired(1)]
  {
    var s0 := Initial(2);
    var s1 := s0.(forcePending := true);
    assert Apply(s0, ForceRequestsToCompleteOp) == (s1, Completed(None));
    assert FirstFree(s1.slots) == Some(1);
    var s2 := Take(s1, 1);
    assert Apply(s1, ClientAcquireOp) == (s2, Acquired(1));
    var s3 := Submit(s2, 1);
    assert Apply(s2, ClientReleaseOp(1)) == (s3, Released(Ok));
    assert FirstFree(s3.slots).None?;
    assert Apply(s3, ClientAcquireOp).1 == Acquired(1);
  }

  /**
   * Two buffers, a force while the client is blocked holding its only
   * obtainable buffer: nothing can be handed over yet, so the force stays
   * pending and the client's next attempt takes back the frame it submitted.
   */
  lemma BlockedForceIsRemembered()
    ensures Run(Initial(2), [ClientAcquireOp, ClientAcquireOp, ForceRequestsToCompleteOp, ClientReleaseOp(1), ClientAcquireOp]).1
            == [Acquired(1), Blocked, Completed(None), Released(Ok), Acquired(1)]
  {
    var s0 := Initial(2);
    assert FirstFree(s0.slots) == Some(1);
    var s1 := Take(s0, 1);
    assert Apply(s0, ClientAcquireOp) == (s1, Acquired(1));
    assert FirstFree(s1.slots).None?;
    var s2 := s1.(clientWaiting := true);
    assert Apply(s1, ClientAcquireOp) == (s2, Blocked);
    var s3 := s2.(forcePending := true);
    assert Apply(s2, ForceRequestsToCompleteOp) == (s3, Completed(None));
    var s4 := Submit(s3, 1);
    assert Apply(s3, ClientReleaseOp(1)) == (s4, Released(Ok));
    assert FirstFree(s4.slots).None?;
    assert Apply(s4, ClientAcquireOp).1 == Acquired(1);
  }
}
