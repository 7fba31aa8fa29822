/**
 * Weak handles to Wayland resources (mir::wayland::Weak) and the lifetime
 * tracker that backs them (mir::wayland::LifetimeTracker).
 *
 * A tracked object hands out one shared "destroyed" flag, created on first
 * request. A weak handle pairs a pointer to the object with that flag; every
 * copy of the handle shares the flag, so marking the object destroyed makes
 * every copy invalid at once. The flag is a heap cell here, and a handle is a
 * value holding a reference to the object and a reference to the cell.
 */
module WaylandBase {
  import opened Wrappers

  /** The shared flag: true once the tracked object has been destroyed. */
  class DestroyedFlag {
    var destroyed: bool

    constructor (destroyed: bool)
      ensures this.destroyed == destroyed
    {
      this.destroyed := destroyed;
    }
  }

  /** An object that can be watched through weak handles. */
  class LifetimeTracker {
    /** Null until a handle first asks for it. */
    var flag: DestroyedFlag?

    constructor ()
      ensures flag == null
    {
      flag := null;
    }

    /**
     * destroyed_flag(): the tracker's flag, created unset on first request
     * and the same cell on every later request.
     */
    method DestroyedFlagOf() returns (f: DestroyedFlag)
      modifies this
      ensures flag == f
      ensures old(flag) != null ==> f == old(flag)
      ensures old(flag) == null ==> fresh(f) && !f.destroyed
    {
      if flag == null {
        flag := new DestroyedFlag(false);
      }
      f := flag;
    }

    /**
     * mark_destroyed(), also run by the destructor: sets the flag if one
     * was ever handed out. Every handle sharing it becomes invalid.
     */
    method MarkDestroyed()
      modifies flag
      ensures flag == old(flag)
      ensures flag != null ==> flag.destroyed
      ensures forall w: Weak :: w.flag == flag && flag != null ==> !IsLive(w)
    {
      if flag != null {
        flag.destroyed := true;
      }
    }
  }

  /** The outcome of value() on an invalid handle (std::logic_error). */
  datatype AccessError = DestroyedResourceAccess

  /** A resource pointer and the flag it was made with: both null or neither. */
  datatype WeakPair = Handle(resource: LifetimeTracker?, flag: DestroyedFlag?)

  type Weak = w: WeakPair | (w.resource == null) == (w.flag == null) witness Handle(null, null)

  /** The default-constructed handle. */
  function Empty(): (w: Weak)
    ensures w.resource == null && !IsLive(w)
  {
    Handle(null, null)
  }

  /** operator bool: the handle points somewhere and the object is not destroyed. */
  predicate IsLive(w: Weak): (live: bool)
    reads w.flag
    ensures live ==> w.resource != null && w.flag != null
    ensures w.flag != null && w.flag.destroyed ==> !live
  {
    w.resource != null && !w.flag.destroyed
  }

  /** operator==(Weak): two valid handles to the same object, or two invalid handles. */
  predicate Equals(a: Weak, b: Weak): (eq: bool)
    reads a.flag, b.flag
    ensures eq ==> (IsLive(a) <==> IsLive(b))
    ensures eq && IsLive(a) ==> a.resource == b.resource
    ensures !IsLive(a) && !IsLive(b) ==> eq
  {
    if IsLive(a) && IsLive(b) then a.resource == b.resource
    else !IsLive(a) && !IsLive(b)
  }

  /** operator==(T const&): a valid handle to exactly that object. */
  predicate EqualsObject(w: Weak, obj: LifetimeTracker): (eq: bool)
    reads w.flag
    ensures eq <==> IsLive(w) && w.resource == obj
  {
    if IsLive(w) then w.resource == obj else false
  }

  /** operator!= on two handles. */
  predicate NotEquals(a: Weak, b: Weak): (ne: bool)
    reads a.flag, b.flag
    ensures ne <==> IsLive(a) != IsLive(b) || (IsLive(a) && a.resource != b.resource)
  {
    !Equals(a, b)
  }

  /** operator!= against an object. */
  predicate NotEqualsObject(w: Weak, obj: LifetimeTracker): (ne: bool)
    reads w.flag
    ensures ne <==> !IsLive(w) || w.resource != obj
  {
    !EqualsObject(w, obj)
  }

  /** value(): the object if the handle is valid, else an error. */
  function Value(w: Weak): (r: Result<LifetimeTracker, AccessError>)
    reads w.flag
    ensures r.Success? <==> IsLive(w)
    ensures r.Success? ==> r.value == w.resource
    ensures r.Failure? ==> r.error == DestroyedResourceAccess
  {
    if !IsLive(w) then Failure(DestroyedResourceAccess) else Success(w.resource)
  }

  /** as_nullable_ptr(): the object's address if valid, else null. */
  function AsNullablePtr(w: Weak): (p: LifetimeTracker?)
    reads w.flag
    ensures p == null <==> !IsLive(w)
    ensures p != null ==> p == w.resource
  {
    if IsLive(w) then Value(w).value else null
  }

  /**
   * make_weak(p), which is the Weak(T*) constructor: the handle takes the
   * object's flag, creating it if no handle existed yet.
   */
  method MakeWeak(resource: LifetimeTracker?) returns (w: Weak)
    modifies resource
    ensures w.resource == resource
    ensures resource != null ==> w.flag == resource.flag
    ensures resource != null && old(resource.flag) != null ==> w.flag == old(resource.flag)
    ensures resource != null && old(resource.flag) == null ==> fresh(w.flag)
    ensures resource == null ==> w == Empty()
    ensures IsLive(w) <==> resource != null && (old(resource.flag) == null || !old(resource.flag.destroyed))
  {
    if resource == null {
      w := Handle(null, null);
    } else {
      var f := resource.DestroyedFlagOf();
      w := Handle(resource, f);
    }
  }

  /**
   * Two handles made from one object compare equal and are valid; once the
   * object is marked destroyed both are invalid and equal the empty handle.
   */
  method HandlesObserveDestruction() returns (equalBefore: bool, liveAfter: bool, emptyAfter: bool)
    ensures equalBefore && !liveAfter && emptyAfter
  {
    var surface := new LifetimeTracker();
    var first := MakeWeak(surface);
    var second := MakeWeak(surface);
    equalBefore := Equals(first, second) && IsLive(first);
    surface.MarkDestroyed();
    liveAfter := IsLive(first) || IsLive(second);
    emptyAfter := Equals(first, Empty()) && Equals(second, Empty());
  }

  // ---------------------------------------------------------------------
  // Properties of handles

  /** A default-constructed handle is false and value() on it fails. */
  lemma EmptyIsInvalid()
    ensures !IsLive(Empty()) && Value(Empty()) == Failure(DestroyedResourceAccess)
    ensures AsNullablePtr(Empty()) == null
  {
  }

  /** An invalid handle, destroyed or empty, compares equal to the empty handle. */
  lemma InvalidEqualsEmpty(w: Weak)
    ensures Equals(w, Empty()) <==> !IsLive(w)
  {
  }

  /** Handles sharing a set flag are all invalid, whichever object they point to. */
  lemma SharedFlagKillsCopies(a: Weak, b: Weak)
    requires a.flag == b.flag && a.flag != null && a.flag.destroyed
    ensures !IsLive(a) && !IsLive(b) && Equals(a, b)
  {
  }

  /** Handle equality is an equivalence. */
  lemma EqualsIsEquivalence(a: Weak, b: Weak, c: Weak)
    ensures Equals(a, a)
    ensures Equals(a, b) ==> Equals(b, a)
    ensures Equals(a, b) && Equals(b, c) ==> Equals(a, c)
  {
  }

  /** != holds exactly when the handles can be told apart. */
  lemma NotEqualsDistinguishes(a: Weak, b: Weak)
    ensures NotEquals(a, b) <==>
            IsLive(a) != IsLive(b) || (IsLive(a) && IsLive(b) && a.resource != b.resource)
  {
  }

  /** Comparing with an object is comparing the nullable pointer with its address. */
  lemma EqualsObjectIsPointerIdentity(w: Weak, obj: LifetimeTracker)
    ensures EqualsObject(w, obj) <==> AsNullablePtr(w) == obj
    ensures NotEqualsObject(w, obj) <==> AsNullablePtr(w) != obj
  {
  }

  /** value() and as_nullable_ptr() agree, and a valid handle equals its own object. */
  lemma ValueMatchesPointer(w: Weak)
    ensures Value(w).Success? ==> AsNullablePtr(w) == Value(w).value && EqualsObject(w, Value(w).value)
    ensures Value(w).Failure? ==> AsNullablePtr(w) == null
  {
  }
}
