/**
 * Input platform probing (mir::input::probe_input_platforms).
 *
 * Candidate modules are offered one at a time to a selector. The selector
 * keeps a module when its probe reports a priority strictly above the reject
 * threshold and no module of the same name was kept before; a module that is
 * not an input module of the right vintage, or whose platform cannot be
 * created, contributes nothing. By default every module found on the
 * platform path is offered and the threshold is `dummy`; when an input
 * library is named explicitly, only that library is offered and the
 * threshold is `unsupported`.
 *
 * Loading shared libraries, reading options and logging are outside the
 * model: a library is given by what loading it would yield.
 */
module InputProbe {
  import opened Wrappers

  /** PlatformPriority::unsupported. */
  const Unsupported: int := 0
  /** PlatformPriority::dummy. */
  const Dummy: int := 1

  /** What a candidate library turns out to be once its entry points are looked up. */
  datatype Module =
    | NotAnInputModule   // loading or calling probe_input_platform or describe_input_module throws
    | InputModule(name: string, priority: int, creatable: bool)
      // priority: what probe_input_platform reports; creatable: create_input_platform succeeds

  /** Opening the library named on the command line. */
  datatype LibraryLoad = Opened(loaded: Module) | OpenFails

  /** A created input platform, known by the module it came from. */
  datatype Platform = Platform(name: string, priority: int)

  /** What the selector tells the library scan. */
  datatype Selection = Persist | Quit

  datatype ProbeError = CannotOpenInputLibrary

  /** The selector's accumulated state: created platforms and the names of their modules. */
  datatype Picked = Picked(platforms: seq<Platform>, names: seq<string>)

  /** A module the selector would keep if no module of its name had been kept yet. */
  predicate Qualifies(reject: int, m: Module)
  {
    m.InputModule? && m.priority > reject && m.creatable
  }

  /** One step of the selector, as a function of what it has picked so far. */
  function SelectStep(reject: int, p: Picked, m: Module): (q: Picked)
    ensures Qualifies(reject, m) && m.name !in p.names ==>
              q == Picked(p.platforms + [Platform(m.name, m.priority)], p.names + [m.name])
    ensures !(Qualifies(reject, m) && m.name !in p.names) ==> q == p
  {
    match m
    case NotAnInputModule => p
    case InputModule(name, priority, creatable) =>
      var duplicate := name in p.names;
      if priority > reject && !duplicate then
        if creatable then Picked(p.platforms + [Platform(name, priority)], p.names + [name])
        else p   // creation threw: neither a platform nor a name is recorded
      else p
  }

  /** What the selector has picked after being offered ms in order. */
  function Scan(reject: int, ms: seq<Module>): Picked
    decreases |ms|
  {
    if ms == [] then Picked([], [])
    else SelectStep(reject, Scan(reject, ms[..|ms| - 1]), ms[|ms| - 1])
  }

  /**
   * The reference rule: module k is kept iff it qualifies and no earlier
   * module of the same name qualifies.
   */
  predicate FirstOfItsName(reject: int, ms: seq<Module>, k: nat)
    requires k < |ms|
  {
    Qualifies(reject, ms[k]) &&
    forall j :: 0 <= j < k && Qualifies(reject, ms[j]) ==> ms[j].name != ms[k].name
  }

  /** The platforms the reference rule keeps, in scan order. */
  function Reference(reject: int, ms: seq<Module>): seq<Platform>
    decreases |ms|
  {
    if ms == [] then []
    else
      var k := |ms| - 1;
      Reference(reject, ms[..k]) +
        (if FirstOfItsName(reject, ms, k) then [Platform(ms[k].name, ms[k].priority)] else [])
  }

  // ---------------------------------------------------------------------
  // The selector and the probe

  /** The module_selector closure and the two vectors it appends to. */
  class ModuleSelector {
    var rejectPriority: int
    var platforms: seq<Platform>
    var moduleNames: seq<string>

    constructor (rejectPriority: int)
      ensures this.rejectPriority == rejectPriority && platforms == [] && moduleNames == []
    {
      this.rejectPriority := rejectPriority;
      platforms := [];
      moduleNames := [];
    }

    /** Offers one module; scanning always goes on. */
    method Select(m: Module) returns (sel: Selection)
      modifies this
      ensures sel == Persist && rejectPriority == old(rejectPriority)
      ensures Picked(platforms, moduleNames) == SelectStep(rejectPriority, old(Picked(platforms, moduleNames)), m)
    {
      sel := Persist;
      if m.NotAnInputModule? {
        return;   // runtime_error while loading the entry points: skipped
      }
      var duplicate := m.name in moduleNames;
      if m.priority > rejectPriority && !duplicate {
        if !m.creatable {
          return;   // runtime_error from create_input_platform: skipped
        }
        platforms := platforms + [Platform(m.name, m.priority)];
        moduleNames := moduleNames + [m.name];
      }
    }
  }

  /**
   * probe_input_platforms. With an explicit input library only that library
   * is offered, with the lower threshold; a library that cannot be opened
   * is an error for the caller. Otherwise the modules found on the platform
   * path are offered in the order the scan finds them.
   */
  method ProbeInputPlatforms(inputLib: Option<LibraryLoad>, onPath: seq<Module>)
    returns (r: Result<seq<Platform>, ProbeError>)
    ensures inputLib == Some(OpenFails) ==> r == Failure(CannotOpenInputLibrary)
    ensures inputLib.Some? && inputLib.value.Opened? ==>
              r == Success(Scan(Unsupported, [inputLib.value.loaded]).platforms)
    ensures inputLib.None? ==> r == Success(Scan(Dummy, onPath).platforms)
  {
    var selector := new ModuleSelector(Dummy);
    if inputLib.Some? {
      selector.rejectPriority := Unsupported;
      if inputLib.value.OpenFails? {
        return Failure(CannotOpenInputLibrary);
      }
      var _ := selector.Select(inputLib.value.loaded);
      assert Scan(Unsupported, [inputLib.value.loaded]) == SelectStep(Unsupported, Scan(Unsupported, []), inputLib.value.loaded);
    } else {
      var i := 0;
      var sel := Persist;
      while i < |onPath| && sel == Persist
        invariant 0 <= i <= |onPath| && selector.rejectPriority == Dummy
        invariant Picked(selector.platforms, selector.moduleNames) == Scan(Dummy, onPath[..i])
        invariant i < |onPath| ==> sel == Persist
      {
        sel := selector.Select(onPath[i]);
        assert onPath[..i + 1][..i] == onPath[..i];
        i := i + 1;
      }
      assert onPath[..i] == onPath;
    }
    r := Success(selector.platforms);
  }

  // ---------------------------------------------------------------------
  // Properties of the selection

  /** Every kept platform probed strictly above the threshold, and there is one name per platform. */
  lemma {:induction false} ScanKeepsOnlyAboveThreshold(reject: int, ms: seq<Module>)
    ensures var p := Scan(reject, ms);
            && |p.platforms| == |p.names|
            && (forall i :: 0 <= i < |p.platforms| ==> p.platforms[i].priority > reject)
            && (forall i :: 0 <= i < |p.platforms| ==> p.platforms[i].name == p.names[i])
    decreases |ms|
  {
    if ms != [] {
      ScanKeepsOnlyAboveThreshold(reject, ms[..|ms| - 1]);
    }
  }

  /** No element occurs twice. */
  predicate NoRepeats<T(==)>(xs: seq<T>)
  {
    forall i, j :: 0 <= i < j < |xs| ==> xs[i] != xs[j]
  }

  /** No two kept modules share a name. */
  lemma {:induction false} ScanNamesDistinct(reject: int, ms: seq<Module>)
    ensures NoRepeats(Scan(reject, ms).names)
    decreases |ms|
  {
    if ms != [] {
      var before := Scan(reject, ms[..|ms| - 1]).names;
      ScanNamesDistinct(reject, ms[..|ms| - 1]);
      var names := Scan(reject, ms).names;
      if names != before {
        // a name is appended only when it is not yet present
        assert names == before + [ms[|ms| - 1].name] && ms[|ms| - 1].name !in before;
        forall i, j | 0 <= i < j < |names| ensures names[i] != names[j] {
          assert names[i] == before[i] && before[i] in before;
          if j < |before| {
            assert names[j] == before[j];
          } else {
            assert names[j] == ms[|ms| - 1].name;
          }
        }
      }
    }
  }

  /** The names recorded are exactly those of the modules that qualified. */
  lemma {:induction false} ScanNamesAreQualifiedNames(reject: int, ms: seq<Module>)
    ensures forall nm :: nm in Scan(reject, ms).names <==>
              exists j :: 0 <= j < |ms| && Qualifies(reject, ms[j]) && ms[j].name == nm
    decreases |ms|
  {
    if ms != [] {
      var k := |ms| - 1;
      var init := ms[..k];
      ScanNamesAreQualifiedNames(reject, init);
      forall nm
        ensures nm in Scan(reject, ms).names <==>
                exists j :: 0 <= j < |ms| && Qualifies(reject, ms[j]) && ms[j].name == nm
      {
        if exists j :: 0 <= j < |init| && Qualifies(reject, init[j]) && init[j].name == nm {
          var j :| 0 <= j < |init| && Qualifies(reject, init[j]) && init[j].name == nm;
          assert ms[j] == init[j];
        }
        if exists j :: 0 <= j < |ms| && Qualifies(reject, ms[j]) && ms[j].name == nm {
          var j :| 0 <= j < |ms| && Qualifies(reject, ms[j]) && ms[j].name == nm;
          if j < k {
            assert init[j] == ms[j];
          }
        }
      }
    }
  }

  /**
   * The selector agrees with the reference rule: it keeps, in scan order,
   * exactly the first qualifying module of each name.
   */
  lemma {:induction false} ScanMatchesReference(reject: int, ms: seq<Module>)
    ensures Scan(reject, ms).platforms == Reference(reject, ms)
    decreases |ms|
  {
    if ms != [] {
      var k := |ms| - 1;
      var init := ms[..k];
      ScanMatchesReference(reject, init);
      ScanNamesAreQualifiedNames(reject, init);
      var m := ms[k];
      if Qualifies(reject, m) {
        assert m.name in Scan(reject, init).names <==>
               exists j :: 0 <= j < k && Qualifies(reject, ms[j]) && ms[j].name == m.name by {
          forall j | 0 <= j < k ensures init[j] == ms[j] { }
        }
      }
    }
  }

  /** Offering more modules only appends: what was kept stays kept, in the same order. */
  lemma {:induction false} ScanExtends(reject: int, ms: seq<Module>, more: seq<Module>)
    ensures var before := Scan(reject, ms).platforms;
            var after := Scan(reject, ms + more).platforms;
            |before| <= |after| && after[..|before|] == before
    decreases |more|
  {
    if more != [] {
      var k := |more| - 1;
      ScanExtends(reject, ms, more[..k]);
      assert (ms + more)[..|ms + more| - 1] == ms + more[..k];
    } else {
      assert ms + more == ms;
    }
  }

  /** A library that is not an input module, or whose platform cannot be created, changes nothing. */
  lemma SkippedModuleContributesNothing(reject: int, ms: seq<Module>, m: Module)
    requires !Qualifies(reject, m)
    ensures Scan(reject, ms + [m]) == Scan(reject, ms)
  {
    assert (ms + [m])[..|ms|] == ms;
  }

  /** A later module with an already-kept name is ignored, whatever its priority. */
  lemma DuplicateNameIgnored(reject: int, ms: seq<Module>, m: Module)
    requires m.InputModule? && m.name in Scan(reject, ms).names
    ensures Scan(reject, ms + [m]) == Scan(reject, ms)
  {
    assert (ms + [m])[..|ms|] == ms;
  }

  /**
   * A dummy-priority module is never picked from the platform path, but is
   * picked when named explicitly.
   */
  lemma DummyOnlyWhenExplicit(name: string)
    ensures Scan(Dummy, [InputModule(name, Dummy, true)]).platforms == []
    ensures Scan(Unsupported, [InputModule(name, Dummy, true)]).platforms == [Platform(name, Dummy)]
  {
    var m := InputModule(name, Dummy, true);
    assert [m][..0] == [];
  }
}
