/**
 * Occlusion filtering of a render list (mir::compositor::filter_occlusions_from).
 *
 * The list is ordered front first. Walking it from the front, the filter
 * erases every renderable that will not be seen: one that is hidden, and one
 * whose rectangle lies entirely inside the rectangle of an opaque,
 * rectangular, visible renderable in front of it. While it walks, the filter
 * remembers the rectangles of the opaque rectangular renderables it has
 * kept (the coverage) and tests each later renderable against them.
 */
module Occlusion {

  /** An integer rectangle: top-left corner and size. */
  datatype Rect = Rect(x: int, y: int, w: nat, h: nat)

  /** outer covers every point of inner. */
  predicate Contains(outer: Rect, inner: Rect)
  {
    outer.x <= inner.x && inner.x + inner.w <= outer.x + outer.w &&
    outer.y <= inner.y && inner.y + inner.h <= outer.y + outer.h
  }

  /**
   * A renderable as the filter sees it: its screen rectangle, whether it is
   * fully opaque (alpha 1.0), whether its shape is its whole rectangle, and
   * whether it is visible.
   */
  datatype Renderable = Renderable(rect: Rect, fullyOpaque: bool, rectangular: bool, visible: bool)

  /** A renderable that hides whatever lies entirely behind it. */
  predicate Occluder(r: Renderable)
  {
    r.visible && r.fullyOpaque && r.rectangular
  }

  predicate Occludes(front: Renderable, back: Renderable)
  {
    Occluder(front) && Contains(front.rect, back.rect)
  }

  // ---------------------------------------------------------------------
  // The reference rule

  /** Renderable k of a front-first list is drawn: visible, and not inside an occluder in front of it. */
  predicate Drawn(rs: seq<Renderable>, k: nat)
    requires k < |rs|
  {
    rs[k].visible && forall j :: 0 <= j < k ==> !Occludes(rs[j], rs[k])
  }

  /** The drawn renderables, in list order. */
  function Unoccluded(rs: seq<Renderable>): seq<Renderable>
    decreases |rs|
  {
    if rs == [] then []
    else
      var k := |rs| - 1;
      Unoccluded(rs[..k]) + (if Drawn(rs, k) then [rs[k]] else [])
  }

  // ---------------------------------------------------------------------
  // The sweep the filter performs

  /** Some coverage rectangle contains r. */
  predicate Covered(coverage: seq<Rect>, r: Rect)
  {
    exists i :: 0 <= i < |coverage| && Contains(coverage[i], r)
  }

  /** The renderables kept so far and the coverage built from them. */
  datatype Sweep = Sweep(kept: seq<Renderable>, coverage: seq<Rect>)

  /** The filter's decision for one renderable, given the coverage so far. */
  predicate IsOccluded(coverage: seq<Rect>, r: Renderable)
  {
    !r.visible || Covered(coverage, r.rect)
  }

  /** One step of the sweep. */
  function SweepStep(p: Sweep, r: Renderable): Sweep
  {
    if IsOccluded(p.coverage, r) then p
    else Sweep(p.kept + [r], if r.fullyOpaque && r.rectangular then p.coverage + [r.rect] else p.coverage)
  }

  /** The sweep over a front-first list. */
  function SweepOf(rs: seq<Renderable>): Sweep
    decreases |rs|
  {
    if rs == [] then Sweep([], [])
    else SweepStep(SweepOf(rs[..|rs| - 1]), rs[|rs| - 1])
  }

  // ---------------------------------------------------------------------
  // The render list and the in-place filter

  /** mg::RenderableList, front first. */
  class RenderableList {
    var items: seq<Renderable>

    constructor (items: seq<Renderable>)
      ensures this.items == items
    {
      this.items := items;
    }

    /**
     * filter_occlusions_from(list, area): erases, in place, every renderable
     * that is not drawn; the survivors keep their order.
     */
    method FilterOcclusionsFrom(area: Rect)
      modifies this
      ensures items == Unoccluded(old(items))
    {
      ghost var orig := items;
      ghost var j := 0;
      var coverage: seq<Rect> := [];
      var i := 0;
      while i < |items|
        invariant 0 <= j <= |orig| && 0 <= i <= |items|
        invariant SweepOf(orig[..j]) == Sweep(items[..i], coverage)
        invariant items[i..] == orig[j..]
        decreases |orig| - j
      {
        var r := items[i];
        NextOfRest(items, i, orig, j);
        SweepOfPrefix(orig, j);
        var occluded := !r.visible;
        if !occluded {
          occluded := IsCovered(coverage, r.rect);
        }
        if occluded {
          EraseAt(items, i, orig, j);
          items := items[..i] + items[i + 1..];
        } else {
          if r.fullyOpaque && r.rectangular {
            coverage := coverage + [r.rect];
          }
          i := i + 1;
        }
        j := j + 1;
      }
      assert orig[..j] == orig;
      SweepMatchesReference(orig);
    }
  }

  /** The next unvisited item is the next item of the original list. */
  lemma NextOfRest(items: seq<Renderable>, i: nat, orig: seq<Renderable>, j: nat)
    requires i < |items| && j <= |orig| && items[i..] == orig[j..]
    ensures j < |orig| && items[i] == orig[j]
    ensures items[..i + 1] == items[..i] + [items[i]] && items[i + 1..] == orig[j + 1..]
  {
    assert items[i..][0] == items[i];
  }

  /** Erasing item i keeps the items before it and leaves the rest of the original list after it. */
  lemma EraseAt(items: seq<Renderable>, i: nat, orig: seq<Renderable>, j: nat)
    requires i < |items| && j < |orig| && items[i..] == orig[j..]
    ensures var e := items[..i] + items[i + 1..];
            e[..i] == items[..i] && e[i..] == orig[j + 1..]
  {
    var e := items[..i] + items[i + 1..];
    assert e[i..] == items[i + 1..];
    assert items[i + 1..] == items[i..][1..];
  }

  /** Sweeping one more renderable of a list is one more sweep step. */
  lemma SweepOfPrefix(rs: seq<Renderable>, j: nat)
    requires j < |rs|
    ensures SweepOf(rs[..j + 1]) == SweepStep(SweepOf(rs[..j]), rs[j])
  {
    assert rs[..j + 1][..j] == rs[..j];
  }

  /** The coverage search: does any coverage rectangle contain r? */
  method IsCovered(coverage: seq<Rect>, r: Rect) returns (covered: bool)
    ensures covered <==> Covered(coverage, r)
  {
    covered := false;
    var i := 0;
    while i < |coverage|
      invariant 0 <= i <= |coverage|
      invariant forall k :: 0 <= k < i ==> !Contains(coverage[k], r)
    {
      if Contains(coverage[i], r) {
        return true;
      }
      i := i + 1;
    }
  }

  // ---------------------------------------------------------------------
  // The sweep agrees with the reference rule

  lemma ContainsTransitive(a: Rect, b: Rect, c: Rect)
    requires Contains(a, b) && Contains(b, c)
    ensures Contains(a, c)
  {
  }

  /** Each rectangle of the coverage after a sweep lies within an occluder of the list. */
  lemma {:induction false} SweepCoverageSound(rs: seq<Renderable>)
    ensures forall x :: Covered(SweepOf(rs).coverage, x) ==>
              exists j :: 0 <= j < |rs| && Occluder(rs[j]) && Contains(rs[j].rect, x)
    decreases |rs|
  {
    if rs != [] {
      var k := |rs| - 1;
      var init := rs[..k];
      SweepCoverageSound(init);
      var before := SweepOf(init).coverage;
      var after := SweepOf(rs).coverage;
      assert after == before || after == before + [rs[k].rect];
      forall x | Covered(after, x)
        ensures exists j :: 0 <= j < |rs| && Occluder(rs[j]) && Contains(rs[j].rect, x)
      {
        var i :| 0 <= i < |after| && Contains(after[i], x);
        if i < |before| {
          assert Covered(before, x) by { assert before[i] == after[i]; }
          var j :| 0 <= j < |init| && Occluder(init[j]) && Contains(init[j].rect, x);
          assert rs[j] == init[j];
        } else {
          assert Occluder(rs[k]) && Contains(rs[k].rect, x);
        }
      }
    }
  }

  /** Each occluder of the list lies within a rectangle of the coverage after the sweep. */
  lemma {:induction false} SweepCoverageComplete(rs: seq<Renderable>)
    ensures forall j :: 0 <= j < |rs| && Occluder(rs[j]) ==> Covered(SweepOf(rs).coverage, rs[j].rect)
    decreases |rs|
  {
    if rs != [] {
      var k := |rs| - 1;
      var init := rs[..k];
      SweepCoverageComplete(init);
      var before := SweepOf(init).coverage;
      var after := SweepOf(rs).coverage;
      assert after == before || after == before + [rs[k].rect];
      forall j | 0 <= j < |rs| && Occluder(rs[j])
        ensures Covered(after, rs[j].rect)
      {
        if j < k {
          assert init[j] == rs[j];
          var i :| 0 <= i < |before| && Contains(before[i], rs[j].rect);
          assert after[i] == before[i];
        } else if after == before {
          // the occluder was itself covered, so it was not added
          assert IsOccluded(before, rs[k]);
        } else {
          assert after[|before|] == rs[k].rect;
        }
      }
    }
  }

  /** For a visible renderable, the sweep's coverage test is exactly the reference rule. */
  lemma CoveredIffOccluded(rs: seq<Renderable>, k: nat)
    requires k < |rs|
    ensures Covered(SweepOf(rs[..k]).coverage, rs[k].rect) <==>
            exists j :: 0 <= j < k && Occludes(rs[j], rs[k])
  {
    var init := rs[..k];
    SweepCoverageSound(init);
    SweepCoverageComplete(init);
    var cov := SweepOf(init).coverage;
    if Covered(cov, rs[k].rect) {
      var j :| 0 <= j < |init| && Occluder(init[j]) && Contains(init[j].rect, rs[k].rect);
      assert rs[j] == init[j];
    }
    if exists j :: 0 <= j < k && Occludes(rs[j], rs[k]) {
      var j :| 0 <= j < k && Occludes(rs[j], rs[k]);
      assert init[j] == rs[j];
      var i :| 0 <= i < |cov| && Contains(cov[i], rs[j].rect);
      ContainsTransitive(cov[i], rs[j].rect, rs[k].rect);
    }
  }

  /** The filter keeps exactly the renderables the reference rule draws. */
  lemma {:induction false} SweepMatchesReference(rs: seq<Renderable>)
    ensures SweepOf(rs).kept == Unoccluded(rs)
    decreases |rs|
  {
    if rs != [] {
      var k := |rs| - 1;
      SweepMatchesReference(rs[..k]);
      CoveredIffOccluded(rs, k);
    }
  }

  // ---------------------------------------------------------------------
  // Properties of the filter

  /** a is b with some elements deleted (matched greedily from the back). */
  predicate IsSubsequence<T(==)>(a: seq<T>, b: seq<T>)
    decreases |b|
  {
    if a == [] then true
    else if b == [] then false
    else if a[|a| - 1] == b[|b| - 1] then IsSubsequence(a[..|a| - 1], b[..|b| - 1])
    else IsSubsequence(a, b[..|b| - 1])
  }

  lemma {:induction false} SubsequenceDropLast<T>(a: seq<T>, b: seq<T>)
    requires a != [] && IsSubsequence(a, b)
    ensures IsSubsequence(a[..|a| - 1], b)
    decreases |b|, 0
  {
    var c := a[..|a| - 1];
    if c != [] && b != [] {
      if a[|a| - 1] == b[|b| - 1] {
        SubsequenceWeaken(c, b[..|b| - 1], b[|b| - 1]);
      } else {
        SubsequenceDropLast(a, b[..|b| - 1]);
        SubsequenceWeaken(c, b[..|b| - 1], b[|b| - 1]);
      }
    }
  }

  /** A subsequence of b is a subsequence of b extended by x. */
  lemma {:induction false} SubsequenceWeaken<T>(a: seq<T>, b: seq<T>, x: T)
    requires IsSubsequence(a, b)
    ensures IsSubsequence(a, b + [x])
    decreases |b|, 1
  {
    assert (b + [x])[..|b|] == b;
    if a != [] && a[|a| - 1] == x {
      SubsequenceDropLast(a, b);
    }
  }

  /** The filter only deletes: the survivors appear in the list in the same order. */
  lemma {:induction false} FilterOnlyDeletes(rs: seq<Renderable>)
    ensures IsSubsequence(Unoccluded(rs), rs)
    decreases |rs|
  {
    if rs != [] {
      var k := |rs| - 1;
      var init := rs[..k];
      FilterOnlyDeletes(init);
      var u := Unoccluded(init);
      if Drawn(rs, k) {
        assert (u + [rs[k]])[..|u|] == u;
      } else {
        assert rs == init + [rs[k]] && Unoccluded(rs) == u;
        SubsequenceWeaken(u, init, rs[k]);
      }
    }
  }

  /** Adding renderables behind the list never changes what survives in front. */
  lemma {:induction false} FrontUnaffectedByBack(rs: seq<Renderable>, behind: seq<Renderable>)
    ensures var u := Unoccluded(rs);
            |u| <= |Unoccluded(rs + behind)| && Unoccluded(rs + behind)[..|u|] == u
    decreases |behind|
  {
    if behind == [] {
      assert rs + behind == rs;
    } else {
      var k := |behind| - 1;
      FrontUnaffectedByBack(rs, behind[..k]);
      assert (rs + behind)[..|rs + behind| - 1] == rs + behind[..k];
    }
  }

  /** A visible frontmost renderable always survives, at the front. */
  lemma FrontmostVisibleSurvives(rs: seq<Renderable>)
    requires rs != [] && rs[0].visible
    ensures |Unoccluded(rs)| >= 1 && Unoccluded(rs)[0] == rs[0]
  {
    FrontUnaffectedByBack([rs[0]], rs[1..]);
    assert [rs[0]] + rs[1..] == rs;
    assert [rs[0]][..0] == [];
  }

  /** A hidden renderable never survives, whatever is in front of it. */
  lemma HiddenNeverSurvives(rs: seq<Renderable>, r: Renderable)
    requires !r.visible
    ensures Unoccluded(rs + [r]) == Unoccluded(rs)
  {
    assert (rs + [r])[..|rs|] == rs;
  }

  /** A renderable inside an occluder in front of it never survives. */
  lemma OccludedNeverSurvives(rs: seq<Renderable>, r: Renderable, j: nat)
    requires j < |rs| && Occludes(rs[j], r)
    ensures Unoccluded(rs + [r]) == Unoccluded(rs)
  {
    assert (rs + [r])[..|rs|] == rs;
    assert (rs + [r])[j] == rs[j];
  }

  // ---------------------------------------------------------------------
  // The four scenarios of the filter's unit tests, on a 1920x1200 monitor

  /** FakeRenderable(x, y, w, h, alpha, rectangular, visible), alpha reduced to "is 1.0". */
  function Fake(x: int, y: int, w: nat, h: nat, fullyOpaque: bool, rectangular: bool, visible: bool): Renderable
  {
    Renderable(Rect(x, y, w, h), fullyOpaque, rectangular, visible)
  }

  /** A one-renderable list keeps it iff it is visible. */
  lemma UnoccludedOne(r: Renderable)
    ensures Unoccluded([r]) == if r.visible then [r] else []
  {
    assert [r][..0] == [];
  }

  /** A two-renderable list: the back one survives iff it is visible and the front one does not occlude it. */
  lemma UnoccludedTwo(front: Renderable, back: Renderable)
    ensures Unoccluded([front, back]) ==
            Unoccluded([front]) + (if back.visible && !Occludes(front, back) then [back] else [])
  {
    var rs := [front, back];
    assert rs[..1] == [front];
    if back.visible && !Occludes(front, back) {
      forall j | 0 <= j < 1 ensures !Occludes(rs[j], rs[1]) {
        assert rs[j] == front;
      }
    } else if back.visible {
      assert Occludes(rs[0], rs[1]);
    }
  }

  lemma SingleWindowNotOccluded()
    ensures var window := Fake(12, 34, 56, 78, true, true, true);
            Unoccluded([window]) == [window]
  {
    UnoccludedOne(Fake(12, 34, 56, 78, true, true, true));
  }

  lemma SmallerWindowOccluded()
    ensures var front := Fake(10, 10, 10, 10, true, true, true);
            var back := Fake(12, 12, 5, 5, true, true, true);
            Unoccluded([front, back]) == [front]
  {
    var front := Fake(10, 10, 10, 10, true, true, true);
    var back := Fake(12, 12, 5, 5, true, true, true);
    UnoccludedOne(front);
    UnoccludedTwo(front, back);
    assert Occludes(front, back);
  }

  lemma TranslucentWindowOccludesNothing()
    ensures var front := Fake(10, 10, 10, 10, false, true, true);
            var back := Fake(12, 12, 5, 5, true, true, true);
            Unoccluded([front, back]) == [front, back]
  {
    var front := Fake(10, 10, 10, 10, false, true, true);
    var back := Fake(12, 12, 5, 5, true, true, true);
    UnoccludedOne(front);
    UnoccludedTwo(front, back);
    assert !Occludes(front, back);
  }

  lemma HiddenWindowIsSelfOccluded()
    ensures Unoccluded([Fake(10, 10, 10, 10, true, true, false)]) == []
  {
    UnoccludedOne(Fake(10, 10, 10, 10, true, true, false));
  }
}
