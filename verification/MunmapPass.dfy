/** `munmap` on values: the loop over the areas a range cuts, and what it leaves behind. */
module Munmaps {
  import opened Base
  import opened Ptes
  import opened Areas
  import opened AreaEdits
  import opened AreaFrames
  import opened CowWorlds
  import opened FrameCounts

  // ---- the loop of munmap ----

  /** The pages of `[s, e)` that `a` has a frame for. */
  ghost function FramesIn(a: MapArea, s: nat, e: nat): set<nat> {
    set v: nat | s <= v < e && v in a.frames
  }

  /** The pages of `[s, e)` that the areas `ks` have a frame for. */
  ghost function FramesOfIn(t: Tree, ks: seq<nat>, s: nat, e: nat): set<nat> {
    set v: nat | s <= v < e && HasFrameIn(t, ks, v)
  }

  /** One more area: its pages are still mapped, and are what is cleared next. */
  lemma FramesStep(t: Tree, ks: seq<nat>, i: nat, s: nat, e: nat)
    requires WellFormed(t) && i < |ks| && ks[i] in t
    requires forall j, j' :: 0 <= j < j' < |ks| ==> ks[j] != ks[j']
    ensures FramesOfIn(t, ks[..i + 1], s, e) == FramesOfIn(t, ks[..i], s, e) + FramesIn(t[ks[i]], s, e)
    ensures FramesOfIn(t, ks[..i], s, e) !! FramesIn(t[ks[i]], s, e)
  {
    assert ks[..i + 1] == ks[..i] + [ks[i]];
    forall v: nat | s <= v < e
      ensures HasFrameIn(t, ks[..i + 1], v) <==> HasFrameIn(t, ks[..i], v) || v in t[ks[i]].frames
    {
      if v in t[ks[i]].frames {
        assert ks[i] in ks[..i + 1];
      }
      if HasFrameIn(t, ks[..i], v) {
        var k: nat :| k in ks[..i] && k in t && v in t[k].frames;
        assert k in ks[..i + 1];
      }
    }
    forall v: nat | HasFrameIn(t, ks[..i], v) ensures v !in t[ks[i]].frames {
      var k: nat :| k in ks[..i] && k in t && v in t[k].frames;
      if v in t[ks[i]].frames {
        OneOwner(t, k, ks[i], v);
        assert false;
      }
    }
  }

  /** What `munmap` makes of page `p`. */
  ghost function Unmapped(t: Tree, s: nat, e: nat, p: nat): Option<PageInfo> {
    if s <= p < e then None
    else if InCutArea(t, s, e, p) then Stripped(Info(t, p))
    else Info(t, p)
  }

  /** The areas `overlaps[..i]` have been cut and the others are as before. */
  ghost predicate Cutting(before: Tree, areas: Tree, overlaps: seq<nat>, i: nat, s: nat, e: nat) {
    && WellFormed(before) && WellFormed(areas) && i <= |overlaps| && s <= e
    && (forall j, j' :: 0 <= j < j' < |overlaps| ==> overlaps[j] != overlaps[j'])
    && (forall k: nat :: k in overlaps <==> k in before && k < e && s < before[k].end)
    && (forall k: nat :: k in overlaps[i..] ==> k in areas && areas[k] == before[k])
    && (forall p: nat :: Info(areas, p) == HalfCut(before, overlaps[..i], s, e, p))
  }

  ghost predicate OwnedByOneOf(t: Tree, ks: seq<nat>, p: nat) {
    exists k: nat :: k in ks && Owns(t, k, p)
  }

  /** What page `p` is once the areas `done` have been cut. */
  ghost function HalfCut(before: Tree, done: seq<nat>, s: nat, e: nat, p: nat): Option<PageInfo> {
    if !OwnedByOneOf(before, done, p) then Info(before, p)
    else if s <= p < e then None
    else Stripped(Info(before, p))
  }

  lemma CutStart(before: Tree, overlaps: seq<nat>, s: nat, e: nat)
    requires WellFormed(before) && s <= e
    requires forall j, j' :: 0 <= j < j' < |overlaps| ==> overlaps[j] != overlaps[j']
    requires forall k: nat :: k in overlaps <==> k in before && k < e && s < before[k].end
    ensures Cutting(before, before, overlaps, 0, s, e)
  {
  }

  lemma CutStep(before: Tree, areas: Tree, overlaps: seq<nat>, i: nat, s: nat, e: nat)
    requires Cutting(before, areas, overlaps, i, s, e) && i < |overlaps|
    ensures overlaps[i] in areas && overlaps[i] in before && areas[overlaps[i]] == before[overlaps[i]]
    ensures areas[overlaps[i]].start == overlaps[i]
    ensures Cutting(before, Cut(areas, overlaps[i], s, e), overlaps, i + 1, s, e)
  {
    var k := overlaps[i];
    assert k in overlaps && k in overlaps[i..];
    CutWellFormed(areas, k, s, e);
    var areas' := Cut(areas, k, s, e);
    assert overlaps[..i + 1] == overlaps[..i] + [k];
    forall p: nat ensures Info(areas', p) == HalfCut(before, overlaps[..i + 1], s, e, p) {
      CutPage(areas, k, s, e, p);
      CutStepPage(before, areas, overlaps, i, s, e, p);
    }
  }

  /** Whether page `p` is among the areas cut changes with the next area exactly if that owns it. */
  lemma CutStepPage(before: Tree, areas: Tree, overlaps: seq<nat>, i: nat, s: nat, e: nat, p: nat)
    requires Cutting(before, areas, overlaps, i, s, e) && i < |overlaps|
    requires overlaps[i] in before && overlaps[i] in areas && areas[overlaps[i]] == before[overlaps[i]]
    ensures OwnedByOneOf(before, overlaps[..i + 1], p) <==>
              OwnedByOneOf(before, overlaps[..i], p) || Owns(areas, overlaps[i], p)
    ensures !(OwnedByOneOf(before, overlaps[..i], p) && Owns(areas, overlaps[i], p))
  {
    var k := overlaps[i];
    assert overlaps[..i + 1] == overlaps[..i] + [k];
    if OwnedByOneOf(before, overlaps[..i], p) {
      var j: nat :| j in overlaps[..i] && Owns(before, j, p);
      assert j in overlaps[..i + 1];
      if Owns(before, k, p) {
        OneOwner(before, j, k, p);
        assert false;
      }
    }
    if Owns(before, k, p) {
      assert k in overlaps[..i + 1];
    }
  }

  lemma CutDone(before: Tree, areas: Tree, overlaps: seq<nat>, s: nat, e: nat)
    requires Cutting(before, areas, overlaps, |overlaps|, s, e)
    ensures WellFormed(areas)
    ensures forall p: nat :: Info(areas, p) == Unmapped(before, s, e, p)
    ensures FramesOfIn(before, overlaps[..|overlaps|], s, e) == set v: nat | s <= v < e && HasFrame(before, v)
  {
    assert overlaps[..|overlaps|] == overlaps;
    forall v: nat | s <= v < e ensures HasFrameIn(before, overlaps, v) <==> HasFrame(before, v) {
      if HasFrame(before, v) {
        var k: nat :| k in before && v in before[k].frames;
        assert k in overlaps;
      }
    }
    forall p: nat ensures HalfCut(before, overlaps, s, e, p) == Unmapped(before, s, e, p) {
      assert OwnedByOneOf(before, overlaps, p) <==> InCutArea(before, s, e, p);
      if s <= p < e && Covered(before, p) {
        var k: nat :| Owns(before, k, p);
        assert k in overlaps;
      }
    }
  }

  lemma OneMoreFrame(a: MapArea, s: nat, v: nat)
    requires s <= v
    ensures FramesIn(a, s, v + 1) == FramesIn(a, s, v) + if v in a.frames then {v} else {}
  {
  }

  /** The pages of `[s, e)` that have a frame are mapped. */
  ghost predicate RangeMapped(t: Tree, pt: map<nat, Pte>, s: nat, e: nat) {
    forall v: nat :: s <= v < e && HasFrame(t, v) ==> v in pt
  }

  /** What is still to be unmapped of the next area is mapped. */
  lemma NextMapped(t: Tree, pt0: map<nat, Pte>, pt: map<nat, Pte>, ks: seq<nat>, i: nat, s: nat, e: nat)
    requires RangeMapped(t, pt0, s, e) && i < |ks| && ks[i] in t
    requires pt == pt0 - FramesOfIn(t, ks[..i], s, e)
    requires FramesOfIn(t, ks[..i], s, e) !! FramesIn(t[ks[i]], s, e)
    ensures forall v: nat :: s <= v < e && v in t[ks[i]].frames ==> v in pt
  {
    forall v: nat | s <= v < e && v in t[ks[i]].frames ensures v in pt {
      assert HasFrame(t, v) && v in FramesIn(t[ks[i]], s, e);
    }
  }

  // ---- the counts ----

  lemma DroppedStep(t: Tree, ks: seq<nat>, i: nat, m0: Memory, m: Memory, m': Memory)
    requires WellFormed(t) && i < |ks| && ks[i] in t && forall j, j' :: 0 <= j < j' < |ks| ==> ks[j] != ks[j']
    requires FramesDropped(m0, m, FramesOf(t, ks[..i])) && FramesDropped(m, m', t[ks[i]].frames)
    ensures FramesDropped(m0, m', FramesOf(t, ks[..i + 1]))
  {
    FramesOfNext(t, ks, i);
    DropTwice(m0, m, m', FramesOf(t, ks[..i]), t[ks[i]].frames);
  }

  lemma NextCovered(t: Tree, ks: seq<nat>, i: nat, m0: Memory, m: Memory)
    requires WellFormed(t) && i < |ks| && ks[i] in t && forall j, j' :: 0 <= j < j' < |ks| ==> ks[j] != ks[j']
    requires Covers(Recorded(t), m0.rc) && FramesDropped(m0, m, FramesOf(t, ks[..i]))
    ensures Covers(t[ks[i]].frames, m.rc)
  {
    FramesOfNext(t, ks, i);
    FramesOfRecorded(t, ks, i);
    RestCovered(m0, m, Recorded(t), FramesOf(t, ks[..i]), t[ks[i]].frames);
  }

  /** What is recorded after `munmap` was recorded before, in an area that is not cut. */
  lemma RecordedAfter(t: Tree, t': Tree, s: nat, e: nat, v: nat)
    requires WellFormed(t) && WellFormed(t') && Info(t', v) == Unmapped(t, s, e, v)
    ensures v in Recorded(t') <==> v in Recorded(t) && !InCutArea(t, s, e, v) && !(s <= v < e)
    ensures v in Recorded(t') ==> Recorded(t')[v] == Recorded(t)[v]
  {
    FrameAtHas(t, v);
    FrameAtHas(t', v);
  }

  /** The frames recorded afterwards are still counted, so `munmap` can be called again. */
  lemma MunmapCovers(t: Tree, t': Tree, m: Memory, m': Memory, s: nat, e: nat)
    requires WellFormed(t) && WellFormed(t') && forall p: nat :: Info(t', p) == Unmapped(t, s, e, p)
    requires Covers(Recorded(t), m.rc) && FramesDropped(m, m', CutFrames(t, s, e))
    ensures Covers(Recorded(t'), m'.rc)
  {
    forall v: nat
      ensures v in Recorded(t') ==> v in Recorded(t) && Recorded(t')[v] == Recorded(t)[v] && v !in CutFrames(t, s, e)
    {
      RecordedAfter(t, t', s, e, v);
    }
    RestCovered(m, m', Recorded(t), CutFrames(t, s, e), Recorded(t'));
  }

  /** Every frame of `pt` is in use. */
  ghost predicate AllCounted(pt: map<nat, Pte>, mem: Memory) {
    forall v: nat :: v in pt ==> pt[v].ppn in mem.rc
  }

  /** The entries that `munmap` leaves. */
  ghost function Left(t: Tree, pt: map<nat, Pte>, s: nat, e: nat): map<nat, Pte> {
    pt - set v: nat | s <= v < e && HasFrame(t, v)
  }

  /** Exactly the pages of `[s, e)` are gone. A page that is left has the permission, type and mapping kind it
      had; if its area did not meet the range it has its frame and flags too, otherwise neither. */
  ghost predicate SurvivorsKept(t: Tree, t': Tree, s: nat, e: nat) {
    && (forall p: nat :: Covered(t', p) <==> Covered(t, p) && !(s <= p < e))
    && forall j: nat, k: nat, p: nat :: Owns(t, j, p) && Owns(t', k, p) ==> SurvivorKept(t[j], t'[k], s, e, p)
  }

  predicate SurvivorKept(a: MapArea, b: MapArea, s: nat, e: nat, p: nat) {
    && b.perm == a.perm && b.areaType == a.areaType && b.mapType == a.mapType
    && if a.start < e && s < a.end then b.mmapFlags == {} && p !in b.frames
       else b.mmapFlags == a.mmapFlags && (p in b.frames <==> p in a.frames)
            && (p in a.frames ==> b.frames[p] == a.frames[p])
  }

  lemma MunmapSurvivors(t: Tree, t': Tree, s: nat, e: nat)
    requires WellFormed(t) && WellFormed(t') && forall p: nat :: Info(t', p) == Unmapped(t, s, e, p)
    ensures SurvivorsKept(t, t', s, e)
  {
    forall p: nat ensures Covered(t', p) <==> Covered(t, p) && !(s <= p < e) {
      assert Info(t', p) == Unmapped(t, s, e, p);
    }
    forall j: nat, k: nat, p: nat | Owns(t, j, p) && Owns(t', k, p) ensures SurvivorKept(t[j], t'[k], s, e, p) {
      SurvivorPage(t, t', s, e, j, k, p);
    }
  }

  lemma SurvivorPage(t: Tree, t': Tree, s: nat, e: nat, j: nat, k: nat, p: nat)
    requires WellFormed(t) && WellFormed(t') && Info(t', p) == Unmapped(t, s, e, p) && Owns(t, j, p) && Owns(t', k, p)
    ensures SurvivorKept(t[j], t'[k], s, e, p)
  {
    InfoAt(t, j, p);
    InfoAt(t', k, p);
    if i: nat :| Owns(t, i, p) && i < e && s < t[i].end {
      OneOwner(t, i, j, p);
    }
  }

  /** A page recorded afterwards is mapped if it was: what holds of any range before holds of it after. */
  lemma MunmapMapped(t: Tree, t': Tree, pt: map<nat, Pte>, s: nat, e: nat)
    requires WellFormed(t) && WellFormed(t') && forall p: nat :: Info(t', p) == Unmapped(t, s, e, p)
    ensures forall a: nat, b: nat :: RangeMapped(t, pt, a, b) ==> RangeMapped(t', Left(t, pt, s, e), a, b)
  {
    forall v: nat | HasFrame(t', v) ensures HasFrame(t, v) && !(s <= v < e) {
      RecordedHas(t', v);
      RecordedHas(t, v);
      RecordedAfter(t, t', s, e, v);
    }
  }

  /** After `munmap` every frame still mapped is in use exactly when each has more counts than there are pages
      on it in the areas that are cut. */
  lemma MunmapFramesLive(t: Tree, pt: map<nat, Pte>, m: Memory, m': Memory, s: nat, e: nat)
    requires FramesDropped(m, m', CutFrames(t, s, e))
    ensures AllCounted(Left(t, pt, s, e), m')
            <==> forall v: nat :: v in pt && !(s <= v < e && HasFrame(t, v)) ==>
                Outlives(m, CutFrames(t, s, e), pt[v].ppn)
  {
    var pt' := Left(t, pt, s, e);
    forall v: nat ensures v in pt' <==> v in pt && !(s <= v < e && HasFrame(t, v)) {
    }
  }

  /** For a space that agrees with its page table, with a frame of its own for every page: exactly when the
      frames of the pages left of a cut area have another owner. */
  lemma MunmapOwnersLeft(t: Tree, pt: map<nat, Pte>, m: Memory, m': Memory, s: nat, e: nat)
    requires WellFormed(t) && Agree(t, pt) && OwnFrames(pt) && AllCounted(pt, m)
    requires FramesDropped(m, m', CutFrames(t, s, e))
    ensures AllCounted(Left(t, pt, s, e), m')
            <==> forall v: nat :: v in pt && InCutArea(t, s, e, v) && !(s <= v < e) ==> m.rc[pt[v].ppn] > 1
  {
    MunmapFramesLive(t, pt, m, m', s, e);
    forall v: nat | v in pt
      ensures HasFrame(t, v)
      ensures Outlives(m, CutFrames(t, s, e), pt[v].ppn) <==> (InCutArea(t, s, e, v) ==> m.rc[pt[v].ppn] > 1)
    {
      assert HasFrame(t, v);
      OwnPageOnly(t, pt, s, e, v);
    }
  }

  /** A page is the only one on its frame. */
  lemma OwnPageOnly(t: Tree, pt: map<nat, Pte>, s: nat, e: nat, v: nat)
    requires WellFormed(t) && Agree(t, pt) && OwnFrames(pt) && v in pt
    ensures On(CutFrames(t, s, e), pt[v].ppn) == if InCutArea(t, s, e, v) then {v} else {}
  {
    forall u: nat | u in CutFrames(t, s, e) ensures u in pt && CutFrames(t, s, e)[u] == pt[u].ppn {
      RecordedEntry(t, pt, u);
    }
    assert HasFrame(t, v);
    RecordedEntry(t, pt, v);
  }

  lemma RecordedEntry(t: Tree, pt: map<nat, Pte>, v: nat)
    requires WellFormed(t) && EntriesPresent(t, pt) && HasFrame(t, v)
    ensures v in RecordedPages(t) && v in pt && FrameOf(t, v) == pt[v].ppn
  {
    var k: nat :| k in t && v in t[k].frames;
    RecordedAt(t, k, v);
  }

  /** An area of two pages, the first with a frame that nobody else counts. */
  ghost predicate TwoPages(a: MapArea, t: Tree, pt: map<nat, Pte>, m: Memory) {
    && a.start == 0 && a.end == 2 && t == map[0 := a] && a.frames.Keys == {0} && pt.Keys == {0}
    && pt[0].ppn == a.frames[0] && a.frames[0] in m.rc && m.rc[a.frames[0]] == 1
  }

  lemma TwoPagesOk(a: MapArea, t: Tree, pt: map<nat, Pte>, m: Memory)
    requires TwoPages(a, t, pt, m)
    ensures WellFormed(t) && Agree(t, pt) && OwnFrames(pt) && AllCounted(pt, m) && InCutArea(t, 1, 2, 0) && 0 in pt
  {
    assert forall k: nat :: k in t ==> k == 0;
    assert 0 in t && t[0] == a && 0 in t[0].frames;
    assert forall v: nat :: v in pt ==> v == 0;
    assert HasFrame(t, 0) && Owns(t, 0, 0);
  }

  /** It can fail: cutting one page off a two-page area frees the frame of the page that stays mapped. */
  lemma MunmapFreesMapped(a: MapArea, t: Tree, pt: map<nat, Pte>, m: Memory, m': Memory)
    requires TwoPages(a, t, pt, m) && FramesDropped(m, m', CutFrames(t, 1, 2))
    ensures WellFormed(t) && Agree(t, pt) && OwnFrames(pt) && AllCounted(pt, m)
    ensures !AllCounted(Left(t, pt, 1, 2), m')
  {
    TwoPagesOk(a, t, pt, m);
    MunmapOwnersLeft(t, pt, m, m', 1, 2);
  }

  // ---- agreement after munmap ----

  /** `munmap` keeps frames and page-table entries in agreement exactly when no page outside the range
      that lies in an area it cuts has a frame. Such a page loses its frame but stays mapped to it. */
  lemma MunmapAgreement(before: Tree, after: Tree, pt: map<nat, Pte>, s: nat, e: nat)
    requires WellFormed(before) && WellFormed(after) && Agree(before, pt)
    requires forall p: nat :: Info(after, p) == Unmapped(before, s, e, p)
    ensures Agree(after, Left(before, pt, s, e))
            <==> forall v: nat :: HasFrame(before, v) && InCutArea(before, s, e, v) ==> s <= v < e
  {
    var pt' := Left(before, pt, s, e);
    AgreeByPage(before, pt);
    AgreeByPage(after, pt');
    forall v: nat
      ensures FrameAt(after, v) == EntryAt(pt', v) <==>
                !(HasFrame(before, v) && InCutArea(before, s, e, v) && !(s <= v < e))
    {
      MunmapPage(before, after, pt, s, e, v);
    }
  }

  lemma MunmapPage(before: Tree, after: Tree, pt: map<nat, Pte>, s: nat, e: nat, v: nat)
    requires WellFormed(before) && FrameAt(before, v) == EntryAt(pt, v)
    requires Info(after, v) == Unmapped(before, s, e, v)
    ensures FrameAt(after, v) == EntryAt(Left(before, pt, s, e), v) <==>
              !(HasFrame(before, v) && InCutArea(before, s, e, v) && !(s <= v < e))
  {
    FrameAtHas(before, v);
  }

  /** The smallest such case: an area of two pages whose first has a frame, cut at its second. */
  lemma MunmapStaleEntry(a: MapArea, f: nat, flags: PteFlags)
    requires a.start == 0 && a.end == 2 && a.frames == map[0 := f]
    ensures var t: Tree := map[0 := a];
            && WellFormed(t) && Agree(t, map[0 := NewPage(f, flags)])
            && WellFormed(Cut(t, 0, 1, 2)) && !Agree(Cut(t, 0, 1, 2), map[0 := NewPage(f, flags)])
  {
    var t: Tree := map[0 := a];
    CutWellFormed(t, 0, 1, 2);
    assert 0 in t && 0 in t[0].frames;
    assert Cut(t, 0, 1, 2) == map[0 := Survivor(a, 0, 1)];
    assert !HasFrame(Cut(t, 0, 1, 2), 0);
    assert 0 in map[0 := NewPage(f, flags)];
  }

  // ---- faults after munmap ----

  /** The kinds of areas whose faults are handled. */
  predicate Faulting(areaType: MapAreaType) {
    areaType.Mmap? || areaType.Stack?
  }

  /** From a space that agrees with its page table: afterwards a fault on a page panics exactly when the page
      had a frame, is left of an area that was cut, and that is of a kind whose faults are handled. */
  lemma MunmapPanics(before: Tree, after: Tree, pt: map<nat, Pte>, s: nat, e: nat, mem: Memory, v: nat,
                     isWrite: bool, f: nat)
    requires WellFormed(before) && WellFormed(after) && Agree(before, pt)
    requires forall p: nat :: Info(after, p) == Unmapped(before, s, e, p)
    requires forall k: nat :: k in after && v in after[k].frames ==>
               v in Left(before, pt, s, e) && after[k].frames[v] in mem.rc && after[k].frames[v] in mem.frames
    ensures Fault(Space(after, Left(before, pt, s, e)), mem, v, isWrite, f).Panics?
            <==> HasFrame(before, v) && InCutArea(before, s, e, v) && !(s <= v < e)
                 && Faulting(Info(before, v).value.areaType)
  {
    AgreeByPage(before, pt);
    FrameAtHas(before, v);
    assert FrameAt(before, v) == EntryAt(pt, v);
    FrameAtHas(after, v);
    FaultedArea(after, v);
  }

  /** The area the handler finds for a covered page. */
  lemma FaultedArea(t: Tree, v: nat)
    requires WellFormed(t)
    ensures Covered(t, v) <==> Info(t, v).Some?
    ensures Covered(t, v) ==> AreaOf(t, v).Some? && Owns(t, AreaOf(t, v).value, v)
                              && Info(t, v) == Some(InfoOf(t[AreaOf(t, v).value], v))
  {
    if Covered(t, v) {
      InfoAt(t, AreaOf(t, v).value, v);
    }
  }
}
