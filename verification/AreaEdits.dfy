/** What splitting, re-protecting and cutting areas do to the pages of an address space, on values. */
module AreaEdits {
  import opened Base
  import opened Areas

  // ---- pages ----

  /** Everything the tree says about one page. */
  datatype PageInfo = PageInfo(
    frame: Option<nat>,
    mapType: MapType,
    perm: MapPermission,
    areaType: MapAreaType,
    mmapFlags: set<MmapFlag>
  )

  function InfoOf(a: MapArea, v: nat): PageInfo {
    PageInfo(if v in a.frames then Some(a.frames[v]) else None, a.mapType, a.perm, a.areaType, a.mmapFlags)
  }

  ghost function Info(t: Tree, v: nat): Option<PageInfo> {
    if Covered(t, v) then
      var k: nat :| Owns(t, k, v);
      Some(InfoOf(t[k], v))
    else None
  }

  lemma InfoAt(t: Tree, k: nat, v: nat)
    requires WellFormed(t) && Owns(t, k, v)
    ensures Info(t, v) == Some(InfoOf(t[k], v))
  {
    assert Covered(t, v);
    var j: nat :| Owns(t, j, v) && Info(t, v) == Some(InfoOf(t[j], v));
    OneOwner(t, j, k, v);
  }

  // ---- the interval tests of an area ----

  predicate OverlapWith(a: MapArea, s: nat, e: nat) {
    (a.start <= s < a.end) || (s <= a.start < e)
  }

  predicate ContainedIn(a: MapArea, s: nat, e: nat) {
    s <= a.start && a.end <= e
  }

  predicate StrictContain(a: MapArea, s: nat, e: nat) {
    a.start < s && e < a.end
  }

  // ---- splitting ----

  /** The part of `a` below `v`, with the frames of its pages: what `split` leaves in place. */
  function LeftOf(a: MapArea, v: nat): MapArea {
    a.(end := v, frames := map p: nat | p in a.frames && p < v :: a.frames[p])
  }

  /** The part of `a` from `v` up: what `split` returns. */
  function RightOf(a: MapArea, v: nat): MapArea {
    a.(start := v, frames := map p: nat | p in a.frames && p >= v :: a.frames[p])
  }

  /** The tree with the area at `k` split at `v`. */
  function SplitAt(t: Tree, k: nat, v: nat): Tree
    requires k in t
  {
    t[k := LeftOf(t[k], v)][v := RightOf(t[k], v)]
  }

  /** Splitting inside an area creates one new key. */
  lemma SplitWellFormed(t: Tree, k: nat, v: nat)
    requires WellFormed(t) && k in t && k < v < t[k].end
    ensures v !in t && WellFormed(SplitAt(t, k, v))
  {
  }

  /** It changes no page. */
  lemma SplitPage(t: Tree, k: nat, v: nat, p: nat)
    requires WellFormed(t) && k in t && k < v < t[k].end
    ensures Info(SplitAt(t, k, v), p) == Info(t, p)
  {
    SplitWellFormed(t, k, v);
    var t' := SplitAt(t, k, v);
    if j: nat :| Owns(t, j, p) {
      InfoAt(t, j, p);
      var j' := if j != k then j else if p < v then k else v;
      assert Owns(t', j', p);
      InfoAt(t', j', p);
    } else if j: nat :| Owns(t', j, p) {
      assert Owns(t, if j == v then k else j, p);
      assert false;
    }
  }

  function WithPerm(i: Option<PageInfo>, perm: MapPermission): Option<PageInfo> {
    match i
    case Some(info) => Some(info.(perm := perm))
    case None => None
  }

  function SetPerm(t: Tree, k: nat, perm: MapPermission): Tree
    requires k in t
  {
    t[k := t[k].(perm := perm)]
  }

  lemma SetPermWellFormed(t: Tree, k: nat, perm: MapPermission)
    requires WellFormed(t) && k in t
    ensures WellFormed(SetPerm(t, k, perm))
  {
  }

  /** Changing an area's permission changes the permission of exactly its pages. */
  lemma SetPermPage(t: Tree, k: nat, perm: MapPermission, p: nat)
    requires WellFormed(t) && k in t
    ensures WellFormed(SetPerm(t, k, perm))
    ensures Info(SetPerm(t, k, perm), p) == if Owns(t, k, p) then WithPerm(Info(t, p), perm) else Info(t, p)
  {
    SetPermWellFormed(t, k, perm);
    var t' := SetPerm(t, k, perm);
    if j: nat :| Owns(t, j, p) {
      InfoAt(t, j, p);
      InfoAt(t', j, p);
      if Owns(t, k, p) {
        OneOwner(t, j, k, p);
      }
    } else if j: nat :| Owns(t', j, p) {
      assert Owns(t, j, p);
      assert false;
    }
  }

  // ---- mprotect ----

  /** The tree after `mprotect` has dealt with the area at `k`. */
  function Protected(t: Tree, k: nat, s: nat, e: nat, perm: MapPermission): Tree
    requires k in t && t[k].start == k
  {
    var a := t[k];
    if ContainedIn(a, s, e) then t[k := a.(perm := perm)]
    else if StrictContain(a, s, e) then
      t[k := LeftOf(a, s)][s := RightOf(LeftOf(a, e), s).(perm := perm)][e := RightOf(a, e)]
    else if s <= a.start < e then
      t[k := LeftOf(a, e).(perm := perm)][e := RightOf(a, e)]
    else
      t[k := LeftOf(a, s)][s := RightOf(a, s).(perm := perm)]
  }

  /** The same tree as a chain of splits and one change of permission. */
  ghost function ProtectedBySplits(t: Tree, k: nat, s: nat, e: nat, perm: MapPermission): Tree
    requires WellFormed(t) && k in t && s < e && OverlapWith(t[k], s, e)
  {
    var a := t[k];
    if ContainedIn(a, s, e) then SetPerm(t, k, perm)
    else if StrictContain(a, s, e) then SetPerm(SplitAt(SplitAt(t, k, e), k, s), s, perm)
    else if s <= a.start < e then SetPerm(SplitAt(t, k, e), k, perm)
    else SetPerm(SplitAt(t, k, s), s, perm)
  }

  lemma ProtectedIsSplits(t: Tree, k: nat, s: nat, e: nat, perm: MapPermission)
    requires WellFormed(t) && k in t && s < e && OverlapWith(t[k], s, e)
    ensures Protected(t, k, s, e, perm) == ProtectedBySplits(t, k, s, e, perm)
  {
    var a := t[k];
    if StrictContain(a, s, e) {
      assert LeftOf(LeftOf(a, e), s) == LeftOf(a, s);
    }
  }

  /** One area of `mprotect`: its pages inside the range get the permission, nothing else changes. */
  lemma ProtectedPage(t: Tree, k: nat, s: nat, e: nat, perm: MapPermission, p: nat)
    requires WellFormed(t) && k in t && s < e && OverlapWith(t[k], s, e)
    ensures WellFormed(Protected(t, k, s, e, perm))
    ensures Info(Protected(t, k, s, e, perm), p)
            == if Owns(t, k, p) && s <= p < e then WithPerm(Info(t, p), perm) else Info(t, p)
  {
    ProtectedIsSplits(t, k, s, e, perm);
    var a := t[k];
    if ContainedIn(a, s, e) {
      SetPermPage(t, k, perm, p);
    } else if StrictContain(a, s, e) {
      SplitWellFormed(t, k, e);
      SplitPage(t, k, e, p);
      var t1 := SplitAt(t, k, e);
      SplitWellFormed(t1, k, s);
      SplitPage(t1, k, s, p);
      SetPermPage(SplitAt(t1, k, s), s, perm, p);
    } else if s <= a.start < e {
      SplitWellFormed(t, k, e);
      SplitPage(t, k, e, p);
      SetPermPage(SplitAt(t, k, e), k, perm, p);
    } else {
      SplitWellFormed(t, k, s);
      SplitPage(t, k, s, p);
      SetPermPage(SplitAt(t, k, s), s, perm, p);
    }
  }

  // ---- munmap ----

  /** A surviving piece: same type and permission, but no frames and no mmap flags. */
  function Survivor(a: MapArea, s: nat, e: nat): MapArea {
    a.(start := s, end := e, frames := map[], mmapFlags := {})
  }

  /** The tree after `munmap` has dealt with the area at `k`. */
  function Cut(t: Tree, k: nat, s: nat, e: nat): Tree
    requires k in t
  {
    var a := t[k];
    var t1 := t - {k};
    var t2 := if a.start < s then t1[a.start := Survivor(a, a.start, s)] else t1;
    if a.end > e then t2[e := Survivor(a, e, a.end)] else t2
  }

  function Stripped(i: Option<PageInfo>): Option<PageInfo> {
    match i
    case Some(info) => Some(info.(frame := None, mmapFlags := {}))
    case None => None
  }

  /** Pushing an area into a gap. */
  lemma PushWellFormed(t: Tree, a: MapArea)
    requires WellFormed(t) && a.start <= a.end && (forall v: nat :: v in a.frames ==> a.start <= v < a.end)
    requires forall j: nat :: j in t ==> (j < a.start && t[j].end <= a.start) || (a.start < j && a.end <= j)
    ensures WellFormed(t[a.start := a])
  {
  }

  lemma CutWellFormed(t: Tree, k: nat, s: nat, e: nat)
    requires WellFormed(t) && k in t && s <= e && k < e && s < t[k].end
    ensures WellFormed(Cut(t, k, s, e))
    ensures forall j: nat :: j in t && j != k ==> j in Cut(t, k, s, e) && Cut(t, k, s, e)[j] == t[j]
  {
    var a := t[k];
    var t1 := t - {k};
    assert WellFormed(t1);
    if a.start < s {
      PushWellFormed(t1, Survivor(a, k, s));
    }
    var t2 := if a.start < s then t1[a.start := Survivor(a, a.start, s)] else t1;
    if a.end > e {
      PushWellFormed(t2, Survivor(a, e, a.end));
    }
  }

  /** One area of `munmap`: its pages inside the range go, its other pages keep type and permission. */
  lemma CutPage(t: Tree, k: nat, s: nat, e: nat, p: nat)
    requires WellFormed(t) && k in t && s <= e && k < e && s < t[k].end
    ensures Info(Cut(t, k, s, e), p)
            == if !Owns(t, k, p) then Info(t, p)
               else if s <= p < e then None else Stripped(Info(t, p))
  {
    CutWellFormed(t, k, s, e);
    var t' := Cut(t, k, s, e);
    if j: nat :| Owns(t, j, p) {
      InfoAt(t, j, p);
      if j != k {
        assert !Owns(t, k, p);
        InfoAt(t', j, p);
      } else if p < s {
        InfoAt(t', k, p);
      } else if e <= p {
        InfoAt(t', e, p);
      } else if j': nat :| Owns(t', j', p) {
        CutNotInside(t, k, s, e, j', p);
      }
    } else if j': nat :| Owns(t', j', p) {
      CutCovers(t, k, s, e, j', p);
    }
  }

  /** A page the cut tree owns was owned before. */
  lemma CutCovers(t: Tree, k: nat, s: nat, e: nat, j: nat, p: nat)
    requires WellFormed(t) && k in t && s <= e && k < e && s < t[k].end
    requires Owns(Cut(t, k, s, e), j, p)
    ensures Covered(t, p)
  {
    assert Owns(t, k, p) || Owns(t, j, p);
  }

  /** The cut tree owns nothing of the area inside the range. */
  lemma CutNotInside(t: Tree, k: nat, s: nat, e: nat, j: nat, p: nat)
    requires WellFormed(t) && k in t && s <= e && k < e && s < t[k].end
    requires Owns(Cut(t, k, s, e), j, p) && Owns(t, k, p)
    ensures p < s || e <= p
  {
  }
}
