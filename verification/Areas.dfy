/** Finite sets of page numbers in increasing order: how a `BTreeMap` hands out its keys. */
module Ordered {

  lemma {:induction false} Least(s: set<nat>) returns (k: nat)
    requires s != {}
    ensures k in s && forall j: nat :: j in s ==> k <= j
    decreases |s|
  {
    k :| k in s;
    var rest := s - {k};
    if rest != {} {
      var l := Least(rest);
      assert forall j: nat :: j in s ==> j == k || j in rest;
      if l < k {
        k := l;
      }
    } else {
      assert forall j: nat :: j in s ==> j == k;
    }
  }

  lemma MinExists(s: set<nat>)
    requires s != {}
    ensures exists k: nat :: k in s && forall j: nat :: j in s ==> k <= j
  {
    var k := Least(s);
  }

  function MinKey(s: set<nat>): (k: nat)
    requires s != {}
    ensures k in s && forall j: nat :: j in s ==> k <= j
  {
    MinExists(s);
    var k: nat :| k in s && forall j: nat :: j in s ==> k <= j;
    k
  }

  function Sorted(s: set<nat>): (ks: seq<nat>)
    ensures forall i, j :: 0 <= i < j < |ks| ==> ks[i] < ks[j]
    ensures forall k :: k in ks <==> k in s
  {
    if s == {} then []
    else
      var k := MinKey(s);
      [k] + Sorted(s - {k})
  }
}

/** Areas of an address space and the ordered tree that holds them. */
module Areas {
  import opened Address
  import opened Base
  import opened Ordered

  datatype MapType = Framed | Direct

  datatype MapPermission = MapPermission(r: bool, w: bool, x: bool, u: bool, d: bool)

  datatype MapAreaType = Elf | Stack | Brk | Mmap | Shm(shmid: int) | Physical | Mmio | Tls

  datatype MmapFlag =
    | MAP_SHARED | MAP_PRIVATE | MAP_FIXED | MAP_ANONYMOUS | MAP_DENYWRITE
    | MAP_POPULATE | MAP_STACK | MAP_FIXED_NOREPLACE | MAP_NORESERVE

  /** A run of pages `[start, end)` with one permission; `frames` holds the pages that have a frame. */
  datatype MapArea = MapArea(
    start: nat,
    end: nat,
    frames: map<nat, nat>,
    mapType: MapType,
    perm: MapPermission,
    areaType: MapAreaType,
    mmapFlags: set<MmapFlag>
  )

  type Tree = map<nat, MapArea>

  /** Keys are starts, areas do not run into each other, and frames lie inside their area. */
  ghost predicate WellFormed(t: Tree) {
    && (forall k: nat :: k in t ==> t[k].start == k && k <= t[k].end)
    && (forall j: nat, k: nat :: j in t && k in t && j < k ==> t[j].end <= k)
    && (forall k: nat, v: nat :: k in t && v in t[k].frames ==> k <= v < t[k].end)
  }

  /** Page `v` belongs to the area with key `k`. */
  ghost predicate Owns(t: Tree, k: nat, v: nat) {
    k in t && k <= v < t[k].end
  }

  ghost predicate Covered(t: Tree, v: nat) {
    exists k: nat :: Owns(t, k, v)
  }

  lemma OneOwner(t: Tree, j: nat, k: nat, v: nat)
    requires WellFormed(t) && Owns(t, j, v) && Owns(t, k, v)
    ensures j == k
  {
  }

  /** The interval test of `is_overlap`. */
  ghost predicate Overlaps(t: Tree, lo: nat, hi: nat) {
    exists k: nat :: k in t && lo < t[k].end && k < hi
  }

  ghost predicate Free(t: Tree, start: nat, n: nat) {
    !Overlaps(t, start, start + n)
  }

  /** For a range with a page in it, and areas with a page in them, the interval test finds exactly
      the ranges that share a page with an area. */
  lemma OverlapsIsSharing(t: Tree, lo: nat, hi: nat)
    requires WellFormed(t) && lo < hi
    requires forall k: nat :: k in t ==> k < t[k].end
    ensures Overlaps(t, lo, hi) <==> exists v: nat :: lo <= v < hi && Covered(t, v)
  {
    if Overlaps(t, lo, hi) {
      var k: nat :| k in t && lo < t[k].end && k < hi;
      var v := if lo <= k then k else lo;
      assert Owns(t, k, v);
      assert lo <= v < hi && Covered(t, v);
    }
    if v: nat :| lo <= v < hi && Covered(t, v) {
      var k: nat :| Owns(t, k, v);
      assert k in t && lo < t[k].end && k < hi;
    }
  }

  /** `r` is the highest start of `n` free pages that end at or below `hint`. */
  ghost predicate IsTopGap(t: Tree, hint: nat, n: nat, r: Option<nat>) {
    match r
    case Some(s) =>
      s + n <= hint && Free(t, s, n) && forall q: nat :: q + n <= hint && Free(t, q, n) ==> q <= s
    case None =>
      forall q: nat :: q + n <= hint ==> !Free(t, q, n)
  }

  /** There is only one such answer, so two searches that meet the specification agree. */
  lemma TopGapUnique(t: Tree, hint: nat, n: nat, r: Option<nat>, s: Option<nat>)
    requires IsTopGap(t, hint, n, r) && IsTopGap(t, hint, n, s)
    ensures r == s
  {
  }

  /** The last key at or below `v`: `range(..=v).next_back()`. */
  function LastAtMost(t: Tree, v: nat): (r: Option<nat>)
    ensures r.Some? ==> r.value in t && r.value <= v && forall k: nat :: k in t && k <= v ==> k <= r.value
    ensures r.None? ==> forall k: nat :: k in t ==> v < k
  {
    if v in t then Some(v) else if v == 0 then None else LastAtMost(t, v - 1)
  }

  /** The area of page `v`, as the kernel looks it up: the last area that starts at or below `v`,
      if `v` is at most its end. A covered page is found; otherwise the answer is an area that ends
      exactly at `v`, and none only if there is no such area. */
  function AreaOf(t: Tree, v: nat): (r: Option<nat>)
    requires WellFormed(t)
    ensures Covered(t, v) ==> r.Some? && Owns(t, r.value, v)
    ensures !Covered(t, v) && r.Some? ==> r.value in t && t[r.value].end == v
    ensures r.None? ==> forall k: nat :: k in t ==> t[k].end != v
  {
    var last := LastAtMost(t, v);
    if last.Some? && v <= t[last.value].end then
      assert v < t[last.value].end ==> Owns(t, last.value, v);
      last
    else None
  }

  class VmAreaTree {
    var areas: Tree

    /** True exactly when every page of the range lies in some area. */
    method IsFullyContained(start: nat, end: nat) returns (b: bool)
      requires WellFormed(areas)
      ensures b <==> forall v: nat :: start <= v < end ==> Covered(areas, v)
    {
      var cursor := start;
      while cursor < end
        invariant start <= cursor
        invariant forall v: nat :: start <= v < cursor ==> Covered(areas, v)
        decreases end - cursor
      {
        var entry := LastAtMost(areas, cursor);
        if entry.None? || cursor >= areas[entry.value].end {
          assert !Covered(areas, cursor);
          return false;
        }
        forall v: nat | cursor <= v < areas[entry.value].end ensures Covered(areas, v) {
          assert Owns(areas, entry.value, v);
        }
        cursor := areas[entry.value].end;
      }
      return true;
    }

    method IsOverlap(lo: nat, hi: nat) returns (b: bool)
      requires WellFormed(areas)
      ensures b <==> Overlaps(areas, lo, hi)
    {
      var ks := Sorted(set k: nat | k in areas);
      for i := 0 to |ks|
        invariant forall k: nat :: k in ks[..i] ==> k in areas && !(lo < areas[k].end && k < hi)
      {
        var k: nat := ks[i];
        assert k in ks;
        if lo < areas[k].end && areas[k].start < hi {
          return true;
        }
      }
      assert forall k: nat :: k in areas ==> k in ks;
      return false;
    }

    /** Top-down search below `hint`. */
    method FindGapFrom(hint: nat, n: nat) returns (r: Option<nat>)
      requires WellFormed(areas)
      ensures IsTopGap(areas, hint, n, r)
    {
      var end: nat := hint;
      var ks := Sorted(set k: nat | k in areas && k < hint);
      var i := |ks|;
      ScanStart(areas, ks, hint, n);
      while i > 0
        invariant 0 <= i <= |ks| && Scanned(areas, ks, i, hint, end, n)
      {
        ScanFits(areas, ks, i, hint, end, n);
        i := i - 1;
        var s: nat := ks[i];
        var e := areas[s].end;
        if end >= e + n {
          return Some(end - n);
        }
        ScanStep(areas, ks, i + 1, hint, end, n);
        end := if s < end then s else end;
      }
      ScanDone(areas, ks, hint, end, n);
      if end >= n {
        return Some(end - n);
      }
      return None;
    }

    /** The first half of `alloc_pages_from_hint`: the first gap at or above `from` that fits below the
        top of the mmap window. */
    method SearchUp(n: nat, from: nat) returns (r: Option<nat>)
      requires WellFormed(areas) && n > 0
      ensures r.Some? && HintHole(areas, from, n) ==> r.value == from
      ensures r.Some? && !HintHole(areas, from, n) ==> IsLowestFit(areas, from, n, r.value)
      ensures r.None? ==> !HintHole(areas, from, n) && forall q: nat :: !Fits(areas, from, n, q)
    {
      var last: nat := from;
      var ks := Sorted(set k: nat | k in areas && k >= from);
      var i := 0;
      UpStart(areas, ks, from, n);
      while i < |ks|
        invariant 0 <= i <= |ks| && Climbed(areas, ks, i, from, last, n)
      {
        UpStep(areas, ks, i, from, last, n);
        var k: nat := ks[i];
        if k > last && k - last >= n && last + n <= TOP_PAGE {
          return Some(last);
        }
        var e := areas[k].end;
        last := if e > last then e else last;
        i := i + 1;
      }
      UpDone(areas, ks, from, last, n);
      if TOP_PAGE > last && TOP_PAGE - last >= n {
        return Some(last);
      }
      return None;
    }

    /** The second half: from the top of the window down through the gaps between all areas. */
    method SearchDown(n: nat) returns (r: Option<nat>)
      requires WellFormed(areas) && n > 0
      ensures IsReachableGap(areas, n, r)
    {
      var prev: nat := TOP_PAGE;
      var ks := Sorted(set k: nat | k in areas);
      var i := |ks|;
      DownStart(areas, ks, n);
      while i > 0
        invariant 0 <= i <= |ks| && Descended(areas, ks, i, prev, n)
      {
        DownStep(areas, ks, i, prev, n);
        var k: nat := ks[i - 1];
        var e := areas[k].end;
        if prev > e && prev - e >= n {
          return Some(prev - n);
        }
        prev := areas[k].start;
        i := i - 1;
      }
      DownDone(areas, ks, prev, n);
      if prev > BASE_PAGE && prev - BASE_PAGE >= n {
        return Some(prev - n);
      }
      return None;
    }

    /** `alloc_pages_from_hint` for at least one page, from the hint or from the bottom of the window,
        whichever is higher. Without the hole at the hint it is sound and
        prefers the lowest fit above the hint; with it, it hands out pages that are in use. */
    method AllocPagesFromHint(n: nat, hint: nat) returns (r: Option<nat>)
      requires WellFormed(areas) && n > 0
      ensures var from := if hint >= BASE_PAGE then hint else BASE_PAGE;
              && (r.Some? ==> (Free(areas, r.value, n) <==> !HintHole(areas, from, n)))
              && (r.None? <==>
                    !HintHole(areas, from, n) && forall q: nat :: Reachable(areas, n, q) ==> !Free(areas, q, n))
              && (!HintHole(areas, from, n) && (exists q: nat :: Fits(areas, from, n, q)) ==>
                    r.Some? && IsLowestFit(areas, from, n, r.value))
              && (r.Some? && HintHole(areas, from, n) ==> r.value == from)
              && (!HintHole(areas, from, n) && !(exists q: nat :: Fits(areas, from, n, q)) ==>
                    IsReachableGap(areas, n, r))
      ensures r.None? ==> forall q: nat :: BASE_PAGE <= q && q + n <= TOP_PAGE ==> !Free(areas, q, n)
      ensures r.Some? && (forall k: nat :: k in areas ==> k <= TOP_PAGE) ==> r.value + n <= TOP_PAGE
    {
      r := SearchUp(n, if hint > BASE_PAGE then hint else BASE_PAGE);
      if r.None? {
        r := SearchDown(n);
      }
    }

    /** Top-down search of the whole mmap space. */
    method AllocPages(n: nat) returns (r: Option<nat>)
      requires WellFormed(areas)
      ensures IsTopGap(areas, TOP_PAGE, n, r)
    {
      var top, end: nat := TOP_PAGE, TOP_PAGE;
      var ks := Sorted(set k: nat | k in areas);
      var i := |ks|;
      ScanStart(areas, ks, top, n);
      while i > 0
        invariant 0 <= i <= |ks| && Scanned(areas, ks, i, top, end, n)
      {
        ScanFits(areas, ks, i, top, end, n);
        i := i - 1;
        var s: nat := ks[i];
        var e := areas[s].end;
        if end >= e + n {
          return Some(end - n);
        }
        ScanStep(areas, ks, i + 1, top, end, n);
        end := if s < end then s else end;
      }
      ScanDone(areas, ks, top, end, n);
      if end >= n {
        return Some(end - n);
      }
      return None;
    }
  }

  // ---- the search from a hint ----

  /** The search looks only at areas that start at or above `from`. It misses one that starts below
      and reaches past it, and this is when that matters: the `n` pages at `from` fit below the top
      of the window and no area starts among them. */
  ghost predicate HintHole(t: Tree, from: nat, n: nat) {
    && (exists k: nat :: k in t && k < from < t[k].end)
    && from + n <= TOP_PAGE
    && (forall k: nat :: k in t && from <= k ==> from + n <= k)
  }

  /** The hole exists: a well-formed tree with one area across the hint. */
  lemma HintHoleOccurs(a: MapArea)
    requires a.start == BASE_PAGE && a.end == BASE_PAGE + 2 && a.frames == map[]
    ensures var t := map[BASE_PAGE := a];
            WellFormed(t) && HintHole(t, BASE_PAGE + 1, 1) && !Free(t, BASE_PAGE + 1, 1)
  {
    var t := map[BASE_PAGE := a];
    assert BASE_PAGE in t && BASE_PAGE < BASE_PAGE + 1 < t[BASE_PAGE].end;
  }

  ghost predicate Fits(t: Tree, from: nat, n: nat, q: nat) {
    from <= q && q + n <= TOP_PAGE && Free(t, q, n)
  }

  ghost predicate IsLowestFit(t: Tree, from: nat, n: nat, s: nat) {
    Fits(t, from, n, s) && forall q: nat :: Fits(t, from, n, q) ==> s <= q
  }

  /** Where the downward search looks for `n` pages: below the top of the window or below some area,
      and above the bottom of the window or above some area. */
  ghost predicate Reachable(t: Tree, n: nat, q: nat) {
    && (q + n <= TOP_PAGE || exists k: nat :: k in t && q + n <= k)
    && (BASE_PAGE <= q || exists k: nat :: k in t && t[k].end <= q)
  }

  /** The highest free run there, or none if there is none. */
  ghost predicate IsReachableGap(t: Tree, n: nat, r: Option<nat>) {
    match r
    case Some(s) =>
      Free(t, s, n) && Reachable(t, n, s) && forall q: nat :: Reachable(t, n, q) && Free(t, q, n) ==> q <= s
    case None => forall q: nat :: Reachable(t, n, q) ==> !Free(t, q, n)
  }

  /** `ks` lists the areas that start at or above `from`, in order. */
  ghost predicate KeysFrom(t: Tree, ks: seq<nat>, from: nat) {
    && (forall i, j :: 0 <= i < j < |ks| ==> ks[i] < ks[j])
    && (forall k: nat :: k in ks <==> k in t && from <= k)
  }

  /** After `i` areas: they end at or before `last`, which is `from` or the end of one of them, and
      nothing below `last` fits. */
  ghost predicate Climbed(t: Tree, ks: seq<nat>, i: nat, from: nat, last: nat, n: nat) {
    && KeysFrom(t, ks, from) && i <= |ks| && from <= last
    && (forall j :: 0 <= j < i ==> ks[j] in t && t[ks[j]].end <= last)
    && (last == from || (i > 0 && exists j :: 0 <= j < i && ks[j] in t && t[ks[j]].end == last))
    && (forall q: nat :: Fits(t, from, n, q) ==> last <= q)
    && (HintHole(t, from, n) ==> i == 0)
  }

  lemma UpStart(t: Tree, ks: seq<nat>, from: nat, n: nat)
    requires KeysFrom(t, ks, from)
    ensures Climbed(t, ks, 0, from, from, n)
  {
  }

  /** Starting at `last` is right when no area from index `i` up starts among the pages. */
  lemma UpFits(t: Tree, ks: seq<nat>, i: nat, from: nat, last: nat, n: nat)
    requires WellFormed(t) && n > 0 && Climbed(t, ks, i, from, last, n)
    requires last + n <= TOP_PAGE && forall j :: i <= j < |ks| ==> last + n <= ks[j]
    ensures if HintHole(t, from, n) then last == from else IsLowestFit(t, from, n, last)
  {
    if !HintHole(t, from, n) {
      forall k: nat | k in t ensures t[k].end <= last || last + n <= k {
        if from <= k {
          assert k in ks;
        } else if t[k].end > from && last == from {
          HoleAt(t, ks, i, from, n, k);
        }
      }
    }
  }

  /** An area across `from` and room right at `from`: that is the hole. */
  lemma HoleAt(t: Tree, ks: seq<nat>, i: nat, from: nat, n: nat, k: nat)
    requires WellFormed(t) && n > 0 && Climbed(t, ks, i, from, from, n)
    requires from + n <= TOP_PAGE && forall j :: i <= j < |ks| ==> from + n <= ks[j]
    requires k in t && k < from < t[k].end
    ensures HintHole(t, from, n)
  {
    forall m: nat | m in t && from <= m ensures from + n <= m {
      assert m in ks;
      var j :| 0 <= j < |ks| && ks[j] == m;
      if j < i {
        assert t[k].end <= m;
      }
    }
  }

  lemma UpStep(t: Tree, ks: seq<nat>, i: nat, from: nat, last: nat, n: nat)
    requires WellFormed(t) && n > 0 && Climbed(t, ks, i, from, last, n) && i < |ks|
    ensures ks[i] in t
    ensures last + n <= ks[i] && last + n <= TOP_PAGE ==>
              if HintHole(t, from, n) then last == from else IsLowestFit(t, from, n, last)
    ensures !(last + n <= ks[i] && last + n <= TOP_PAGE) ==>
              Climbed(t, ks, i + 1, from, if t[ks[i]].end > last then t[ks[i]].end else last, n)
  {
    assert ks[i] in ks;
    if last + n <= ks[i] && last + n <= TOP_PAGE {
      UpFits(t, ks, i, from, last, n);
    } else {
      UpPast(t, ks, i, from, last, n);
    }
  }

  /** The next area is in the way, so the search goes on past it. */
  lemma UpPast(t: Tree, ks: seq<nat>, i: nat, from: nat, last: nat, n: nat)
    requires WellFormed(t) && n > 0 && Climbed(t, ks, i, from, last, n) && i < |ks| && ks[i] in t
    requires !(last + n <= ks[i] && last + n <= TOP_PAGE)
    ensures Climbed(t, ks, i + 1, from, if t[ks[i]].end > last then t[ks[i]].end else last, n)
  {
    var last' := if t[ks[i]].end > last then t[ks[i]].end else last;
    assert ks[i] in ks;
    assert forall q: nat :: Fits(t, from, n, q) ==> last' <= q;
  }

  lemma UpDone(t: Tree, ks: seq<nat>, from: nat, last: nat, n: nat)
    requires WellFormed(t) && n > 0 && Climbed(t, ks, |ks|, from, last, n)
    ensures last + n <= TOP_PAGE ==> if HintHole(t, from, n) then last == from else IsLowestFit(t, from, n, last)
    ensures last + n > TOP_PAGE ==> !HintHole(t, from, n) && forall q: nat :: !Fits(t, from, n, q)
  {
    if last + n <= TOP_PAGE {
      UpFits(t, ks, |ks|, from, last, n);
    }
  }

  /** After the areas from index `i` up: every reachable run of free pages ends at or below `prev`. */
  ghost predicate Descended(t: Tree, ks: seq<nat>, i: nat, prev: nat, n: nat) {
    && KeysFrom(t, ks, 0) && i <= |ks|
    && prev == (if i < |ks| then ks[i] else TOP_PAGE)
    && (i < |ks| ==> forall q: nat :: Free(t, q, n) && Reachable(t, n, q) ==> q + n <= prev)
  }

  lemma DownStart(t: Tree, ks: seq<nat>, n: nat)
    requires KeysFrom(t, ks, 0)
    ensures Descended(t, ks, |ks|, TOP_PAGE, n)
  {
  }

  lemma DownStep(t: Tree, ks: seq<nat>, i: nat, prev: nat, n: nat)
    requires WellFormed(t) && n > 0 && Descended(t, ks, i, prev, n) && i > 0
    ensures ks[i - 1] in t && t[ks[i - 1]].start == ks[i - 1]
    ensures t[ks[i - 1]].end + n <= prev ==> IsReachableGap(t, n, Some(prev - n))
    ensures t[ks[i - 1]].end + n > prev ==> Descended(t, ks, i - 1, ks[i - 1], n)
  {
    var k := ks[i - 1];
    assert k in ks;
    if t[k].end + n <= prev {
      assert i < |ks| ==> ks[i] in ks;
      forall m: nat | m in t ensures t[m].end <= prev - n || prev <= m {
        assert m in ks;
      }
    } else {
      forall q: nat | Free(t, q, n) && Reachable(t, n, q) ensures q + n <= k {
        assert i == |ks| ==> forall m: nat :: m in t ==> m in ks;
      }
    }
  }

  lemma DownDone(t: Tree, ks: seq<nat>, prev: nat, n: nat)
    requires WellFormed(t) && n > 0 && Descended(t, ks, 0, prev, n)
    ensures IsReachableGap(t, n, if BASE_PAGE + n <= prev then Some(prev - n) else None)
  {
    assert forall m: nat :: m in t ==> m in ks;
    assert |ks| > 0 ==> ks[0] in ks;
  }

  // ---- the top-down scan ----

  /** `ks` lists the areas below `hint` (and perhaps some above) in increasing order. */
  ghost predicate KeyList(t: Tree, ks: seq<nat>, hint: nat) {
    && (forall i, j :: 0 <= i < j < |ks| ==> ks[i] < ks[j])
    && (forall k: nat :: k in ks ==> k in t)
    && (forall k: nat :: k in t && k < hint ==> k in ks)
  }

  /** After the areas from index `i` up have been passed: only the first `i` start below `end`, and no
      `n` free pages end above `end`. */
  ghost predicate Scanned(t: Tree, ks: seq<nat>, i: nat, hint: nat, end: nat, n: nat) {
    && KeyList(t, ks, hint) && i <= |ks| && end <= hint
    && (forall k: nat :: k in t ==> end <= k || (i > 0 && k <= ks[i - 1]))
    && (forall q: nat :: end < q + n <= hint ==> !Free(t, q, n))
  }

  lemma ScanStart(t: Tree, ks: seq<nat>, hint: nat, n: nat)
    requires KeyList(t, ks, hint)
    ensures Scanned(t, ks, |ks|, hint, hint, n)
  {
    forall k: nat | k in t && k < hint ensures |ks| > 0 && k <= ks[|ks| - 1] {
      assert k in ks;
    }
  }

  lemma ScanFits(t: Tree, ks: seq<nat>, i: nat, hint: nat, end: nat, n: nat)
    requires WellFormed(t) && Scanned(t, ks, i, hint, end, n) && i > 0
    ensures ks[i - 1] in t
    ensures t[ks[i - 1]].end + n <= end ==> IsTopGap(t, hint, n, Some(end - n))
  {
    assert ks[i - 1] in ks;
  }

  lemma ScanStep(t: Tree, ks: seq<nat>, i: nat, hint: nat, end: nat, n: nat)
    requires WellFormed(t) && Scanned(t, ks, i, hint, end, n) && i > 0
    requires ks[i - 1] in t && end < t[ks[i - 1]].end + n
    ensures Scanned(t, ks, i - 1, hint, if ks[i - 1] < end then ks[i - 1] else end, n)
  {
    var s := ks[i - 1];
    var end' := if s < end then s else end;
    forall k: nat | k in t ensures end' <= k || (i > 1 && k <= ks[i - 2]) {
      if k < end' {
        assert k in ks;
      }
    }
    forall q: nat | end' < q + n <= hint ensures !Free(t, q, n) {
      if q + n <= end {
        assert s in t && q < t[s].end && s < q + n;
      }
    }
  }

  lemma ScanDone(t: Tree, ks: seq<nat>, hint: nat, end: nat, n: nat)
    requires Scanned(t, ks, 0, hint, end, n)
    ensures IsTopGap(t, hint, n, if end >= n then Some(end - n) else None)
  {
  }
}
