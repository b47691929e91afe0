/** The page-table pass of `mprotect`: which entries `update_flags` rewrites, and when it can. */
module FlagPasses {
  import opened Address
  import opened Base
  import opened Ptes
  import opened RadixTrees
  import opened Areas
  import opened AreaEdits
  import opened AreaFrames
  import opened CowWorlds

  /** `update_flags` rewrites the entries of as many pages as the area has frames, from its start. */
  ghost function FlagPass(a: MapArea): set<nat> {
    Interval(a.start, a.start + |a.frames|)
  }

  /** Those are the pages that have frames exactly when the frames are on the first pages of the area. */
  lemma FlagPassExact(a: MapArea)
    requires forall v: nat :: v in a.frames ==> a.start <= v
    ensures FlagPass(a) == a.frames.Keys <==>
              forall v: nat, w: nat :: w in a.frames && a.start <= v < w ==> v in a.frames
  {
    if forall v: nat, w: nat :: w in a.frames && a.start <= v < w ==> v in a.frames {
      DownClosed(a.frames.Keys, a.start);
    }
  }

  /** An area of two pages with a frame on the second: the entry of the first is rewritten instead. */
  lemma FlagPassMisses(a: MapArea, f: nat)
    requires a.start == 0 && a.end == 2 && a.frames == map[1 := f]
    ensures 0 in FlagPass(a) && 0 !in a.frames && 1 in a.frames && 1 !in FlagPass(a)
  {
    assert |a.frames| == 1;
  }

  /** The pass never leaves the area. */
  lemma FlagPassInside(a: MapArea)
    requires a.start <= a.end && forall v: nat :: v in a.frames ==> a.start <= v < a.end
    ensures a.start + |a.frames| <= a.end
  {
    NoLarger(a.frames.Keys, Interval(a.start, a.end));
  }

  // ---- the part of an area in a range ----

  /** The part of `a` in `[s, e)`, which gets the permission. */
  function Piece(a: MapArea, s: nat, e: nat): MapArea {
    a.(start := if a.start < s then s else a.start,
       end := if e < a.end then e else a.end,
       frames := map v: nat | v in a.frames && s <= v < e :: a.frames[v])
  }

  /** It is what the splits of each case of `mprotect` leave. */
  lemma PieceIsSplit(a: MapArea, s: nat, e: nat)
    requires s < e && OverlapWith(a, s, e) && forall v: nat :: v in a.frames ==> a.start <= v < a.end
    ensures ContainedIn(a, s, e) ==> Piece(a, s, e) == a
    ensures StrictContain(a, s, e) ==> Piece(a, s, e) == RightOf(LeftOf(a, e), s)
    ensures !ContainedIn(a, s, e) && !StrictContain(a, s, e) && s <= a.start < e ==> Piece(a, s, e) == LeftOf(a, e)
    ensures !ContainedIn(a, s, e) && !StrictContain(a, s, e) && !(s <= a.start < e) ==> Piece(a, s, e) == RightOf(a, s)
  {
  }

  /** The pass for `a` rewrites the entry of page `v`. */
  ghost predicate Visits(a: MapArea, s: nat, e: nat, v: nat) {
    var piece := Piece(a, s, e);
    piece.start <= v < piece.start + |piece.frames|
  }

  lemma VisitsInside(t: Tree, k: nat, s: nat, e: nat, v: nat)
    requires WellFormed(t) && k in t && OverlapWith(t[k], s, e) && s < e && Visits(t[k], s, e, v)
    ensures Owns(t, k, v) && s <= v < e
  {
    FlagPassInside(Piece(t[k], s, e));
  }

  /** Every page the pass visits has a last-level table. */
  ghost predicate CanReflag(levels: nat, root: nat, tables: Tables, t: Tree, s: nat, e: nat) {
    forall k: nat :: k in t && OverlapWith(t[k], s, e) ==> PieceReached(levels, root, tables, t[k], s, e)
  }

  ghost predicate PieceReached(levels: nat, root: nat, tables: Tables, a: MapArea, s: nat, e: nat) {
    AllReached(levels, root, tables, Piece(a, s, e).start, |Piece(a, s, e).frames|)
  }

  // ---- the pass over all areas ----

  /** Page `v` has been visited for an area that is not pending. */
  ghost predicate VisitedBut(t: Tree, pending: Tree, s: nat, e: nat, v: nat) {
    exists k: nat :: k in t && k !in pending && OverlapWith(t[k], s, e) && Visits(t[k], s, e, v)
  }

  /** The entry of page `v` after the pass with the areas `pending` left out. */
  ghost function HalfReflagged(t: Tree, pending: Tree, s: nat, e: nat, perm: MapPermission, pt: map<nat, Pte>,
                               v: nat): Option<Pte> {
    if VisitedBut(t, pending, s, e, v) then Some(SetFlags(EntryOf(pt, v), FlagsOf(perm))) else PteAt(pt, v)
  }

  ghost predicate Reflagging(t: Tree, pending: Tree, s: nat, e: nat, perm: MapPermission, pt: map<nat, Pte>,
                             pt': map<nat, Pte>) {
    forall v: nat :: PteAt(pt', v) == HalfReflagged(t, pending, s, e, perm, pt, v)
  }

  lemma ReflagStart(t: Tree, pending: Tree, s: nat, e: nat, perm: MapPermission, pt: map<nat, Pte>)
    requires forall k: nat :: k in t && OverlapWith(t[k], s, e) ==> k in pending
    ensures Reflagging(t, pending, s, e, perm, pt, pt)
  {
  }

  /** What one more area visited means for a page. */
  lemma VisitedMore(t: Tree, pending: Tree, k: nat, s: nat, e: nat, v: nat)
    requires WellFormed(t) && k in t && k in pending && OverlapWith(t[k], s, e) && s < e
    ensures VisitedBut(t, pending - {k}, s, e, v) <==> VisitedBut(t, pending, s, e, v) || Visits(t[k], s, e, v)
    ensures !(VisitedBut(t, pending, s, e, v) && Visits(t[k], s, e, v))
  {
    if VisitedBut(t, pending, s, e, v) {
      var j: nat :| j in t && j !in pending && OverlapWith(t[j], s, e) && Visits(t[j], s, e, v);
      assert j !in pending - {k};
      VisitsInside(t, j, s, e, v);
      if Visits(t[k], s, e, v) {
        VisitsInside(t, k, s, e, v);
        OneOwner(t, j, k, v);
      }
    }
    if VisitedBut(t, pending - {k}, s, e, v) {
      var j: nat :| j in t && j !in pending - {k} && OverlapWith(t[j], s, e) && Visits(t[j], s, e, v);
      assert j == k || j !in pending;
    }
    if Visits(t[k], s, e, v) {
      assert k !in pending - {k};
    }
  }

  lemma ReflagStep(levels: nat, t: Tree, pending: Tree, k: nat, s: nat, e: nat, perm: MapPermission,
                   pt: map<nat, Pte>, was: map<nat, Pte>, now: map<nat, Pte>)
    requires WellFormed(t) && k in t && k in pending && OverlapWith(t[k], s, e) && s < e
             && t[k].end <= PageCount(levels)
    requires Reflagging(t, pending, s, e, perm, pt, was)
    requires now == Reflagged(levels, was, Piece(t[k], s, e).start, |Piece(t[k], s, e).frames|, FlagsOf(perm))
    ensures Reflagging(t, pending - {k}, s, e, perm, pt, now)
  {
    var piece := Piece(t[k], s, e);
    FlagPassInside(piece);
    forall v: nat ensures PteAt(now, v) == HalfReflagged(t, pending - {k}, s, e, perm, pt, v) {
      VisitedMore(t, pending, k, s, e, v);
      ReflaggedPage(levels, was, piece.start, |piece.frames|, FlagsOf(perm), v);
      assert PteAt(was, v) == HalfReflagged(t, pending, s, e, perm, pt, v);
    }
  }

  /** The parts of the areas that are not pending can be visited. */
  ghost predicate ReachedBut(levels: nat, root: nat, tables: Tables, t: Tree, pending: Tree, s: nat, e: nat) {
    forall k: nat :: k in t && k !in pending && OverlapWith(t[k], s, e) ==>
      PieceReached(levels, root, tables, t[k], s, e)
  }

  lemma SameReached(levels: nat, root: nat, place: map<nat, Spot>, tables: Tables, now: Tables, a: MapArea, s: nat,
                    e: nat)
    requires SameOutside(levels, root, place, tables, now)
    ensures PieceReached(levels, root, now, a, s, e) <==> PieceReached(levels, root, tables, a, s, e)
  {
  }

  /** With the frames of every area on the first pages of its part of the range, the pass can be done. */
  lemma FirstPagesReached(levels: nat, root: nat, tables: Tables, place: map<nat, Spot>, t: Tree, s: nat, e: nat)
    requires Placed(levels, root, tables, place) && WellFormed(t) && EntriesPresent(t, Mapping(levels, root, tables))
    requires forall k: nat :: k in t ==> t[k].end <= PageCount(levels)
    requires forall k: nat :: k in t && OverlapWith(t[k], s, e) ==>
               FlagPass(Piece(t[k], s, e)) == Piece(t[k], s, e).frames.Keys
    ensures CanReflag(levels, root, tables, t, s, e)
  {
    forall k: nat | k in t && OverlapWith(t[k], s, e) ensures PieceReached(levels, root, tables, t[k], s, e) {
      PieceOnFirstPages(levels, root, tables, place, t, k, s, e);
    }
  }

  lemma PieceOnFirstPages(levels: nat, root: nat, tables: Tables, place: map<nat, Spot>, t: Tree, k: nat, s: nat,
                          e: nat)
    requires Placed(levels, root, tables, place) && WellFormed(t) && EntriesPresent(t, Mapping(levels, root, tables))
    requires k in t && t[k].end <= PageCount(levels) && FlagPass(Piece(t[k], s, e)) == Piece(t[k], s, e).frames.Keys
    ensures PieceReached(levels, root, tables, t[k], s, e)
  {
    var piece := Piece(t[k], s, e);
    forall v: nat | piece.start <= v < piece.start + |piece.frames| ensures Walks(levels, root, tables, v) {
      assert v in piece.frames.Keys;
      MappedWalks(levels, root, tables, place, v);
    }
  }

  lemma MappedWalks(levels: nat, root: nat, tables: Tables, place: map<nat, Spot>, v: nat)
    requires Placed(levels, root, tables, place) && v in Mapping(levels, root, tables) && v < PageCount(levels)
    ensures Walks(levels, root, tables, v)
  {
    KeepSmall(v, levels);
    NeighbourTranslates(levels, root, tables, place, v, v);
  }
}
