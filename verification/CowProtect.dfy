/** `mprotect` beside copy-on-write: exactly when it keeps the invariant of the runs. */
module CowProtects {
  import opened Ptes
  import opened Areas
  import opened AreaEdits
  import opened AreaFrames
  import opened CowWorlds
  import opened CowInvariant
  import opened FlagPasses

  /** The entry of page `v` is rewritten. */
  ghost predicate Rewritten(sp: Space, s: nat, e: nat, v: nat) {
    VisitedBut(sp.areas, map[], s, e, v)
  }

  /** What `mprotect` leaves of a space when it succeeds. */
  ghost predicate Reprotected(sp: Space, s: nat, e: nat, perm: MapPermission, sp': Space) {
    && WellFormed(sp'.areas)
    && (forall v: nat ::
          Info(sp'.areas, v) == if s <= v < e then WithPerm(Info(sp.areas, v), perm) else Info(sp.areas, v))
    && Reflagging(sp.areas, map[], s, e, perm, sp.pt, sp'.pt)
  }

  // ---- when the invariant survives ----

  /** Only mapped pages are visited. */
  ghost predicate VisitsMapped(sp: Space, s: nat, e: nat) {
    forall v: nat :: Rewritten(sp, s, e, v) ==> v in sp.pt
  }

  /** No mapped page in the range remembers a write right, or has one and is not visited, unless it is to
      have one. */
  ghost predicate RightsCarryOver(sp: Space, s: nat, e: nat, perm: MapPermission) {
    forall v: nat :: v in sp.pt && s <= v < e && Covered(sp.areas, v) ==>
      sp.pt[v].flags.wBackup || (sp.pt[v].flags.w && !Rewritten(sp, s, e, v)) ==> perm.w
  }

  /** No visited page shares its frame, or the permission is not to write. */
  ghost predicate NoSharedWrite(sp: Space, rc: map<nat, nat>, s: nat, e: nat, perm: MapPermission) {
    forall v: nat :: Rewritten(sp, s, e, v) && v in sp.pt && sp.pt[v].ppn in rc && rc[sp.pt[v].ppn] > 1 ==> !perm.w
  }

  /** Shared frames stay marked and without write right exactly if no visited page shares its frame or the
      permission is not to write, and no page is newly mapped to a shared frame zero. */
  lemma SharedSurvives(w: World, pid: nat, s: nat, e: nat, perm: MapPermission, sp': Space)
    requires SharedAreCow(w) && pid in w.spaces && Reprotected(w.spaces[pid], s, e, perm, sp')
    ensures SharedAreCow(Put(w, pid, sp', w.mem))
            <==> && NoSharedWrite(w.spaces[pid], w.mem.rc, s, e, perm)
                 && (0 in w.mem.rc && w.mem.rc[0] > 1 ==> VisitsMapped(w.spaces[pid], s, e))
  {
    var sp, w' := w.spaces[pid], Put(w, pid, sp', w.mem);
    forall v: nat
      ensures v in sp'.pt ==> (CowIfShared(sp'.pt[v], w.mem.rc) <==> EntryFits(sp, w.mem.rc, s, e, perm, v))
    {
      EntryAfter(sp, s, e, perm, sp', v);
      assert v in sp.pt ==> CowIfShared(sp.pt[v], w.mem.rc);
    }
    forall v: nat ensures v !in sp'.pt ==> EntryFits(sp, w.mem.rc, s, e, perm, v) {
      EntryAfter(sp, s, e, perm, sp', v);
    }
    assert SharedAreCow(w') <==> forall v: nat :: EntryFits(sp, w.mem.rc, s, e, perm, v) by {
      OneSpaceShared(w, pid, sp');
    }
    FitsSplit(sp, w.mem.rc, s, e, perm);
  }

  lemma FitsSplit(sp: Space, rc: map<nat, nat>, s: nat, e: nat, perm: MapPermission)
    ensures (forall v: nat :: EntryFits(sp, rc, s, e, perm, v))
            <==> NoSharedWrite(sp, rc, s, e, perm) && (0 in rc && rc[0] > 1 ==> VisitsMapped(sp, s, e))
  {
    if forall v: nat :: EntryFits(sp, rc, s, e, perm, v) {
      forall v: nat | Rewritten(sp, s, e, v) && v in sp.pt && sp.pt[v].ppn in rc && rc[sp.pt[v].ppn] > 1
        ensures !perm.w
      {
        assert EntryFits(sp, rc, s, e, perm, v);
      }
      forall v: nat | 0 in rc && rc[0] > 1 && Rewritten(sp, s, e, v) ensures v in sp.pt {
        assert EntryFits(sp, rc, s, e, perm, v);
      }
    }
  }

  ghost predicate EntryFits(sp: Space, rc: map<nat, nat>, s: nat, e: nat, perm: MapPermission, v: nat) {
    Rewritten(sp, s, e, v) ==>
      if v in sp.pt then sp.pt[v].ppn in rc && rc[sp.pt[v].ppn] > 1 ==> !perm.w else !(0 in rc && rc[0] > 1)
  }

  lemma EntryAfter(sp: Space, s: nat, e: nat, perm: MapPermission, sp': Space, v: nat)
    requires Reprotected(sp, s, e, perm, sp')
    ensures v in sp'.pt <==> v in sp.pt || Rewritten(sp, s, e, v)
    ensures Rewritten(sp, s, e, v) ==> v in sp'.pt && sp'.pt[v] == SetFlags(EntryOf(sp.pt, v), FlagsOf(perm))
    ensures !Rewritten(sp, s, e, v) && v in sp.pt ==> v in sp'.pt && sp'.pt[v] == sp.pt[v]
  {
    assert PteAt(sp'.pt, v) == HalfReflagged(sp.areas, map[], s, e, perm, sp.pt, v);
  }

  lemma OneSpaceShared(w: World, pid: nat, sp': Space)
    requires SharedAreCow(w) && pid in w.spaces
    ensures SharedAreCow(Put(w, pid, sp', w.mem)) <==> forall v: nat :: v in sp'.pt ==> CowIfShared(sp'.pt[v], w.mem.rc)
  {
    var w' := Put(w, pid, sp', w.mem);
    if SharedAreCow(w') {
      assert pid in w'.spaces && w'.spaces[pid] == sp';
    }
  }

  // ---- the space, page by page ----

  lemma RightsByPage(sp: Space)
    requires WellFormed(sp.areas) && EntriesPresent(sp.areas, sp.pt)
    ensures RightsOk(sp) <==> forall v: nat :: FrameAt(sp.areas, v).Some? ==>
              v in sp.pt && Info(sp.areas, v).Some? && RightsMatch(sp.pt[v], Info(sp.areas, v).value.perm)
  {
    if RightsOk(sp) {
      forall v: nat | FrameAt(sp.areas, v).Some?
        ensures v in sp.pt && Info(sp.areas, v).Some? && RightsMatch(sp.pt[v], Info(sp.areas, v).value.perm)
      {
        FrameAtHas(sp.areas, v);
        var k: nat :| k in sp.areas && v in sp.areas[k].frames;
        InfoAt(sp.areas, k, v);
      }
    } else {
      var k: nat, v: nat :|
        k in sp.areas && v in sp.areas[k].frames && !(v in sp.pt && RightsMatch(sp.pt[v], sp.areas[k].perm));
      InfoAt(sp.areas, k, v);
      FrameAtHas(sp.areas, v);
    }
  }

  lemma BackedByPage(t: Tree)
    requires WellFormed(t)
    ensures Backed(t) <==>
              forall v: nat :: Info(t, v).Some? && !Info(t, v).value.areaType.Mmap? ==> Info(t, v).value.frame.Some?
  {
    if Backed(t) {
      forall v: nat | Info(t, v).Some? && !Info(t, v).value.areaType.Mmap? ensures Info(t, v).value.frame.Some? {
        var k: nat :| Owns(t, k, v);
        InfoAt(t, k, v);
      }
    } else {
      var k: nat, v: nat :| Owns(t, k, v) && !t[k].areaType.Mmap? && v !in t[k].frames;
      InfoAt(t, k, v);
    }
  }

  /** The permission, type and frame of a page afterwards. */
  lemma InfoAfter(sp: Space, s: nat, e: nat, perm: MapPermission, sp': Space, v: nat)
    requires Reprotected(sp, s, e, perm, sp')
    ensures FrameAt(sp'.areas, v) == FrameAt(sp.areas, v)
    ensures Info(sp'.areas, v).Some? <==> Info(sp.areas, v).Some?
    ensures Info(sp.areas, v).Some? ==> Info(sp'.areas, v).value.areaType == Info(sp.areas, v).value.areaType
                                        && Info(sp'.areas, v).value.frame == Info(sp.areas, v).value.frame
                                        && Info(sp'.areas, v).value.perm
                                           == if s <= v < e then perm else Info(sp.areas, v).value.perm
  {
    assert Info(sp'.areas, v) == if s <= v < e then WithPerm(Info(sp.areas, v), perm) else Info(sp.areas, v);
  }

  /** Frames and entries still agree exactly if only mapped pages are visited. */
  lemma AgreementSurvives(sp: Space, s: nat, e: nat, perm: MapPermission, sp': Space)
    requires WellFormed(sp.areas) && Agree(sp.areas, sp.pt) && Reprotected(sp, s, e, perm, sp')
    ensures Agree(sp'.areas, sp'.pt) <==> VisitsMapped(sp, s, e)
  {
    AgreeByPage(sp.areas, sp.pt);
    AgreeByPage(sp'.areas, sp'.pt);
    forall v: nat ensures FrameAt(sp'.areas, v) == EntryAt(sp'.pt, v) <==> (Rewritten(sp, s, e, v) ==> v in sp.pt) {
      EntryAfter(sp, s, e, perm, sp', v);
      InfoAfter(sp, s, e, perm, sp', v);
      assert FrameAt(sp.areas, v) == EntryAt(sp.pt, v);
    }
  }

  /** Entries still grant and remember no more than their areas exactly if the rights carry over. */
  lemma RightsSurvive(sp: Space, s: nat, e: nat, perm: MapPermission, sp': Space)
    requires SpaceOk(sp) && s < e && Reprotected(sp, s, e, perm, sp') && VisitsMapped(sp, s, e)
    requires Agree(sp'.areas, sp'.pt)
    ensures RightsOk(sp') <==> RightsCarryOver(sp, s, e, perm)
  {
    RightsByPage(sp);
    RightsByPage(sp');
    AgreeByPage(sp.areas, sp.pt);
    forall v: nat
      ensures FrameAt(sp'.areas, v).Some? <==> v in sp.pt
      ensures v in sp.pt ==> v in sp'.pt && Info(sp'.areas, v).Some? && Covered(sp.areas, v)
      ensures v in sp.pt ==> (RightsMatch(sp'.pt[v], Info(sp'.areas, v).value.perm) <==> PageCarries(sp, s, e, perm, v))
    {
      assert FrameAt(sp.areas, v) == EntryAt(sp.pt, v);
      PageRights(sp, s, e, perm, sp', v);
    }
    assert RightsCarryOver(sp, s, e, perm) <==> forall v: nat :: v in sp.pt ==> PageCarries(sp, s, e, perm, v);
  }

  ghost predicate PageCarries(sp: Space, s: nat, e: nat, perm: MapPermission, v: nat)
    requires v in sp.pt
  {
    s <= v < e && Covered(sp.areas, v) ==>
      sp.pt[v].flags.wBackup || (sp.pt[v].flags.w && !Rewritten(sp, s, e, v)) ==> perm.w
  }

  lemma PageRights(sp: Space, s: nat, e: nat, perm: MapPermission, sp': Space, v: nat)
    requires WellFormed(sp.areas) && Reprotected(sp, s, e, perm, sp') && FrameAt(sp.areas, v) == EntryAt(sp.pt, v)
    requires FrameAt(sp.areas, v).Some? ==>
               v in sp.pt && Info(sp.areas, v).Some? && RightsMatch(sp.pt[v], Info(sp.areas, v).value.perm)
    requires s < e
    ensures FrameAt(sp'.areas, v).Some? <==> v in sp.pt
    ensures v in sp.pt ==> v in sp'.pt && Info(sp'.areas, v).Some? && Covered(sp.areas, v)
    ensures v in sp.pt ==> (RightsMatch(sp'.pt[v], Info(sp'.areas, v).value.perm) <==> PageCarries(sp, s, e, perm, v))
  {
    EntryAfter(sp, s, e, perm, sp', v);
    InfoAfter(sp, s, e, perm, sp', v);
    if Rewritten(sp, s, e, v) {
      RewrittenInRange(sp, s, e, v);
    }
  }

  lemma RewrittenInRange(sp: Space, s: nat, e: nat, v: nat)
    requires WellFormed(sp.areas) && s < e && Rewritten(sp, s, e, v)
    ensures s <= v < e && Covered(sp.areas, v)
  {
    var k: nat :| k in sp.areas && OverlapWith(sp.areas[k], s, e) && Visits(sp.areas[k], s, e, v);
    VisitsInside(sp.areas, k, s, e, v);
  }

  // ---- the world ----

  /** What a caller would have to know for `mprotect` to keep the invariant. */
  ghost predicate ProtectSafe(w: World, pid: nat, s: nat, e: nat, perm: MapPermission)
    requires pid in w.spaces
  {
    && VisitsMapped(w.spaces[pid], s, e) && RightsCarryOver(w.spaces[pid], s, e, perm)
    && NoSharedWrite(w.spaces[pid], w.mem.rc, s, e, perm)
  }

  lemma FramesSurvive(sp: Space, s: nat, e: nat, perm: MapPermission, sp': Space)
    requires Reprotected(sp, s, e, perm, sp') && VisitsMapped(sp, s, e)
    ensures SameFrames(sp.pt, sp'.pt) && forall v: nat :: Covered(sp'.areas, v) <==> Covered(sp.areas, v)
  {
    forall v: nat ensures (v in sp.pt <==> v in sp'.pt) && (v in sp.pt ==> sp'.pt[v].ppn == sp.pt[v].ppn) {
      EntryAfter(sp, s, e, perm, sp', v);
    }
    forall v: nat ensures Covered(sp'.areas, v) <==> Covered(sp.areas, v) {
      InfoAfter(sp, s, e, perm, sp', v);
    }
  }

  lemma BackedSurvives(sp: Space, s: nat, e: nat, perm: MapPermission, sp': Space)
    requires WellFormed(sp.areas) && Backed(sp.areas) && Reprotected(sp, s, e, perm, sp')
    ensures Backed(sp'.areas)
  {
    BackedByPage(sp.areas);
    BackedByPage(sp'.areas);
    forall v: nat | Info(sp'.areas, v).Some? && !Info(sp'.areas, v).value.areaType.Mmap?
      ensures Info(sp'.areas, v).value.frame.Some?
    {
      InfoAfter(sp, s, e, perm, sp', v);
    }
  }

  lemma SpaceSurvives(sp: Space, s: nat, e: nat, perm: MapPermission, sp': Space)
    requires SpaceOk(sp) && s < e && Reprotected(sp, s, e, perm, sp')
    ensures SpaceOk(sp') <==> VisitsMapped(sp, s, e) && RightsCarryOver(sp, s, e, perm)
  {
    AgreementSurvives(sp, s, e, perm, sp');
    if VisitsMapped(sp, s, e) {
      FramesSurvive(sp, s, e, perm, sp');
      BackedSurvives(sp, s, e, perm, sp');
      RightsSurvive(sp, s, e, perm, sp');
    }
  }

  /** `mprotect` keeps the invariant of copy on write exactly if it visits mapped pages only, the rights
      carry over, and no frame that is shared becomes writable. */
  lemma ProtectKeepsWorld(w: World, pid: nat, s: nat, e: nat, perm: MapPermission, sp': Space)
    requires WorldOk(w) && pid in w.spaces && s < e && Reprotected(w.spaces[pid], s, e, perm, sp')
    ensures WorldOk(Put(w, pid, sp', w.mem)) <==> ProtectSafe(w, pid, s, e, perm)
    ensures ProtectSafe(w, pid, s, e, perm) ==> SameContents(w, Put(w, pid, sp', w.mem))
  {
    var sp, w' := w.spaces[pid], Put(w, pid, sp', w.mem);
    assert SpaceOk(sp);
    assert SpacesOk(w') <==> SpaceOk(sp') by { OneSpaceOk(w, pid, sp'); }
    SpaceSurvives(sp, s, e, perm, sp');
    SharedSurvives(w, pid, s, e, perm, sp');
    if VisitsMapped(sp, s, e) {
      FramesSurvive(sp, s, e, perm, sp');
      assert Counted(w') && SameContents(w, w') by { ReflagCounted(w, pid, sp'); }
    }
  }

  lemma OneSpaceOk(w: World, pid: nat, sp': Space)
    requires SpacesOk(w)
    ensures SpacesOk(Put(w, pid, sp', w.mem)) <==> SpaceOk(sp')
  {
    var w' := Put(w, pid, sp', w.mem);
    assert pid in w'.spaces && w'.spaces[pid] == sp';
  }

  /** A page left with a remembered write right by a fork gets it back after `mprotect` took it away: the
      flags are rewritten, the memory of the right is not. */
  lemma RightComesBack(e: Pte, perm: MapPermission)
    requires e.flags.wBackup && !perm.w
    ensures var e' := SetFlags(e, FlagsOf(perm));
            !e'.flags.w && UnCow(e').flags.w
  {
  }
}
