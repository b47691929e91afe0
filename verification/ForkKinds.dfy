/** A whole fork told by the kinds of areas: which areas and pages the child has, on which frames, and what
    becomes of the parent's entries, the counts and the bytes. */
module ForkKinds {
  import opened Ptes
  import opened Areas
  import opened AreaFrames
  import opened CowWorlds
  import opened FaultCases
  import opened ForkLoops
  import opened ForkSteps

  /** A mapping that is not shared on purpose. */
  predicate IsPrivate(a: MapArea) {
    a.areaType.Mmap? && MAP_SHARED !in a.mmapFlags
  }

  predicate SameArea(a: MapArea, b: MapArea) {
    a.start == b.start && a.end == b.end && a.mapType == b.mapType && a.perm == b.perm && a.areaType == b.areaType
  }

  /** Page `v` of the child, in its area `a'`, is on a frame of its own, which nobody used, with the bytes of the
      parent's page. */
  ghost predicate CopiedPage(sp: Space, mem: Memory, a: MapArea, c: Space, a': MapArea, m: Memory, v: nat) {
    && v in sp.pt && v in c.pt && OwnEntry(c.pt[v], c.pt[v].ppn, a.perm) && c.pt[v].ppn !in mem.rc
    && v in a'.frames && a'.frames[v] == c.pt[v].ppn && c.pt[v].ppn in m.rc && m.rc[c.pt[v].ppn] == 1
    && sp.pt[v].ppn in mem.frames && c.pt[v].ppn in m.frames && m.frames[c.pt[v].ppn] == mem.frames[sp.pt[v].ppn]
  }

  /** Page `v` is on the parent's frame in both, marked copy on write and without write right; the parent's
      entry remembers one it had. */
  ghost predicate SharedPageOf(sp: Space, mem: Memory, a: MapArea, c: Space, a': MapArea, sp': Space, m: Memory,
                               v: nat) {
    && v in sp.pt && v in c.pt && v in sp'.pt && v in a.frames && v in a'.frames && a'.frames[v] == a.frames[v]
    && c.pt[v].ppn == a.frames[v] && sp'.pt[v].ppn == a.frames[v]
    && c.pt[v].flags.cow && !c.pt[v].flags.w && sp'.pt[v].flags.cow && !sp'.pt[v].flags.w
    && sp'.pt[v].flags.wBackup == (sp.pt[v].flags.w || sp.pt[v].flags.wBackup)
    && sp'.pt[v].flags.present == sp.pt[v].flags.present && sp'.pt[v].flags.u == sp.pt[v].flags.u
    && a.frames[v] in mem.rc && a.frames[v] in m.rc && m.rc[a.frames[v]] == mem.rc[a.frames[v]] + 1
  }

  /** Page `v` is on the parent's frame in the child, which does not record it. */
  predicate LentPageOf(a: MapArea, c: Space, a': MapArea, v: nat) {
    v in a.frames && v in c.pt && c.pt[v].ppn == a.frames[v] && v !in a'.frames
  }

  /** What `from_existed_user` makes of page `v` of the parent's area `a`, by the kind of the area. */
  ghost predicate PageByKind(sp: Space, mem: Memory, a: MapArea, c: Space, sp': Space, m: Memory, v: nat) {
    if a.areaType.Stack? then v !in c.pt
    else
      a.start in c.areas &&
      var a' := c.areas[a.start];
      if IsPrivate(a) then
        if v in a.frames then SharedPageOf(sp, mem, a, c, a', sp', m, v) else v !in c.pt && v !in a'.frames
      else if a.areaType.Mmap? || a.areaType.Shm? then
        if v in a.frames then LentPageOf(a, c, a', v) else v !in c.pt && v !in a'.frames
      else CopiedPage(sp, mem, a, c, a', m, v)
  }

  /** Page `v` is a page of a private mapping that has a frame. */
  ghost predicate InPrivate(t: Tree, v: nat) {
    exists k: nat :: k in t && IsPrivate(t[k]) && v in t[k].frames
  }

  /** The child has the parent's areas but the stacks, as they are there. */
  lemma AreasByKind(sp: Space, mem: Memory, copies: map<nat, nat>, c: Space, sp': Space, m: Memory)
    requires ForkResult(CopyOnWrite, sp, mem, copies, c, sp', m)
    ensures forall k: nat :: k in c.areas <==> k in sp.areas && !sp.areas[k].areaType.Stack?
    ensures forall k: nat :: k in c.areas ==>
              SameArea(sp.areas[k], c.areas[k])
              && c.areas[k].mmapFlags == if IsPrivate(sp.areas[k]) then {MAP_PRIVATE} else {}
    ensures sp'.areas == sp.areas
  {
    forall k: nat
      ensures k in c.areas <==> k in sp.areas && !sp.areas[k].areaType.Stack?
      ensures k in c.areas ==> SameArea(sp.areas[k], c.areas[k])
                               && c.areas[k].mmapFlags == if IsPrivate(sp.areas[k]) then {MAP_PRIVATE} else {}
    {
      OneArea(sp, copies, c.areas, k);
    }
  }

  lemma OneArea(sp: Space, copies: map<nat, nat>, t: Tree, k: nat)
    requires AreasForked(CopyOnWrite, sp, sp.areas.Keys, copies, t)
    ensures k in t <==> k in sp.areas && !sp.areas[k].areaType.Stack?
    ensures k in t ==> SameArea(sp.areas[k], t[k]) && t[k] == AreaForChild(CopyOnWrite, sp.areas[k], copies)
  {
    assert k in t <==> k in sp.areas.Keys && k in sp.areas && !FateOf(CopyOnWrite, sp.areas[k]).Skip?;
  }

  /** Every page of the child is one of the parent's areas, and is there as its kind of area says. */
  lemma PagesByKind(sp: Space, mem: Memory, copies: map<nat, nat>, c: Space, sp': Space, m: Memory)
    requires ForkReady(CopyOnWrite, sp, mem) && ForkResult(CopyOnWrite, sp, mem, copies, c, sp', m)
    ensures forall k: nat, v: nat :: Owns(sp.areas, k, v) ==> PageByKind(sp, mem, sp.areas[k], c, sp', m, v)
    ensures forall v: nat :: v in c.pt ==> Covered(sp.areas, v)
  {
    forall k: nat, v: nat | Owns(sp.areas, k, v) ensures PageByKind(sp, mem, sp.areas[k], c, sp', m, v) {
      OnePage(sp, mem, copies, c, sp', m, k, v);
    }
    forall v: nat | v in c.pt ensures Covered(sp.areas, v) {
      var k: nat :| k in sp.areas.Keys && Owns(sp.areas, k, v);
    }
  }

  lemma OnePage(sp: Space, mem: Memory, copies: map<nat, nat>, c: Space, sp': Space, m: Memory, k: nat, v: nat)
    requires ForkReady(CopyOnWrite, sp, mem) && ForkResult(CopyOnWrite, sp, mem, copies, c, sp', m)
    requires Owns(sp.areas, k, v)
    ensures PageByKind(sp, mem, sp.areas[k], c, sp', m, v)
  {
    var a := sp.areas[k];
    assert a.start == k;
    ChildEntryOf(CopyOnWrite, sp, copies, c.pt, k, v);
    OneArea(sp, copies, c.areas, k);
    OnlyArea(CopyOnWrite, sp.areas, k, v);
    assert v in copies <==> CopiesPage(CopyOnWrite, a, v);
    if a.areaType.Stack? {
    } else if IsPrivate(a) {
      if v in a.frames {
        SharedPage(CopyOnWrite, sp, mem, k, v);
        PrivateParent(sp, sp'.pt, k, v);
        PrivateCount(sp, mem, copies, m, k, v);
        PrivateEntry(sp, mem, copies, c, sp', m, k, v);
      }
    } else if !a.areaType.Mmap? && !a.areaType.Shm? {
      CopiedHere(CopyOnWrite, sp, mem, copies, m, k, v);
      CopiedEntry(CopyOnWrite, sp, mem, copies, c, m, k, v);
    }
  }

  lemma PrivateParent(sp: Space, pt: map<nat, Pte>, k: nat, v: nat)
    requires ParentEntriesForked(CopyOnWrite, sp, sp.areas.Keys, pt) && v in sp.pt
    requires k in sp.areas && IsPrivate(sp.areas[k]) && v in sp.areas[k].frames
    ensures v in pt && pt[v] == SetCow(sp.pt[v])
  {
    assert k in sp.areas.Keys && SharesPage(CopyOnWrite, sp.areas[k], v);
    assert PteAt(pt, v) == ParentPteAt(CopyOnWrite, sp, sp.areas.Keys, v);
  }

  lemma PrivateCount(sp: Space, mem: Memory, copies: map<nat, nat>, m: Memory, k: nat, v: nat)
    requires MemoryHalfForked(CopyOnWrite, sp, mem, sp.areas.Keys, copies, m) && v !in copies
    requires k in sp.areas && IsPrivate(sp.areas[k]) && v in sp.areas[k].frames
    requires v in sp.pt && sp.pt[v].ppn == sp.areas[k].frames[v] && sp.pt[v].ppn in mem.rc
    ensures sp.pt[v].ppn in m.rc && m.rc[sp.pt[v].ppn] == mem.rc[sp.pt[v].ppn] + 1
  {
    assert k in sp.areas.Keys && SharesPage(CopyOnWrite, sp.areas[k], v);
    assert v in Part(CopyOnWrite, sp, sp.areas.Keys);
    assert SharedByFork(Part(CopyOnWrite, sp, sp.areas.Keys), copies, sp.pt[v].ppn);
  }

  lemma PrivateEntry(sp: Space, mem: Memory, copies: map<nat, nat>, c: Space, sp': Space, m: Memory, k: nat, v: nat)
    requires k in sp.areas && IsPrivate(sp.areas[k]) && v in sp.areas[k].frames && k in c.areas && v in sp.pt
    requires c.areas[k] == AreaForChild(CopyOnWrite, sp.areas[k], copies)
    requires PteAt(c.pt, v) == PteForChild(CopyOnWrite, sp.areas[k], copies, v)
    requires v in sp'.pt && sp'.pt[v] == SetCow(sp.pt[v]) && sp.pt[v].ppn == sp.areas[k].frames[v]
    requires sp.pt[v].ppn in mem.rc && sp.pt[v].ppn in m.rc && m.rc[sp.pt[v].ppn] == mem.rc[sp.pt[v].ppn] + 1
    ensures SharedPageOf(sp, mem, sp.areas[k], c, c.areas[k], sp', m, v)
  {
  }

  lemma CopiedHere(mode: Mode, sp: Space, mem: Memory, copies: map<nat, nat>, m: Memory, k: nat, v: nat)
    requires ForkReady(mode, sp, mem) && MemoryHalfForked(mode, sp, mem, sp.areas.Keys, copies, m)
    requires Owns(sp.areas, k, v) && CopiesPage(mode, sp.areas[k], v) && v in copies
    ensures v in sp.pt && sp.pt[v].ppn in mem.frames && copies[v] !in mem.rc
    ensures copies[v] in m.rc && m.rc[copies[v]] == 1
    ensures copies[v] in m.frames && m.frames[copies[v]] == mem.frames[sp.pt[v].ppn]
  {
  }

  lemma CopiedEntry(mode: Mode, sp: Space, mem: Memory, copies: map<nat, nat>, c: Space, m: Memory, k: nat, v: nat)
    requires Owns(sp.areas, k, v) && sp.areas[k].start == k && k in c.areas && CopiesPage(mode, sp.areas[k], v)
    requires v in copies && c.areas[k] == AreaForChild(mode, sp.areas[k], copies)
    requires PteAt(c.pt, v) == PteForChild(mode, sp.areas[k], copies, v)
    requires v in sp.pt && sp.pt[v].ppn in mem.frames && copies[v] !in mem.rc && copies[v] in m.rc
             && m.rc[copies[v]] == 1
    requires copies[v] in m.frames && m.frames[copies[v]] == mem.frames[sp.pt[v].ppn]
    ensures CopiedPage(sp, mem, sp.areas[k], c, c.areas[k], m, v)
  {
  }

  /** The rest: no other entry of the parent changes, exactly the frames of the private pages have one count
      more, and no byte of a frame in use changes. */
  lemma RestByKind(sp: Space, mem: Memory, copies: map<nat, nat>, c: Space, sp': Space, m: Memory)
    requires ForkReady(CopyOnWrite, sp, mem) && ForkResult(CopyOnWrite, sp, mem, copies, c, sp', m)
    ensures forall v: nat :: !InPrivate(sp.areas, v) ==> PteAt(sp'.pt, v) == PteAt(sp.pt, v)
    ensures forall p: nat :: p in mem.rc ==>
              p in m.rc && m.rc[p] == mem.rc[p] + if PrivateFrame(sp, p) then 1 else 0
    ensures forall p: nat :: p in mem.frames ==> p in m.frames && m.frames[p] == mem.frames[p]
  {
    forall v: nat ensures SharedIn(CopyOnWrite, sp.areas, sp.areas.Keys, v) <==> InPrivate(sp.areas, v) {
      PrivateIsShared(sp.areas, v);
    }
    forall v: nat | !InPrivate(sp.areas, v) ensures PteAt(sp'.pt, v) == PteAt(sp.pt, v) {
      assert PteAt(sp'.pt, v) == ParentPteAt(CopyOnWrite, sp, sp.areas.Keys, v);
    }
    forall p: nat
      ensures SharedByFork(Part(CopyOnWrite, sp, sp.areas.Keys), copies, p) <==> PrivateFrame(sp, p)
    {
      FrameByKind(sp, copies, p);
    }
  }

  /** A private page is mapped to frame `p`. */
  ghost predicate PrivateFrame(sp: Space, p: nat) {
    exists v: nat :: InPrivate(sp.areas, v) && v in sp.pt && sp.pt[v].ppn == p
  }

  lemma PrivateIsShared(t: Tree, v: nat)
    ensures SharedIn(CopyOnWrite, t, t.Keys, v) <==> InPrivate(t, v)
  {
    if k: nat :| k in t && IsPrivate(t[k]) && v in t[k].frames {
      assert k in t.Keys && SharesPage(CopyOnWrite, t[k], v);
    }
  }

  lemma FrameByKind(sp: Space, copies: map<nat, nat>, p: nat)
    requires WellFormed(sp.areas) && CopiesDone(CopyOnWrite, sp, sp.areas.Keys, copies)
    ensures SharedByFork(Part(CopyOnWrite, sp, sp.areas.Keys), copies, p) <==> PrivateFrame(sp, p)
  {
    var part := Part(CopyOnWrite, sp, sp.areas.Keys);
    if v: nat :| InPrivate(sp.areas, v) && v in sp.pt && sp.pt[v].ppn == p {
      PrivateIsShared(sp.areas, v);
      var k: nat :| k in sp.areas && IsPrivate(sp.areas[k]) && v in sp.areas[k].frames;
      OnlyArea(CopyOnWrite, sp.areas, k, v);
      assert v in part && v !in copies && part[v].ppn == p;
    }
    if SharedByFork(part, copies, p) {
      var v: nat :| v in part && v !in copies && part[v].ppn == p;
      PrivateIsShared(sp.areas, v);
      assert InPrivate(sp.areas, v);
    }
  }

  /** The kinds of areas that are copied. */
  predicate IsCopied(mode: Mode, a: MapArea) {
    match mode
    case CopyOnWrite => !a.areaType.Stack? && !a.areaType.Mmap? && !a.areaType.Shm?
    case Eager => !(a.areaType.Mmap? && MAP_SHARED in a.mmapFlags)
  }

  /** No two copied pages are on the same frame. */
  lemma CopiesApart(mode: Mode, sp: Space, mem: Memory, copies: map<nat, nat>, c: Space, sp': Space, m: Memory,
                    j: nat, v: nat, k: nat, u: nat)
    requires ForkReady(mode, sp, mem) && ForkResult(mode, sp, mem, copies, c, sp', m)
    requires Owns(sp.areas, j, v) && IsCopied(mode, sp.areas[j]) && Owns(sp.areas, k, u) && IsCopied(mode, sp.areas[k])
    requires v != u
    ensures v in c.pt && u in c.pt && c.pt[v].ppn != c.pt[u].ppn
  {
    ChildEntryOf(mode, sp, copies, c.pt, j, v);
    ChildEntryOf(mode, sp, copies, c.pt, k, u);
    OnlyArea(mode, sp.areas, j, v);
    OnlyArea(mode, sp.areas, k, u);
  }

  // ---- the fork that copies everything ----

  /** What `from_existed_user1` makes of page `v` of the parent's area `a`. */
  ghost predicate EagerPage(sp: Space, mem: Memory, a: MapArea, c: Space, m: Memory, v: nat) {
    a.start in c.areas &&
    var a' := c.areas[a.start];
    if a.areaType.Mmap? && MAP_SHARED in a.mmapFlags then
      if v in a.frames then LentPageOf(a, c, a', v) else v !in c.pt && v !in a'.frames
    else CopiedPage(sp, mem, a, c, a', m, v)
  }

  /** The child has all areas of the parent, every page as its kind of area says. */
  lemma EagerByKind(sp: Space, mem: Memory, copies: map<nat, nat>, c: Space, sp': Space, m: Memory)
    requires ForkReady(Eager, sp, mem) && ForkResult(Eager, sp, mem, copies, c, sp', m)
    ensures forall k: nat :: (k in c.areas <==> k in sp.areas)
              && (k in c.areas ==> SameArea(sp.areas[k], c.areas[k]) && c.areas[k].mmapFlags == {})
    ensures forall k: nat, v: nat :: Owns(sp.areas, k, v) ==> EagerPage(sp, mem, sp.areas[k], c, m, v)
    ensures forall v: nat :: v in c.pt ==> Covered(sp.areas, v)
  {
    forall k: nat
      ensures k in c.areas <==> k in sp.areas
      ensures k in c.areas ==> SameArea(sp.areas[k], c.areas[k]) && c.areas[k].mmapFlags == {}
    {
      EagerArea(sp, copies, c.areas, k);
    }
    assert ChildMade(Eager, sp, copies, c);
    forall k: nat, v: nat | Owns(sp.areas, k, v) ensures EagerPage(sp, mem, sp.areas[k], c, m, v) {
      OneEagerPage(sp, mem, copies, c, m, k, v);
    }
    forall v: nat | v in c.pt ensures Covered(sp.areas, v) {
      var k: nat :| k in sp.areas.Keys && Owns(sp.areas, k, v);
    }
  }

  /** The parent, and every frame in use with its count, stays as it is. */
  lemma EagerRest(sp: Space, mem: Memory, copies: map<nat, nat>, c: Space, sp': Space, m: Memory)
    requires ForkReady(Eager, sp, mem) && ForkResult(Eager, sp, mem, copies, c, sp', m)
    ensures sp' == sp
    ensures forall p: nat :: p in mem.rc ==> p in m.rc && m.rc[p] == mem.rc[p]
    ensures forall p: nat :: p in mem.frames ==> p in m.frames && m.frames[p] == mem.frames[p]
  {
    EagerParent(sp, sp'.pt);
    NothingShared(sp, copies);
  }

  lemma EagerParent(sp: Space, pt: map<nat, Pte>)
    requires ParentEntriesForked(Eager, sp, sp.areas.Keys, pt)
    ensures pt == sp.pt
  {
    forall v: nat ensures PteAt(pt, v) == PteAt(sp.pt, v) {
      assert PteAt(pt, v) == ParentPteAt(Eager, sp, sp.areas.Keys, v);
    }
    SamePt(pt, sp.pt);
  }

  lemma NothingShared(sp: Space, copies: map<nat, nat>)
    requires CopiesDone(Eager, sp, sp.areas.Keys, copies)
    ensures forall p: nat :: !SharedByFork(Part(Eager, sp, sp.areas.Keys), copies, p)
  {
    forall v: nat | v in Part(Eager, sp, sp.areas.Keys) ensures v in copies {
      assert !SharedIn(Eager, sp.areas, sp.areas.Keys, v);
    }
  }

  lemma EagerArea(sp: Space, copies: map<nat, nat>, t: Tree, k: nat)
    requires AreasForked(Eager, sp, sp.areas.Keys, copies, t)
    ensures k in t <==> k in sp.areas
    ensures k in t ==> SameArea(sp.areas[k], t[k]) && t[k] == AreaForChild(Eager, sp.areas[k], copies)
  {
    assert k in t <==> k in sp.areas.Keys && k in sp.areas && !FateOf(Eager, sp.areas[k]).Skip?;
  }

  lemma OneEagerPage(sp: Space, mem: Memory, copies: map<nat, nat>, c: Space, m: Memory, k: nat, v: nat)
    requires ForkReady(Eager, sp, mem) && ChildMade(Eager, sp, copies, c)
    requires MemoryHalfForked(Eager, sp, mem, sp.areas.Keys, copies, m) && Owns(sp.areas, k, v)
    ensures EagerPage(sp, mem, sp.areas[k], c, m, v)
  {
    var a := sp.areas[k];
    assert a.start == k;
    ChildEntryOf(Eager, sp, copies, c.pt, k, v);
    EagerArea(sp, copies, c.areas, k);
    OnlyArea(Eager, sp.areas, k, v);
    assert v in copies <==> CopiesPage(Eager, a, v);
    if !(a.areaType.Mmap? && MAP_SHARED in a.mmapFlags) {
      CopiedHere(Eager, sp, mem, copies, m, k, v);
      CopiedEntry(Eager, sp, mem, copies, c, m, k, v);
    }
  }
}
