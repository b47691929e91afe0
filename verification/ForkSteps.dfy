/** What a whole fork amounts to: a step of the runs when nothing is left out or lent, what becomes of the
    pages that are, and the fork that first touches every page. */
module ForkSteps {
  import opened Base
  import opened Ordered
  import opened Ptes
  import opened Areas
  import opened AreaEdits
  import opened AreaFrames
  import opened CowWorlds
  import opened CowInvariant
  import opened CowRuns
  import opened ForkLoops
  import opened MemorySets

  /** Page `v` of a private mmap area has no frame yet. */
  predicate MissingIn(a: MapArea, v: nat) {
    a.areaType.Mmap? && MAP_SHARED !in a.mmapFlags && a.start <= v < a.end && v !in a.frames
  }

  ghost predicate Missing(t: Tree, v: nat) {
    exists k: nat :: k in t && MissingIn(t[k], v)
  }

  /** A space that agrees with its page table can be forked, eagerly once no page is missing. */
  lemma ReadyWhenOk(mode: Mode, sp: Space, mem: Memory)
    requires SpaceOk(sp) && Live(sp, mem) && (mode.Eager? ==> forall u: nat :: !Missing(sp.areas, u))
    ensures ForkReady(mode, sp, mem) && CopiedMapped(mode, sp)
  {
    CopiedReady(mode, sp, mem);
    SharedReady(mode, sp, mem);
    BothReady(mode, sp, mem);
  }

  lemma CopiedReady(mode: Mode, sp: Space, mem: Memory)
    requires WellFormed(sp.areas) && Agree(sp.areas, sp.pt) && Backed(sp.areas) && Live(sp, mem)
    requires mode.Eager? ==> forall u: nat :: !Missing(sp.areas, u)
    ensures CopiedMapped(mode, sp)
  {
    forall k: nat, v: nat | k in sp.areas && CopiesPage(mode, sp.areas[k], v) ensures v in sp.pt {
      CopiedHasFrame(mode, sp.areas, k, v);
      FrameMapped(sp, mem, k, v);
    }
  }

  ghost predicate SharedMappedTo(mode: Mode, sp: Space) {
    forall k: nat, v: nat :: k in sp.areas && SharesPage(mode, sp.areas[k], v) ==>
      v in sp.pt && sp.pt[v].ppn == sp.areas[k].frames[v]
  }

  lemma SharedReady(mode: Mode, sp: Space, mem: Memory)
    requires Agree(sp.areas, sp.pt) && Live(sp, mem)
    ensures SharedMappedTo(mode, sp)
  {
    forall k: nat, v: nat | k in sp.areas && SharesPage(mode, sp.areas[k], v)
      ensures v in sp.pt && sp.pt[v].ppn == sp.areas[k].frames[v]
    {
      FrameMapped(sp, mem, k, v);
    }
  }

  lemma BothReady(mode: Mode, sp: Space, mem: Memory)
    requires WellFormed(sp.areas) && OwnFrames(sp.pt) && Live(sp, mem) && CopiedMapped(mode, sp)
             && SharedMappedTo(mode, sp)
    ensures ForkReady(mode, sp, mem)
  {
  }

  lemma FrameMapped(sp: Space, mem: Memory, k: nat, v: nat)
    requires Agree(sp.areas, sp.pt) && Live(sp, mem) && k in sp.areas && v in sp.areas[k].frames
    ensures v in sp.pt && sp.pt[v].ppn == sp.areas[k].frames[v] && sp.pt[v].ppn in mem.rc
  {
  }

  lemma CopiedHasFrame(mode: Mode, t: Tree, k: nat, v: nat)
    requires WellFormed(t) && Backed(t) && (mode.Eager? ==> forall u: nat :: !Missing(t, u))
    requires k in t && CopiesPage(mode, t[k], v)
    ensures v in t[k].frames
  {
    assert Owns(t, k, v);
    if t[k].areaType.Mmap? && MissingIn(t[k], v) {
      assert Missing(t, v);
    }
  }

  // ---- when every area is shared or copied ----

  /** The kinds of areas that are lent: mappings shared on purpose, and for copy on write shared memory segments. */
  predicate IsLent(mode: Mode, a: MapArea) {
    (a.areaType.Mmap? && MAP_SHARED in a.mmapFlags) || (mode.CopyOnWrite? && a.areaType.Shm?)
  }

  ghost predicate Plain(mode: Mode, t: Tree) {
    forall k: nat :: k in t ==> !IsLent(mode, t[k]) && (mode.CopyOnWrite? ==> !t[k].areaType.Stack?)
  }

  /** The area that records the frame of a mapped page. */
  lemma RecordingArea(t: Tree, pt: map<nat, Pte>, v: nat) returns (k: nat)
    requires WellFormed(t) && Agree(t, pt) && v in pt
    ensures k in t && v in t[k].frames && t[k].frames[v] == pt[v].ppn && Owns(t, k, v) && Covered(t, v)
    ensures forall j: nat :: Owns(t, j, v) ==> j == k
  {
    assert HasFrame(t, v);
    k :| k in t && v in t[k].frames;
    assert Owns(t, k, v);
    forall j: nat | Owns(t, j, v) ensures j == k {
      OneOwner(t, j, k, v);
    }
  }

  /** The page of an area is shared or copied with this area only. */
  lemma OnlyArea(mode: Mode, t: Tree, k: nat, v: nat)
    requires WellFormed(t) && Owns(t, k, v)
    ensures SharedIn(mode, t, t.Keys, v) <==> SharesPage(mode, t[k], v)
    ensures CopiedIn(mode, t, t.Keys, v) <==> CopiesPage(mode, t[k], v)
  {
    assert k in t.Keys;
    forall j: nat | Owns(t, j, v) ensures j == k {
      OneOwner(t, j, k, v);
    }
    if SharedIn(mode, t, t.Keys, v) {
      var j: nat :| j in t.Keys && j in t && SharesPage(mode, t[j], v);
      assert Owns(t, j, v);
    }
    if CopiedIn(mode, t, t.Keys, v) {
      var j: nat :| j in t.Keys && j in t && CopiesPage(mode, t[j], v);
      assert Owns(t, j, v);
    }
  }

  /** A mapped page is shared or copied, as its area is. */
  lemma PlainPage(mode: Mode, t: Tree, pt: map<nat, Pte>, v: nat)
    requires WellFormed(t) && Agree(t, pt) && Plain(mode, t) && v in pt
    ensures Covered(t, v)
    ensures SharedIn(mode, t, t.Keys, v) <==> mode.CopyOnWrite? && IsMmapPage(t, v)
    ensures CopiedIn(mode, t, t.Keys, v) <==> !SharedIn(mode, t, t.Keys, v)
  {
    var k := RecordingArea(t, pt, v);
    OnlyArea(mode, t, k, v);
  }

  /** A page of an area that is copied is in the child's frames exactly when it has one in the parent's. */
  lemma AreaPage(mode: Mode, sp: Space, copies: map<nat, nat>, k: nat, v: nat)
    requires WellFormed(sp.areas) && Agree(sp.areas, sp.pt) && k in sp.areas && FateOf(mode, sp.areas[k]).Duplicate?
    requires CopiesDone(mode, sp, sp.areas.Keys, copies) && (CopiesPage(mode, sp.areas[k], v) ==> v in sp.pt)
    ensures v in copies && sp.areas[k].start <= v < sp.areas[k].end <==> v in sp.areas[k].frames
  {
    if sp.areas[k].start <= v < sp.areas[k].end {
      assert Owns(sp.areas, k, v);
      OnlyArea(mode, sp.areas, k, v);
      var j := RecordingArea(sp.areas, sp.pt, v);
    }
  }

  /** All pages that are copied are mapped. */
  ghost predicate CopiedMapped(mode: Mode, sp: Space) {
    forall k: nat, v: nat :: k in sp.areas && CopiesPage(mode, sp.areas[k], v) ==> v in sp.pt
  }

  lemma PlainArea(mode: Mode, sp: Space, copies: map<nat, nat>, k: nat)
    requires WellFormed(sp.areas) && Agree(sp.areas, sp.pt) && Plain(mode, sp.areas) && CopiedMapped(mode, sp)
    requires k in sp.areas && CopiesDone(mode, sp, sp.areas.Keys, copies)
    ensures AreaForChild(mode, sp.areas[k], copies) == ChildArea(sp.areas[k], copies, TagFor(mode))
  {
    var a := sp.areas[k];
    if FateOf(mode, a).Share? {
      forall v: nat | v in a.frames ensures v !in copies {
        assert Owns(sp.areas, k, v);
        OnlyArea(mode, sp.areas, k, v);
      }
      KeptFrames(a.frames, copies);
    } else {
      forall v: nat ensures v in copies && a.start <= v < a.end <==> v in a.frames {
        AreaPage(mode, sp, copies, k, v);
      }
      CopiedOnly(a, copies);
    }
  }

  lemma KeptFrames(frames: map<nat, nat>, copies: map<nat, nat>)
    requires forall v: nat :: v in frames ==> v !in copies
    ensures ChildFrames(frames, copies) == frames
  {
  }

  lemma CopiedOnly(a: MapArea, copies: map<nat, nat>)
    requires forall v: nat :: v in copies && a.start <= v < a.end <==> v in a.frames
    ensures (map v: nat | v in copies && a.start <= v < a.end :: copies[v]) == ChildFrames(a.frames, copies)
  {
  }

  lemma ChildEntryOf(mode: Mode, sp: Space, copies: map<nat, nat>, cPt: map<nat, Pte>, k: nat, v: nat)
    requires ChildEntriesForked(mode, sp, sp.areas.Keys, copies, cPt) && Owns(sp.areas, k, v)
    ensures PteAt(cPt, v) == PteForChild(mode, sp.areas[k], copies, v)
  {
    assert k in sp.areas.Keys;
  }

  lemma PlainChildPte(mode: Mode, sp: Space, copies: map<nat, nat>, cPt: map<nat, Pte>, v: nat)
    requires WellFormed(sp.areas) && Agree(sp.areas, sp.pt) && Plain(mode, sp.areas)
    requires CopiesDone(mode, sp, sp.areas.Keys, copies) && ChildEntriesForked(mode, sp, sp.areas.Keys, copies, cPt)
    requires v in sp.pt
    ensures Covered(sp.areas, v) && PteAt(cPt, v) == Some(ChildPte(sp, copies, v))
  {
    var k := RecordingArea(sp.areas, sp.pt, v);
    InfoAt(sp.areas, k, v);
    OnlyArea(mode, sp.areas, k, v);
    ChildEntryOf(mode, sp, copies, cPt, k, v);
  }

  /** A page that is not mapped in the parent is not mapped in the child. */
  lemma NoEntry(mode: Mode, sp: Space, copies: map<nat, nat>, cPt: map<nat, Pte>, v: nat)
    requires WellFormed(sp.areas) && Agree(sp.areas, sp.pt) && Plain(mode, sp.areas) && CopiedMapped(mode, sp)
             && v !in sp.pt
    requires ChildEntriesForked(mode, sp, sp.areas.Keys, copies, cPt) && CopiesDone(mode, sp, sp.areas.Keys, copies)
    ensures v !in cPt
  {
    if OwnedIn(sp.areas, sp.areas.Keys, v) {
      var k: nat :| k in sp.areas.Keys && Owns(sp.areas, k, v);
      ChildEntryOf(mode, sp, copies, cPt, k, v);
      NothingGiven(mode, sp, copies, k, v);
    }
  }

  lemma NothingGiven(mode: Mode, sp: Space, copies: map<nat, nat>, k: nat, v: nat)
    requires WellFormed(sp.areas) && Agree(sp.areas, sp.pt) && CopiedMapped(mode, sp) && Owns(sp.areas, k, v)
             && v !in sp.pt
    requires CopiesDone(mode, sp, sp.areas.Keys, copies)
    ensures PteForChild(mode, sp.areas[k], copies, v) == None
  {
    OnlyArea(mode, sp.areas, k, v);
    assert v !in sp.areas[k].frames;
  }

  lemma PlainChildPt(mode: Mode, sp: Space, copies: map<nat, nat>, cPt: map<nat, Pte>)
    requires WellFormed(sp.areas) && Agree(sp.areas, sp.pt) && Plain(mode, sp.areas) && CopiedMapped(mode, sp)
    requires ChildEntriesForked(mode, sp, sp.areas.Keys, copies, cPt) && CopiesDone(mode, sp, sp.areas.Keys, copies)
    ensures cPt == ChildOf(sp, copies, TagFor(mode)).pt
  {
    var pt := ChildOf(sp, copies, TagFor(mode)).pt;
    forall v: nat ensures PteAt(cPt, v) == PteAt(pt, v) {
      if v in sp.pt {
        PlainChildPte(mode, sp, copies, cPt, v);
      } else {
        NoEntry(mode, sp, copies, cPt, v);
      }
    }
    SamePt(cPt, pt);
  }

  lemma PlainAreas(mode: Mode, sp: Space, copies: map<nat, nat>, cAreas: Tree)
    requires WellFormed(sp.areas) && Agree(sp.areas, sp.pt) && Plain(mode, sp.areas) && CopiedMapped(mode, sp)
    requires AreasForked(mode, sp, sp.areas.Keys, copies, cAreas) && CopiesDone(mode, sp, sp.areas.Keys, copies)
    ensures cAreas == ChildOf(sp, copies, TagFor(mode)).areas
  {
    forall k: nat | k in sp.areas
      ensures AreaForChild(mode, sp.areas[k], copies) == ChildArea(sp.areas[k], copies, TagFor(mode))
    {
      PlainArea(mode, sp, copies, k);
    }
  }

  lemma PlainParent(mode: Mode, sp: Space, copies: map<nat, nat>, pPt: map<nat, Pte>)
    requires WellFormed(sp.areas) && Agree(sp.areas, sp.pt) && Plain(mode, sp.areas)
    requires ParentEntriesForked(mode, sp, sp.areas.Keys, pPt) && CopiesDone(mode, sp, sp.areas.Keys, copies)
    ensures pPt == ParentAfter(sp, copies).pt
  {
    forall v: nat ensures PteAt(pPt, v) == PteAt(ParentAfter(sp, copies).pt, v) {
      assert PteAt(pPt, v) == ParentPteAt(mode, sp, sp.areas.Keys, v);
      if v in sp.pt {
        PlainPage(mode, sp.areas, sp.pt, v);
      }
    }
    SamePt(pPt, ParentAfter(sp, copies).pt);
  }

  lemma WholePart(mode: Mode, sp: Space)
    requires WellFormed(sp.areas) && Agree(sp.areas, sp.pt) && Plain(mode, sp.areas)
    ensures Part(mode, sp, sp.areas.Keys) == sp.pt
  {
    forall v: nat | v in sp.pt ensures v in Part(mode, sp, sp.areas.Keys) {
      PlainPage(mode, sp.areas, sp.pt, v);
    }
  }

  lemma PlainCopies(mode: Mode, sp: Space, copies: map<nat, nat>)
    requires WellFormed(sp.areas) && Agree(sp.areas, sp.pt) && Plain(mode, sp.areas) && CopiedMapped(mode, sp)
    requires CopiesDone(mode, sp, sp.areas.Keys, copies)
    ensures CopiesFor(mode, sp, copies)
  {
    forall v: nat | v in sp.pt ensures v in copies <==> !(mode.CopyOnWrite? && IsMmapPage(sp.areas, v)) {
      PlainPage(mode, sp.areas, sp.pt, v);
    }
    if mode.Eager? {
      forall v: nat | Covered(sp.areas, v) ensures v in sp.pt {
        var k: nat :| Owns(sp.areas, k, v);
        assert CopiesPage(mode, sp.areas[k], v);
      }
    }
  }

  /** A fork that leaves nothing out and lends nothing, of a space that agrees with its page table. */
  lemma PlainFork(mode: Mode, sp: Space, mem: Memory, copies: map<nat, nat>, c: Space, sp': Space, m: Memory)
    requires SpaceOk(sp) && Plain(mode, sp.areas) && CopiedMapped(mode, sp)
    requires ForkResult(mode, sp, mem, copies, c, sp', m)
    ensures c == ChildOf(sp, copies, TagFor(mode)) && sp' == ParentAfter(sp, copies)
    ensures FreshCopies(mem, sp.pt, copies) && MemoryForked(mem, m, sp.pt, copies) && CopiesFor(mode, sp, copies)
  {
    PlainAreas(mode, sp, copies, c.areas);
    PlainChildPt(mode, sp, copies, c.pt);
    PlainParent(mode, sp, copies, sp'.pt);
    WholePart(mode, sp);
    PlainCopies(mode, sp, copies);
  }

  /** A fork that leaves nothing out and lends nothing is the fork step of the runs, in either kernel. */
  lemma ForkIsStep(mode: Mode, w: World, parent: nat, child: nat, copies: map<nat, nat>, c: Space, sp': Space,
                   m: Memory, w': World)
    requires WorldOk(w) && parent in w.spaces && child !in w.spaces && Plain(mode, w.spaces[parent].areas)
    requires ForkReady(mode, w.spaces[parent], w.mem) && ForkResult(mode, w.spaces[parent], w.mem, copies, c, sp', m)
    requires w'.spaces == w.spaces[parent := sp'][child := c] && w'.mem == m
    ensures Step(mode, w, Fork(parent, child), w')
  {
    var sp := w.spaces[parent];
    assert SpaceOk(sp);
    assert CopiedMapped(mode, sp);
    PlainFork(mode, sp, w.mem, copies, c, sp', m);
    PlainNoShared(mode, sp.areas);
    PlainStep(mode, w, parent, child, copies, c, sp', m, w');
  }

  lemma PlainStep(mode: Mode, w: World, parent: nat, child: nat, copies: map<nat, nat>, c: Space, sp': Space, m: Memory,
                  w': World)
    requires parent in w.spaces && child !in w.spaces && NoShared(w.spaces[parent].areas)
    requires c == ChildOf(w.spaces[parent], copies, TagFor(mode)) && sp' == ParentAfter(w.spaces[parent], copies)
    requires FreshCopies(w.mem, w.spaces[parent].pt, copies) && MemoryForked(w.mem, m, w.spaces[parent].pt, copies)
    requires CopiesFor(mode, w.spaces[parent], copies)
    requires w'.spaces == w.spaces[parent := sp'][child := c] && w'.mem == m
    ensures Step(mode, w, Fork(parent, child), w')
  {
    assert Forked(w, parent, child, copies, TagFor(mode), w');
  }

  lemma PlainNoShared(mode: Mode, t: Tree)
    requires Plain(mode, t)
    ensures NoShared(t)
  {
  }

  // ---- pages that are lent ----

  /** What is left to say of a whole fork when only the two address spaces matter. */
  ghost predicate ChildMade(mode: Mode, sp: Space, copies: map<nat, nat>, c: Space) {
    && WellFormed(sp.areas) && AreasForked(mode, sp, sp.areas.Keys, copies, c.areas)
    && ChildEntriesForked(mode, sp, sp.areas.Keys, copies, c.pt) && CopiesDone(mode, sp, sp.areas.Keys, copies)
  }

  lemma ChildAreaOf(mode: Mode, sp: Space, copies: map<nat, nat>, c: Space, k: nat)
    requires ChildMade(mode, sp, copies, c) && k in c.areas
    ensures k in sp.areas && !FateOf(mode, sp.areas[k]).Skip? && c.areas[k] == AreaForChild(mode, sp.areas[k], copies)
    ensures forall v: nat :: v in c.areas[k].frames ==> Owns(sp.areas, k, v)
  {
  }

  /** The child records the frames of all its pages exactly when none has been lent. */
  lemma ChildAgrees(mode: Mode, sp: Space, mem: Memory, copies: map<nat, nat>, c: Space, sp': Space, m: Memory)
    requires ForkReady(mode, sp, mem) && ForkResult(mode, sp, mem, copies, c, sp', m)
    ensures Agree(c.areas, c.pt) <==>
              forall k: nat, v: nat :: k in sp.areas && v in sp.areas[k].frames ==> !IsLent(mode, sp.areas[k])
  {
    assert ChildMade(mode, sp, copies, c);
    AgreesUnlessLent(mode, sp, copies, c);
  }

  /** What the child records is mapped there. */
  lemma ChildRecords(mode: Mode, sp: Space, copies: map<nat, nat>, c: Space)
    requires ChildMade(mode, sp, copies, c)
    ensures EntriesPresent(c.areas, c.pt)
  {
    forall k: nat, v: nat | k in c.areas && v in c.areas[k].frames
      ensures v in c.pt && c.pt[v].ppn == c.areas[k].frames[v]
    {
      ChildAreaOf(mode, sp, copies, c, k);
      ChildEntryOf(mode, sp, copies, c.pt, k, v);
    }
  }

  lemma AgreesUnlessLent(mode: Mode, sp: Space, copies: map<nat, nat>, c: Space)
    requires ChildMade(mode, sp, copies, c)
    ensures Agree(c.areas, c.pt) <==>
              forall k: nat, v: nat :: k in sp.areas && v in sp.areas[k].frames ==> !IsLent(mode, sp.areas[k])
  {
    ChildRecords(mode, sp, copies, c);
    if Agree(c.areas, c.pt) {
      forall k: nat, v: nat | k in sp.areas && v in sp.areas[k].frames ensures !IsLent(mode, sp.areas[k]) {
        if IsLent(mode, sp.areas[k]) {
          LentPage(mode, sp, copies, c, k, v);
        }
      }
    } else {
      var v: nat :| v in c.pt && !HasFrame(c.areas, v);
      var k := UnrecordedPage(mode, sp, copies, c, v);
    }
  }

  /** A lent page is mapped in the child and has no frame there. */
  lemma LentPage(mode: Mode, sp: Space, copies: map<nat, nat>, c: Space, k: nat, v: nat)
    requires ChildMade(mode, sp, copies, c)
    requires k in sp.areas && IsLent(mode, sp.areas[k]) && v in sp.areas[k].frames
    ensures v in c.pt && c.pt[v].ppn == sp.areas[k].frames[v] && !HasFrame(c.areas, v)
    ensures k in c.areas && c.areas[k] == sp.areas[k].(frames := map[], mmapFlags := {})
  {
    assert k in sp.areas.Keys;
    assert Owns(sp.areas, k, v);
    ChildEntryOf(mode, sp, copies, c.pt, k, v);
    forall j: nat | j in c.areas ensures v !in c.areas[j].frames {
      ChildAreaOf(mode, sp, copies, c, j);
      if j != k && Owns(sp.areas, j, v) {
        OneOwner(sp.areas, j, k, v);
      }
    }
  }

  /** On a lent page of an mmap area every access by the child faults, and the handler panics. */
  lemma LentFaultPanics(mode: Mode, sp: Space, copies: map<nat, nat>, c: Space, k: nat, v: nat,
                        mem: Memory, isWrite: bool, f: nat)
    requires ChildMade(mode, sp, copies, c)
    requires k in sp.areas && IsLent(mode, sp.areas[k]) && v in sp.areas[k].frames
    ensures WellFormed(c.areas) && !HasFrame(c.areas, v) && v in c.pt && !c.pt[v].flags.present
    ensures sp.areas[k].areaType.Mmap? ==> Fault(c, mem, v, isWrite, f) == Panics
    ensures !sp.areas[k].areaType.Mmap? ==> Fault(c, mem, v, isWrite, f) == Failed(NotMmapType)
  {
    ChildWellFormed(mode, sp, copies, c);
    LentPage(mode, sp, copies, c, k, v);
    assert Owns(sp.areas, k, v);
    ChildEntryOf(mode, sp, copies, c.pt, k, v);
    assert Owns(c.areas, k, v) && Covered(c.areas, v);
    OneOwner(c.areas, AreaOf(c.areas, v).value, k, v);
  }

  /** Only lent pages are mapped in the child without a frame. */
  lemma UnrecordedPage(mode: Mode, sp: Space, copies: map<nat, nat>, c: Space, v: nat) returns (k: nat)
    requires ChildMade(mode, sp, copies, c) && v in c.pt && !HasFrame(c.areas, v)
    ensures k in sp.areas && v in sp.areas[k].frames && IsLent(mode, sp.areas[k])
  {
    k :| k in sp.areas.Keys && Owns(sp.areas, k, v);
    ChildEntryOf(mode, sp, copies, c.pt, k, v);
    PageRecorded(mode, sp.areas[k], copies, v);
    assert k in c.areas ==> v !in c.areas[k].frames;
  }

  /** A page that gets an entry in the child is lent, or recorded there. */
  lemma PageRecorded(mode: Mode, a: MapArea, copies: map<nat, nat>, v: nat)
    requires PteForChild(mode, a, copies, v).Some? && a.start <= v < a.end
    ensures !FateOf(mode, a).Skip?
    ensures if IsLent(mode, a) then v in a.frames else v in AreaForChild(mode, a, copies).frames
  {
  }

  /** A page that is lent to a child is not mapped in the child's own children. */
  lemma LentOnce(sp: Space, mem: Memory, copies: map<nat, nat>, c: Space, sp': Space, m: Memory,
                 copies2: map<nat, nat>, c2: Space, c': Space, m2: Memory, k: nat, v: nat)
    requires ForkReady(CopyOnWrite, sp, mem) && ForkResult(CopyOnWrite, sp, mem, copies, c, sp', m)
    requires ForkReady(CopyOnWrite, c, m) && ForkResult(CopyOnWrite, c, m, copies2, c2, c', m2)
    requires k in sp.areas && IsLent(CopyOnWrite, sp.areas[k]) && v in sp.areas[k].frames
    ensures v in c.pt && v !in c2.pt
  {
    assert ChildMade(CopyOnWrite, sp, copies, c) && ChildMade(CopyOnWrite, c, copies2, c2);
    LentTwice(sp, copies, c, copies2, c2, k, v);
  }

  lemma LentTwice(sp: Space, copies: map<nat, nat>, c: Space, copies2: map<nat, nat>, c2: Space, k: nat, v: nat)
    requires ChildMade(CopyOnWrite, sp, copies, c) && ChildMade(CopyOnWrite, c, copies2, c2)
    requires k in sp.areas && IsLent(CopyOnWrite, sp.areas[k]) && v in sp.areas[k].frames
    ensures v in c.pt && v !in c2.pt
  {
    LentPage(CopyOnWrite, sp, copies, c, k, v);
    LentAgain(sp.areas[k], copies2, v);
    ChildEntryOf(CopyOnWrite, c, copies2, c2.pt, k, v);
  }

  /** A lent area has nothing to pass on. */
  lemma LentAgain(a: MapArea, copies: map<nat, nat>, v: nat)
    requires IsLent(CopyOnWrite, a)
    ensures PteForChild(CopyOnWrite, a.(frames := map[], mmapFlags := {}), copies, v) == None
  {
  }

  // ---- forking the child again ----

  /** A copy-on-write child can be forked in turn. */
  lemma ChildReady(sp: Space, mem: Memory, copies: map<nat, nat>, c: Space, sp': Space, m: Memory)
    requires ForkReady(CopyOnWrite, sp, mem) && ForkResult(CopyOnWrite, sp, mem, copies, c, sp', m)
    ensures ForkReady(CopyOnWrite, c, m)
  {
    assert ChildMade(CopyOnWrite, sp, copies, c);
    ChildReadyWith(sp, mem, copies, c, m);
  }

  lemma ChildReadyWith(sp: Space, mem: Memory, copies: map<nat, nat>, c: Space, m: Memory)
    requires ForkReady(CopyOnWrite, sp, mem) && ChildMade(CopyOnWrite, sp, copies, c)
    requires (forall p: nat :: p in m.frames <==> p in m.rc) && (forall p: nat :: p in mem.rc ==> p in m.rc)
    requires forall v: nat :: v in copies ==> copies[v] in m.rc
    ensures ForkReady(CopyOnWrite, c, m)
  {
    assert WellFormed(c.areas) by { ChildWellFormed(CopyOnWrite, sp, copies, c); }
    ChildShares(sp, mem, copies, c, m);
    ChildCopies(sp, copies, c);
    CopiesCounted(c, copies, m);
    ChildDistinct(sp, mem, copies, c);
  }

  lemma ChildShares(sp: Space, mem: Memory, copies: map<nat, nat>, c: Space, m: Memory)
    requires ForkReady(CopyOnWrite, sp, mem) && ChildMade(CopyOnWrite, sp, copies, c)
    requires forall p: nat :: p in mem.rc ==> p in m.rc
    ensures SharedOk(CopyOnWrite, c, m)
  {
    forall k: nat, v: nat | k in c.areas && SharesPage(CopyOnWrite, c.areas[k], v)
      ensures v in c.pt && c.pt[v].ppn == c.areas[k].frames[v] && c.pt[v].ppn in m.rc
    {
      ChildSharedPage(sp, mem, copies, c, m, k, v);
    }
  }

  lemma ChildSharedPage(sp: Space, mem: Memory, copies: map<nat, nat>, c: Space, m: Memory, k: nat, v: nat)
    requires ForkReady(CopyOnWrite, sp, mem) && ChildMade(CopyOnWrite, sp, copies, c)
    requires (forall p: nat :: p in mem.rc ==> p in m.rc) && k in c.areas && SharesPage(CopyOnWrite, c.areas[k], v)
    ensures v in c.pt && c.pt[v].ppn == c.areas[k].frames[v] && c.pt[v].ppn in m.rc
  {
    SharedAgain(sp, copies, c, k, v);
    SharedPage(CopyOnWrite, sp, mem, k, v);
  }

  /** The pages that the child would copy are mapped to their copies. */
  ghost predicate OnCopies(c: Space, copies: map<nat, nat>) {
    forall k: nat, v: nat :: k in c.areas && CopiesPage(CopyOnWrite, c.areas[k], v) ==> OnCopy(c.pt, copies, v)
  }

  predicate OnCopy(pt: map<nat, Pte>, copies: map<nat, nat>, v: nat) {
    v in pt && v in copies && pt[v].ppn == copies[v]
  }

  lemma ChildCopies(sp: Space, copies: map<nat, nat>, c: Space)
    requires ChildMade(CopyOnWrite, sp, copies, c)
    ensures OnCopies(c, copies)
  {
    forall k: nat, v: nat | k in c.areas && CopiesPage(CopyOnWrite, c.areas[k], v) ensures OnCopy(c.pt, copies, v) {
      CopiedAgain(sp, copies, c, k, v);
    }
  }

  lemma CopiesCounted(c: Space, copies: map<nat, nat>, m: Memory)
    requires OnCopies(c, copies) && forall v: nat :: v in copies ==> copies[v] in m.rc
    ensures CopiedOk(CopyOnWrite, c, m)
  {
    forall k: nat, v: nat | k in c.areas && CopiesPage(CopyOnWrite, c.areas[k], v)
      ensures v in c.pt && c.pt[v].ppn in m.rc
    {
      assert OnCopy(c.pt, copies, v);
    }
  }

  lemma ChildDistinct(sp: Space, mem: Memory, copies: map<nat, nat>, c: Space)
    requires ForkReady(CopyOnWrite, sp, mem) && ChildMade(CopyOnWrite, sp, copies, c)
    ensures SharedApart(CopyOnWrite, c)
  {
    forall v: nat | IsShared(CopyOnWrite, c, v) ensures IsShared(CopyOnWrite, sp, v) && c.pt[v].ppn == sp.pt[v].ppn {
      SameShared(sp, mem, copies, c, v);
    }
  }

  lemma ChildWellFormed(mode: Mode, sp: Space, copies: map<nat, nat>, c: Space)
    requires ChildMade(mode, sp, copies, c)
    ensures WellFormed(c.areas)
  {
    forall k: nat | k in c.areas
      ensures c.areas[k].start == k <= c.areas[k].end && k in sp.areas && c.areas[k].end == sp.areas[k].end
      ensures forall v: nat :: v in c.areas[k].frames ==> k <= v < c.areas[k].end
    {
      ChildAreaOf(mode, sp, copies, c, k);
    }
  }

  /** What the child would share or copy was shared with it or copied for it. */
  lemma FateAgain(a: MapArea, copies: map<nat, nat>, v: nat)
    requires !FateOf(CopyOnWrite, a).Skip?
    ensures var b := AreaForChild(CopyOnWrite, a, copies);
            && (SharesPage(CopyOnWrite, b, v) ==> SharesPage(CopyOnWrite, a, v) && b.frames == a.frames)
            && (CopiesPage(CopyOnWrite, b, v) ==> CopiesPage(CopyOnWrite, a, v))
  {
  }

  lemma SharedAgain(sp: Space, copies: map<nat, nat>, c: Space, k: nat, v: nat)
    requires ChildMade(CopyOnWrite, sp, copies, c) && k in c.areas && SharesPage(CopyOnWrite, c.areas[k], v)
    ensures k in sp.areas && SharesPage(CopyOnWrite, sp.areas[k], v)
    ensures v in c.pt && c.pt[v].ppn == c.areas[k].frames[v] == sp.areas[k].frames[v]
  {
    ChildAreaOf(CopyOnWrite, sp, copies, c, k);
    FateAgain(sp.areas[k], copies, v);
    ChildEntryOf(CopyOnWrite, sp, copies, c.pt, k, v);
  }

  lemma CopiedAgain(sp: Space, copies: map<nat, nat>, c: Space, k: nat, v: nat)
    requires ChildMade(CopyOnWrite, sp, copies, c) && k in c.areas && CopiesPage(CopyOnWrite, c.areas[k], v)
    ensures OnCopy(c.pt, copies, v)
  {
    ChildAreaOf(CopyOnWrite, sp, copies, c, k);
    FateAgain(sp.areas[k], copies, v);
    assert Owns(sp.areas, k, v);
    ChildEntryOf(CopyOnWrite, sp, copies, c.pt, k, v);
    OnlyArea(CopyOnWrite, sp.areas, k, v);
  }

  lemma SameShared(sp: Space, mem: Memory, copies: map<nat, nat>, c: Space, v: nat)
    requires ForkReady(CopyOnWrite, sp, mem) && ChildMade(CopyOnWrite, sp, copies, c) && IsShared(CopyOnWrite, c, v)
    ensures IsShared(CopyOnWrite, sp, v) && c.pt[v].ppn == sp.pt[v].ppn
  {
    var k: nat :| k in c.areas.Keys && k in c.areas && SharesPage(CopyOnWrite, c.areas[k], v);
    SharedAgain(sp, copies, c, k, v);
    SharedPage(CopyOnWrite, sp, mem, k, v);
  }

  // ---- the fork that touches every page first ----

  /** `vs` lists the pages `[s, v)` of the area that are missing. */
  ghost predicate Collected(a: MapArea, s: nat, v: nat, vs: seq<nat>) {
    forall u: nat :: u in vs <==> s <= u < v && MissingIn(a, u)
  }

  method MissingOf(a: MapArea) returns (vs: seq<nat>)
    requires a.start <= a.end
    ensures forall u: nat :: u in vs <==> MissingIn(a, u)
  {
    vs := [];
    if a.areaType.Mmap? && MAP_SHARED !in a.mmapFlags {
      for v: nat := a.start to a.end
        invariant Collected(a, a.start, v, vs)
      {
        if v !in a.frames {
          vs := vs + [v];
        }
      }
    }
  }

  /** The first phase: the pages of private mmap areas that have no frame. */
  method CollectMissing(t: Tree) returns (vs: seq<nat>)
    requires WellFormed(t)
    ensures forall v: nat :: v in vs <==> Missing(t, v)
  {
    var ks := Sorted(t.Keys);
    vs := [];
    for i := 0 to |ks|
      invariant forall v: nat :: v in vs <==> exists k: nat :: k in ks[..i] && k in t && MissingIn(t[k], v)
    {
      var more := MissingOf(t[ks[i]]);
      MissingMore(t, ks, i, vs, more);
      vs := vs + more;
    }
    assert ks[..|ks|] == ks;
  }

  lemma MissingMore(t: Tree, ks: seq<nat>, i: nat, vs: seq<nat>, more: seq<nat>)
    requires i < |ks| && ks[i] in t && forall v: nat :: v in more <==> MissingIn(t[ks[i]], v)
    requires forall v: nat :: v in vs <==> exists k: nat :: k in ks[..i] && k in t && MissingIn(t[k], v)
    ensures forall v: nat :: v in vs + more <==> exists k: nat :: k in ks[..i + 1] && k in t && MissingIn(t[k], v)
  {
    assert ks[..i + 1] == ks[..i] + [ks[i]];
    forall v: nat | v in vs + more ensures exists k: nat :: k in ks[..i + 1] && k in t && MissingIn(t[k], v) {
      if v in vs {
        var k: nat :| k in ks[..i] && k in t && MissingIn(t[k], v);
        assert k in ks[..i + 1];
      } else {
        assert ks[i] in ks[..i + 1];
      }
    }
  }

  /** The pages that are missing are among `vs`, all in mmap areas. */
  ghost predicate MissingAmong(t: Tree, vs: seq<nat>) {
    (forall v: nat :: Missing(t, v) ==> v in vs) && forall v: nat :: v in vs ==> IsMmapPage(t, v)
  }

  /** Page `v` of area `k` has got a frame, or had one already. */
  ghost predicate FrameGiven(t: Tree, t': Tree, k: nat, v: nat) {
    && k in t && k in t' && (forall j: nat :: j != k ==> (j in t' <==> j in t) && (j in t ==> t'[j] == t[j]))
    && t'[k] == t[k].(frames := t'[k].frames) && v in t'[k].frames
    && forall u: nat :: u != v ==> (u in t'[k].frames <==> u in t[k].frames)
  }

  lemma FilledOne(t: Tree, t': Tree, k: nat, v: nat, vs: seq<nat>)
    requires WellFormed(t) && Owns(t, k, v) && FrameGiven(t, t', k, v) && MissingAmong(t, [v] + vs)
    ensures MissingAmong(t', vs)
  {
    forall u: nat | Missing(t', u) ensures u in vs {
      var j: nat :| j in t' && MissingIn(t'[j], u);
      assert MissingIn(t[j], u) && Missing(t, u);
      if j != k && u == v {
        OneOwner(t, j, k, v);
      }
    }
    forall u: nat | u in vs ensures IsMmapPage(t', u) {
      assert u in [v] + vs;
      var j: nat :| Owns(t, j, u) && t[j].areaType.Mmap?;
      assert Owns(t', j, u) && t'[j].areaType.Mmap?;
    }
  }

  /** A write fault on a page of an mmap area is handled, and gives the page a frame. */
  lemma TouchFills(w: World, pid: nat, k: nat, v: nat, f: nat)
    requires WorldOk(w) && pid in w.spaces && Owns(w.spaces[pid].areas, k, v) && w.spaces[pid].areas[k].areaType.Mmap?
    ensures WellFormed(w.spaces[pid].areas) && Faultable(w, pid, v)
    ensures var r := Fault(w.spaces[pid], w.mem, v, true, f);
            r.Handled? && FrameGiven(w.spaces[pid].areas, r.sp.areas, k, v)
  {
    var sp := w.spaces[pid];
    assert SpaceOk(sp);
    AlwaysFaultable(w, pid, v);
    NoFrameNoEntry(sp, k, v);
    FaultFills(sp, w.mem, k, v, f);
  }

  lemma FaultFills(sp: Space, mem: Memory, k: nat, v: nat, f: nat)
    requires WellFormed(sp.areas) && Owns(sp.areas, k, v) && sp.areas[k].areaType.Mmap?
    requires v in sp.pt ==> v in sp.areas[k].frames
    requires forall j: nat :: j in sp.areas && v in sp.areas[j].frames ==>
               v in sp.pt && sp.areas[j].frames[v] in mem.rc && sp.areas[j].frames[v] in mem.frames
    ensures var r := Fault(sp, mem, v, true, f);
            r.Handled? && FrameGiven(sp.areas, r.sp.areas, k, v)
  {
    assert Covered(sp.areas, v);
    OneOwner(sp.areas, AreaOf(sp.areas, v).value, k, v);
    MapOneGives(sp, k, v, f);
  }

  lemma MapOneGives(sp: Space, k: nat, v: nat, f: nat)
    requires k in sp.areas
    ensures FrameGiven(sp.areas, MapOne(sp, k, v, f).areas, k, v)
  {
  }

  /** Process `pid` of world `w` is what these objects hold. */
  ghost predicate Holds(user: MemorySet, mem: PhysMemory, w: World, pid: nat)
    reads user, mem
  {
    WorldOk(w) && pid in w.spaces && w.spaces[pid] == user.View() && w.mem == mem.View()
  }

  /** What the fault handler may take for granted in a world that is in order. */
  lemma FaultAllowed(w: World, pid: nat, v: nat)
    requires WorldOk(w) && pid in w.spaces
    ensures WellFormed(w.spaces[pid].areas) && Agree(w.spaces[pid].areas, w.spaces[pid].pt) && Faultable(w, pid, v)
  {
    assert SpaceOk(w.spaces[pid]);
    AlwaysFaultable(w, pid, v);
  }

  /** One call of the second phase: it is handled, and is a step of the run. */
  lemma TouchStep(w: World, pid: nat, v: nat, f: nat, vs: seq<nat>, w': World)
    requires WorldOk(w) && pid in w.spaces && f !in w.mem.rc && MissingAmong(w.spaces[pid].areas, [v] + vs)
    requires WellFormed(w.spaces[pid].areas) && Faultable(w, pid, v)
    requires var r := Fault(w.spaces[pid], w.mem, v, true, f); r.Handled? ==> w' == Put(w, pid, r.sp, r.mem)
    ensures Fault(w.spaces[pid], w.mem, v, true, f).Handled?
    ensures WorldOk(w') && pid in w'.spaces && MissingAmong(w'.spaces[pid].areas, vs)
    ensures Step(Eager, w, Touch(pid, v, true), w')
  {
    var t := w.spaces[pid].areas;
    assert v in [v] + vs;
    var k: nat :| Owns(t, k, v) && t[k].areaType.Mmap?;
    TouchFills(w, pid, k, v, f);
    assert Covered(t, v) && FaultDone(w, pid, v, true, f, w');
    FaultRefines(w, pid, v, true, f, w');
    FilledOne(t, w'.spaces[pid].areas, k, v, vs);
  }

  method TouchNext(user: MemorySet, mem: PhysMemory, v: nat, ghost vs: seq<nat>, ghost w: World, ghost pid: nat)
    returns (ghost w': World)
    requires Holds(user, mem, w, pid) && MissingAmong(user.areas, [v] + vs)
    modifies user, mem
    ensures Holds(user, mem, w', pid) && MissingAmong(user.areas, vs) && Step(Eager, w, Touch(pid, v, true), w')
  {
    FaultAllowed(w, pid, v);
    var r;
    ghost var f;
    r, f := user.HandlePageFault(mem, v, true);
    w' := Put(w, pid, user.View(), mem.View());
    TouchStep(w, pid, v, f, vs, w');
  }

  ghost function Touches(pid: nat, vs: seq<nat>): seq<Op> {
    seq(|vs|, i requires 0 <= i < |vs| => Touch(pid, vs[i], true))
  }

  lemma RunMore(ws: seq<World>, pid: nat, vs: seq<nat>, v: nat, w': World)
    requires Run(Eager, ws, Touches(pid, vs)) && Step(Eager, ws[|vs|], Touch(pid, v, true), w')
    ensures Run(Eager, ws + [w'], Touches(pid, vs + [v]))
  {
    var ws', ops, ops' := ws + [w'], Touches(pid, vs), Touches(pid, vs + [v]);
    forall i | 0 <= i < |ops'| ensures Step(Eager, ws'[i], ops'[i], ws'[i + 1]) {
      if i < |vs| {
        assert Step(Eager, ws[i], ops[i], ws[i + 1]);
      }
    }
  }

  /** The first two phases of `from_existed_user1`: every page of a private mmap area gets a frame. */
  method TouchAll(user: MemorySet, mem: PhysMemory, ghost w: World, ghost pid: nat)
    returns (ghost ws: seq<World>, ghost vs: seq<nat>)
    requires Holds(user, mem, w, pid)
    modifies user, mem
    ensures Run(Eager, ws, Touches(pid, vs)) && ws[0] == w && Holds(user, mem, ws[|vs|], pid)
    ensures forall v: nat :: v in vs <==> Missing(old(user.areas), v)
    ensures forall v: nat :: !Missing(user.areas, v)
  {
    FaultAllowed(w, pid, 0);
    var missing := CollectMissing(user.areas);
    ws := [w];
    AllMissing(user.areas, missing);
    for i := 0 to |missing|
      invariant MidTouch(user, mem, w, pid, missing, i, ws)
    {
      ws := TouchOne(user, mem, w, pid, missing, i, ws);
    }
    vs := missing;
    assert missing[..|missing|] == missing;
  }

  /** A page is missing when it is one of a private mapping and has no frame. */
  lemma MissingByKind(t: Tree, k: nat, v: nat)
    requires WellFormed(t) && Owns(t, k, v)
    ensures Missing(t, v) <==> t[k].areaType.Mmap? && MAP_SHARED !in t[k].mmapFlags && v !in t[k].frames
  {
    if Missing(t, v) {
      var j: nat :| j in t && MissingIn(t[j], v);
      assert Owns(t, j, v);
      OneOwner(t, j, k, v);
    }
  }

  /** The second phase when the first `i` of the missing pages have been touched. */
  ghost predicate MidTouch(user: MemorySet, mem: PhysMemory, w: World, pid: nat, missing: seq<nat>, i: nat,
                           ws: seq<World>)
    requires i <= |missing|
    reads user, mem
  {
    && Run(Eager, ws, Touches(pid, missing[..i])) && ws[0] == w
    && Holds(user, mem, ws[i], pid) && MissingAmong(user.areas, missing[i..])
  }

  method TouchOne(user: MemorySet, mem: PhysMemory, ghost w: World, ghost pid: nat, missing: seq<nat>, i: nat,
                  ghost ws: seq<World>)
    returns (ghost ws': seq<World>)
    requires i < |missing| && MidTouch(user, mem, w, pid, missing, i, ws)
    modifies user, mem
    ensures MidTouch(user, mem, w, pid, missing, i + 1, ws')
  {
    var v := missing[i];
    assert missing[i..] == [v] + missing[i + 1..];
    assert missing[..i + 1] == missing[..i] + [v];
    ghost var w' := TouchNext(user, mem, v, missing[i + 1..], ws[i], pid);
    RunMore(ws, pid, missing[..i], v, w');
    ws' := ws + [w'];
  }

  lemma AllMissing(t: Tree, vs: seq<nat>)
    requires WellFormed(t) && forall v: nat :: v in vs <==> Missing(t, v)
    ensures MissingAmong(t, vs[0..])
  {
    assert vs[0..] == vs;
    forall v: nat | v in vs ensures IsMmapPage(t, v) {
      var k: nat :| k in t && MissingIn(t[k], v);
      assert Owns(t, k, v);
    }
  }

  /** `from_existed_user1`: the pages that are missing are touched, which is a run of the eager kernel, and
      then every area is copied, or lent if it is shared. */
  method FromExistedUser1(user: MemorySet, mem: PhysMemory, ghost w: World, ghost pid: nat)
    returns (child: MemorySet, ghost ws: seq<World>, ghost vs: seq<nat>, ghost copies: map<nat, nat>)
    requires Holds(user, mem, w, pid)
    modifies user, mem
    ensures fresh(child) && (forall v: nat :: v in vs <==> Missing(old(user.areas), v))
    ensures Run(Eager, ws, Touches(pid, vs)) && ws[0] == w && WorldOk(ws[|vs|]) && pid in ws[|vs|].spaces
    ensures ForkReady(Eager, ws[|vs|].spaces[pid], ws[|vs|].mem)
    ensures ForkResult(Eager, ws[|vs|].spaces[pid], ws[|vs|].mem, copies, child.View(), user.View(), mem.View())
  {
    ws, vs := TouchAll(user, mem, w, pid);
    EagerReady(ws[|vs|], pid);
    child := new MemorySet();
    ForkStart(Eager, user.View(), mem.View());
    copies := user.ForkAreas(mem, child, Eager, user.View(), mem.View());
  }

  lemma EagerReady(w: World, pid: nat)
    requires WorldOk(w) && pid in w.spaces && forall v: nat :: !Missing(w.spaces[pid].areas, v)
    ensures ForkReady(Eager, w.spaces[pid], w.mem)
  {
    assert SpaceOk(w.spaces[pid]);
    AllLive(w, pid);
    ReadyWhenOk(Eager, w.spaces[pid], w.mem);
  }
}
