/** The loops of `from_existed_user` and `from_existed_user1` over the areas, on values: after the areas
    `done`, what the child and the parent have and how the memory stands. */
module ForkLoops {
  import opened Base
  import opened Ptes
  import opened Areas
  import opened AreaFrames
  import opened CowWorlds

  ghost predicate OneToOne(m: map<nat, nat>) {
    forall v: nat, u: nat :: v in m && u in m && v != u ==> m[v] != m[u]
  }

  // ---- what sharing and copying one area do to the memory ----

  /** One more count on the frames of `given`. */
  ghost predicate CountsCloned(rc: map<nat, nat>, rc': map<nat, nat>, given: map<nat, nat>) {
    && (forall p: nat :: p in rc' <==> p in rc)
    && (forall p: nat :: p in rc ==> rc'[p] == rc[p] + if Takes(given, p) then 1 else 0)
  }

  /** The frames of `got` are new. */
  ghost predicate FramesTaken(mem: Memory, mem': Memory, got: map<nat, nat>) {
    && OneToOne(got)
    && (forall v: nat :: v in got ==> got[v] !in mem.rc && got[v] !in mem.frames)
    && (forall p: nat :: p in mem'.rc <==> p in mem.rc || Takes(got, p))
    && (forall p: nat :: p in mem'.frames <==> p in mem.frames || Takes(got, p))
    && (forall p: nat :: p in mem.rc ==> mem'.rc[p] == mem.rc[p])
    && (forall v: nat :: v in got ==> got[v] in mem'.rc && mem'.rc[got[v]] == 1)
  }

  /** The frames of `got` hold the bytes of the pages of `pt`, and no other frame has changed. */
  ghost predicate BytesCopied(frames: map<nat, Page>, frames': map<nat, Page>, pt: map<nat, Pte>, got: map<nat, nat>) {
    && (forall p: nat :: p in frames && !Takes(got, p) ==> p in frames' && frames'[p] == frames[p])
    && (forall v: nat :: v in got && v in pt && pt[v].ppn in frames ==>
          got[v] in frames' && frames'[got[v]] == frames[pt[v].ppn])
  }

  /** Every mapped frame is in use. */
  ghost predicate Live(sp: Space, mem: Memory) {
    && (forall p: nat :: p in mem.frames <==> p in mem.rc)
    && (forall v: nat :: v in sp.pt ==> sp.pt[v].ppn in mem.rc)
  }

  // ---- what a fork does with each area ----

  /** Left out, lent (mapped but not counted), shared copy on write, or copied. */
  datatype Fate = Skip | Lend | Share | Duplicate

  function FateOf(mode: Mode, a: MapArea): Fate {
    match mode
    case CopyOnWrite =>
      if a.areaType.Stack? then Skip
      else if a.areaType.Mmap? then (if MAP_SHARED in a.mmapFlags then Lend else Share)
      else if a.areaType.Shm? then Lend
      else Duplicate
    case Eager =>
      if a.areaType.Mmap? && MAP_SHARED in a.mmapFlags then Lend else Duplicate
  }

  predicate SharesPage(mode: Mode, a: MapArea, v: nat) {
    FateOf(mode, a).Share? && v in a.frames
  }

  predicate CopiesPage(mode: Mode, a: MapArea, v: nat) {
    FateOf(mode, a).Duplicate? && a.start <= v < a.end
  }

  /** Page `v` is shared, or copied, with one of the areas `ks`. */
  ghost predicate SharedIn(mode: Mode, t: Tree, ks: set<nat>, v: nat) {
    exists k: nat :: k in ks && k in t && SharesPage(mode, t[k], v)
  }

  ghost predicate CopiedIn(mode: Mode, t: Tree, ks: set<nat>, v: nat) {
    exists k: nat :: k in ks && k in t && CopiesPage(mode, t[k], v)
  }

  /** The child's area. A lent area does not record its frames. */
  function AreaForChild(mode: Mode, a: MapArea, copies: map<nat, nat>): MapArea {
    match FateOf(mode, a)
    case Share => a.(mmapFlags := {MAP_PRIVATE})
    case Duplicate => a.(frames := map v: nat | v in copies && a.start <= v < a.end :: copies[v], mmapFlags := {})
    case _ => a.(frames := map[], mmapFlags := {})
  }

  /** The child's entry for a page of the area. */
  function PteForChild(mode: Mode, a: MapArea, copies: map<nat, nat>, v: nat): Option<Pte> {
    match FateOf(mode, a)
    case Skip => None
    case Lend => if v in a.frames then Some(NewPage(a.frames[v], RawFlags(a.perm))) else None
    case Share => if v in a.frames then Some(SetCow(NewPage(a.frames[v], RawFlags(a.perm)))) else None
    case Duplicate => if v in copies then Some(NewPage(copies[v], FlagsOf(a.perm))) else None
  }

  ghost predicate IsShared(mode: Mode, sp: Space, v: nat) {
    v in sp.pt && SharedIn(mode, sp.areas, sp.areas.Keys, v)
  }

  /** The pages that are shared are mapped to the frames their areas record, which are in use. */
  ghost predicate SharedOk(mode: Mode, sp: Space, mem: Memory) {
    forall k: nat, v: nat :: k in sp.areas && SharesPage(mode, sp.areas[k], v) ==>
      v in sp.pt && sp.pt[v].ppn == sp.areas[k].frames[v] && sp.pt[v].ppn in mem.rc
  }

  /** The pages that are copied are mapped to frames in use. */
  ghost predicate CopiedOk(mode: Mode, sp: Space, mem: Memory) {
    forall k: nat, v: nat :: k in sp.areas && CopiesPage(mode, sp.areas[k], v) ==> v in sp.pt && sp.pt[v].ppn in mem.rc
  }

  /** The pages that are shared are on frames of their own. */
  ghost predicate SharedApart(mode: Mode, sp: Space) {
    forall v: nat, u: nat :: v != u && IsShared(mode, sp, v) && IsShared(mode, sp, u) ==> sp.pt[v].ppn != sp.pt[u].ppn
  }

  /** What the kernel takes for granted of the parent. */
  ghost predicate ForkReady(mode: Mode, sp: Space, mem: Memory) {
    && WellFormed(sp.areas) && (forall p: nat :: p in mem.frames <==> p in mem.rc)
    && SharedOk(mode, sp, mem) && CopiedOk(mode, sp, mem) && SharedApart(mode, sp)
  }

  lemma SharedPage(mode: Mode, sp: Space, mem: Memory, k: nat, v: nat)
    requires ForkReady(mode, sp, mem) && k in sp.areas && SharesPage(mode, sp.areas[k], v)
    ensures v in sp.pt && sp.pt[v].ppn == sp.areas[k].frames[v] && sp.pt[v].ppn in mem.rc
    ensures Owns(sp.areas, k, v) && IsShared(mode, sp, v)
  {
    assert k in sp.areas.Keys;
  }

  // ---- the loop invariant ----

  /** The entries of the pages shared or copied with the areas done. */
  ghost function Part(mode: Mode, sp: Space, done: set<nat>): map<nat, Pte> {
    map v: nat | v in sp.pt && (SharedIn(mode, sp.areas, done, v) || CopiedIn(mode, sp.areas, done, v)) :: sp.pt[v]
  }

  ghost predicate AreasForked(mode: Mode, sp: Space, done: set<nat>, copies: map<nat, nat>, cAreas: Tree) {
    forall k: nat :: && (k in cAreas <==> k in done && k in sp.areas && !FateOf(mode, sp.areas[k]).Skip?)
                     && (k in cAreas ==> cAreas[k] == AreaForChild(mode, sp.areas[k], copies))
  }

  ghost predicate ChildEntriesForked(mode: Mode, sp: Space, done: set<nat>, copies: map<nat, nat>, cPt: map<nat, Pte>) {
    && (forall v: nat :: v in cPt ==> OwnedIn(sp.areas, done, v))
    && (forall k: nat, v: nat :: k in done && Owns(sp.areas, k, v) ==>
          PteAt(cPt, v) == PteForChild(mode, sp.areas[k], copies, v))
  }

  ghost predicate OwnedIn(t: Tree, ks: set<nat>, v: nat) {
    exists k: nat :: k in ks && Owns(t, k, v)
  }

  ghost predicate ParentEntriesForked(mode: Mode, sp: Space, done: set<nat>, pPt: map<nat, Pte>) {
    forall v: nat :: PteAt(pPt, v) == ParentPteAt(mode, sp, done, v)
  }

  ghost function ParentPteAt(mode: Mode, sp: Space, done: set<nat>, v: nat): Option<Pte> {
    if v in sp.pt && SharedIn(mode, sp.areas, done, v) then Some(SetCow(sp.pt[v])) else PteAt(sp.pt, v)
  }

  ghost predicate CopiesDone(mode: Mode, sp: Space, done: set<nat>, copies: map<nat, nat>) {
    forall v: nat :: v in copies <==> CopiedIn(mode, sp.areas, done, v)
  }

  ghost predicate MemoryHalfForked(mode: Mode, sp: Space, mem: Memory, done: set<nat>, copies: map<nat, nat>,
                                   mem': Memory) {
    && FreshCopies(mem, sp.pt, copies) && CountsForked(mem, mem', Part(mode, sp, done), copies)
    && BytesForked(mem, mem', sp.pt, copies)
  }

  /** The fork of `sp` when the areas `done` are done: child `c`, page table `pPt` of the parent, memory `m`. */
  ghost predicate Forking(mode: Mode, sp: Space, mem: Memory, done: set<nat>, copies: map<nat, nat>,
                          c: Space, pPt: map<nat, Pte>, m: Memory) {
    SpacesForked(mode, sp, done, copies, c, pPt) && MemoryHalfForked(mode, sp, mem, done, copies, m)
  }

  ghost predicate SpacesForked(mode: Mode, sp: Space, done: set<nat>, copies: map<nat, nat>, c: Space,
                               pPt: map<nat, Pte>) {
    && AreasForked(mode, sp, done, copies, c.areas) && ChildEntriesForked(mode, sp, done, copies, c.pt)
    && ParentEntriesForked(mode, sp, done, pPt) && CopiesDone(mode, sp, done, copies)
  }

  /** A whole fork. */
  ghost predicate ForkResult(mode: Mode, sp: Space, mem: Memory, copies: map<nat, nat>, c: Space, sp': Space,
                             mem': Memory) {
    sp'.areas == sp.areas && Forking(mode, sp, mem, sp.areas.Keys, copies, c, sp'.pt, mem')
  }

  lemma ForkStart(mode: Mode, sp: Space, mem: Memory)
    requires forall p: nat :: p in mem.frames <==> p in mem.rc
    ensures Forking(mode, sp, mem, {}, map[], Space(map[], map[]), sp.pt, mem)
  {
    assert Part(mode, sp, {}) == map[];
  }

  // ---- one more area ----

  lemma SharedMore(mode: Mode, t: Tree, done: set<nat>, k: nat, v: nat)
    requires k in t
    ensures SharedIn(mode, t, done + {k}, v) <==> SharedIn(mode, t, done, v) || SharesPage(mode, t[k], v)
  {
    if SharedIn(mode, t, done, v) {
      var j: nat :| j in done && j in t && SharesPage(mode, t[j], v);
      assert j in done + {k};
    }
    if SharesPage(mode, t[k], v) {
      assert k in done + {k};
    }
  }

  lemma CopiedInMore(mode: Mode, t: Tree, done: set<nat>, k: nat, v: nat)
    requires k in t
    ensures CopiedIn(mode, t, done + {k}, v) <==> CopiedIn(mode, t, done, v) || CopiesPage(mode, t[k], v)
  {
    if CopiedIn(mode, t, done, v) {
      var j: nat :| j in done && j in t && CopiesPage(mode, t[j], v);
      assert j in done + {k};
    }
    if CopiesPage(mode, t[k], v) {
      assert k in done + {k};
    }
  }

  /** A page of an area not yet done is neither shared nor copied yet. */
  lemma NotYet(mode: Mode, t: Tree, done: set<nat>, k: nat, v: nat)
    requires WellFormed(t) && k !in done && Owns(t, k, v)
    ensures !SharedIn(mode, t, done, v) && !CopiedIn(mode, t, done, v) && !OwnedIn(t, done, v)
  {
    forall j: nat | j in done && Owns(t, j, v) ensures j == k {
      OneOwner(t, j, k, v);
    }
  }

  /** The pages of `got` are those that the fork copies of area `k`. */
  ghost predicate GotFor(mode: Mode, sp: Space, k: nat, got: map<nat, nat>) {
    k in sp.areas && forall v: nat :: v in got <==> CopiesPage(mode, sp.areas[k], v)
  }

  lemma CopiesStep(mode: Mode, sp: Space, done: set<nat>, copies: map<nat, nat>, k: nat, got: map<nat, nat>)
    requires WellFormed(sp.areas) && k !in done && GotFor(mode, sp, k, got) && CopiesDone(mode, sp, done, copies)
    ensures CopiesDone(mode, sp, done + {k}, copies + got)
    ensures forall v: nat :: v in got ==> v !in copies
  {
    forall v: nat ensures v in copies + got <==> CopiedIn(mode, sp.areas, done + {k}, v) {
      CopiedInMore(mode, sp.areas, done, k, v);
    }
    forall v: nat | v in got ensures v !in copies {
      NotYet(mode, sp.areas, done, k, v);
    }
  }

  lemma AreasStep(mode: Mode, sp: Space, done: set<nat>, copies: map<nat, nat>, cAreas: Tree, k: nat,
                  got: map<nat, nat>, cAreas': Tree)
    requires WellFormed(sp.areas) && k !in done && GotFor(mode, sp, k, got)
             && AreasForked(mode, sp, done, copies, cAreas)
    requires cAreas' == if FateOf(mode, sp.areas[k]).Skip? then cAreas
                        else cAreas[k := AreaForChild(mode, sp.areas[k], copies + got)]
    ensures AreasForked(mode, sp, done + {k}, copies + got, cAreas')
  {
    forall j: nat | j in cAreas
      ensures AreaForChild(mode, sp.areas[j], copies + got) == AreaForChild(mode, sp.areas[j], copies)
    {
      OtherArea(mode, sp, copies, got, j, k);
    }
  }

  /** The copies of one area are not pages of another. */
  lemma OtherArea(mode: Mode, sp: Space, copies: map<nat, nat>, got: map<nat, nat>, j: nat, k: nat)
    requires WellFormed(sp.areas) && j in sp.areas && j != k && GotFor(mode, sp, k, got)
    ensures AreaForChild(mode, sp.areas[j], copies + got) == AreaForChild(mode, sp.areas[j], copies)
    ensures forall v: nat :: Owns(sp.areas, j, v) ==> v !in got
  {
    var a := sp.areas[j];
    forall v: nat | Owns(sp.areas, j, v) ensures v !in got {
      if v in got {
        OneOwner(sp.areas, j, k, v);
      }
    }
    assert (map v: nat | v in copies + got && a.start <= v < a.end :: (copies + got)[v])
        == (map v: nat | v in copies && a.start <= v < a.end :: copies[v]);
  }

  lemma ChildEntriesStep(mode: Mode, sp: Space, done: set<nat>, copies: map<nat, nat>, cPt: map<nat, Pte>, k: nat,
                         got: map<nat, nat>, cPt': map<nat, Pte>)
    requires WellFormed(sp.areas) && k !in done && GotFor(mode, sp, k, got)
    requires ChildEntriesForked(mode, sp, done, copies, cPt)
    requires forall v: nat :: PteAt(cPt', v)
               == if Owns(sp.areas, k, v) then PteForChild(mode, sp.areas[k], copies + got, v) else PteAt(cPt, v)
    ensures ChildEntriesForked(mode, sp, done + {k}, copies + got, cPt')
  {
    forall v: nat | v in cPt' ensures OwnedIn(sp.areas, done + {k}, v) {
      if Owns(sp.areas, k, v) {
        assert k in done + {k};
      } else {
        assert PteAt(cPt', v) == PteAt(cPt, v);
        var j: nat :| j in done && Owns(sp.areas, j, v);
        assert j in done + {k};
      }
    }
    forall j: nat, v: nat | j in done + {k} && Owns(sp.areas, j, v)
      ensures PteAt(cPt', v) == PteForChild(mode, sp.areas[j], copies + got, v)
    {
      if j != k {
        OtherEntry(mode, sp, copies, got, j, k, v);
        assert PteAt(cPt', v) == PteAt(cPt, v);
      }
    }
  }

  lemma OtherEntry(mode: Mode, sp: Space, copies: map<nat, nat>, got: map<nat, nat>, j: nat, k: nat, v: nat)
    requires WellFormed(sp.areas) && Owns(sp.areas, j, v) && j != k && GotFor(mode, sp, k, got)
    ensures !Owns(sp.areas, k, v)
    ensures PteForChild(mode, sp.areas[j], copies + got, v) == PteForChild(mode, sp.areas[j], copies, v)
  {
    OtherArea(mode, sp, copies, got, j, k);
    if Owns(sp.areas, k, v) {
      OneOwner(sp.areas, j, k, v);
    }
  }

  lemma ParentEntriesStep(mode: Mode, sp: Space, done: set<nat>, pPt: map<nat, Pte>, k: nat, pPt': map<nat, Pte>)
    requires WellFormed(sp.areas) && k !in done && k in sp.areas && ParentEntriesForked(mode, sp, done, pPt)
    requires forall v: nat :: SharesPage(mode, sp.areas[k], v) ==> v in sp.pt && v in pPt
    requires forall v: nat :: PteAt(pPt', v)
               == if SharesPage(mode, sp.areas[k], v) && v in pPt then Some(SetCow(pPt[v])) else PteAt(pPt, v)
    ensures ParentEntriesForked(mode, sp, done + {k}, pPt')
  {
    forall v: nat ensures PteAt(pPt', v) == ParentPteAt(mode, sp, done + {k}, v) {
      SharedMore(mode, sp.areas, done, k, v);
      assert PteAt(pPt, v) == ParentPteAt(mode, sp, done, v);
      if SharesPage(mode, sp.areas[k], v) {
        NotYet(mode, sp.areas, done, k, v);
      }
    }
  }

  /** What the pages of an area not yet done look like halfway. */
  lemma UndonePages(mode: Mode, sp: Space, mem: Memory, done: set<nat>, copies: map<nat, nat>, c: Space,
                    pPt: map<nat, Pte>, m: Memory, k: nat, v: nat)
    requires ForkReady(mode, sp, mem) && Forking(mode, sp, mem, done, copies, c, pPt, m) && k !in done
             && Owns(sp.areas, k, v)
    ensures v !in c.pt && v !in copies && PteAt(pPt, v) == PteAt(sp.pt, v)
    ensures SharesPage(mode, sp.areas[k], v) || CopiesPage(mode, sp.areas[k], v) ==>
              v in pPt && v in sp.pt && pPt[v].ppn == sp.pt[v].ppn
              && pPt[v].ppn in m.rc && pPt[v].ppn in m.frames && pPt[v].ppn in mem.rc && pPt[v].ppn in mem.frames
  {
    NotYet(mode, sp.areas, done, k, v);
    assert PteAt(pPt, v) == ParentPteAt(mode, sp, done, v);
  }

  lemma UndoneCopies(mode: Mode, sp: Space, mem: Memory, done: set<nat>, copies: map<nat, nat>, c: Space,
                     pPt: map<nat, Pte>, m: Memory, k: nat, got: map<nat, nat>)
    requires ForkReady(mode, sp, mem) && Forking(mode, sp, mem, done, copies, c, pPt, m) && k !in done
    requires GotFor(mode, sp, k, got)
    ensures forall v: nat :: v in got ==> v !in copies && v in sp.pt && sp.pt[v].ppn in mem.frames
    ensures forall v: nat :: v in got ==> v in pPt && pPt[v].ppn == sp.pt[v].ppn
  {
    forall v: nat | v in got
      ensures v !in copies && v in sp.pt && sp.pt[v].ppn in mem.frames && v in pPt && pPt[v].ppn == sp.pt[v].ppn
    {
      UndonePages(mode, sp, mem, done, copies, c, pPt, m, k, v);
    }
  }

  // ---- the memory, area by area ----

  /** An area that is left out or lent changes nothing. */
  lemma PlainPart(mode: Mode, sp: Space, done: set<nat>, k: nat)
    requires k in sp.areas && (FateOf(mode, sp.areas[k]).Skip? || FateOf(mode, sp.areas[k]).Lend?)
    ensures Part(mode, sp, done + {k}) == Part(mode, sp, done)
  {
    forall v: nat
      ensures SharedIn(mode, sp.areas, done + {k}, v) <==> SharedIn(mode, sp.areas, done, v)
      ensures CopiedIn(mode, sp.areas, done + {k}, v) <==> CopiedIn(mode, sp.areas, done, v)
    {
      SharedMore(mode, sp.areas, done, k, v);
      CopiedInMore(mode, sp.areas, done, k, v);
    }
  }

  /** Pages that are shared are not copied. */
  lemma SharedNotCopied(mode: Mode, t: Tree, ks: set<nat>, k: nat, v: nat)
    requires WellFormed(t) && k in t && SharesPage(mode, t[k], v)
    ensures !CopiedIn(mode, t, ks, v)
  {
    forall j: nat | j in ks && j in t && CopiesPage(mode, t[j], v) ensures false {
      OneOwner(t, j, k, v);
    }
  }

  /** Frame `p` is that of a page shared with one of the areas done. */
  ghost predicate SharedOn(mode: Mode, sp: Space, done: set<nat>, p: nat) {
    exists v: nat :: v in sp.pt && SharedIn(mode, sp.areas, done, v) && sp.pt[v].ppn == p
  }

  /** Which frames are shared, in terms of the pages. */
  lemma SharedFrames(mode: Mode, sp: Space, done: set<nat>, copies: map<nat, nat>, p: nat)
    requires WellFormed(sp.areas) && CopiesDone(mode, sp, done, copies)
    ensures SharedByFork(Part(mode, sp, done), copies, p) <==> SharedOn(mode, sp, done, p)
  {
    var part := Part(mode, sp, done);
    if SharedByFork(part, copies, p) {
      var v: nat :| v in part && v !in copies && part[v].ppn == p;
      assert SharedIn(mode, sp.areas, done, v);
    }
    if SharedOn(mode, sp, done, p) {
      var v: nat :| v in sp.pt && SharedIn(mode, sp.areas, done, v) && sp.pt[v].ppn == p;
      var k: nat :| k in done && k in sp.areas && SharesPage(mode, sp.areas[k], v);
      SharedNotCopied(mode, sp.areas, done, k, v);
      assert v in part && v !in copies;
    }
  }

  /** With one more shared area, its frames are shared too, and they were not before. */
  lemma SharedStep(mode: Mode, sp: Space, mem: Memory, done: set<nat>, copies: map<nat, nat>, k: nat, p: nat)
    requires ForkReady(mode, sp, mem) && k in sp.areas && k !in done && FateOf(mode, sp.areas[k]).Share?
    requires CopiesDone(mode, sp, done, copies) && CopiesDone(mode, sp, done + {k}, copies) && done <= sp.areas.Keys
    ensures SharedByFork(Part(mode, sp, done + {k}), copies, p)
            <==> SharedByFork(Part(mode, sp, done), copies, p) || Takes(sp.areas[k].frames, p)
    ensures !(SharedByFork(Part(mode, sp, done), copies, p) && Takes(sp.areas[k].frames, p))
  {
    SharedFrames(mode, sp, done, copies, p);
    SharedFrames(mode, sp, done + {k}, copies, p);
    SharedPagesStep(mode, sp, mem, done, k, p);
  }

  lemma SharedPagesStep(mode: Mode, sp: Space, mem: Memory, done: set<nat>, k: nat, p: nat)
    requires ForkReady(mode, sp, mem) && k in sp.areas && k !in done && FateOf(mode, sp.areas[k]).Share?
    requires done <= sp.areas.Keys
    ensures SharedOn(mode, sp, done + {k}, p) <==> SharedOn(mode, sp, done, p) || Takes(sp.areas[k].frames, p)
    ensures !(SharedOn(mode, sp, done, p) && Takes(sp.areas[k].frames, p))
  {
    if SharedOn(mode, sp, done + {k}, p) {
      var v: nat :| v in sp.pt && SharedIn(mode, sp.areas, done + {k}, v) && sp.pt[v].ppn == p;
      SharedMore(mode, sp.areas, done, k, v);
      if SharesPage(mode, sp.areas[k], v) {
        SharedPage(mode, sp, mem, k, v);
      }
    }
    if SharedOn(mode, sp, done, p) {
      var v: nat :| v in sp.pt && SharedIn(mode, sp.areas, done, v) && sp.pt[v].ppn == p;
      SharedMore(mode, sp.areas, done, k, v);
    }
    if Takes(sp.areas[k].frames, p) {
      TakenNow(mode, sp, mem, done, k, p);
    }
  }

  /** A frame of an area not yet done is not shared yet, and is with the area done. */
  lemma TakenNow(mode: Mode, sp: Space, mem: Memory, done: set<nat>, k: nat, p: nat)
    requires ForkReady(mode, sp, mem) && k in sp.areas && k !in done && FateOf(mode, sp.areas[k]).Share?
    requires done <= sp.areas.Keys && Takes(sp.areas[k].frames, p)
    ensures SharedOn(mode, sp, done + {k}, p) && !SharedOn(mode, sp, done, p)
  {
    var u: nat :| u in sp.areas[k].frames && sp.areas[k].frames[u] == p;
    SharedPage(mode, sp, mem, k, u);
    SharedMore(mode, sp.areas, done, k, u);
    NotYet(mode, sp.areas, done, k, u);
    forall v: nat | v in sp.pt && SharedIn(mode, sp.areas, done, v) ensures sp.pt[v].ppn != p {
      SharedAll(mode, sp.areas, done, v);
      assert IsShared(mode, sp, v);
    }
  }

  lemma SharedAll(mode: Mode, t: Tree, ks: set<nat>, v: nat)
    requires ks <= t.Keys && SharedIn(mode, t, ks, v)
    ensures SharedIn(mode, t, t.Keys, v)
  {
  }

  /** One more count on the frames of `given`, which become the shared ones of `pt'`. */
  lemma ShareCounts(mem: Memory, m: Memory, m': Memory, pt: map<nat, Pte>, pt': map<nat, Pte>, copies: map<nat, nat>,
                    given: map<nat, nat>)
    requires CountsForked(mem, m, pt, copies) && m'.frames == m.frames && CountsCloned(m.rc, m'.rc, given)
    requires forall v: nat :: v in copies ==> copies[v] !in mem.rc
    requires forall v: nat :: v in given ==> given[v] in mem.rc
    requires forall p: nat :: SharedByFork(pt', copies, p) <==> SharedByFork(pt, copies, p) || Takes(given, p)
    requires forall p: nat :: !(SharedByFork(pt, copies, p) && Takes(given, p))
    ensures CountsForked(mem, m', pt', copies)
  {
    forall v: nat | v in copies ensures copies[v] in m'.rc && m'.rc[copies[v]] == 1 {
      assert !Takes(given, copies[v]);
    }
  }

  lemma ShareMemory(mode: Mode, sp: Space, mem: Memory, done: set<nat>, copies: map<nat, nat>, m: Memory, k: nat,
                    m': Memory)
    requires ForkReady(mode, sp, mem) && k in sp.areas && k !in done && FateOf(mode, sp.areas[k]).Share?
    requires MemoryHalfForked(mode, sp, mem, done, copies, m) && done <= sp.areas.Keys
    requires CopiesDone(mode, sp, done, copies) && CopiesDone(mode, sp, done + {k}, copies)
    requires m'.frames == m.frames && CountsCloned(m.rc, m'.rc, sp.areas[k].frames)
    ensures MemoryHalfForked(mode, sp, mem, done + {k}, copies, m')
  {
    var given, part, part' := sp.areas[k].frames, Part(mode, sp, done), Part(mode, sp, done + {k});
    assert CountsForked(mem, m', part', copies) by {
      forall p: nat
        ensures SharedByFork(part', copies, p) <==> SharedByFork(part, copies, p) || Takes(given, p)
        ensures !(SharedByFork(part, copies, p) && Takes(given, p))
      {
        SharedStep(mode, sp, mem, done, copies, k, p);
      }
      forall v: nat | v in given ensures given[v] in mem.rc {
        SharedPage(mode, sp, mem, k, v);
      }
      ShareCounts(mem, m, m', part, part', copies, given);
    }
  }

  /** Pages that are copied are not shared. */
  lemma CopiedNotShared(mode: Mode, sp: Space, done: set<nat>, copies: map<nat, nat>, k: nat, got: map<nat, nat>,
                        p: nat)
    requires WellFormed(sp.areas) && k !in done && GotFor(mode, sp, k, got) && FateOf(mode, sp.areas[k]).Duplicate?
    ensures SharedByFork(Part(mode, sp, done + {k}), copies + got, p) <==> SharedByFork(Part(mode, sp, done), copies, p)
  {
    var part, part' := Part(mode, sp, done), Part(mode, sp, done + {k});
    if SharedByFork(part', copies + got, p) {
      var v: nat :| v in part' && v !in copies + got && part'[v].ppn == p;
      SharedMore(mode, sp.areas, done, k, v);
      CopiedInMore(mode, sp.areas, done, k, v);
      assert v in part && v !in copies;
    }
    if SharedByFork(part, copies, p) {
      var v: nat :| v in part && v !in copies && part[v].ppn == p;
      SharedMore(mode, sp.areas, done, k, v);
      CopiedInMore(mode, sp.areas, done, k, v);
      if v in got {
        NotYet(mode, sp.areas, done, k, v);
      }
      assert v in part' && v !in copies + got;
    }
  }

  lemma CopyFresh(mem: Memory, m: Memory, pt: map<nat, Pte>, copies: map<nat, nat>, got: map<nat, nat>)
    requires FreshCopies(mem, pt, copies) && OneToOne(got)
    requires forall v: nat :: v in got ==> v in pt && got[v] !in m.rc
    requires forall p: nat :: p in mem.rc ==> p in m.rc
    requires forall v: nat :: v in copies ==> copies[v] in m.rc
    ensures FreshCopies(mem, pt, copies + got)
  {
  }

  /** Which frames the copies use, with those of `got` added. */
  lemma MoreCopies(copies: map<nat, nat>, got: map<nat, nat>, p: nat)
    requires forall v: nat :: v in got ==> v !in copies
    ensures Takes(copies + got, p) <==> Takes(copies, p) || Takes(got, p)
  {
    if Takes(copies, p) {
      var v: nat :| v in copies && copies[v] == p;
      assert v in copies + got && (copies + got)[v] == p;
    }
    if Takes(got, p) {
      var v: nat :| v in got && got[v] == p;
      assert v in copies + got && (copies + got)[v] == p;
    }
  }

  lemma CopyCounts(mem: Memory, m: Memory, m': Memory, pt: map<nat, Pte>, pt': map<nat, Pte>,
                   copies: map<nat, nat>, got: map<nat, nat>, all: map<nat, nat>)
    requires CountsForked(mem, m, pt, copies) && FramesTaken(m, m', got)
    requires forall p: nat :: Takes(all, p) <==> Takes(copies, p) || Takes(got, p)
    requires forall p: nat :: SharedByFork(pt', all, p) <==> SharedByFork(pt, copies, p)
    ensures CountsForked(mem, m', pt', all)
  {
    forall v: nat | v in all ensures all[v] in m'.rc && m'.rc[all[v]] == 1 {
      assert Takes(all, all[v]);
    }
  }

  lemma CopyBytes(sp: Space, mem: Memory, copies: map<nat, nat>, m: Memory, m1: Memory, m': Memory, pPt: map<nat, Pte>,
                  got: map<nat, nat>)
    requires BytesForked(mem, m, sp.pt, copies) && FramesTaken(m, m1, got)
    requires forall p: nat :: p in m.frames ==> p in m1.frames && m1.frames[p] == m.frames[p]
    requires BytesCopied(m1.frames, m'.frames, pPt, got)
    requires forall v: nat :: v in got ==>
               v in sp.pt && v in pPt && pPt[v].ppn == sp.pt[v].ppn && sp.pt[v].ppn in mem.frames
    ensures BytesForked(mem, m', sp.pt, copies + got)
  {
    forall p: nat | p in m.frames ensures p in m'.frames && m'.frames[p] == m.frames[p] {
      assert !Takes(got, p);
    }
  }

  /** The pages of `got`, which are mapped to frames in use, have been copied. */
  ghost predicate AreaCopied(m: Memory, m1: Memory, m': Memory, pPt: map<nat, Pte>, got: map<nat, nat>) {
    && FramesTaken(m, m1, got) && m'.rc == m1.rc
    && (forall p: nat :: p in m.frames ==> p in m1.frames && m1.frames[p] == m.frames[p])
    && (forall p: nat :: p in m'.frames <==> p in m1.frames)
    && BytesCopied(m1.frames, m'.frames, pPt, got)
  }

  lemma CopyMemory(mode: Mode, sp: Space, mem: Memory, done: set<nat>, copies: map<nat, nat>, pPt: map<nat, Pte>,
                   m: Memory, k: nat, got: map<nat, nat>, m1: Memory, m': Memory)
    requires WellFormed(sp.areas) && k !in done && GotFor(mode, sp, k, got) && FateOf(mode, sp.areas[k]).Duplicate?
    requires MemoryHalfForked(mode, sp, mem, done, copies, m) && AreaCopied(m, m1, m', pPt, got)
    requires forall v: nat :: v in got ==> v !in copies && v in sp.pt && sp.pt[v].ppn in mem.frames
    requires forall v: nat :: v in got ==> v in pPt && pPt[v].ppn == sp.pt[v].ppn
    ensures MemoryHalfForked(mode, sp, mem, done + {k}, copies + got, m')
  {
    assert FreshCopies(mem, sp.pt, copies + got) by {
      CopyFresh(mem, m, sp.pt, copies, got);
    }
    var part, part' := Part(mode, sp, done), Part(mode, sp, done + {k});
    assert CountsForked(mem, m', part', copies + got) by {
      forall p: nat
        ensures Takes(copies + got, p) <==> Takes(copies, p) || Takes(got, p)
        ensures SharedByFork(part', copies + got, p) <==> SharedByFork(part, copies, p)
      {
        MoreCopies(copies, got, p);
        CopiedNotShared(mode, sp, done, copies, k, got, p);
      }
      CopyCounts(mem, m, m', part, part', copies, got, copies + got);
    }
    CopyBytes(sp, mem, copies, m, m1, m', pPt, got);
  }

  lemma SamePt(x: map<nat, Pte>, y: map<nat, Pte>)
    requires forall v: nat :: PteAt(x, v) == PteAt(y, v)
    ensures x == y
  {
    forall v: nat ensures v in x <==> v in y {
      assert PteAt(x, v) == PteAt(y, v);
    }
    forall v: nat | v in x ensures x[v] == y[v] {
      assert PteAt(x, v) == PteAt(y, v);
    }
  }

  // ---- the steps inside one area ----

  lemma TakesMore(m: map<nat, nat>, v: nat, p: nat, q: nat)
    requires v !in m
    ensures Takes(m[v := p], q) <==> Takes(m, q) || q == p
  {
    if Takes(m, q) {
      var u: nat :| u in m && m[u] == q;
      assert m[v := p][u] == q;
    }
    assert m[v := p][v] == p;
  }

  lemma CloneMore(rc: map<nat, nat>, rc': map<nat, nat>, m: map<nat, nat>, v: nat, p: nat)
    requires CountsCloned(rc, rc', m) && v !in m && p in rc && !Takes(m, p)
    ensures CountsCloned(rc, rc'[p := rc'[p] + 1], m[v := p])
  {
    forall q: nat ensures Takes(m[v := p], q) <==> Takes(m, q) || q == p {
      TakesMore(m, v, p, q);
    }
  }

  lemma TakeMore(mem: Memory, mem': Memory, m: map<nat, nat>, v: nat, p: nat)
    requires FramesTaken(mem, mem', m) && v !in m && p !in mem'.rc && p !in mem'.frames
    ensures FramesTaken(mem, AllocFrame(mem', p, ZeroPage()), m[v := p])
  {
    forall q: nat ensures Takes(m[v := p], q) <==> Takes(m, q) || q == p {
      TakesMore(m, v, p, q);
    }
    assert forall u: nat :: u in m ==> Takes(m, m[u]);
  }

  lemma CopyMore(frames: map<nat, Page>, frames': map<nat, Page>, pt: map<nat, Pte>, m: map<nat, nat>, v: nat, p: nat)
    requires BytesCopied(frames, frames', pt, m) && v !in m && v in pt && !Takes(m, p)
    requires pt[v].ppn in frames && !Takes(m, pt[v].ppn) && pt[v].ppn in frames'
    ensures BytesCopied(frames, frames'[p := frames'[pt[v].ppn]], pt, m[v := p])
  {
    forall q: nat ensures Takes(m[v := p], q) <==> Takes(m, q) || q == p {
      TakesMore(m, v, p, q);
    }
    assert forall u: nat :: u in m ==> Takes(m, m[u]);
  }

  /** `frames` has the pages `vs` of `given`. */
  ghost predicate GivenSoFar(given: map<nat, nat>, vs: seq<nat>, frames: map<nat, nat>) {
    && (forall v: nat :: v in frames <==> v in vs)
    && (forall v: nat :: v in frames ==> v in given && frames[v] == given[v])
  }

  lemma GivenMore(given: map<nat, nat>, vs: seq<nat>, i: nat, frames: map<nat, nat>)
    requires i < |vs| && vs[i] in given && GivenSoFar(given, vs[..i], frames)
    requires forall a, b :: 0 <= a < b < |vs| ==> vs[a] < vs[b]
    ensures GivenSoFar(given, vs[..i + 1], frames[vs[i] := given[vs[i]]])
    ensures vs[i] !in frames && (OneToOne(given) ==> !Takes(frames, given[vs[i]]))
  {
    assert vs[..i + 1] == vs[..i] + [vs[i]];
  }

  lemma GivenAll(given: map<nat, nat>, vs: seq<nat>, frames: map<nat, nat>)
    requires GivenSoFar(given, vs[..|vs|], frames) && forall v: nat :: v in vs <==> v in given
    ensures frames == given
  {
    assert vs[..|vs|] == vs;
  }

  /** The pages of `given` have got entries, marked copy on write or not. */
  ghost predicate EntriesGiven(pt: map<nat, Pte>, pt': map<nat, Pte>, given: map<nat, nat>, flags: PteFlags,
                               cow: bool) {
    forall v: nat :: PteAt(pt', v) == if v in given then Some(GivenPte(given[v], flags, cow)) else PteAt(pt, v)
  }

  function GivenPte(p: nat, flags: PteFlags, cow: bool): Pte {
    if cow then SetCow(NewPage(p, flags)) else NewPage(p, flags)
  }

  lemma EntriesMore(pt: map<nat, Pte>, pt': map<nat, Pte>, given: map<nat, nat>, flags: PteFlags, cow: bool, v: nat,
                    p: nat)
    requires EntriesGiven(pt, pt', given, flags, cow) && v !in given
    ensures v !in pt ==> v !in pt'
    ensures EntriesGiven(pt, pt'[v := GivenPte(p, flags, cow)], given[v := p], flags, cow)
  {
    assert PteAt(pt', v) == PteAt(pt, v);
    var pt2, given2 := pt'[v := GivenPte(p, flags, cow)], given[v := p];
    forall u: nat ensures PteAt(pt2, u) == if u in given2 then Some(GivenPte(given2[u], flags, cow)) else PteAt(pt, u) {
      assert PteAt(pt', u) == if u in given then Some(GivenPte(given[u], flags, cow)) else PteAt(pt, u);
    }
  }

  /** The loop of `map_given_frames` when the pages `vs[..i]`, which are `done`, have been mapped. */
  ghost predicate Giving(given: map<nat, nat>, vs: seq<nat>, i: nat, done: map<nat, nat>, cow: bool,
                         pt0: map<nat, Pte>, pt: map<nat, Pte>, flags: PteFlags, rc0: map<nat, nat>,
                         rc: map<nat, nat>) {
    && i <= |vs| && (forall a, b :: 0 <= a < b < |vs| ==> vs[a] < vs[b]) && (forall v: nat :: v in vs <==> v in given)
    && (forall v: nat :: v in given ==> v !in pt0)
    && (cow ==> OneToOne(given) && forall v: nat :: v in given ==> given[v] in rc0)
    && GivenSoFar(given, vs[..i], done) && EntriesGiven(pt0, pt, done, flags, cow)
    && (if cow then CountsCloned(rc0, rc, done) else rc == rc0)
  }

  lemma GivingStart(given: map<nat, nat>, vs: seq<nat>, cow: bool, pt: map<nat, Pte>, flags: PteFlags,
                    rc: map<nat, nat>)
    requires (forall a, b :: 0 <= a < b < |vs| ==> vs[a] < vs[b]) && (forall v: nat :: v in vs <==> v in given)
    requires forall v: nat :: v in given ==> v !in pt
    requires cow ==> OneToOne(given) && forall v: nat :: v in given ==> given[v] in rc
    ensures Giving(given, vs, 0, map[], cow, pt, pt, flags, rc, rc)
  {
  }

  lemma GivingNext(given: map<nat, nat>, vs: seq<nat>, i: nat, done: map<nat, nat>, cow: bool,
                   pt0: map<nat, Pte>, pt: map<nat, Pte>, flags: PteFlags, rc0: map<nat, nat>, rc: map<nat, nat>)
    requires Giving(given, vs, i, done, cow, pt0, pt, flags, rc0, rc) && i < |vs|
    ensures vs[i] in given && vs[i] !in pt && (cow ==> given[vs[i]] in rc)
    ensures var v, p := vs[i], given[vs[i]];
            Giving(given, vs, i + 1, done[v := p], cow, pt0, pt[v := GivenPte(p, flags, cow)], flags, rc0,
                   if cow then rc[p := rc[p] + 1] else rc)
  {
    assert vs[i] in vs;
    GivenMore(given, vs, i, done);
    EntriesMore(pt0, pt, done, flags, cow, vs[i], given[vs[i]]);
    if cow {
      CloneMore(rc0, rc, done, vs[i], given[vs[i]]);
    }
  }

  /** The pages of a new area below `v` have got frames of their own. */
  ghost predicate FreshSoFar(a: MapArea, v: nat, frames: map<nat, nat>, pt0: map<nat, Pte>, pt: map<nat, Pte>,
                             m0: Memory, m: Memory) {
    && a.start <= v && (v <= a.end || v == a.start) && (forall u: nat :: u in frames <==> a.start <= u < v)
    && EntriesGiven(pt0, pt, frames, FlagsOf(a.perm), false) && FramesTaken(m0, m, frames)
    && (forall p: nat :: p in m0.frames ==> p in m.frames && m.frames[p] == m0.frames[p])
  }

  lemma FreshStep(a: MapArea, v: nat, frames: map<nat, nat>, pt0: map<nat, Pte>, pt: map<nat, Pte>,
                  m0: Memory, m: Memory, f: nat)
    requires FreshSoFar(a, v, frames, pt0, pt, m0, m) && v < a.end && f !in m.rc && f !in m.frames
    ensures FreshSoFar(a, v + 1, frames[v := f], pt0, pt[v := NewPage(f, FlagsOf(a.perm))],
                       m0, AllocFrame(m, f, ZeroPage()))
  {
    TakeMore(m0, m, frames, v, f);
    EntriesMore(pt0, pt, frames, FlagsOf(a.perm), false, v, f);
  }

  /** The pages of `got` below `v` are copied. */
  ghost predicate CopiedSoFar(got: map<nat, nat>, copied: map<nat, nat>, v: nat) {
    && (forall u: nat :: u in copied <==> u in got && u < v)
    && (forall u: nat :: u in copied ==> copied[u] == got[u])
  }

  lemma CopiedMore(got: map<nat, nat>, copied: map<nat, nat>, v: nat, p: nat)
    requires OneToOne(got) && CopiedSoFar(got, copied, v) && v in got && !Takes(got, p)
    ensures !Takes(copied, p) && !Takes(copied, got[v])
    ensures CopiedSoFar(got, copied[v := got[v]], v + 1)
  {
  }

  lemma CopiedAll(got: map<nat, nat>, copied: map<nat, nat>, v: nat)
    requires CopiedSoFar(got, copied, v) && forall u: nat :: u in got ==> u < v
    ensures copied == got
  {
  }

  /** The pages that have got new frames can be copied from where `pPt` maps them. */
  lemma CopyReady(m: Memory, m1: Memory, pt: map<nat, Pte>, pt': map<nat, Pte>, pPt: map<nat, Pte>, flags: PteFlags,
                  got: map<nat, nat>)
    requires FramesTaken(m, m1, got) && EntriesGiven(pt, pt', got, flags, false)
    requires forall v: nat :: v in got ==> v in pPt && pPt[v].ppn in m.frames && pPt[v].ppn in m.rc
    ensures forall v: nat :: v in got ==> v in pt' && pt'[v].ppn == got[v] && got[v] in m1.frames
    ensures forall v: nat :: v in got ==> pPt[v].ppn in m1.frames && !Takes(got, pPt[v].ppn)
  {
    forall v: nat | v in got ensures v in pt' && pt'[v].ppn == got[v] && got[v] in m1.frames {
      assert PteAt(pt', v) == Some(GivenPte(got[v], flags, false));
      assert Takes(got, got[v]);
    }
  }

  // ---- the steps of the loop ----

  /** Child entries after the pages of `given` have got theirs. */
  lemma GivenEntries(mode: Mode, sp: Space, done: set<nat>, copies: map<nat, nat>, k: nat, got: map<nat, nat>,
                     c: Space, cPt': map<nat, Pte>, given: map<nat, nat>)
    requires WellFormed(sp.areas) && k !in done && GotFor(mode, sp, k, got)
    requires ChildEntriesForked(mode, sp, done, copies, c.pt)
    requires EntriesGiven(c.pt, cPt', given, FlagsFor(mode, sp.areas[k]), FateOf(mode, sp.areas[k]).Share?)
    requires given == GivenFor(mode, sp.areas[k], got)
    requires forall v: nat :: Owns(sp.areas, k, v) ==> v !in copies
    ensures ChildEntriesForked(mode, sp, done + {k}, copies + got, cPt')
  {
    var a := sp.areas[k];
    forall v: nat
      ensures PteAt(cPt', v) == if Owns(sp.areas, k, v) then PteForChild(mode, a, copies + got, v) else PteAt(c.pt, v)
    {
      if Owns(sp.areas, k, v) {
        NotYet(mode, sp.areas, done, k, v);
        assert PteAt(c.pt, v) == None;
      }
    }
    ChildEntriesStep(mode, sp, done, copies, c.pt, k, got, cPt');
  }

  lemma OldCopies(mode: Mode, sp: Space, done: set<nat>, copies: map<nat, nat>, k: nat)
    requires WellFormed(sp.areas) && k !in done && CopiesDone(mode, sp, done, copies)
    ensures forall v: nat :: Owns(sp.areas, k, v) ==> v !in copies
  {
    forall v: nat | Owns(sp.areas, k, v) ensures v !in copies {
      NotYet(mode, sp.areas, done, k, v);
    }
  }

  lemma AddNothing(m: map<nat, nat>)
    ensures m + map[] == m
  {
  }

  /** The frames the pages of area `k` get in the child, the fresh ones being `got`. */
  function GivenFor(mode: Mode, a: MapArea, got: map<nat, nat>): map<nat, nat> {
    match FateOf(mode, a)
    case Skip => map[]
    case Duplicate => got
    case _ => a.frames
  }

  /** The flags its entries get. */
  function FlagsFor(mode: Mode, a: MapArea): PteFlags {
    if FateOf(mode, a).Duplicate? then FlagsOf(a.perm) else RawFlags(a.perm)
  }

  /** What the round for one area does to the child and to the page table of the parent. */
  ghost predicate AreaForked(mode: Mode, a: MapArea, copies: map<nat, nat>, got: map<nat, nat>,
                             c: Space, pPt: map<nat, Pte>, c': Space, pPt': map<nat, Pte>) {
    && c'.areas == (if FateOf(mode, a).Skip? then c.areas else c.areas[a.start := AreaForChild(mode, a, copies + got)])
    && EntriesGiven(c.pt, c'.pt, GivenFor(mode, a, got), FlagsFor(mode, a), FateOf(mode, a).Share?)
    && (forall v: nat ::
          PteAt(pPt', v) == if SharesPage(mode, a, v) && v in pPt then Some(SetCow(pPt[v])) else PteAt(pPt, v))
  }

  lemma SpacesStep(mode: Mode, sp: Space, done: set<nat>, copies: map<nat, nat>, c: Space, pPt: map<nat, Pte>,
                   k: nat, got: map<nat, nat>, c': Space, pPt': map<nat, Pte>)
    requires WellFormed(sp.areas) && k !in done && GotFor(mode, sp, k, got)
             && SpacesForked(mode, sp, done, copies, c, pPt)
    requires forall v: nat :: SharesPage(mode, sp.areas[k], v) ==> v in sp.pt
    requires AreaForked(mode, sp.areas[k], copies, got, c, pPt, c', pPt')
    ensures SpacesForked(mode, sp, done + {k}, copies + got, c', pPt')
    ensures forall v: nat :: Owns(sp.areas, k, v) ==> v !in copies
  {
    CopiesStep(mode, sp, done, copies, k, got);
    OldCopies(mode, sp, done, copies, k);
    AreasStep(mode, sp, done, copies, c.areas, k, got, c'.areas);
    GivenEntries(mode, sp, done, copies, k, got, c, c'.pt, GivenFor(mode, sp.areas[k], got));
    SharedMapped(mode, sp, done, pPt, k);
    ParentEntriesStep(mode, sp, done, pPt, k, pPt');
  }

  lemma SharedMapped(mode: Mode, sp: Space, done: set<nat>, pPt: map<nat, Pte>, k: nat)
    requires k in sp.areas && ParentEntriesForked(mode, sp, done, pPt)
    requires forall v: nat :: SharesPage(mode, sp.areas[k], v) ==> v in sp.pt
    ensures forall v: nat :: SharesPage(mode, sp.areas[k], v) ==> v in pPt
  {
    forall v: nat | SharesPage(mode, sp.areas[k], v) ensures v in pPt {
      assert PteAt(pPt, v) == ParentPteAt(mode, sp, done, v);
    }
  }

  /** An area that is left out or lent: nothing is counted. */
  lemma ForkKeeps(mode: Mode, sp: Space, mem: Memory, done: set<nat>, copies: map<nat, nat>, c: Space,
                  pPt: map<nat, Pte>, m: Memory, k: nat, c': Space)
    requires WellFormed(sp.areas) && Forking(mode, sp, mem, done, copies, c, pPt, m) && k in sp.areas && k !in done
    requires FateOf(mode, sp.areas[k]).Skip? || FateOf(mode, sp.areas[k]).Lend?
    requires AreaForked(mode, sp.areas[k], copies, map[], c, pPt, c', pPt)
    ensures Forking(mode, sp, mem, done + {k}, copies, c', pPt, m)
  {
    AddNothing(copies);
    SpacesStep(mode, sp, done, copies, c, pPt, k, map[], c', pPt);
    PlainPart(mode, sp, done, k);
  }

  /** A private mmap area of a copy-on-write fork. */
  lemma ForkShares(mode: Mode, sp: Space, mem: Memory, done: set<nat>, copies: map<nat, nat>, c: Space,
                   pPt: map<nat, Pte>, m: Memory, k: nat, c': Space, pPt': map<nat, Pte>, m': Memory)
    requires ForkReady(mode, sp, mem) && Forking(mode, sp, mem, done, copies, c, pPt, m) && done <= sp.areas.Keys
    requires k in sp.areas && k !in done && FateOf(mode, sp.areas[k]).Share?
    requires AreaForked(mode, sp.areas[k], copies, map[], c, pPt, c', pPt')
    requires m'.frames == m.frames && CountsCloned(m.rc, m'.rc, sp.areas[k].frames)
    ensures Forking(mode, sp, mem, done + {k}, copies, c', pPt', m')
  {
    AddNothing(copies);
    assert SpacesForked(mode, sp, done + {k}, copies, c', pPt') by {
      SpacesStep(mode, sp, done, copies, c, pPt, k, map[], c', pPt');
    }
    ShareMemory(mode, sp, mem, done, copies, m, k, m');
  }

  /** An area that is copied. */
  lemma ForkCopies(mode: Mode, sp: Space, mem: Memory, done: set<nat>, copies: map<nat, nat>, c: Space,
                   pPt: map<nat, Pte>, m: Memory, k: nat, got: map<nat, nat>, c': Space, m1: Memory, m': Memory)
    requires ForkReady(mode, sp, mem) && Forking(mode, sp, mem, done, copies, c, pPt, m)
    requires k in sp.areas && k !in done && FateOf(mode, sp.areas[k]).Duplicate? && GotFor(mode, sp, k, got)
    requires AreaForked(mode, sp.areas[k], copies, got, c, pPt, c', pPt) && AreaCopied(m, m1, m', pPt, got)
    ensures Forking(mode, sp, mem, done + {k}, copies + got, c', pPt, m')
  {
    assert SpacesForked(mode, sp, done + {k}, copies + got, c', pPt) by {
      SpacesStep(mode, sp, done, copies, c, pPt, k, got, c', pPt);
    }
    assert MemoryHalfForked(mode, sp, mem, done + {k}, copies + got, m') by {
      UndoneCopies(mode, sp, mem, done, copies, c, pPt, m, k, got);
      CopyMemory(mode, sp, mem, done, copies, pPt, m, k, got, m1, m');
    }
  }

  lemma CopiedFrames(mode: Mode, sp: Space, copies: map<nat, nat>, k: nat, got: map<nat, nat>)
    requires GotFor(mode, sp, k, got) && FateOf(mode, sp.areas[k]).Duplicate?
    requires WellFormed(sp.areas) && forall v: nat :: Owns(sp.areas, k, v) ==> v !in copies
    ensures AreaForChild(mode, sp.areas[k], copies + got) == sp.areas[k].(frames := got, mmapFlags := {})
  {
    var a := sp.areas[k];
    assert forall v: nat :: a.start <= v < a.end ==> Owns(sp.areas, k, v);
    assert (map v: nat | v in copies + got && a.start <= v < a.end :: (copies + got)[v]) == got;
  }

  // ---- what the methods need to know halfway ----

  /** The frames of an area not yet done are on pages the child has not mapped. */
  lemma FramesUnmapped(mode: Mode, sp: Space, mem: Memory, done: set<nat>, copies: map<nat, nat>, c: Space,
                       pPt: map<nat, Pte>, m: Memory, k: nat)
    requires ForkReady(mode, sp, mem) && Forking(mode, sp, mem, done, copies, c, pPt, m) && k in sp.areas && k !in done
    ensures forall v: nat :: v in sp.areas[k].frames ==> v !in c.pt
  {
    forall v: nat | v in sp.areas[k].frames ensures v !in c.pt {
      UndonePages(mode, sp, mem, done, copies, c, pPt, m, k, v);
    }
  }

  /** An area to be shared is on frames of its own, mapped in the parent only. */
  lemma ShareReady(mode: Mode, sp: Space, mem: Memory, done: set<nat>, copies: map<nat, nat>, c: Space,
                   pPt: map<nat, Pte>, m: Memory, k: nat)
    requires ForkReady(mode, sp, mem) && Forking(mode, sp, mem, done, copies, c, pPt, m) && k in sp.areas && k !in done
    requires FateOf(mode, sp.areas[k]).Share?
    ensures OneToOne(sp.areas[k].frames)
    ensures forall v: nat :: v in sp.areas[k].frames ==> v !in c.pt && v in pPt && sp.areas[k].frames[v] in m.rc
  {
    forall v: nat | v in sp.areas[k].frames
      ensures IsShared(mode, sp, v) && sp.pt[v].ppn == sp.areas[k].frames[v]
      ensures v !in c.pt && v in pPt && sp.areas[k].frames[v] in m.rc
    {
      SharedPage(mode, sp, mem, k, v);
      UndonePages(mode, sp, mem, done, copies, c, pPt, m, k, v);
    }
  }

  /** The pages of an area to be copied are mapped in the parent only. */
  lemma PagesReady(mode: Mode, sp: Space, mem: Memory, done: set<nat>, copies: map<nat, nat>, c: Space,
                   pPt: map<nat, Pte>, m: Memory, k: nat)
    requires ForkReady(mode, sp, mem) && Forking(mode, sp, mem, done, copies, c, pPt, m) && k in sp.areas && k !in done
    requires FateOf(mode, sp.areas[k]).Duplicate?
    ensures sp.areas[k].start == k <= sp.areas[k].end
    ensures forall v: nat :: k <= v < sp.areas[k].end ==>
              v !in c.pt && v in pPt && pPt[v].ppn in m.frames && pPt[v].ppn in m.rc
  {
    forall v: nat | k <= v < sp.areas[k].end
      ensures v !in c.pt && v in pPt && pPt[v].ppn in m.frames && pPt[v].ppn in m.rc
    {
      assert Owns(sp.areas, k, v);
      UndonePages(mode, sp, mem, done, copies, c, pPt, m, k, v);
    }
  }

  lemma CopiedArea(mode: Mode, sp: Space, done: set<nat>, copies: map<nat, nat>, c: Space, pPt: map<nat, Pte>, k: nat,
                   got: map<nat, nat>, c': Space)
    requires WellFormed(sp.areas) && CopiesDone(mode, sp, done, copies) && k in sp.areas && k !in done
    requires FateOf(mode, sp.areas[k]).Duplicate? && forall v: nat :: v in got <==> k <= v < sp.areas[k].end
    requires c'.areas == c.areas[k := sp.areas[k].(frames := got, mmapFlags := {})]
    requires EntriesGiven(c.pt, c'.pt, got, FlagsOf(sp.areas[k].perm), false)
    ensures GotFor(mode, sp, k, got) && AreaForked(mode, sp.areas[k], copies, got, c, pPt, c', pPt)
  {
    OldCopies(mode, sp, done, copies, k);
    assert GotFor(mode, sp, k, got);
    CopiedFrames(mode, sp, copies, k, got);
  }
}
