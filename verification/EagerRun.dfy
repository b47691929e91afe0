/** The eager kernel can always follow: every run of the copy-on-write kernel that changes no protection
    has an eager run with the same visible operations. */
module EagerRuns {
  import opened Base
  import opened Ptes
  import opened Areas
  import opened AreaEdits
  import opened AreaFrames
  import opened CowWorlds
  import opened CowInvariant
  import opened CowRuns
  import opened CowAccess

  // ---- worlds with the same areas ----

  predicate SameKind(a: MapArea, b: MapArea) {
    && a.start == b.start && a.end == b.end && a.areaType == b.areaType && a.perm == b.perm
    && (a.areaType.Mmap? ==> (MAP_SHARED in a.mmapFlags <==> MAP_SHARED in b.mmapFlags))
  }

  ghost predicate Alike(t: Tree, u: Tree) {
    forall k: nat :: (k in t <==> k in u) && (k in t ==> SameKind(t[k], u[k]))
  }

  /** Same processes, same areas; frames and entries may differ. */
  ghost predicate WorldsAlike(w: World, e: World) {
    forall pid: nat :: (pid in w.spaces <==> pid in e.spaces)
      && (pid in w.spaces ==> Alike(w.spaces[pid].areas, e.spaces[pid].areas))
  }

  lemma AlikeAlso(w0: World, w: World, e: World)
    requires WorldsAlike(w0, e) && WorldsAlike(w0, w)
    ensures WorldsAlike(w, e)
  {
    forall pid: nat ensures (pid in w.spaces <==> pid in e.spaces)
      && (pid in w.spaces ==> Alike(w.spaces[pid].areas, e.spaces[pid].areas)) {
      assert pid in w0.spaces <==> pid in e.spaces;
      assert pid in w0.spaces <==> pid in w.spaces;
    }
  }

  lemma AlikeOwns(t: Tree, u: Tree, k: nat, v: nat)
    requires Alike(t, u)
    ensures Owns(t, k, v) <==> Owns(u, k, v)
  {
    assert k in t <==> k in u;
  }

  // ---- rights in the eager kernel ----

  predicate FullRight(pt: map<nat, Pte>, v: nat, perm: MapPermission) {
    v in pt && pt[v].flags.present && pt[v].flags.w == perm.w
  }

  /** Every entry has the write right of its area, and the hardware uses it. */
  ghost predicate FullRights(sp: Space) {
    forall k: nat, v: nat :: k in sp.areas && v in sp.areas[k].frames ==> FullRight(sp.pt, v, sp.areas[k].perm)
  }

  ghost predicate EagerRights(w: World) {
    forall pid: nat :: pid in w.spaces ==> FullRights(w.spaces[pid])
  }

  // ---- one fault ----

  lemma FaultAlike(w: World, pid: nat, v: nat, isWrite: bool, f: nat, w': World)
    requires FaultDone(w, pid, v, isWrite, f, w')
    ensures WorldsAlike(w, w')
  {
    var r := Fault(w.spaces[pid], w.mem, v, isWrite, f);
    if r.Handled? {
      FaultAreas(w.spaces[pid], w.mem, v, isWrite, f);
    }
  }

  lemma FaultAreas(sp: Space, mem: Memory, v: nat, isWrite: bool, f: nat)
    requires WellFormed(sp.areas)
    requires forall k: nat :: k in sp.areas && v in sp.areas[k].frames ==>
               v in sp.pt && sp.areas[k].frames[v] in mem.rc && sp.areas[k].frames[v] in mem.frames
    requires Fault(sp, mem, v, isWrite, f).Handled?
    ensures Alike(sp.areas, Fault(sp, mem, v, isWrite, f).sp.areas)
  {
    MapOneAlike(sp, AreaOf(sp.areas, v).value, v, f);
  }

  lemma MapOneAlike(sp: Space, k: nat, v: nat, f: nat)
    requires k in sp.areas
    ensures Alike(sp.areas, MapOne(sp, k, v, f).areas)
  {
  }

  /** The eager kernel fills page `v`, which has no frame. */
  lemma FillPage(e: World, pid: nat, k: nat, v: nat, f: nat) returns (e': World)
    requires WorldOk(e) && EagerRights(e) && MmapPageAt(e, pid, k, v) && v !in e.spaces[pid].pt && f !in e.mem.rc
    ensures FaultDone(e, pid, v, true, f, e') && EagerRights(e') && WorldsAlike(e, e')
    ensures pid in e'.spaces && e'.spaces[pid].pt.Keys == e.spaces[pid].pt.Keys + {v}
    ensures Covered(e.spaces[pid].areas, v) && Writable(e', pid, v) == e.spaces[pid].areas[k].perm.w
  {
    var sp := e.spaces[pid];
    assert Covered(sp.areas, v);
    assert SpaceOk(sp) && FullRights(sp);
    AlwaysFaultable(e, pid, v);
    NoFrameNoEntry(sp, k, v);
    e' := Put(e, pid, MapOne(sp, k, v, f), AllocFrame(e.mem, f, ZeroPage()));
    FillSpace(sp, e.mem, k, v, f);
    FaultAlike(e, pid, v, true, f, e');
    PutRights(e, pid, MapOne(sp, k, v, f), e'.mem);
  }

  lemma PutRights(e: World, pid: nat, sp: Space, mem: Memory)
    requires EagerRights(e) && FullRights(sp)
    ensures EagerRights(Put(e, pid, sp, mem))
  {
  }

  lemma FillSpace(sp: Space, mem: Memory, k: nat, v: nat, f: nat)
    requires WellFormed(sp.areas) && Owns(sp.areas, k, v) && sp.areas[k].areaType.Mmap? && FullRights(sp)
    requires v !in sp.pt && v !in sp.areas[k].frames
    requires forall j: nat :: j in sp.areas ==> v !in sp.areas[j].frames
    ensures Fault(sp, mem, v, true, f) == Handled(MapOne(sp, k, v, f), AllocFrame(mem, f, ZeroPage()))
    ensures FullRights(MapOne(sp, k, v, f)) && MapOne(sp, k, v, f).pt.Keys == sp.pt.Keys + {v}
  {
    assert Covered(sp.areas, v);
    OneOwner(sp.areas, AreaOf(sp.areas, v).value, k, v);
  }

  // ---- each operation in the eager kernel ----

  /** The two kernels side by side: same areas, same contents, and full rights on the eager side. */
  ghost predicate Follows(w: World, e: World, s: Private) {
    WorldOk(w) && WorldOk(e) && Represents(w, s) && Represents(e, s) && WorldsAlike(w, e) && EagerRights(e)
  }

  lemma NewAreaFollows(w: World, e: World, pid: nat, a: MapArea)
    requires WorldsAlike(w, e) && EagerRights(e) && pid in w.spaces && NewMmapArea(w.spaces[pid].areas, a)
    ensures pid in e.spaces && Step(Eager, e, NewArea(pid, a), Pushed(e, pid, a))
    ensures WorldsAlike(Pushed(w, pid, a), Pushed(e, pid, a)) && EagerRights(Pushed(e, pid, a))
  {
    assert pid in w.spaces <==> pid in e.spaces;
    var sp, se := w.spaces[pid], e.spaces[pid];
    NewInBoth(sp.areas, se.areas, a);
    PutAlike(w, e, pid, sp.(areas := sp.areas[a.start := a]), w.mem, se.(areas := se.areas[a.start := a]), e.mem);
    PutRights(e, pid, se.(areas := se.areas[a.start := a]), e.mem);
  }

  lemma NewInBoth(t: Tree, u: Tree, a: MapArea)
    requires Alike(t, u) && NewMmapArea(t, a)
    ensures NewMmapArea(u, a) && Alike(t[a.start := a], u[a.start := a])
  {
    assert a.start in t <==> a.start in u;
  }

  /** Whoever stores has the write right of the area. */
  lemma StoreHasRight(w: World, pid: nat, k: nat, v: nat, w1: World)
    requires WorldOk(w) && pid in w.spaces && Owns(w.spaces[pid].areas, k, v) && ReadyToStore(w, pid, v, w1)
    ensures w.spaces[pid].areas[k].perm.w && WorldsAlike(w, w1)
  {
    assert Covered(w.spaces[pid].areas, v);
    if w1 != w {
      var f: nat :| FaultDone(w, pid, v, true, f, w1);
      FaultRefines(w, pid, v, true, f, w1);
      FaultAlike(w, pid, v, true, f, w1);
      AlikeOwns(w.spaces[pid].areas, w1.spaces[pid].areas, k, v);
    }
    RightsNow(w1, pid, k, v);
  }

  /** Whoever has that right can store in the eager kernel, at once or after one fault. */
  lemma EagerStore(e: World, pid: nat, k: nat, v: nat) returns (e1: World)
    requires WorldOk(e) && EagerRights(e) && pid in e.spaces && Owns(e.spaces[pid].areas, k, v)
    requires e.spaces[pid].areas[k].perm.w
    ensures ReadyToStore(e, pid, v, e1) && EagerRights(e1) && WorldsAlike(e, e1)
  {
    var sp := e.spaces[pid];
    assert SpaceOk(sp) && FullRights(sp);
    NoFrameNoEntry(sp, k, v);
    RightsNow(e, pid, k, v);
    if v in sp.pt {
      e1 := e;
    } else {
      assert sp.areas[k].areaType.Mmap?;
      FreshExists(e.mem.rc.Keys);
      var f: nat :| f !in e.mem.rc.Keys;
      e1 := FillPage(e, pid, k, v, f);
    }
  }

  lemma DropFollows(w: World, e: World, pid: nat, k: nat, v: nat)
    requires WorldOk(e) && WorldsAlike(w, e) && EagerRights(e) && MmapPageAt(w, pid, k, v)
    requires v in w.spaces[pid].pt ==> w.spaces[pid].pt[v].ppn in w.mem.rc
    ensures MmapPageAt(e, pid, k, v) && (v in e.spaces[pid].pt ==> e.spaces[pid].pt[v].ppn in e.mem.rc)
    ensures WorldsAlike(Dropped(w, pid, k, v), Dropped(e, pid, k, v)) && EagerRights(Dropped(e, pid, k, v))
  {
    assert pid in w.spaces <==> pid in e.spaces;
    var sp := e.spaces[pid];
    AlikeOwns(w.spaces[pid].areas, sp.areas, k, v);
    AllLive(e, pid);
    assert SpaceOk(sp);
    DropRights(sp, k, v);
    PutRights(e, pid, Space(Forget(sp.areas, k, v), sp.pt - {v}), LetGo(e.mem, sp.pt, v));
    ForgetAlike(w.spaces[pid].areas, sp.areas, k, v);
    PutAlike(w, e, pid, Dropped(w, pid, k, v).spaces[pid], Dropped(w, pid, k, v).mem,
             Dropped(e, pid, k, v).spaces[pid], Dropped(e, pid, k, v).mem);
  }

  lemma ForgetAlike(t: Tree, u: Tree, k: nat, v: nat)
    requires Alike(t, u) && k in t && k in u
    ensures Alike(Forget(t, k, v), Forget(u, k, v))
  {
  }

  lemma PutAlike(w: World, e: World, pid: nat, sp: Space, mem: Memory, sp': Space, mem': Memory)
    requires WorldsAlike(w, e) && Alike(sp.areas, sp'.areas)
    ensures WorldsAlike(Put(w, pid, sp, mem), Put(e, pid, sp', mem'))
  {
  }

  lemma DropRights(sp: Space, k: nat, v: nat)
    requires WellFormed(sp.areas) && Owns(sp.areas, k, v) && FullRights(sp)
    ensures FullRights(Space(Forget(sp.areas, k, v), sp.pt - {v}))
  {
    forall j: nat, u: nat | j in sp.areas && u in Forget(sp.areas, k, v)[j].frames ensures u != v {
      if u == v {
        OneOwner(sp.areas, j, k, v);
      }
    }
  }

  // ---- exit ----

  /** The memory after all pages of `pt` have let go. */
  ghost function AfterRelease(mem: Memory, pt: map<nat, Pte>): Memory {
    var kept := set p: nat | p in mem.rc && p in mem.frames && !(MappedTo(pt, p) && mem.rc[p] <= 1);
    Memory(map p: nat | p in kept :: mem.frames[p],
           map p: nat | p in kept :: if MappedTo(pt, p) && mem.rc[p] > 0 then mem.rc[p] - 1 else mem.rc[p])
  }

  lemma ReleaseHappens(mem: Memory, pt: map<nat, Pte>)
    requires forall p: nat :: p in mem.frames <==> p in mem.rc
    ensures MemoryReleased(mem, AfterRelease(mem, pt), pt)
  {
  }

  lemma ExitFollows(w: World, e: World, pid: nat, w': World) returns (e': World)
    requires WorldOk(e) && WorldsAlike(w, e) && EagerRights(e) && Exited(w, pid, w')
    ensures Exited(e, pid, e') && WorldsAlike(w', e') && EagerRights(e')
  {
    assert pid in w.spaces <==> pid in e.spaces;
    ReleaseHappens(e.mem, e.spaces[pid].pt);
    e' := World(e.spaces - {pid}, AfterRelease(e.mem, e.spaces[pid].pt));
  }

  // ---- fork ----

  /** A copy of every page, on frames from `base` on. */
  function CopyAll(pt: map<nat, Pte>, base: nat): map<nat, nat> {
    map v: nat | v in pt :: base + v
  }

  function NewFrames(pt: map<nat, Pte>, base: nat): set<nat> {
    set v: nat | v in pt :: base + v
  }

  function WithCopies(mem: Memory, pt: map<nat, Pte>, base: nat): Memory {
    Memory(mem.frames + map p: nat | p in NewFrames(pt, base) ::
             if p >= base && p - base in pt && pt[p - base].ppn in mem.frames then mem.frames[pt[p - base].ppn]
             else ZeroPage(),
           mem.rc + map p: nat | p in NewFrames(pt, base) :: 1)
  }

  lemma NewFrameOf(pt: map<nat, Pte>, base: nat, p: nat)
    ensures p in NewFrames(pt, base) <==> Takes(CopyAll(pt, base), p)
    ensures forall v: nat :: v in pt ==> base + v in NewFrames(pt, base)
  {
    if p in NewFrames(pt, base) {
      var v: nat :| v in pt && p == base + v;
      assert v in CopyAll(pt, base) && CopyAll(pt, base)[v] == p;
    }
  }

  lemma CopiesFresh(mem: Memory, pt: map<nat, Pte>, base: nat)
    requires forall p: nat :: p in mem.rc ==> p < base
    ensures FreshCopies(mem, pt, CopyAll(pt, base))
  {
  }

  lemma CountedAt(mem: Memory, pt: map<nat, Pte>, base: nat, p: nat)
    requires (p in mem.frames <==> p in mem.rc) && (p in mem.rc ==> p < base)
    ensures var mem', copies := WithCopies(mem, pt, base), CopyAll(pt, base);
            && (p in mem'.frames <==> p in mem'.rc) && (p in mem'.rc <==> p in mem.rc || Takes(copies, p))
            && (p in mem.rc ==> p in mem'.rc && mem'.rc[p] == mem.rc[p]) && !SharedByFork(pt, copies, p)
            && (p in NewFrames(pt, base) ==> p in mem'.rc && mem'.rc[p] == 1)
  {
    NewFrameOf(pt, base, p);
    if p in NewFrames(pt, base) {
      var v: nat :| v in pt && p == base + v;
    }
  }

  lemma CopiesCounted(mem: Memory, pt: map<nat, Pte>, base: nat)
    requires (forall p: nat :: p in mem.frames <==> p in mem.rc) && forall p: nat :: p in mem.rc ==> p < base
    ensures CountsForked(mem, WithCopies(mem, pt, base), pt, CopyAll(pt, base))
  {
    var mem', copies := WithCopies(mem, pt, base), CopyAll(pt, base);
    forall p: nat
      ensures (p in mem'.frames <==> p in mem'.rc) && (p in mem'.rc <==> p in mem.rc || Takes(copies, p))
      ensures p in mem.rc ==> p in mem'.rc && mem'.rc[p] == mem.rc[p] + if SharedByFork(pt, copies, p) then 1 else 0
    {
      CountedAt(mem, pt, base, p);
    }
    forall v: nat | v in copies ensures copies[v] in mem'.rc && mem'.rc[copies[v]] == 1 {
      NewFrameOf(pt, base, copies[v]);
      CountedAt(mem, pt, base, copies[v]);
    }
  }

  lemma CopiesFilled(mem: Memory, pt: map<nat, Pte>, base: nat)
    requires forall p: nat :: p in mem.frames ==> p < base
    ensures BytesForked(mem, WithCopies(mem, pt, base), pt, CopyAll(pt, base))
  {
    NewFrameOf(pt, base, 0);
    forall v: nat | v in pt ensures base + v - base == v {
    }
  }

  lemma EveryPageCopied(sp: Space, base: nat)
    ensures ParentAfter(sp, CopyAll(sp.pt, base)) == sp
  {
    assert ParentAfter(sp, CopyAll(sp.pt, base)).pt == sp.pt;
  }

  lemma ChildRights(sp: Space, base: nat)
    requires WellFormed(sp.areas) && EntriesPresent(sp.areas, sp.pt)
    ensures FullRights(ChildOf(sp, CopyAll(sp.pt, base), TagFor(Eager)))
  {
    var c := ChildOf(sp, CopyAll(sp.pt, base), TagFor(Eager));
    forall k: nat, v: nat | k in c.areas && v in c.areas[k].frames
      ensures FullRight(c.pt, v, c.areas[k].perm)
    {
      assert k in sp.areas && v in sp.areas[k].frames && v in sp.pt;
      ChildRight(sp, CopyAll(sp.pt, base), k, v);
    }
  }

  lemma ChildRight(sp: Space, copies: map<nat, nat>, k: nat, v: nat)
    requires WellFormed(sp.areas) && k in sp.areas && v in sp.areas[k].frames && v in sp.pt && v in copies
    ensures var c := ChildOf(sp, copies, TagFor(Eager));
            k in c.areas && c.areas[k].perm == sp.areas[k].perm && v in c.pt
              && c.pt[v].flags == FlagsOf(sp.areas[k].perm)
  {
    assert Owns(sp.areas, k, v) && Covered(sp.areas, v);
    InfoAt(sp.areas, k, v);
  }

  lemma ChildAlike(sp: Space, se: Space, copies: map<nat, nat>, tag: set<MmapFlag>,
                   copies': map<nat, nat>, tag': set<MmapFlag>)
    requires Alike(sp.areas, se.areas) && MAP_SHARED !in tag && MAP_SHARED !in tag'
    ensures Alike(ChildOf(sp, copies, tag).areas, ChildOf(se, copies', tag').areas)
  {
    var t, u := ChildOf(sp, copies, tag).areas, ChildOf(se, copies', tag').areas;
    forall k: nat ensures (k in t <==> k in u) && (k in t ==> SameKind(t[k], u[k])) {
      assert k in sp.areas <==> k in se.areas;
    }
  }

  ghost predicate Full(sp: Space) {
    forall v: nat :: Covered(sp.areas, v) ==> v in sp.pt
  }

  /** An eager fork when every page of the parent has a frame. */
  lemma ForkFollows(w: World, e: World, parent: nat, child: nat, copies: map<nat, nat>, w': World) returns (e': World)
    requires WorldOk(e) && WorldsAlike(w, e) && EagerRights(e)
    requires Forked(w, parent, child, copies, TagFor(CopyOnWrite), w') && NoShared(w.spaces[parent].areas)
    requires parent in e.spaces && Full(e.spaces[parent])
    ensures Step(Eager, e, Fork(parent, child), e') && WorldsAlike(w', e') && EagerRights(e')
  {
    assert child in w.spaces <==> child in e.spaces;
    NoSharedAlike(w.spaces[parent].areas, e.spaces[parent].areas);
    var copies';
    e', copies' := EagerFork(e, parent, child);
    ChildAlike(w.spaces[parent], e.spaces[parent], copies, TagFor(CopyOnWrite), copies', TagFor(Eager));
    ForkAlike(w, e, parent, child, w', e');
  }

  lemma EagerFork(e: World, parent: nat, child: nat) returns (e': World, copies: map<nat, nat>)
    requires WorldOk(e) && EagerRights(e) && parent in e.spaces && child !in e.spaces
    requires Full(e.spaces[parent]) && NoShared(e.spaces[parent].areas)
    ensures Step(Eager, e, Fork(parent, child), e') && EagerRights(e')
    ensures e'.spaces == e.spaces[child := ChildOf(e.spaces[parent], copies, TagFor(Eager))]
  {
    var sp := e.spaces[parent];
    var base := UpperBound(e.mem.rc.Keys);
    assert SpaceOk(sp);
    copies := CopyAll(sp.pt, base);
    CopiesFresh(e.mem, sp.pt, base);
    CopiesCounted(e.mem, sp.pt, base);
    CopiesFilled(e.mem, sp.pt, base);
    EveryPageCopied(sp, base);
    ChildRights(sp, base);
    var c := ChildOf(sp, copies, TagFor(Eager));
    e' := Put(e, child, c, WithCopies(e.mem, sp.pt, base));
    PutRights(e, child, c, e'.mem);
    MakesFork(e, parent, child, copies, e'.mem);
    assert CopiesFor(Eager, sp, copies);
  }

  lemma MakesFork(e: World, parent: nat, child: nat, copies: map<nat, nat>, mem: Memory)
    requires parent in e.spaces && child !in e.spaces && FreshCopies(e.mem, e.spaces[parent].pt, copies)
    requires MemoryForked(e.mem, mem, e.spaces[parent].pt, copies)
    requires ParentAfter(e.spaces[parent], copies) == e.spaces[parent]
    ensures var tag := TagFor(Eager);
            Forked(e, parent, child, copies, tag, Put(e, child, ChildOf(e.spaces[parent], copies, tag), mem))
  {
  }

  lemma ForkAlike(w: World, e: World, parent: nat, child: nat, w': World, e': World)
    requires WorldsAlike(w, e) && parent in w.spaces && child !in w.spaces && child in w'.spaces && child in e'.spaces
    requires parent in w'.spaces && w'.spaces[parent].areas == w.spaces[parent].areas
    requires forall pid: nat :: pid != child && pid != parent ==>
               (pid in w'.spaces <==> pid in w.spaces) && (pid in w.spaces ==> w'.spaces[pid] == w.spaces[pid])
    requires e'.spaces == e.spaces[child := e'.spaces[child]]
    requires Alike(w'.spaces[child].areas, e'.spaces[child].areas)
    ensures WorldsAlike(w', e')
  {
    forall pid: nat ensures (pid in w'.spaces <==> pid in e'.spaces)
      && (pid in w'.spaces ==> Alike(w'.spaces[pid].areas, e'.spaces[pid].areas)) {
      assert pid in w.spaces <==> pid in e.spaces;
    }
  }

  lemma NoSharedAlike(t: Tree, u: Tree)
    requires Alike(t, u) && NoShared(t)
    ensures NoShared(u)
  {
    forall k: nat | k in u && u[k].areaType.Mmap? ensures MAP_SHARED !in u[k].mmapFlags {
      assert k in t;
    }
  }

  // ---- whole runs ----

  /** An eager run from `e0` that shows as `shown` and ends at `e`. */
  ghost predicate EagerRun(e0: World, es: seq<World>, os: seq<Op>, shown: seq<Op>, e: World) {
    Run(Eager, es, os) && es[0] == e0 && es[|os|] == e && Visible(os) == shown
  }

  lemma OneStepMore(e0: World, es: seq<World>, os: seq<Op>, shown: seq<Op>, e: World, op: Op, e': World)
    requires EagerRun(e0, es, os, shown, e) && Step(Eager, e, op, e')
    ensures EagerRun(e0, es + [e'], os + [op], if op.Touch? then shown else shown + [op], e')
  {
    var es', os' := es + [e'], os + [op];
    forall i | 0 <= i < |os'| ensures Step(Eager, es'[i], os'[i], es'[i + 1]) {
      assert i < |os| ==> es'[i] == es[i] && es'[i + 1] == es[i + 1] && os'[i] == os[i];
    }
    assert os'[..|os|] == os;
  }

  /** The pages of a space that have no frame. */
  ghost function MissingPages(sp: Space): set<nat> {
    set k: nat, v: nat | k in sp.areas && k <= v < sp.areas[k].end && v !in sp.pt :: v
  }

  lemma NoneMissing(sp: Space)
    requires MissingPages(sp) == {}
    ensures Full(sp)
  {
    forall v: nat | Covered(sp.areas, v) ensures v in sp.pt {
      var k: nat :| Owns(sp.areas, k, v);
      assert v !in sp.pt ==> v in MissingPages(sp);
    }
  }

  lemma FewerMissing(sp: Space, sp': Space, v: nat)
    requires Alike(sp.areas, sp'.areas) && v in MissingPages(sp) && sp'.pt.Keys == sp.pt.Keys + {v}
    ensures MissingPages(sp') < MissingPages(sp)
  {
    forall u: nat | u in MissingPages(sp') ensures u in MissingPages(sp) {
      var k: nat :| k in sp'.areas && k <= u < sp'.areas[k].end && u !in sp'.pt;
      assert k in sp.areas;
    }
    assert v !in MissingPages(sp');
  }

  /** Touching every page first, as the eager fork does. */
  lemma {:induction false} FillAll(e0: World, es: seq<World>, os: seq<Op>, shown: seq<Op>, e: World, s: Private,
                                   pid: nat)
    returns (es': seq<World>, os': seq<Op>, e': World)
    requires EagerRun(e0, es, os, shown, e) && WorldOk(e) && Represents(e, s) && EagerRights(e) && pid in e.spaces
    ensures EagerRun(e0, es', os', shown, e') && WorldOk(e') && Represents(e', s) && EagerRights(e')
    ensures WorldsAlike(e, e') && pid in e'.spaces && Full(e'.spaces[pid])
    decreases |MissingPages(e.spaces[pid])|
  {
    var sp := e.spaces[pid];
    if MissingPages(sp) == {} {
      NoneMissing(sp);
      es', os', e' := es, os, e;
    } else {
      var v :| v in MissingPages(sp);
      var e1 := TouchMissing(e, s, pid, v);
      OneStepMore(e0, es, os, shown, e, Touch(pid, v, true), e1);
      Smaller(MissingPages(e1.spaces[pid]), MissingPages(sp));
      es', os', e' := FillAll(e0, es + [e1], os + [Touch(pid, v, true)], shown, e1, s, pid);
      AlikeTwice(e, e1, e');
    }
  }

  lemma AlikeTwice(w: World, w1: World, w2: World)
    requires WorldsAlike(w, w1) && WorldsAlike(w1, w2)
    ensures WorldsAlike(w, w2)
  {
    forall pid: nat ensures (pid in w.spaces <==> pid in w2.spaces)
      && (pid in w.spaces ==> Alike(w.spaces[pid].areas, w2.spaces[pid].areas)) {
      assert pid in w.spaces <==> pid in w1.spaces;
      if pid in w.spaces {
        AreasTwice(w.spaces[pid].areas, w1.spaces[pid].areas, w2.spaces[pid].areas);
      }
    }
  }

  lemma AreasTwice(t: Tree, t1: Tree, t2: Tree)
    requires Alike(t, t1) && Alike(t1, t2)
    ensures Alike(t, t2)
  {
    forall k: nat ensures (k in t <==> k in t2) && (k in t ==> SameKind(t[k], t2[k])) {
      assert k in t <==> k in t1;
    }
  }

  lemma TouchMissing(e: World, s: Private, pid: nat, v: nat) returns (e': World)
    requires WorldOk(e) && Represents(e, s) && EagerRights(e) && pid in e.spaces && v in MissingPages(e.spaces[pid])
    ensures Step(Eager, e, Touch(pid, v, true), e') && WorldOk(e') && Represents(e', s) && EagerRights(e')
    ensures WorldsAlike(e, e') && pid in e'.spaces && MissingPages(e'.spaces[pid]) < MissingPages(e.spaces[pid])
  {
    var f;
    e', f := FillMissing(e, pid, v);
    FaultRefines(e, pid, v, true, f, e');
    SameRepresents(e, e', s);
  }

  lemma FillMissing(e: World, pid: nat, v: nat) returns (e': World, f: nat)
    requires WorldOk(e) && EagerRights(e) && pid in e.spaces && v in MissingPages(e.spaces[pid])
    ensures FaultDone(e, pid, v, true, f, e') && Covered(e.spaces[pid].areas, v) && EagerRights(e')
    ensures WorldsAlike(e, e') && pid in e'.spaces && MissingPages(e'.spaces[pid]) < MissingPages(e.spaces[pid])
  {
    var k := MissingArea(e, pid, v);
    f := UpperBound(e.mem.rc.Keys);
    e' := FillPage(e, pid, k, v, f);
    FewerMissing(e.spaces[pid], e'.spaces[pid], v);
  }

  lemma MissingArea(e: World, pid: nat, v: nat) returns (k: nat)
    requires WorldOk(e) && pid in e.spaces && v in MissingPages(e.spaces[pid])
    ensures MmapPageAt(e, pid, k, v) && v !in e.spaces[pid].pt
  {
    var sp := e.spaces[pid];
    k :| k in sp.areas && k <= v < sp.areas[k].end && v !in sp.pt;
    assert SpaceOk(sp) && Owns(sp.areas, k, v);
    NoFrameNoEntry(sp, k, v);
  }

  /** One step of the copy-on-write kernel, followed by the eager one. */
  lemma StepFollows(w: World, op: Op, w': World, s: Private, e0: World, es: seq<World>, os: seq<Op>, shown: seq<Op>,
                    e: World)
    returns (es': seq<World>, os': seq<Op>, e': World)
    requires Follows(w, e, s) && EagerRun(e0, es, os, shown, e)
    requires Step(CopyOnWrite, w, op, w') && !op.Protect?
    ensures EagerRun(e0, es', os', if op.Touch? then shown else shown + [op], e')
    ensures Follows(w', e', SpecStep(s, op))
  {
    StepRefines(CopyOnWrite, w, op, w', s);
    if op.Touch? {
      var f: nat :| FaultDone(w, op.pid, op.v, op.isWrite, f, w');
      FaultAlike(w, op.pid, op.v, op.isWrite, f, w');
      AlikeAlso(w, w', e);
      es', os', e' := es, os, e;
    } else {
      var es1, os1, e1 := es, os, e;
      if op.Fork? {
        es1, os1, e1 := FillAll(e0, es, os, shown, e, s, op.parent);
        AlikeTwice(w, e, e1);
      }
      e' := EagerStep(w, op, w', e1);
      OneStepMore(e0, es1, os1, shown, e1, op, e');
      StepRefines(Eager, e1, op, e', s);
      es', os' := es1 + [e'], os1 + [op];
    }
  }

  /** The eager kernel can do what the copy-on-write one did; before a fork it has touched every page. */
  lemma EagerStep(w: World, op: Op, w': World, e: World) returns (e': World)
    requires WorldOk(w) && WorldOk(e) && WorldsAlike(w, e) && EagerRights(e)
    requires Step(CopyOnWrite, w, op, w') && !op.Protect? && !op.Touch?
    requires op.Fork? ==> op.parent in e.spaces && Full(e.spaces[op.parent])
    ensures Step(Eager, e, op, e') && WorldsAlike(w', e') && EagerRights(e')
  {
    match op
    case NewArea(pid, a) =>
      NewAreaFollows(w, e, pid, a);
      e' := Pushed(e, pid, a);
    case Fork(parent, child) =>
      var copies: map<nat, nat> :| Forked(w, parent, child, copies, TagFor(CopyOnWrite), w');
      e' := ForkFollows(w, e, parent, child, copies, w');
    case Store(pid, v, off, b) =>
      e' := StoreFollows(w, e, pid, v, off, b, w');
    case GiveUp(pid, v) =>
      var k := GivenArea(CopyOnWrite, w, pid, v, w');
      DropFollows(w, e, pid, k, v);
      e' := Dropped(e, pid, k, v);
    case Exit(pid) =>
      e' := ExitFollows(w, e, pid, w');
  }

  lemma StoreFollows(w: World, e: World, pid: nat, v: nat, off: nat, b: bv8, w': World) returns (e': World)
    requires WorldOk(w) && WorldOk(e) && WorldsAlike(w, e) && EagerRights(e)
    requires Step(CopyOnWrite, w, Store(pid, v, off, b), w')
    ensures Step(Eager, e, Store(pid, v, off, b), e') && WorldsAlike(w', e') && EagerRights(e')
  {
    var w1: World :| ReadyToStore(w, pid, v, w1) && w' == Stored(w1, w1.spaces[pid].pt[v].ppn, off, b);
    var k: nat :| Owns(w.spaces[pid].areas, k, v);
    StoreHasRight(w, pid, k, v, w1);
    assert pid in w.spaces <==> pid in e.spaces;
    AlikeOwns(w.spaces[pid].areas, e.spaces[pid].areas, k, v);
    var e1 := EagerStore(e, pid, k, v);
    assert Covered(e.spaces[pid].areas, v);
    e' := Stored(e1, e1.spaces[pid].pt[v].ppn, off, b);
    AlikeAlso(w, w1, e);
    AlikeTwice(w1, e, e1);
  }

  /** Every copy-on-write run that changes no protection, from a world where every entry has the rights of
      its area, has an eager run with the same visible operations, and every process ends up with the same
      bytes in both. */
  lemma {:induction false} EagerRunExists(ws: seq<World>, ops: seq<Op>, s: Private)
    returns (es: seq<World>, os: seq<Op>, e: World)
    requires Run(CopyOnWrite, ws, ops) && WorldOk(ws[0]) && Represents(ws[0], s) && EagerRights(ws[0])
    requires forall i :: 0 <= i < |ops| ==> !ops[i].Protect?
    ensures EagerRun(ws[0], es, os, Visible(ops), e)
    ensures Follows(ws[|ops|], e, SpecRun(s, ops))
    ensures SameContents(ws[|ops|], e)
    decreases |ops|
  {
    if ops == [] {
      es, os, e := [ws[0]], [], ws[0];
    } else {
      var n := |ops| - 1;
      RunPrefix(CopyOnWrite, ws, ops);
      es, os, e := EagerRunExists(ws[..n + 1], ops[..n], s);
      assert ws[..n + 1][n] == ws[n];
      es, os, e := StepFollows(ws[n], ops[n], ws[n + 1], SpecRun(s, ops[..n]), ws[0], es, os, Visible(ops[..n]), e);
    }
    BothShow(ws[|ops|], e, SpecRun(s, ops));
  }

  lemma BothShow(w: World, e: World, s: Private)
    requires Represents(w, s) && Represents(e, s)
    ensures SameContents(w, e)
  {
    forall pid: nat, v: nat ensures ContentAt(e, pid, v) == ContentAt(w, pid, v) {
      assert ContentAt(w, pid, v) == PageOf(s, pid, v);
    }
  }

  /** The world to start from is such a one. */
  lemma FirstWorldFull(pid: nat)
    ensures EagerRights(World(map[pid := Space(map[], map[])], Memory(map[], map[])))
  {
  }
}
