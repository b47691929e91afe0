/** Address spaces that share physical frames copy-on-write, on values: what each kernel operation
    does to a world of processes, and why no process can tell it from private memory. */
module CowWorlds {
  import opened Address
  import opened Base
  import opened Ptes
  import opened Areas
  import opened AreaEdits
  import opened AreaFrames

  type Page = p: seq<bv8> | |p| == 4096 witness seq(4096, i => 0)

  function ZeroPage(): (z: Page)
    ensures forall i :: 0 <= i < PAGE_SIZE ==> z[i] == 0
  {
    seq(PAGE_SIZE, i => 0)
  }

  /** One process: its areas and the user pages of its page table. */
  datatype Space = Space(areas: Tree, pt: map<nat, Pte>)

  /** The allocated physical frames, with the number of `Arc`s on each. */
  datatype Memory = Memory(frames: map<nat, Page>, rc: map<nat, nat>)

  datatype World = World(spaces: map<nat, Space>, mem: Memory)

  // ---- the flags of an entry ----

  /** `PTEFlags::from`, used wherever a page gets a frame of its own. */
  function FlagsOf(perm: MapPermission): PteFlags {
    PteFlags(true, perm.w, perm.u, false, false)
  }

  /** `PTEFlags::from_bits` of the bits of the permission, used for frames that are given: neither the bit
      V nor the write right is among them. */
  function RawFlags(perm: MapPermission): PteFlags {
    PteFlags(false, false, perm.w && perm.x, false, false)
  }

  /** The bits of a permission, and those that `PTEFlags::from` sets. */
  function PermBits(perm: MapPermission): bv64 {
    (if perm.r then 0x2 else 0) | (if perm.w then 0x4 else 0) | (if perm.x then 0x8 else 0)
    | (if perm.u then 0x10 else 0) | (if perm.d then 0x40 else 0)
  }

  function EntryBits(perm: MapPermission): bv64 {
    0x81 | (if perm.w then 0x102 else 0) | (if perm.u then 0xC else 0)
  }

  /** The flags in a word, each of its bits set. */
  function FlagsIn(bits: bv64): PteFlags {
    PteFlags(bits & 0x1 == 0x1, bits & 0x100 == 0x100, bits & 0xC == 0xC,
             bits & 0x2_0000_0000_0000 == 0x2_0000_0000_0000, bits & 0x1_0000_0000_0000 == 0x1_0000_0000_0000)
  }

  lemma FlagsByBits(perm: MapPermission)
    ensures FlagsIn(EntryBits(perm)) == FlagsOf(perm) && FlagsIn(PermBits(perm)) == RawFlags(perm)
  {
  }

  // ---- what a process sees ----

  /** The bytes of page `v`: those of its frame, or zeros while it has none. */
  ghost function Content(sp: Space, mem: Memory, v: nat): Option<Page> {
    if !Covered(sp.areas, v) then None
    else if v in sp.pt && sp.pt[v].ppn in mem.frames then Some(mem.frames[sp.pt[v].ppn])
    else Some(ZeroPage())
  }

  // ---- invariants ----

  /** The entry may write, or remembers that it may, only if the area does and the hardware uses it. */
  predicate RightsMatch(e: Pte, perm: MapPermission) {
    e.valid && (e.flags.w || e.flags.wBackup ==> perm.w && e.flags.present)
  }

  ghost predicate RightsOk(sp: Space) {
    forall k: nat, v: nat :: k in sp.areas && v in sp.areas[k].frames ==>
      v in sp.pt && RightsMatch(sp.pt[v], sp.areas[k].perm)
  }

  /** No two pages of a space share a frame. */
  ghost predicate OwnFrames(pt: map<nat, Pte>) {
    forall v: nat, u: nat :: v in pt && u in pt && v != u ==> pt[v].ppn != pt[u].ppn
  }

  /** Areas that are not filled on demand have all their frames. */
  ghost predicate Backed(t: Tree) {
    forall k: nat, v: nat :: Owns(t, k, v) && !t[k].areaType.Mmap? ==> v in t[k].frames
  }

  ghost predicate SpaceOk(sp: Space) {
    WellFormed(sp.areas) && Agree(sp.areas, sp.pt) && OwnFrames(sp.pt) && RightsOk(sp) && Backed(sp.areas)
  }

  /** Process `pid` maps page `v` to frame `p`. */
  ghost predicate Maps(w: World, pid: nat, v: nat, p: nat) {
    pid in w.spaces && v in w.spaces[pid].pt && w.spaces[pid].pt[v].ppn == p
  }

  ghost function Holders(w: World, p: nat): set<(nat, nat)> {
    set pid: nat, v: nat | pid in w.spaces && v in w.spaces[pid].pt && w.spaces[pid].pt[v].ppn == p :: (pid, v)
  }

  ghost predicate SpacesOk(w: World) {
    forall pid: nat :: pid in w.spaces ==> SpaceOk(w.spaces[pid])
  }

  /** Mapped frames are allocated, and the count of a frame is the number of pages mapped to it. */
  ghost predicate Counted(w: World) {
    && (forall p: nat :: p in w.mem.frames <==> p in w.mem.rc)
    && (forall pid: nat, v: nat, p: nat :: Maps(w, pid, v, p) ==> p in w.mem.rc)
    && (forall p: nat :: p in w.mem.rc ==> w.mem.rc[p] == |Holders(w, p)| > 0)
  }

  /** A frame that is mapped more than once is marked copy-on-write, and not writable, wherever it is
      mapped. */
  ghost predicate SharedAreCow(w: World) {
    forall pid: nat, v: nat :: pid in w.spaces && v in w.spaces[pid].pt ==> CowIfShared(w.spaces[pid].pt[v], w.mem.rc)
  }

  predicate CowIfShared(e: Pte, rc: map<nat, nat>) {
    e.ppn in rc && rc[e.ppn] > 1 ==> e.flags.cow && !e.flags.w
  }

  ghost predicate WorldOk(w: World) {
    SpacesOk(w) && Counted(w) && SharedAreCow(w)
  }

  // ---- the page fault ----

  datatype FaultError = AreaNotFound | NotMmapType | RangeEmpty

  datatype FaultOutcome =
    | Handled(sp: Space, mem: Memory)
    | Refused
    | Failed(error: FaultError)
    | Panics

  /** `map_one`: page `v` of the area at `k` gets the zeroed frame `f`. */
  function MapOne(sp: Space, k: nat, v: nat, f: nat): Space
    requires k in sp.areas
  {
    Space(sp.areas[k := sp.areas[k].(frames := sp.areas[k].frames[v := f])],
          sp.pt[v := NewPage(f, FlagsOf(sp.areas[k].perm))])
  }

  function AllocFrame(mem: Memory, f: nat, page: Page): Memory {
    Memory(mem.frames[f := page], mem.rc[f := 1])
  }

  /** One `Arc` fewer; the last one frees the frame. */
  function Release(mem: Memory, p: nat): Memory
    requires p in mem.rc
  {
    if mem.rc[p] <= 1 then Memory(mem.frames - {p}, mem.rc - {p})
    else mem.(rc := mem.rc[p := mem.rc[p] - 1])
  }

  /** Page `v` has no frame, or one it does not own alone: a write fault gives it its own. */
  predicate GetsFrame(sp: Space, mem: Memory, v: nat) {
    v !in sp.pt || (sp.pt[v].ppn in mem.rc && mem.rc[sp.pt[v].ppn] > 1)
  }

  /** What is left of the right to read and to write page `v` if its area grants it. */
  predicate CanRead(sp: Space, mem: Memory, v: nat) {
    GetsFrame(sp, mem, v) || sp.pt[v].flags.present
  }

  predicate CanWrite(sp: Space, mem: Memory, v: nat) {
    GetsFrame(sp, mem, v) || sp.pt[v].flags.w || sp.pt[v].flags.wBackup
  }

  /** `handle_page_fault` at page `v`, with `f` the frame the allocator would hand out. */
  function Fault(sp: Space, mem: Memory, v: nat, isWrite: bool, f: nat): FaultOutcome
    requires WellFormed(sp.areas)
    requires forall k: nat :: k in sp.areas && v in sp.areas[k].frames ==>
               v in sp.pt && sp.areas[k].frames[v] in mem.rc && sp.areas[k].frames[v] in mem.frames
  {
    match AreaOf(sp.areas, v)
    case None => Failed(AreaNotFound)
    case Some(k) =>
      var a := sp.areas[k];
      if !a.areaType.Mmap? && !a.areaType.Stack? then Failed(NotMmapType)
      else if a.start == a.end then Failed(RangeEmpty)
      else if v !in a.frames then
        if v in sp.pt then Panics else Handled(MapOne(sp, k, v, f), AllocFrame(mem, f, ZeroPage()))
      else if sp.pt[v].flags.cow || isWrite then
        var p := a.frames[v];
        if mem.rc[p] > 1 then
          Handled(MapOne(sp, k, v, f), AllocFrame(Release(mem, p), f, mem.frames[p]))
        else
          Handled(sp.(pt := sp.pt[v := UnCow(sp.pt[v])]), mem)
      else Refused
  }

  // ---- one page pointed at a fresh frame ----

  ghost function ContentAt(w: World, pid: nat, v: nat): Option<Page> {
    if pid in w.spaces then Content(w.spaces[pid], w.mem, v) else None
  }

  /** No process sees a difference. */
  ghost predicate SameContents(w: World, w': World) {
    && (forall pid: nat :: pid in w'.spaces <==> pid in w.spaces)
    && (forall pid: nat, v: nat :: ContentAt(w', pid, v) == ContentAt(w, pid, v))
  }

  /** The bytes page `v` holds. */
  function Held(sp: Space, mem: Memory, v: nat): Page
    requires v in sp.pt ==> sp.pt[v].ppn in mem.frames
  {
    if v in sp.pt then mem.frames[sp.pt[v].ppn] else ZeroPage()
  }

  function Put(w: World, pid: nat, sp: Space, mem: Memory): World {
    World(w.spaces[pid := sp], mem)
  }

  /** The memory after page `v` has let go of its frame, if it has one. */
  function LetGo(mem: Memory, pt: map<nat, Pte>, v: nat): Memory
    requires v in pt ==> pt[v].ppn in mem.rc
  {
    if v in pt then Release(mem, pt[v].ppn) else mem
  }

  // ---- flags changed, frames kept ----

  ghost predicate SameFrames(pt: map<nat, Pte>, pt': map<nat, Pte>) {
    forall v: nat :: (v in pt <==> v in pt') && (v in pt ==> pt'[v].ppn == pt[v].ppn)
  }

  /** What `Fault` needs to look at the frame of a page. */
  ghost predicate Faultable(w: World, pid: nat, v: nat) {
    pid in w.spaces && forall k: nat :: k in w.spaces[pid].areas && v in w.spaces[pid].areas[k].frames ==>
      && v in w.spaces[pid].pt && w.spaces[pid].areas[k].frames[v] in w.mem.rc
      && w.spaces[pid].areas[k].frames[v] in w.mem.frames
  }

  // ---- user stores ----

  /** The world after a byte has been written into frame `p`. */
  function Stored(w: World, p: nat, off: nat, b: bv8): World
    requires p in w.mem.frames && off < PAGE_SIZE
  {
    w.(mem := w.mem.(frames := w.mem.frames[p := w.mem.frames[p][off := b]]))
  }

  // ---- fork ----

  ghost function PermAt(t: Tree, v: nat): MapPermission
    requires Covered(t, v)
  {
    Info(t, v).value.perm
  }

  /** Pages of the parent that are not copied are shared and marked in the parent. */
  function ParentAfter(sp: Space, copies: map<nat, nat>): Space {
    sp.(pt := map v: nat | v in sp.pt :: if v in copies then sp.pt[v] else SetCow(sp.pt[v]))
  }

  function ChildFrames(frames: map<nat, nat>, copies: map<nat, nat>): map<nat, nat> {
    map v: nat | v in frames :: if v in copies then copies[v] else frames[v]
  }

  /** An area of the child: the parent's, with its own frames for the copied pages and `tag` for the
      mmap flags of an mmap area. */
  function ChildArea(a: MapArea, copies: map<nat, nat>, tag: set<MmapFlag>): MapArea {
    a.(frames := ChildFrames(a.frames, copies), mmapFlags := if a.areaType.Mmap? then tag else {})
  }

  ghost function ChildPte(sp: Space, copies: map<nat, nat>, v: nat): Pte
    requires v in sp.pt && Covered(sp.areas, v)
  {
    var perm := PermAt(sp.areas, v);
    if v in copies then NewPage(copies[v], FlagsOf(perm)) else SetCow(NewPage(sp.pt[v].ppn, RawFlags(perm)))
  }

  ghost function ChildOf(sp: Space, copies: map<nat, nat>, tag: set<MmapFlag>): Space {
    Space(map k: nat | k in sp.areas :: ChildArea(sp.areas[k], copies, tag),
          map v: nat | v in sp.pt && Covered(sp.areas, v) :: ChildPte(sp, copies, v))
  }

  ghost predicate IsMmapPage(t: Tree, v: nat) {
    exists k: nat :: Owns(t, k, v) && t[k].areaType.Mmap?
  }

  /** The frame page `v` of the child is mapped to. */
  function ChildPpn(pt: map<nat, Pte>, copies: map<nat, nat>, v: nat): nat
    requires v in pt
  {
    if v in copies then copies[v] else pt[v].ppn
  }

  /** All that counting needs to know of a fork. */
  ghost predicate ForkShape(w: World, parent: nat, child: nat, copies: map<nat, nat>, w': World) {
    && parent in w.spaces && child !in w.spaces && child in w'.spaces
    && (forall pid: nat :: pid in w'.spaces <==> pid in w.spaces || pid == child)
    && (forall pid: nat :: pid in w.spaces ==> SameFrames(w.spaces[pid].pt, w'.spaces[pid].pt))
    && (forall v: nat :: v in w'.spaces[child].pt <==> v in w.spaces[parent].pt)
    && (forall v: nat :: v in w.spaces[parent].pt ==>
          w'.spaces[child].pt[v].ppn == ChildPpn(w.spaces[parent].pt, copies, v))
  }

  /** Frame `p` is mapped by a page that is not copied. */
  ghost predicate SharedByFork(pt: map<nat, Pte>, copies: map<nat, nat>, p: nat) {
    exists v: nat :: v in pt && v !in copies && pt[v].ppn == p
  }

  /** One of the frames in `m` is `p`. */
  ghost predicate Takes(m: map<nat, nat>, p: nat) {
    exists v: nat :: v in m && m[v] == p
  }

  /** Fresh frames for the copied pages, counted once, and one more count on the shared frames. */
  ghost predicate CountsForked(mem: Memory, mem': Memory, pt: map<nat, Pte>, copies: map<nat, nat>) {
    && (forall p: nat :: p in mem'.frames <==> p in mem'.rc)
    && (forall p: nat :: p in mem'.rc <==> p in mem.rc || Takes(copies, p))
    && (forall p: nat :: p in mem.rc ==>
          p in mem'.rc && mem'.rc[p] == mem.rc[p] + if SharedByFork(pt, copies, p) then 1 else 0)
    && (forall v: nat :: v in copies ==> copies[v] in mem'.rc && mem'.rc[copies[v]] == 1)
  }

  /** Nothing is overwritten, and the fresh frames of the pages of `pt` hold what the pages hold. */
  ghost predicate BytesForked(mem: Memory, mem': Memory, pt: map<nat, Pte>, copies: map<nat, nat>) {
    && (forall p: nat :: p in mem.frames ==> p in mem'.frames && mem'.frames[p] == mem.frames[p])
    && (forall v: nat :: v in copies && v in pt && pt[v].ppn in mem.frames ==>
          copies[v] in mem'.frames && mem'.frames[copies[v]] == mem.frames[pt[v].ppn])
  }

  ghost predicate MemoryForked(mem: Memory, mem': Memory, pt: map<nat, Pte>, copies: map<nat, nat>) {
    CountsForked(mem, mem', pt, copies) && BytesForked(mem, mem', pt, copies)
  }

  /** Each copied page gets a frame of its own that nobody uses. */
  ghost predicate FreshCopies(mem: Memory, pt: map<nat, Pte>, copies: map<nat, nat>) {
    && (forall v: nat :: v in copies ==> v in pt && copies[v] !in mem.rc)
    && (forall v: nat, u: nat :: v in copies && u in copies && v != u ==> copies[v] != copies[u])
  }

  /** `child` starts as a fork of `parent` that copies the pages `copies` and shares the others. */
  ghost predicate Forked(w: World, parent: nat, child: nat, copies: map<nat, nat>, tag: set<MmapFlag>, w': World) {
    && parent in w.spaces && child !in w.spaces
    && FreshCopies(w.mem, w.spaces[parent].pt, copies)
    && child in w'.spaces && w'.spaces[child] == ChildOf(w.spaces[parent], copies, tag)
    && parent in w'.spaces && w'.spaces[parent] == ParentAfter(w.spaces[parent], copies)
    && (forall pid: nat :: pid != child && pid != parent ==>
          (pid in w'.spaces <==> pid in w.spaces) && (pid in w.spaces ==> w'.spaces[pid] == w.spaces[pid]))
    && MemoryForked(w.mem, w'.mem, w.spaces[parent].pt, copies)
  }

  datatype Mode = CopyOnWrite | Eager

  /** Which pages a fork copies: all but the mmap pages, or, after every page has been touched, all. */
  ghost predicate CopiesFor(mode: Mode, sp: Space, copies: map<nat, nat>) {
    match mode
    case CopyOnWrite => forall v: nat :: v in sp.pt ==> (v in copies <==> !IsMmapPage(sp.areas, v))
    case Eager => forall v: nat :: (v in sp.pt ==> v in copies) && (Covered(sp.areas, v) ==> v in sp.pt)
  }

  function TagFor(mode: Mode): set<MmapFlag> {
    if mode.CopyOnWrite? then {MAP_PRIVATE} else {}
  }

  // ---- giving pages up, and exit ----

  /** `madvise_dontneed` on one page of the area at `k`. */
  function Dropped(w: World, pid: nat, k: nat, v: nat): World
    requires pid in w.spaces && k in w.spaces[pid].areas
    requires v in w.spaces[pid].pt ==> w.spaces[pid].pt[v].ppn in w.mem.rc
  {
    Put(w, pid, Space(Forget(w.spaces[pid].areas, k, v), w.spaces[pid].pt - {v}), LetGo(w.mem, w.spaces[pid].pt, v))
  }

  ghost predicate MappedTo(pt: map<nat, Pte>, p: nat) {
    exists v: nat :: v in pt && pt[v].ppn == p
  }

  /** Every page of a space lets go of its frame. */
  ghost predicate MemoryReleased(mem: Memory, mem': Memory, pt: map<nat, Pte>) {
    && (forall p: nat :: p in mem'.frames <==> p in mem'.rc)
    && (forall p: nat :: p in mem'.rc <==> p in mem.rc && !(MappedTo(pt, p) && mem.rc[p] <= 1))
    && (forall p: nat :: p in mem'.rc ==> mem'.rc[p] == mem.rc[p] - if MappedTo(pt, p) then 1 else 0)
    && (forall p: nat :: p in mem'.frames && p in mem.frames ==> mem'.frames[p] == mem.frames[p])
  }

  /** Process `pid` ends. */
  ghost predicate Exited(w: World, pid: nat, w': World) {
    && pid in w.spaces && w'.spaces == w.spaces - {pid}
    && MemoryReleased(w.mem, w'.mem, w.spaces[pid].pt)
  }

  // ---- a new area ----

  ghost predicate NewMmapArea(t: Tree, a: MapArea) {
    && a.start < a.end && a.frames == map[] && a.areaType.Mmap? && MAP_SHARED !in a.mmapFlags
    && a.start !in t && !Overlaps(t, a.start, a.end)
  }

  function Pushed(w: World, pid: nat, a: MapArea): World
    requires pid in w.spaces
  {
    Put(w, pid, w.spaces[pid].(areas := w.spaces[pid].areas[a.start := a]), w.mem)
  }
}

/** Every operation keeps the world in order, and what it changes of what processes see. */
module CowInvariant {
  import opened Address
  import opened Base
  import opened Ptes
  import opened Areas
  import opened AreaEdits
  import opened AreaFrames
  import opened CowWorlds

  /** A frame with at most one holder belongs to that holder alone. */
  lemma SoleHolder(w: World, p: nat, pid: nat, v: nat, pid': nat, v': nat)
    requires |Holders(w, p)| <= 1
    requires Maps(w, pid, v, p) && Maps(w, pid', v', p)
    ensures pid == pid' && v == v'
  {
    var hs := Holders(w, p);
    assert (pid, v) in hs && (pid', v') in hs;
    if (pid, v) != (pid', v') {
      assert |{(pid, v), (pid', v')}| == 2;
      NoLarger({(pid, v), (pid', v')}, hs);
    }
  }

  /** Such a fault: on the second page, of an mmap area of one page. */
  lemma FaultPastEndOccurs(a: MapArea, mem: Memory, f: nat)
    requires a.start == 0 && a.end == 1 && a.frames == map[] && a.areaType.Mmap?
    ensures var sp := Space(map[0 := a], map[]);
            && WellFormed(sp.areas) && Fault(sp, mem, 1, false, f).Handled?
            && !WellFormed(Fault(sp, mem, 1, false, f).sp.areas)
  {
    var t: Tree := map[0 := a];
    assert LastAtMost(t, 1) == Some(0) by {
      assert 0 in t;
    }
    var t' := Fault(Space(t, map[]), mem, 1, false, f).sp.areas;
    assert 0 in t' && 1 in t'[0].frames && t'[0].end == 1;
  }

  /** The area test of the fault handler includes the page just past the area. There it allocates a
      page outside every area; the tree stays well formed exactly when the page is a covered one. */
  lemma FaultWellFormed(sp: Space, mem: Memory, v: nat, isWrite: bool, f: nat)
    requires WellFormed(sp.areas)
    requires forall k: nat :: k in sp.areas && v in sp.areas[k].frames ==>
               v in sp.pt && sp.areas[k].frames[v] in mem.rc && sp.areas[k].frames[v] in mem.frames
    requires Fault(sp, mem, v, isWrite, f).Handled?
    ensures WellFormed(Fault(sp, mem, v, isWrite, f).sp.areas) <==> Covered(sp.areas, v)
  {
    var k := AreaOf(sp.areas, v).value;
    if !Covered(sp.areas, v) {
      assert sp.areas[k].end == v && v !in sp.areas[k].frames;
    }
    MapOneWellFormed(sp, k, v, f);
  }

  lemma MapOneWellFormed(sp: Space, k: nat, v: nat, f: nat)
    requires WellFormed(sp.areas) && k in sp.areas && k <= v
    ensures WellFormed(MapOne(sp, k, v, f).areas) <==> Owns(sp.areas, k, v)
  {
    var t' := MapOne(sp, k, v, f).areas;
    if Owns(sp.areas, k, v) {
      MapOneKeeps(sp, k, v, f);
    } else {
      assert k in t' && v in t'[k].frames && !(v < t'[k].end);
    }
  }

  lemma MapOneKeeps(sp: Space, k: nat, v: nat, f: nat)
    requires WellFormed(sp.areas) && Owns(sp.areas, k, v)
    ensures WellFormed(MapOne(sp, k, v, f).areas)
  {
  }

  /** How the holders of frame `q` change when page `v` of `pid` comes to point at `e`. */
  lemma RepointHolders(w: World, pid: nat, sp': Space, v: nat, e: Pte, mem': Memory, q: nat)
    requires pid in w.spaces && sp'.pt == w.spaces[pid].pt[v := e]
    ensures Holders(Put(w, pid, sp', mem'), q)
            == (if q == e.ppn then Holders(w, q) + {(pid, v)} else Holders(w, q) - {(pid, v)})
  {
    var w' := Put(w, pid, sp', mem');
    forall pid': nat, u: nat
      ensures (pid', u) in Holders(w', q) <==>
                (pid', u) in (if q == e.ppn then Holders(w, q) + {(pid, v)} else Holders(w, q) - {(pid, v)})
    {
      if (pid', u) == (pid, v) {
      } else if pid' == pid {
      }
    }
  }

  lemma RepointCounted(w: World, pid: nat, sp': Space, v: nat, e: Pte, page: Page)
    requires Counted(w) && pid in w.spaces && e.ppn !in w.mem.rc
    requires sp'.pt == w.spaces[pid].pt[v := e]
    requires v in w.spaces[pid].pt ==> w.spaces[pid].pt[v].ppn in w.mem.rc
    ensures Counted(Put(w, pid, sp', AllocFrame(LetGo(w.mem, w.spaces[pid].pt, v), e.ppn, page)))
  {
    var mem' := AllocFrame(LetGo(w.mem, w.spaces[pid].pt, v), e.ppn, page);
    var w' := Put(w, pid, sp', mem');
    assert forall p: nat :: p in mem'.frames <==> p in mem'.rc;
    forall p: nat | p in mem'.rc ensures mem'.rc[p] == |Holders(w', p)| > 0 {
      if p !in w.mem.rc {
        NoHolders(w, p);
      }
      RepointSize(w, pid, sp', v, e, mem', p);
      LetGoRc(w.mem, w.spaces[pid].pt, v, e.ppn, page, p);
    }
    forall pid': nat, u: nat, p: nat | Maps(w', pid', u, p) ensures p in mem'.rc {
      RepointLive(w, pid, sp', v, e, page, pid', u, p);
    }
  }

  /** The number of holders of `p` goes up or down by the one page. */
  lemma RepointSize(w: World, pid: nat, sp': Space, v: nat, e: Pte, mem': Memory, p: nat)
    requires pid in w.spaces && sp'.pt == w.spaces[pid].pt[v := e]
    ensures var n := |Holders(w, p)|;
            |Holders(Put(w, pid, sp', mem'), p)|
            == if p == e.ppn then (if Maps(w, pid, v, p) then n else n + 1)
               else (if Maps(w, pid, v, p) then n - 1 else n)
  {
    RepointHolders(w, pid, sp', v, e, mem', p);
    assert (pid, v) in Holders(w, p) <==> Maps(w, pid, v, p);
    SizeWithout(Holders(w, p), (pid, v));
    SizeWith(Holders(w, p), (pid, v));
  }

  lemma SizeWith<T>(x: set<T>, e: T)
    ensures |x + {e}| == if e in x then |x| else |x| + 1
  {
    if e in x {
      assert x + {e} == x;
    }
  }

  lemma SizeWithout<T>(x: set<T>, e: T)
    ensures |x - {e}| == if e in x then |x| - 1 else |x|
  {
    if e !in x {
      assert x - {e} == x;
    }
  }

  /** The counts after page `v` has let go of its frame and `f` has been allocated. */
  lemma LetGoRc(mem: Memory, pt: map<nat, Pte>, v: nat, f: nat, page: Page, p: nat)
    requires v in pt ==> pt[v].ppn in mem.rc
    requires f !in mem.rc && p in AllocFrame(LetGo(mem, pt, v), f, page).rc
    ensures p == f || p in mem.rc
    ensures AllocFrame(LetGo(mem, pt, v), f, page).rc[p]
            == if p == f then 1 else if v in pt && pt[v].ppn == p then mem.rc[p] - 1 else mem.rc[p]
    ensures p != f && v in pt && pt[v].ppn == p ==> mem.rc[p] > 1
  {
  }

  lemma NoHolders(w: World, p: nat)
    requires Counted(w) && p !in w.mem.rc
    ensures Holders(w, p) == {}
  {
    if h :| h in Holders(w, p) {
      assert Maps(w, h.0, h.1, p);
    }
  }

  lemma RepointLive(w: World, pid: nat, sp': Space, v: nat, e: Pte, page: Page, pid': nat, u: nat, p: nat)
    requires Counted(w) && pid in w.spaces && e.ppn !in w.mem.rc
    requires sp'.pt == w.spaces[pid].pt[v := e]
    requires v in w.spaces[pid].pt ==> w.spaces[pid].pt[v].ppn in w.mem.rc
    requires Maps(Put(w, pid, sp', AllocFrame(LetGo(w.mem, w.spaces[pid].pt, v), e.ppn, page)), pid', u, p)
    ensures p in AllocFrame(LetGo(w.mem, w.spaces[pid].pt, v), e.ppn, page).rc
  {
    if (pid', u) != (pid, v) {
      assert Maps(w, pid', u, p);
      if Maps(w, pid, v, p) && w.mem.rc[p] <= 1 {
        SoleHolder(w, p, pid, v, pid', u);
      }
    }
  }

  lemma RepointCow(w: World, pid: nat, sp': Space, v: nat, e: Pte, page: Page)
    requires Counted(w) && SharedAreCow(w) && pid in w.spaces && e.ppn !in w.mem.rc
    requires sp'.pt == w.spaces[pid].pt[v := e]
    requires v in w.spaces[pid].pt ==> w.spaces[pid].pt[v].ppn in w.mem.rc
    ensures SharedAreCow(Put(w, pid, sp', AllocFrame(LetGo(w.mem, w.spaces[pid].pt, v), e.ppn, page)))
  {
    var mem' := AllocFrame(LetGo(w.mem, w.spaces[pid].pt, v), e.ppn, page);
    var w' := Put(w, pid, sp', mem');
    forall pid': nat, u: nat | pid' in w'.spaces && u in w'.spaces[pid'].pt
      ensures CowIfShared(w'.spaces[pid'].pt[u], mem'.rc)
    {
      if (pid', u) != (pid, v) {
        var p := w.spaces[pid'].pt[u].ppn;
        assert Maps(w, pid', u, p);
        assert CowIfShared(w.spaces[pid'].pt[u], w.mem.rc);
      }
    }
  }

  /** If the fresh frame holds what the page held, nobody sees the change. */
  lemma RepointContents(w: World, pid: nat, sp': Space, v: nat, e: Pte, page: Page)
    requires Counted(w) && pid in w.spaces && e.ppn !in w.mem.rc
    requires sp'.pt == w.spaces[pid].pt[v := e]
    requires v in w.spaces[pid].pt ==> w.spaces[pid].pt[v].ppn in w.mem.rc
    requires forall u: nat :: Covered(sp'.areas, u) <==> Covered(w.spaces[pid].areas, u)
    requires Content(w.spaces[pid], w.mem, v) == Some(page)
    ensures SameContents(w, Put(w, pid, sp', AllocFrame(LetGo(w.mem, w.spaces[pid].pt, v), e.ppn, page)))
  {
    forall pid': nat, u: nat
      ensures ContentAt(Put(w, pid, sp', AllocFrame(LetGo(w.mem, w.spaces[pid].pt, v), e.ppn, page)), pid', u)
              == ContentAt(w, pid', u)
    {
      RepointContent(w, pid, sp', v, e, page, pid', u);
    }
  }

  lemma RepointContent(w: World, pid: nat, sp': Space, v: nat, e: Pte, page: Page, pid': nat, u: nat)
    requires Counted(w) && pid in w.spaces && e.ppn !in w.mem.rc
    requires sp'.pt == w.spaces[pid].pt[v := e]
    requires v in w.spaces[pid].pt ==> w.spaces[pid].pt[v].ppn in w.mem.rc
    requires Covered(sp'.areas, u) <==> Covered(w.spaces[pid].areas, u)
    requires Content(w.spaces[pid], w.mem, v) == Some(page) && (u == v ==> Covered(sp'.areas, v))
    ensures ContentAt(Put(w, pid, sp', AllocFrame(LetGo(w.mem, w.spaces[pid].pt, v), e.ppn, page)), pid', u)
            == ContentAt(w, pid', u)
  {
    if pid' in w.spaces && (pid', u) != (pid, v) && u in w.spaces[pid'].pt {
      RepointBytes(w, pid, sp', v, e, page, pid', u);
    }
  }

  /** The frames of other pages keep their bytes. */
  lemma RepointBytes(w: World, pid: nat, sp': Space, v: nat, e: Pte, page: Page, pid': nat, u: nat)
    requires Counted(w) && pid in w.spaces && e.ppn !in w.mem.rc
    requires sp'.pt == w.spaces[pid].pt[v := e]
    requires v in w.spaces[pid].pt ==> w.spaces[pid].pt[v].ppn in w.mem.rc
    requires pid' in w.spaces && (pid', u) != (pid, v) && u in w.spaces[pid'].pt
    ensures var mem', p := AllocFrame(LetGo(w.mem, w.spaces[pid].pt, v), e.ppn, page), w.spaces[pid'].pt[u].ppn;
            p in mem'.frames && p in w.mem.frames && mem'.frames[p] == w.mem.frames[p]
  {
    var w' := Put(w, pid, sp', AllocFrame(LetGo(w.mem, w.spaces[pid].pt, v), e.ppn, page));
    var p := w.spaces[pid'].pt[u].ppn;
    assert Maps(w, pid', u, p) && Maps(w', pid', u, p);
    RepointLive(w, pid, sp', v, e, page, pid', u, p);
  }

  lemma MapOneOk(sp: Space, k: nat, v: nat, f: nat)
    requires SpaceOk(sp) && Owns(sp.areas, k, v)
    requires forall u: nat :: u in sp.pt ==> sp.pt[u].ppn != f
    ensures SpaceOk(MapOne(sp, k, v, f))
    ensures forall u: nat :: Covered(MapOne(sp, k, v, f).areas, u) <==> Covered(sp.areas, u)
  {
    MapOneWellFormed(sp, k, v, f);
    MapOneAgrees(sp, k, v, f);
    assert RightsOk(MapOne(sp, k, v, f)) by { MapOneRights(sp, k, v, f); }
    MapOneCovers(sp, k, v, f);
  }

  lemma MapOneRights(sp: Space, k: nat, v: nat, f: nat)
    requires WellFormed(sp.areas) && EntriesPresent(sp.areas, sp.pt) && RightsOk(sp) && Owns(sp.areas, k, v)
    ensures RightsOk(MapOne(sp, k, v, f))
  {
    var sp' := MapOne(sp, k, v, f);
    forall j: nat, u: nat | j in sp'.areas && u in sp'.areas[j].frames
      ensures u in sp'.pt && RightsMatch(sp'.pt[u], sp'.areas[j].perm)
    {
      if u == v && j != k {
        OneOwner(sp.areas, j, k, v);
      }
    }
  }

  lemma MapOneCovers(sp: Space, k: nat, v: nat, f: nat)
    requires Backed(sp.areas) && Owns(sp.areas, k, v)
    ensures Backed(MapOne(sp, k, v, f).areas)
    ensures forall u: nat :: Covered(MapOne(sp, k, v, f).areas, u) <==> Covered(sp.areas, u)
  {
    var sp' := MapOne(sp, k, v, f);
    forall u: nat ensures Covered(sp'.areas, u) <==> Covered(sp.areas, u) {
      assert forall j: nat :: Owns(sp'.areas, j, u) <==> Owns(sp.areas, j, u);
    }
    forall j: nat, u: nat | Owns(sp'.areas, j, u) && !sp'.areas[j].areaType.Mmap?
      ensures u in sp'.areas[j].frames
    {
      assert Owns(sp.areas, j, u);
    }
  }

  lemma MapOneAgrees(sp: Space, k: nat, v: nat, f: nat)
    requires WellFormed(sp.areas) && Agree(sp.areas, sp.pt) && Owns(sp.areas, k, v)
    ensures Agree(MapOne(sp, k, v, f).areas, MapOne(sp, k, v, f).pt)
  {
    var sp' := MapOne(sp, k, v, f);
    MapOneWellFormed(sp, k, v, f);
    forall u: nat | u in sp'.pt ensures HasFrame(sp'.areas, u) {
      if u == v {
        assert k in sp'.areas && v in sp'.areas[k].frames;
      } else {
        var j: nat :| j in sp.areas && u in sp.areas[j].frames;
        assert j in sp'.areas && u in sp'.areas[j].frames;
      }
    }
    forall j: nat, u: nat | j in sp'.areas && u in sp'.areas[j].frames
      ensures u in sp'.pt && sp'.pt[u].ppn == sp'.areas[j].frames[u]
    {
      if u == v {
        OneOwner(sp'.areas, j, k, v);
      }
    }
  }

  lemma ReflagHolders(w: World, pid: nat, sp': Space, q: nat)
    requires pid in w.spaces && SameFrames(w.spaces[pid].pt, sp'.pt)
    ensures Holders(Put(w, pid, sp', w.mem), q) == Holders(w, q)
  {
  }

  lemma ReflagCounted(w: World, pid: nat, sp': Space)
    requires Counted(w) && pid in w.spaces && SameFrames(w.spaces[pid].pt, sp'.pt)
    requires forall v: nat :: Covered(sp'.areas, v) <==> Covered(w.spaces[pid].areas, v)
    ensures Counted(Put(w, pid, sp', w.mem))
    ensures SameContents(w, Put(w, pid, sp', w.mem))
  {
    var w' := Put(w, pid, sp', w.mem);
    forall p: nat | p in w'.mem.rc ensures w'.mem.rc[p] == |Holders(w', p)| > 0 {
      ReflagHolders(w, pid, sp', p);
    }
    forall pid': nat, u: nat, p: nat | Maps(w', pid', u, p) ensures p in w'.mem.rc {
      assert Maps(w, pid', u, p);
    }
  }

  lemma PutSpaces(w: World, pid: nat, sp: Space, mem: Memory)
    requires SpacesOk(w) && SpaceOk(sp)
    ensures SpacesOk(Put(w, pid, sp, mem))
  {
  }

  lemma UnCowShared(w: World, pid: nat, v: nat)
    requires SharedAreCow(w) && pid in w.spaces && v in w.spaces[pid].pt
    requires w.spaces[pid].pt[v].ppn in w.mem.rc && w.mem.rc[w.spaces[pid].pt[v].ppn] <= 1
    ensures var sp := w.spaces[pid];
            SharedAreCow(Put(w, pid, sp.(pt := sp.pt[v := UnCow(sp.pt[v])]), w.mem))
  {
  }

  lemma UnCowFrames(pt: map<nat, Pte>, v: nat)
    requires v in pt
    ensures SameFrames(pt, pt[v := UnCow(pt[v])])
  {
  }

  lemma UnCowAgrees(sp: Space, v: nat)
    requires Agree(sp.areas, sp.pt) && v in sp.pt
    ensures Agree(sp.areas, sp.pt[v := UnCow(sp.pt[v])])
  {
  }

  lemma UnCowSpace(sp: Space, v: nat)
    requires SpaceOk(sp) && v in sp.pt
    ensures SpaceOk(sp.(pt := sp.pt[v := UnCow(sp.pt[v])]))
  {
    UnCowAgrees(sp, v);
  }

  /** Giving the write right back to the only holder of a frame. */
  lemma UnCowOk(w: World, pid: nat, v: nat)
    requires WorldOk(w) && pid in w.spaces && v in w.spaces[pid].pt
    requires w.spaces[pid].pt[v].ppn in w.mem.rc && w.mem.rc[w.spaces[pid].pt[v].ppn] <= 1
    ensures var sp := w.spaces[pid];
            var w' := Put(w, pid, sp.(pt := sp.pt[v := UnCow(sp.pt[v])]), w.mem);
            WorldOk(w') && SameContents(w, w')
  {
    var sp := w.spaces[pid];
    var pt' := sp.pt[v := UnCow(sp.pt[v])];
    var w' := Put(w, pid, sp.(pt := pt'), w.mem);
    assert Counted(w') && SameContents(w, w') by { UnCowFrames(sp.pt, v); ReflagCounted(w, pid, sp.(pt := pt')); }
    assert SpacesOk(w') by { UnCowSpace(sp, v); PutSpaces(w, pid, sp.(pt := pt'), w.mem); }
    assert SharedAreCow(w') by { UnCowShared(w, pid, v); }
  }

  // ---- the fault handler keeps the world and its contents ----

  /** Page `v` of area `k` gets a fresh frame that holds what the page held. */
  lemma RemapOk(w: World, pid: nat, k: nat, v: nat, f: nat, page: Page)
    requires WorldOk(w) && pid in w.spaces && f !in w.mem.rc && Owns(w.spaces[pid].areas, k, v)
    requires v in w.spaces[pid].pt ==> w.spaces[pid].pt[v].ppn in w.mem.rc
    requires Content(w.spaces[pid], w.mem, v) == Some(page)
    ensures var sp, mem := MapOne(w.spaces[pid], k, v, f), AllocFrame(LetGo(w.mem, w.spaces[pid].pt, v), f, page);
            var w' := Put(w, pid, sp, mem);
            WorldOk(w') && SameContents(w, w')
  {
    var sp := w.spaces[pid];
    var sp', e := MapOne(sp, k, v, f), NewPage(f, FlagsOf(sp.areas[k].perm));
    FreshEverywhere(w, f, pid);
    MapOneOk(sp, k, v, f);
    RepointCounted(w, pid, sp', v, e, page);
    RepointCow(w, pid, sp', v, e, page);
    RepointContents(w, pid, sp', v, e, page);
    PutSpaces(w, pid, sp', AllocFrame(LetGo(w.mem, sp.pt, v), f, page));
  }

  /** The two ways a fault on a covered page is handled. */
  lemma FaultForms(sp: Space, mem: Memory, v: nat, isWrite: bool, f: nat, k: nat)
    requires WellFormed(sp.areas) && Owns(sp.areas, k, v)
    requires v in sp.pt <==> v in sp.areas[k].frames
    requires v in sp.pt ==>
               sp.pt[v].ppn == sp.areas[k].frames[v] && sp.pt[v].ppn in mem.rc && sp.pt[v].ppn in mem.frames
    requires forall j: nat :: j in sp.areas && v in sp.areas[j].frames ==> j == k
    requires Fault(sp, mem, v, isWrite, f).Handled?
    ensures Fault(sp, mem, v, isWrite, f)
            == if v in sp.pt && mem.rc[sp.pt[v].ppn] <= 1
               then Handled(sp.(pt := sp.pt[v := UnCow(sp.pt[v])]), mem)
               else Handled(MapOne(sp, k, v, f), AllocFrame(LetGo(mem, sp.pt, v), f, Held(sp, mem, v)))
  {
    OneOwner(sp.areas, AreaOf(sp.areas, v).value, k, v);
  }

  /** A fault on a covered page. The world stays in order and no process sees a difference. */
  lemma FaultStep(w: World, pid: nat, v: nat, isWrite: bool, f: nat)
    requires WorldOk(w) && f !in w.mem.rc && Faultable(w, pid, v) && Covered(w.spaces[pid].areas, v)
    requires Fault(w.spaces[pid], w.mem, v, isWrite, f).Handled?
    ensures var r := Fault(w.spaces[pid], w.mem, v, isWrite, f);
            WorldOk(Put(w, pid, r.sp, r.mem)) && SameContents(w, Put(w, pid, r.sp, r.mem))
  {
    var sp := w.spaces[pid];
    var k: nat :| Owns(sp.areas, k, v);
    NoFrameNoEntry(sp, k, v);
    FaultForms(sp, w.mem, v, isWrite, f, k);
    if v in sp.pt && w.mem.rc[sp.pt[v].ppn] <= 1 {
      UnCowOk(w, pid, v);
    } else {
      RemapOk(w, pid, k, v, f, Held(sp, w.mem, v));
    }
  }

  /** After a fault that is handled the page is mapped; the hardware can use the entry, and may write
      through it, exactly if the page got a frame of its own just now or its entry had or remembered
      that, the area's right to write provided. */
  lemma FaultGives(w: World, pid: nat, v: nat, isWrite: bool, f: nat)
    requires WorldOk(w) && Faultable(w, pid, v) && Covered(w.spaces[pid].areas, v)
    requires Fault(w.spaces[pid], w.mem, v, isWrite, f).Handled?
    ensures var sp, sp' := w.spaces[pid], Fault(w.spaces[pid], w.mem, v, isWrite, f).sp;
            && v in sp'.pt && (sp'.pt[v].flags.present <==> CanRead(sp, w.mem, v))
            && (sp'.pt[v].flags.w <==> PermAt(sp.areas, v).w && CanWrite(sp, w.mem, v))
  {
    var sp := w.spaces[pid];
    assert SpaceOk(sp);
    var k: nat :| Owns(sp.areas, k, v);
    NoFrameNoEntry(sp, k, v);
    FaultForms(sp, w.mem, v, isWrite, f, k);
    InfoAt(sp.areas, k, v);
    if v in sp.pt {
      assert RightsMatch(sp.pt[v], sp.areas[k].perm);
    }
  }

  lemma AlwaysFaultable(w: World, pid: nat, v: nat)
    requires WorldOk(w) && pid in w.spaces
    ensures Faultable(w, pid, v)
  {
    AllLive(w, pid);
    assert SpaceOk(w.spaces[pid]);
  }

  lemma FreshEverywhere(w: World, f: nat, pid: nat)
    requires Counted(w) && f !in w.mem.rc && pid in w.spaces
    ensures forall u: nat :: u in w.spaces[pid].pt ==> w.spaces[pid].pt[u].ppn != f
  {
    forall u: nat | u in w.spaces[pid].pt ensures w.spaces[pid].pt[u].ppn != f {
      assert Maps(w, pid, u, w.spaces[pid].pt[u].ppn);
    }
  }

  /** An area that owns a page records its frame whenever the page is mapped. */
  lemma NoFrameNoEntry(sp: Space, k: nat, v: nat)
    requires SpaceOk(sp) && Owns(sp.areas, k, v)
    ensures v in sp.pt <==> v in sp.areas[k].frames
    ensures v in sp.pt ==> sp.pt[v].ppn == sp.areas[k].frames[v]
    ensures forall j: nat :: j in sp.areas && v in sp.areas[j].frames ==> j == k
  {
    if v in sp.pt {
      var j: nat :| j in sp.areas && v in sp.areas[j].frames;
      OneOwner(sp.areas, j, k, v);
    }
  }

  // ---- stores ----

  /** Writing through a writable entry changes that page of that process and nothing else. */
  lemma StoreStep(w: World, pid: nat, v: nat, off: nat, b: bv8)
    requires WorldOk(w) && pid in w.spaces && v in w.spaces[pid].pt && w.spaces[pid].pt[v].flags.w && off < PAGE_SIZE
    ensures Covered(w.spaces[pid].areas, v) && w.spaces[pid].pt[v].ppn in w.mem.frames
    ensures var w' := Stored(w, w.spaces[pid].pt[v].ppn, off, b);
            && WorldOk(w')
            && (forall pid': nat, u: nat :: ContentAt(w', pid', u)
                  == if pid' == pid && u == v then Some(ContentAt(w, pid, v).value[off := b])
                     else ContentAt(w, pid', u))
  {
    var p := w.spaces[pid].pt[v].ppn;
    assert Maps(w, pid, v, p);
    EntryCovered(w.spaces[pid], v);
    var w' := Stored(w, p, off, b);
    assert WorldOk(w') by { SameSpacesOk(w, w'); }
    forall pid': nat, u: nat
      ensures ContentAt(w', pid', u)
              == if pid' == pid && u == v then Some(ContentAt(w, pid, v).value[off := b]) else ContentAt(w, pid', u)
    {
      if Maps(w, pid', u, p) {
        WritableIsSole(w, pid, v, pid', u);
      }
      StoreContent(w, pid, v, off, b, pid', u);
    }
  }

  lemma StoreContent(w: World, pid: nat, v: nat, off: nat, b: bv8, pid': nat, u: nat)
    requires pid in w.spaces && v in w.spaces[pid].pt && off < PAGE_SIZE
    requires Covered(w.spaces[pid].areas, v) && w.spaces[pid].pt[v].ppn in w.mem.frames
    requires Maps(w, pid', u, w.spaces[pid].pt[v].ppn) ==> pid' == pid && u == v
    ensures ContentAt(Stored(w, w.spaces[pid].pt[v].ppn, off, b), pid', u)
            == if pid' == pid && u == v then Some(ContentAt(w, pid, v).value[off := b]) else ContentAt(w, pid', u)
  {
  }

  /** A page that may be written is the only one on its frame. */
  lemma WritableIsSole(w: World, pid: nat, v: nat, pid': nat, u: nat)
    requires Counted(w) && SharedAreCow(w)
    requires pid in w.spaces && v in w.spaces[pid].pt && w.spaces[pid].pt[v].flags.w
    requires Maps(w, pid', u, w.spaces[pid].pt[v].ppn)
    ensures pid' == pid && u == v
  {
    var p := w.spaces[pid].pt[v].ppn;
    assert Maps(w, pid, v, p);
    assert CowIfShared(w.spaces[pid].pt[v], w.mem.rc);
    SoleHolder(w, p, pid, v, pid', u);
  }

  lemma EntryCovered(sp: Space, v: nat)
    requires SpaceOk(sp) && v in sp.pt
    ensures Covered(sp.areas, v)
  {
    var k: nat :| k in sp.areas && v in sp.areas[k].frames;
    assert Owns(sp.areas, k, v);
  }

  lemma SameSpacesOk(w: World, w': World)
    requires WorldOk(w) && w'.spaces == w.spaces && w'.mem.rc == w.mem.rc
    requires forall p: nat :: p in w'.mem.frames <==> p in w.mem.frames
    ensures WorldOk(w')
  {
    assert SpacesOk(w') && SharedAreCow(w');
    assert Counted(w') by { SameSpacesCounted(w, w'); }
  }

  lemma SameSpacesCounted(w: World, w': World)
    requires Counted(w) && w'.spaces == w.spaces && w'.mem.rc == w.mem.rc
    requires forall p: nat :: p in w'.mem.frames <==> p in w.mem.frames
    ensures Counted(w')
  {
    forall p: nat ensures Holders(w', p) == Holders(w, p) {}
    forall pid: nat, v: nat, p: nat | Maps(w', pid, v, p) ensures p in w'.mem.rc {
      assert Maps(w, pid, v, p);
    }
  }

  // ---- fork ----

  /** Changing flags only keeps frames and entries in agreement. */
  lemma SameFramesAgree(t: Tree, pt: map<nat, Pte>, pt': map<nat, Pte>)
    requires Agree(t, pt) && SameFrames(pt, pt')
    ensures Agree(t, pt')
  {
  }

  lemma ParentOk(sp: Space, copies: map<nat, nat>)
    requires SpaceOk(sp)
    ensures SpaceOk(ParentAfter(sp, copies)) && SameFrames(sp.pt, ParentAfter(sp, copies).pt)
  {
    var sp' := ParentAfter(sp, copies);
    assert SameFrames(sp.pt, sp'.pt);
    assert Agree(sp'.areas, sp'.pt) by { SameFramesAgree(sp.areas, sp.pt, sp'.pt); }
    assert RightsOk(sp') by { ParentRights(sp, copies); }
    assert OwnFrames(sp'.pt);
  }

  lemma ParentRights(sp: Space, copies: map<nat, nat>)
    requires RightsOk(sp)
    ensures RightsOk(ParentAfter(sp, copies))
  {
  }

  lemma ChildOfWellFormed(sp: Space, copies: map<nat, nat>, tag: set<MmapFlag>)
    requires WellFormed(sp.areas)
    ensures WellFormed(ChildOf(sp, copies, tag).areas)
    ensures forall k: nat, v: nat :: Owns(ChildOf(sp, copies, tag).areas, k, v) <==> Owns(sp.areas, k, v)
    ensures forall v: nat :: Covered(ChildOf(sp, copies, tag).areas, v) <==> Covered(sp.areas, v)
  {
    var t' := ChildOf(sp, copies, tag).areas;
    forall v: nat ensures Covered(t', v) <==> Covered(sp.areas, v) {
      assert forall k: nat :: Owns(t', k, v) <==> Owns(sp.areas, k, v);
    }
  }

  lemma ChildEntry(sp: Space, c: Space, copies: map<nat, nat>, tag: set<MmapFlag>, k: nat, v: nat)
    requires WellFormed(sp.areas) && EntriesPresent(sp.areas, sp.pt) && c == ChildOf(sp, copies, tag)
    requires k in c.areas && v in c.areas[k].frames
    ensures v in c.pt && c.pt[v].ppn == c.areas[k].frames[v] && RightsMatch(c.pt[v], c.areas[k].perm)
  {
    assert Owns(sp.areas, k, v);
    InfoAt(sp.areas, k, v);
  }

  lemma ChildOfAgrees(sp: Space, c: Space, copies: map<nat, nat>, tag: set<MmapFlag>)
    requires WellFormed(sp.areas) && Agree(sp.areas, sp.pt) && c == ChildOf(sp, copies, tag)
    ensures Agree(c.areas, c.pt)
  {
    assert EntriesPresent(c.areas, c.pt) by { ChildEntries(sp, c, copies, tag); }
    forall v: nat | v in c.pt ensures HasFrame(c.areas, v) {
      ChildHasFrame(sp, c, copies, tag, v);
    }
  }

  lemma ChildEntries(sp: Space, c: Space, copies: map<nat, nat>, tag: set<MmapFlag>)
    requires WellFormed(sp.areas) && EntriesPresent(sp.areas, sp.pt) && c == ChildOf(sp, copies, tag)
    ensures EntriesPresent(c.areas, c.pt)
  {
    forall k: nat, v: nat | k in c.areas && v in c.areas[k].frames
      ensures v in c.pt && c.pt[v].ppn == c.areas[k].frames[v]
    {
      ChildEntry(sp, c, copies, tag, k, v);
    }
  }

  lemma ChildRights(sp: Space, c: Space, copies: map<nat, nat>, tag: set<MmapFlag>)
    requires WellFormed(sp.areas) && EntriesPresent(sp.areas, sp.pt) && c == ChildOf(sp, copies, tag)
    ensures RightsOk(c)
  {
    forall k: nat, v: nat | k in c.areas && v in c.areas[k].frames
      ensures v in c.pt && RightsMatch(c.pt[v], c.areas[k].perm)
    {
      ChildEntry(sp, c, copies, tag, k, v);
    }
  }

  lemma ChildHasFrame(sp: Space, c: Space, copies: map<nat, nat>, tag: set<MmapFlag>, v: nat)
    requires Agree(sp.areas, sp.pt) && c == ChildOf(sp, copies, tag) && v in sp.pt
    ensures HasFrame(c.areas, v)
  {
    assert HasFrame(sp.areas, v);
    var k: nat :| k in sp.areas && v in sp.areas[k].frames;
    assert k in c.areas && v in c.areas[k].frames;
  }

  lemma ChildOwnFrames(mem: Memory, sp: Space, copies: map<nat, nat>, tag: set<MmapFlag>)
    requires OwnFrames(sp.pt) && FreshCopies(mem, sp.pt, copies)
    requires forall v: nat :: v in sp.pt ==> sp.pt[v].ppn in mem.rc
    ensures OwnFrames(ChildOf(sp, copies, tag).pt)
  {
  }

  lemma ChildBacked(sp: Space, copies: map<nat, nat>, tag: set<MmapFlag>)
    requires Backed(sp.areas)
    ensures Backed(ChildOf(sp, copies, tag).areas)
  {
    var c := ChildOf(sp, copies, tag);
    forall k: nat, v: nat | Owns(c.areas, k, v) && !c.areas[k].areaType.Mmap? ensures v in c.areas[k].frames {
      assert Owns(sp.areas, k, v);
    }
  }

  lemma ChildOk(w: World, parent: nat, copies: map<nat, nat>, tag: set<MmapFlag>)
    requires SpacesOk(w) && Counted(w) && parent in w.spaces && FreshCopies(w.mem, w.spaces[parent].pt, copies)
    ensures SpaceOk(ChildOf(w.spaces[parent], copies, tag))
  {
    var sp := w.spaces[parent];
    AllLive(w, parent);
    ChildOfWellFormed(sp, copies, tag);
    ChildOfAgrees(sp, ChildOf(sp, copies, tag), copies, tag);
    ChildRights(sp, ChildOf(sp, copies, tag), copies, tag);
    ChildOwnFrames(w.mem, sp, copies, tag);
    ChildBacked(sp, copies, tag);
  }

  lemma AllLive(w: World, pid: nat)
    requires Counted(w) && pid in w.spaces
    ensures forall v: nat :: v in w.spaces[pid].pt ==>
              w.spaces[pid].pt[v].ppn in w.mem.rc && w.spaces[pid].pt[v].ppn in w.mem.frames
  {
    forall v: nat | v in w.spaces[pid].pt ensures w.spaces[pid].pt[v].ppn in w.mem.rc {
      assert Maps(w, pid, v, w.spaces[pid].pt[v].ppn);
    }
  }

  lemma ChildShape(sp: Space, copies: map<nat, nat>, tag: set<MmapFlag>)
    requires SpaceOk(sp)
    ensures forall v: nat :: v in ChildOf(sp, copies, tag).pt <==> v in sp.pt
    ensures forall v: nat :: v in sp.pt ==> ChildOf(sp, copies, tag).pt[v].ppn == ChildPpn(sp.pt, copies, v)
  {
    forall v: nat | v in sp.pt ensures Covered(sp.areas, v) {
      EntryCovered(sp, v);
    }
  }

  lemma ParentFrames(sp: Space, copies: map<nat, nat>)
    ensures SameFrames(sp.pt, ParentAfter(sp, copies).pt)
  {
  }

  lemma ForkedShape(w: World, parent: nat, child: nat, copies: map<nat, nat>, tag: set<MmapFlag>, w': World)
    requires Forked(w, parent, child, copies, tag, w') && SpaceOk(w.spaces[parent])
    ensures ForkShape(w, parent, child, copies, w')
  {
    ChildShape(w.spaces[parent], copies, tag);
    ParentFrames(w.spaces[parent], copies);
  }

  /** Who maps `p` after the fork: whoever did, and the child where it took it over. */
  lemma ForkMaps(w: World, parent: nat, child: nat, copies: map<nat, nat>, w': World, pid: nat, v: nat, p: nat)
    requires ForkShape(w, parent, child, copies, w')
    ensures Maps(w', pid, v, p) <==>
              if pid == child then v in w.spaces[parent].pt && ChildPpn(w.spaces[parent].pt, copies, v) == p
              else Maps(w, pid, v, p)
  {
  }

  lemma ForkHolders(w: World, parent: nat, child: nat, copies: map<nat, nat>, w': World, p: nat, v: nat)
    requires ForkShape(w, parent, child, copies, w') && v in w.spaces[parent].pt
    requires forall u: nat :: u in w.spaces[parent].pt && ChildPpn(w.spaces[parent].pt, copies, u) == p ==> u == v
    ensures Holders(w', p)
            == if ChildPpn(w.spaces[parent].pt, copies, v) == p then Holders(w, p) + {(child, v)} else Holders(w, p)
    ensures (child, v) !in Holders(w, p)
  {
    forall pid: nat, u: nat
      ensures (pid, u) in Holders(w', p) <==>
                (pid, u) in Holders(w, p) || ((pid, u) == (child, v) && ChildPpn(w.spaces[parent].pt, copies, v) == p)
    {
      ForkMaps(w, parent, child, copies, w', pid, u, p);
    }
  }

  lemma ForkHoldersSame(w: World, parent: nat, child: nat, copies: map<nat, nat>, w': World, p: nat)
    requires ForkShape(w, parent, child, copies, w')
    requires forall u: nat :: u in w.spaces[parent].pt ==> ChildPpn(w.spaces[parent].pt, copies, u) != p
    ensures Holders(w', p) == Holders(w, p)
  {
    forall pid: nat, u: nat ensures (pid, u) in Holders(w', p) <==> (pid, u) in Holders(w, p) {
      ForkMaps(w, parent, child, copies, w', pid, u, p);
    }
  }

  /** The holders of a frame that was in use before the fork. */
  lemma SharedHolders(w: World, parent: nat, child: nat, copies: map<nat, nat>, w': World, p: nat)
    requires ForkShape(w, parent, child, copies, w') && OwnFrames(w.spaces[parent].pt) && p in w.mem.rc
    requires FreshCopies(w.mem, w.spaces[parent].pt, copies)
    ensures |Holders(w', p)| == |Holders(w, p)| + if SharedByFork(w.spaces[parent].pt, copies, p) then 1 else 0
  {
    var pt := w.spaces[parent].pt;
    assert forall u: nat :: u in pt && ChildPpn(pt, copies, u) == p ==> u !in copies;
    if SharedByFork(pt, copies, p) {
      var v: nat :| v in pt && v !in copies && pt[v].ppn == p;
      ForkHolders(w, parent, child, copies, w', p, v);
      SizeWith(Holders(w, p), (child, v));
    } else {
      ForkHoldersSame(w, parent, child, copies, w', p);
    }
  }

  /** The count of one frame after the fork. */
  lemma ForkCount(w: World, parent: nat, child: nat, copies: map<nat, nat>, w': World, p: nat)
    requires Counted(w) && ForkShape(w, parent, child, copies, w') && OwnFrames(w.spaces[parent].pt)
    requires FreshCopies(w.mem, w.spaces[parent].pt, copies) && CountsForked(w.mem, w'.mem, w.spaces[parent].pt, copies)
    requires p in w'.mem.rc
    ensures w'.mem.rc[p] == |Holders(w', p)| > 0
  {
    if p in w.mem.rc {
      SharedHolders(w, parent, child, copies, w', p);
    } else {
      var v: nat :| v in copies && copies[v] == p;
      AllLive(w, parent);
      NoHolders(w, p);
      CopyHolders(w, parent, child, copies, w', v);
    }
  }

  lemma CopyHolders(w: World, parent: nat, child: nat, copies: map<nat, nat>, w': World, v: nat)
    requires ForkShape(w, parent, child, copies, w') && FreshCopies(w.mem, w.spaces[parent].pt, copies)
    requires forall u: nat :: u in w.spaces[parent].pt ==> w.spaces[parent].pt[u].ppn in w.mem.rc
    requires v in copies && Holders(w, copies[v]) == {}
    ensures |Holders(w', copies[v])| == 1
  {
    ForkHolders(w, parent, child, copies, w', copies[v], v);
    assert Holders(w', copies[v]) == {(child, v)};
  }

  lemma ForkLive(w: World, parent: nat, child: nat, copies: map<nat, nat>, w': World, pid: nat, v: nat, p: nat)
    requires Counted(w) && ForkShape(w, parent, child, copies, w')
    requires MemoryForked(w.mem, w'.mem, w.spaces[parent].pt, copies)
    requires Maps(w', pid, v, p)
    ensures p in w'.mem.rc
  {
    ForkMaps(w, parent, child, copies, w', pid, v, p);
    AllLive(w, parent);
  }

  lemma ForkCounted(w: World, parent: nat, child: nat, copies: map<nat, nat>, w': World)
    requires Counted(w) && ForkShape(w, parent, child, copies, w') && OwnFrames(w.spaces[parent].pt)
    requires FreshCopies(w.mem, w.spaces[parent].pt, copies) && MemoryForked(w.mem, w'.mem, w.spaces[parent].pt, copies)
    ensures Counted(w')
  {
    forall p: nat | p in w'.mem.rc ensures w'.mem.rc[p] == |Holders(w', p)| > 0 {
      ForkCount(w, parent, child, copies, w', p);
    }
    forall pid: nat, v: nat, p: nat | Maps(w', pid, v, p) ensures p in w'.mem.rc {
      ForkLive(w, parent, child, copies, w', pid, v, p);
    }
  }

  /** A third process that shares a frame with the parent had it marked before. */
  lemma ForkOthersCow(w: World, parent: nat, child: nat, copies: map<nat, nat>, tag: set<MmapFlag>, w': World, pid: nat,
                      v: nat)
    requires Counted(w) && SharedAreCow(w) && Forked(w, parent, child, copies, tag, w')
    requires pid in w.spaces && pid != parent && v in w.spaces[pid].pt
    ensures CowIfShared(w.spaces[pid].pt[v], w'.mem.rc)
  {
    var p := w.spaces[pid].pt[v].ppn;
    assert Maps(w, pid, v, p);
    assert CowIfShared(w.spaces[pid].pt[v], w.mem.rc);
    if w.mem.rc[p] <= 1 && SharedByFork(w.spaces[parent].pt, copies, p) {
      var u: nat :| u in w.spaces[parent].pt && u !in copies && w.spaces[parent].pt[u].ppn == p;
      assert Maps(w, parent, u, p);
      SoleHolder(w, p, parent, u, pid, v);
    }
  }

  lemma ForkParentCow(w: World, parent: nat, child: nat, copies: map<nat, nat>, tag: set<MmapFlag>, w': World, v: nat)
    requires Counted(w) && SharedAreCow(w) && Forked(w, parent, child, copies, tag, w')
             && OwnFrames(w.spaces[parent].pt)
    requires v in w.spaces[parent].pt
    ensures CowIfShared(ParentAfter(w.spaces[parent], copies).pt[v], w'.mem.rc)
  {
    var p := w.spaces[parent].pt[v].ppn;
    assert Maps(w, parent, v, p);
    assert CowIfShared(w.spaces[parent].pt[v], w.mem.rc);
  }

  lemma ForkChildCow(w: World, parent: nat, child: nat, copies: map<nat, nat>, tag: set<MmapFlag>, w': World, v: nat)
    requires Counted(w) && Forked(w, parent, child, copies, tag, w')
    requires v in ChildOf(w.spaces[parent], copies, tag).pt
    ensures CowIfShared(ChildOf(w.spaces[parent], copies, tag).pt[v], w'.mem.rc)
  {
    AllLive(w, parent);
  }

  lemma ForkCow(w: World, parent: nat, child: nat, copies: map<nat, nat>, tag: set<MmapFlag>, w': World)
    requires Counted(w) && SharedAreCow(w) && Forked(w, parent, child, copies, tag, w')
             && OwnFrames(w.spaces[parent].pt)
    ensures SharedAreCow(w')
  {
    forall pid: nat, v: nat | pid in w'.spaces && v in w'.spaces[pid].pt
      ensures CowIfShared(w'.spaces[pid].pt[v], w'.mem.rc)
    {
      if pid == child {
        ForkChildCow(w, parent, child, copies, tag, w', v);
      } else if pid == parent {
        ForkParentCow(w, parent, child, copies, tag, w', v);
      } else {
        ForkOthersCow(w, parent, child, copies, tag, w', pid, v);
      }
    }
  }

  lemma ChildContent(sp: Space, mem: Memory, mem': Memory, copies: map<nat, nat>, tag: set<MmapFlag>, v: nat)
    requires SpaceOk(sp) && MemoryForked(mem, mem', sp.pt, copies)
    requires v in sp.pt ==> sp.pt[v].ppn in mem.frames
    ensures Content(ChildOf(sp, copies, tag), mem', v) == Content(sp, mem, v)
  {
    var c := ChildOf(sp, copies, tag);
    assert Covered(c.areas, v) <==> Covered(sp.areas, v) by { ChildOfWellFormed(sp, copies, tag); }
    assert (v in c.pt <==> v in sp.pt) && (v in sp.pt ==> c.pt[v].ppn == ChildPpn(sp.pt, copies, v)) by {
      ChildShape(sp, copies, tag);
    }
  }

  lemma KeptContent(sp: Space, sp': Space, mem: Memory, mem': Memory, v: nat)
    requires sp'.areas == sp.areas && SameFrames(sp.pt, sp'.pt)
    requires v in sp.pt ==> sp.pt[v].ppn in mem.frames
    requires forall p: nat :: p in mem.frames ==> p in mem'.frames && mem'.frames[p] == mem.frames[p]
    ensures Content(sp', mem', v) == Content(sp, mem, v)
  {
  }

  /** After a fork the child sees what the parent sees, and everyone else what they saw. */
  lemma ForkContent(w: World, parent: nat, child: nat, copies: map<nat, nat>, tag: set<MmapFlag>, w': World, pid: nat,
                    v: nat)
    requires Counted(w) && Forked(w, parent, child, copies, tag, w') && SpaceOk(w.spaces[parent])
    ensures ContentAt(w', pid, v) == ContentAt(w, if pid == child then parent else pid, v)
  {
    if pid == child {
      AllLive(w, parent);
      ChildContent(w.spaces[parent], w.mem, w'.mem, copies, tag, v);
    } else if pid in w.spaces {
      AllLive(w, pid);
      ParentFrames(w.spaces[parent], copies);
      KeptContent(w.spaces[pid], w'.spaces[pid], w.mem, w'.mem, v);
    }
  }

  lemma ForkStep(w: World, parent: nat, child: nat, copies: map<nat, nat>, tag: set<MmapFlag>, w': World)
    requires WorldOk(w) && Forked(w, parent, child, copies, tag, w')
    ensures WorldOk(w')
    ensures forall pid: nat, v: nat :: ContentAt(w', pid, v) == ContentAt(w, if pid == child then parent else pid, v)
  {
    assert SpaceOk(w.spaces[parent]);
    assert Counted(w') by {
      ForkedShape(w, parent, child, copies, tag, w');
      ForkCounted(w, parent, child, copies, w');
    }
    assert SharedAreCow(w') by { ForkCow(w, parent, child, copies, tag, w'); }
    assert SpacesOk(w') by { ForkSpaces(w, parent, child, copies, tag, w'); }
    forall pid: nat, v: nat ensures ContentAt(w', pid, v) == ContentAt(w, if pid == child then parent else pid, v) {
      ForkContent(w, parent, child, copies, tag, w', pid, v);
    }
  }

  lemma ForkSpaces(w: World, parent: nat, child: nat, copies: map<nat, nat>, tag: set<MmapFlag>, w': World)
    requires SpacesOk(w) && Counted(w) && Forked(w, parent, child, copies, tag, w')
    ensures SpacesOk(w')
  {
    assert SpaceOk(w'.spaces[child]) by { ChildOk(w, parent, copies, tag); }
    assert SpaceOk(w'.spaces[parent]) by { ParentOk(w.spaces[parent], copies); }
  }

  // ---- giving pages up ----

  lemma DropSize(w: World, pid: nat, k: nat, v: nat, p: nat)
    requires pid in w.spaces && k in w.spaces[pid].areas
    requires v in w.spaces[pid].pt ==> w.spaces[pid].pt[v].ppn in w.mem.rc
    ensures |Holders(Dropped(w, pid, k, v), p)| == |Holders(w, p)| - if Maps(w, pid, v, p) then 1 else 0
  {
    var w' := Dropped(w, pid, k, v);
    assert Holders(w', p) == Holders(w, p) - {(pid, v)};
    assert (pid, v) in Holders(w, p) <==> Maps(w, pid, v, p);
    SizeWithout(Holders(w, p), (pid, v));
  }

  lemma DropLive(w: World, pid: nat, k: nat, v: nat, pid': nat, u: nat, p: nat)
    requires Counted(w) && pid in w.spaces && k in w.spaces[pid].areas
    requires v in w.spaces[pid].pt ==> w.spaces[pid].pt[v].ppn in w.mem.rc
    requires Maps(Dropped(w, pid, k, v), pid', u, p)
    ensures p in Dropped(w, pid, k, v).mem.rc && Maps(w, pid', u, p)
  {
    assert Maps(w, pid', u, p);
    if Maps(w, pid, v, p) && w.mem.rc[p] <= 1 {
      SoleHolder(w, p, pid, v, pid', u);
    }
  }

  lemma DropCounted(w: World, pid: nat, k: nat, v: nat)
    requires Counted(w) && pid in w.spaces && k in w.spaces[pid].areas
    requires v in w.spaces[pid].pt ==> w.spaces[pid].pt[v].ppn in w.mem.rc
    ensures Counted(Dropped(w, pid, k, v))
  {
    var w' := Dropped(w, pid, k, v);
    forall p: nat | p in w'.mem.rc ensures w'.mem.rc[p] == |Holders(w', p)| > 0 {
      DropSize(w, pid, k, v, p);
    }
    forall pid': nat, u: nat, p: nat | Maps(w', pid', u, p) ensures p in w'.mem.rc {
      DropLive(w, pid, k, v, pid', u, p);
    }
  }

  lemma DropCow(w: World, pid: nat, k: nat, v: nat)
    requires Counted(w) && SharedAreCow(w) && pid in w.spaces && k in w.spaces[pid].areas
    requires v in w.spaces[pid].pt ==> w.spaces[pid].pt[v].ppn in w.mem.rc
    ensures SharedAreCow(Dropped(w, pid, k, v))
  {
    var w' := Dropped(w, pid, k, v);
    forall pid': nat, u: nat | pid' in w'.spaces && u in w'.spaces[pid'].pt
      ensures CowIfShared(w'.spaces[pid'].pt[u], w'.mem.rc)
    {
      assert CowIfShared(w.spaces[pid'].pt[u], w.mem.rc);
      assert Maps(w, pid', u, w.spaces[pid'].pt[u].ppn);
    }
  }

  lemma DropSpace(sp: Space, k: nat, v: nat)
    requires SpaceOk(sp) && Owns(sp.areas, k, v) && sp.areas[k].areaType.Mmap?
    ensures SpaceOk(Space(Forget(sp.areas, k, v), sp.pt - {v}))
    ensures forall u: nat :: Covered(Forget(sp.areas, k, v), u) <==> Covered(sp.areas, u)
  {
    ForgetAgrees(sp.areas, sp.pt, k, v);
    var t' := Forget(sp.areas, k, v);
    forall u: nat ensures Covered(t', u) <==> Covered(sp.areas, u) {
      assert forall j: nat :: Owns(t', j, u) <==> Owns(sp.areas, j, u);
    }
    assert RightsOk(Space(t', sp.pt - {v})) by { DropRights(sp, k, v); }
    assert Backed(t') by { DropBacked(sp.areas, k, v); }
  }

  lemma DropRights(sp: Space, k: nat, v: nat)
    requires RightsOk(sp) && WellFormed(sp.areas) && Owns(sp.areas, k, v)
    ensures RightsOk(Space(Forget(sp.areas, k, v), sp.pt - {v}))
  {
    var t' := Forget(sp.areas, k, v);
    forall j: nat, u: nat | j in t' && u in t'[j].frames
      ensures u in sp.pt - {v} && RightsMatch((sp.pt - {v})[u], t'[j].perm)
    {
      assert u in sp.areas[j].frames;
      if u == v {
        OneOwner(sp.areas, j, k, v);
      }
    }
  }

  lemma DropBacked(t: Tree, k: nat, v: nat)
    requires Backed(t) && k in t && t[k].areaType.Mmap?
    ensures Backed(Forget(t, k, v))
  {
    var t' := Forget(t, k, v);
    forall j: nat, u: nat | Owns(t', j, u) && !t'[j].areaType.Mmap? ensures u in t'[j].frames {
      assert Owns(t, j, u);
    }
  }

  /** Giving up a page makes it a page of zeros and touches nothing else. */
  lemma GiveUpStep(w: World, pid: nat, k: nat, v: nat)
    requires WorldOk(w) && pid in w.spaces && Owns(w.spaces[pid].areas, k, v) && w.spaces[pid].areas[k].areaType.Mmap?
    requires v in w.spaces[pid].pt ==> w.spaces[pid].pt[v].ppn in w.mem.rc
    ensures WorldOk(Dropped(w, pid, k, v))
    ensures forall pid': nat, u: nat :: ContentAt(Dropped(w, pid, k, v), pid', u)
              == if pid' == pid && u == v then Some(ZeroPage()) else ContentAt(w, pid', u)
  {
    var w' := Dropped(w, pid, k, v);
    var sp := w.spaces[pid];
    DropSpace(sp, k, v);
    assert SpacesOk(w') by { PutSpaces(w, pid, w'.spaces[pid], w'.mem); }
    assert Counted(w') by { DropCounted(w, pid, k, v); }
    assert SharedAreCow(w') by { DropCow(w, pid, k, v); }
    forall pid': nat, u: nat
      ensures ContentAt(w', pid', u) == if pid' == pid && u == v then Some(ZeroPage()) else ContentAt(w, pid', u)
    {
      DropContent(w, pid, k, v, pid', u);
    }
  }

  lemma DropContent(w: World, pid: nat, k: nat, v: nat, pid': nat, u: nat)
    requires Counted(w) && pid in w.spaces && Owns(w.spaces[pid].areas, k, v)
    requires v in w.spaces[pid].pt ==> w.spaces[pid].pt[v].ppn in w.mem.rc
    requires Covered(Forget(w.spaces[pid].areas, k, v), u) <==> Covered(w.spaces[pid].areas, u)
    ensures ContentAt(Dropped(w, pid, k, v), pid', u)
            == if pid' == pid && u == v then Some(ZeroPage()) else ContentAt(w, pid', u)
  {
    var w' := Dropped(w, pid, k, v);
    if pid' in w'.spaces && u in w'.spaces[pid'].pt {
      var p := w'.spaces[pid'].pt[u].ppn;
      assert Maps(w', pid', u, p);
      DropLive(w, pid, k, v, pid', u, p);
    }
  }

  // ---- exit ----

  lemma ExitSize(w: World, pid: nat, w': World, p: nat)
    requires Exited(w, pid, w') && OwnFrames(w.spaces[pid].pt)
    ensures |Holders(w', p)| == |Holders(w, p)| - if MappedTo(w.spaces[pid].pt, p) then 1 else 0
  {
    var pt := w.spaces[pid].pt;
    if MappedTo(pt, p) {
      var v: nat :| v in pt && pt[v].ppn == p;
      assert Holders(w', p) == Holders(w, p) - {(pid, v)};
      assert (pid, v) in Holders(w, p);
      SizeWithout(Holders(w, p), (pid, v));
    } else {
      assert Holders(w', p) == Holders(w, p);
    }
  }

  lemma ExitLive(w: World, pid: nat, w': World, pid': nat, u: nat, p: nat)
    requires Counted(w) && Exited(w, pid, w') && Maps(w', pid', u, p)
    ensures Maps(w, pid', u, p) && p in w'.mem.rc
  {
    assert Maps(w, pid', u, p);
    if MappedTo(w.spaces[pid].pt, p) && w.mem.rc[p] <= 1 {
      var v: nat :| v in w.spaces[pid].pt && w.spaces[pid].pt[v].ppn == p;
      assert Maps(w, pid, v, p);
      SoleHolder(w, p, pid, v, pid', u);
    }
  }

  lemma ExitCounted(w: World, pid: nat, w': World)
    requires Counted(w) && Exited(w, pid, w') && OwnFrames(w.spaces[pid].pt)
    ensures Counted(w')
  {
    forall p: nat | p in w'.mem.rc ensures w'.mem.rc[p] == |Holders(w', p)| > 0 {
      ExitSize(w, pid, w', p);
    }
    forall pid': nat, u: nat, p: nat | Maps(w', pid', u, p) ensures p in w'.mem.rc {
      ExitLive(w, pid, w', pid', u, p);
    }
  }

  /** The end of a process is not seen by the others. */
  lemma ExitStep(w: World, pid: nat, w': World)
    requires WorldOk(w) && Exited(w, pid, w')
    ensures WorldOk(w')
    ensures forall pid': nat, u: nat :: ContentAt(w', pid', u) == if pid' == pid then None else ContentAt(w, pid', u)
  {
    assert SpaceOk(w.spaces[pid]);
    assert Counted(w') by { ExitCounted(w, pid, w'); }
    assert SpacesOk(w');
    assert SharedAreCow(w') by { ExitCow(w, pid, w'); }
    forall pid': nat, u: nat
      ensures ContentAt(w', pid', u) == if pid' == pid then None else ContentAt(w, pid', u)
    {
      ExitContent(w, pid, w', pid', u);
    }
  }

  lemma ExitCow(w: World, pid: nat, w': World)
    requires Counted(w) && SharedAreCow(w) && Exited(w, pid, w')
    ensures SharedAreCow(w')
  {
    forall pid': nat, u: nat | pid' in w'.spaces && u in w'.spaces[pid'].pt
      ensures CowIfShared(w'.spaces[pid'].pt[u], w'.mem.rc)
    {
      assert CowIfShared(w.spaces[pid'].pt[u], w.mem.rc);
    }
  }

  lemma ExitContent(w: World, pid: nat, w': World, pid': nat, u: nat)
    requires Counted(w) && Exited(w, pid, w')
    ensures ContentAt(w', pid', u) == if pid' == pid then None else ContentAt(w, pid', u)
  {
    if pid' in w'.spaces && u in w'.spaces[pid'].pt {
      ExitLive(w, pid, w', pid', u, w'.spaces[pid'].pt[u].ppn);
    }
  }

  // ---- a new area ----

  lemma PushCovered(t: Tree, a: MapArea, u: nat)
    requires a.start !in t
    ensures Covered(t[a.start := a], u) <==> Covered(t, u) || a.start <= u < a.end
  {
    var t' := t[a.start := a];
    if k: nat :| Owns(t, k, u) {
      assert Owns(t', k, u);
    }
    if a.start <= u < a.end {
      assert Owns(t', a.start, u);
    }
    if k: nat :| Owns(t', k, u) {
      assert k == a.start || Owns(t, k, u);
    }
  }

  lemma PushAgrees(t: Tree, pt: map<nat, Pte>, a: MapArea)
    requires Agree(t, pt) && a.start !in t && a.frames == map[]
    ensures Agree(t[a.start := a], pt)
  {
    var t' := t[a.start := a];
    forall u: nat | u in pt ensures HasFrame(t', u) {
      assert HasFrame(t, u);
      var k: nat :| k in t && u in t[k].frames;
      assert k in t' && u in t'[k].frames;
    }
  }

  lemma PushBacked(t: Tree, a: MapArea)
    requires Backed(t) && a.areaType.Mmap?
    ensures Backed(t[a.start := a])
  {
    var t' := t[a.start := a];
    forall k: nat, v: nat | Owns(t', k, v) && !t'[k].areaType.Mmap? ensures v in t'[k].frames {
      assert Owns(t, k, v);
    }
  }

  lemma PushSpace(sp: Space, a: MapArea)
    requires SpaceOk(sp) && NewMmapArea(sp.areas, a)
    ensures SpaceOk(sp.(areas := sp.areas[a.start := a]))
  {
    PushWellFormed(sp.areas, a);
    PushAgrees(sp.areas, sp.pt, a);
    PushBacked(sp.areas, a);
    assert RightsOk(sp.(areas := sp.areas[a.start := a]));
  }

  /** Pages of a new area were not mapped. */
  lemma NewPagesUnmapped(sp: Space, a: MapArea, u: nat)
    requires SpaceOk(sp) && NewMmapArea(sp.areas, a) && a.start <= u < a.end
    ensures u !in sp.pt && !Covered(sp.areas, u)
  {
    if k: nat :| Owns(sp.areas, k, u) {
      assert Overlaps(sp.areas, a.start, a.end);
    }
    if u in sp.pt {
      EntryCovered(sp, u);
    }
  }

  lemma PushContent(w: World, pid: nat, a: MapArea, pid': nat, u: nat)
    requires pid in w.spaces && SpaceOk(w.spaces[pid]) && NewMmapArea(w.spaces[pid].areas, a)
    ensures ContentAt(Pushed(w, pid, a), pid', u)
            == if pid' == pid && a.start <= u < a.end then Some(ZeroPage()) else ContentAt(w, pid', u)
  {
    if pid' == pid {
      PushCovered(w.spaces[pid].areas, a, u);
      if a.start <= u < a.end {
        NewPagesUnmapped(w.spaces[pid], a, u);
      }
    }
  }

  lemma PushStep(w: World, pid: nat, a: MapArea)
    requires WorldOk(w) && pid in w.spaces && NewMmapArea(w.spaces[pid].areas, a)
    ensures WorldOk(Pushed(w, pid, a))
    ensures forall pid': nat, u: nat :: ContentAt(Pushed(w, pid, a), pid', u)
              == if pid' == pid && a.start <= u < a.end then Some(ZeroPage()) else ContentAt(w, pid', u)
  {
    var w' := Pushed(w, pid, a);
    assert SpaceOk(w.spaces[pid]);
    assert SpacesOk(w') by { PushSpace(w.spaces[pid], a); PutSpaces(w, pid, w'.spaces[pid], w.mem); }
    assert Counted(w') by { PushCounted(w, pid, a); }
    assert SharedAreCow(w') by { PushCow(w, pid, a); }
    PushContents(w, pid, a);
  }

  lemma PushContents(w: World, pid: nat, a: MapArea)
    requires pid in w.spaces && SpaceOk(w.spaces[pid]) && NewMmapArea(w.spaces[pid].areas, a)
    ensures forall pid': nat, u: nat :: ContentAt(Pushed(w, pid, a), pid', u)
              == if pid' == pid && a.start <= u < a.end then Some(ZeroPage()) else ContentAt(w, pid', u)
  {
    forall pid': nat, u: nat
      ensures ContentAt(Pushed(w, pid, a), pid', u)
              == if pid' == pid && a.start <= u < a.end then Some(ZeroPage()) else ContentAt(w, pid', u)
    {
      PushContent(w, pid, a, pid', u);
    }
  }

  lemma PushCow(w: World, pid: nat, a: MapArea)
    requires SharedAreCow(w) && pid in w.spaces
    ensures SharedAreCow(Pushed(w, pid, a))
  {
  }

  lemma PushCounted(w: World, pid: nat, a: MapArea)
    requires Counted(w) && pid in w.spaces
    ensures Counted(Pushed(w, pid, a))
  {
    var w' := Pushed(w, pid, a);
    forall p: nat ensures Holders(w', p) == Holders(w, p) {}
    forall pid': nat, u: nat, p: nat | Maps(w', pid', u, p) ensures p in w'.mem.rc {
      assert Maps(w, pid', u, p);
    }
  }
}

/** Whole runs: the copy-on-write kernel and one that copies at every fork both behave as if every
    process had memory of its own. */
module CowRuns {
  import opened Address
  import opened Base
  import opened Areas
  import opened CowWorlds
  import opened CowInvariant
  import opened CowProtects

  datatype Op =
    | NewArea(pid: nat, area: MapArea)
    | Fork(parent: nat, child: nat)
    | Touch(pid: nat, v: nat, isWrite: bool)
    | Store(pid: nat, v: nat, off: nat, b: bv8)
    | GiveUp(pid: nat, v: nat)
    | Protect(pid: nat, s: nat, e: nat, perm: MapPermission)
    | Exit(pid: nat)

  // ---- the plain machine ----

  /** What each process would hold if nothing were shared. */
  type Private = map<nat, map<nat, Page>>

  function ZeroPages(start: nat, end: nat): (m: map<nat, Page>)
    ensures forall v: nat :: v in m <==> start <= v < end
    ensures forall v: nat :: v in m ==> m[v] == ZeroPage()
    decreases end
  {
    if end <= start then map[] else ZeroPages(start, end - 1)[end - 1 := ZeroPage()]
  }

  function WithPage(m: map<nat, Page>, v: nat, page: Page): map<nat, Page> {
    m[v := page]
  }

  function SpecStep(s: Private, op: Op): Private {
    match op
    case NewArea(pid, a) =>
      if pid in s then s[pid := s[pid] + ZeroPages(a.start, a.end)] else s
    case Fork(parent, child) =>
      if parent in s then s[child := s[parent]] else s
    case Touch(_, _, _) => s
    case Store(pid, v, off, b) =>
      if pid in s && v in s[pid] && off < PAGE_SIZE then s[pid := WithPage(s[pid], v, s[pid][v][off := b])] else s
    case GiveUp(pid, v) =>
      if pid in s && v in s[pid] then s[pid := WithPage(s[pid], v, ZeroPage())] else s
    case Protect(_, _, _, _) => s
    case Exit(pid) => s - {pid}
  }

  function SpecRun(s: Private, ops: seq<Op>): Private {
    if ops == [] then s else SpecStep(SpecRun(s, ops[..|ops| - 1]), ops[|ops| - 1])
  }

  // ---- the two kernels ----

  /** No mapping is shared on purpose; fork treats those differently, and they are not part of the runs. */
  ghost predicate NoShared(t: Tree) {
    forall k: nat :: k in t && t[k].areaType.Mmap? ==> MAP_SHARED !in t[k].mmapFlags
  }

  /** The fault handler ran on page `v` and was given frame `f`. */
  ghost predicate FaultDone(w: World, pid: nat, v: nat, isWrite: bool, f: nat, w': World) {
    && Faultable(w, pid, v) && WellFormed(w.spaces[pid].areas) && f !in w.mem.rc
    && match Fault(w.spaces[pid], w.mem, v, isWrite, f)
       case Handled(sp, mem) => w' == Put(w, pid, sp, mem)
       case Panics => false
       case _ => w' == w
  }

  /** The hardware finds an entry it uses for page `v`, or one it may write through. */
  ghost predicate Readable(w: World, pid: nat, v: nat) {
    pid in w.spaces && v in w.spaces[pid].pt && w.spaces[pid].pt[v].flags.present
    && w.spaces[pid].pt[v].ppn in w.mem.frames
  }

  ghost predicate Writable(w: World, pid: nat, v: nat) {
    Readable(w, pid, v) && w.spaces[pid].pt[v].flags.w
  }

  /** The state in which the store of a page succeeds: at once, or after a write fault. */
  ghost predicate ReadyToStore(w: World, pid: nat, v: nat, w1: World) {
    Writable(w1, pid, v) && (w1 == w || (!Writable(w, pid, v) && exists f: nat :: FaultDone(w, pid, v, true, f, w1)))
  }

  ghost predicate Step(mode: Mode, w: World, op: Op, w': World) {
    match op
    case NewArea(pid, a) =>
      pid in w.spaces && NewMmapArea(w.spaces[pid].areas, a) && w' == Pushed(w, pid, a)
    case Fork(parent, child) =>
      exists copies: map<nat, nat> ::
        && Forked(w, parent, child, copies, TagFor(mode), w') && CopiesFor(mode, w.spaces[parent], copies)
        && NoShared(w.spaces[parent].areas)
    case Touch(pid, v, isWrite) =>
      pid in w.spaces && Covered(w.spaces[pid].areas, v) && exists f: nat :: FaultDone(w, pid, v, isWrite, f, w')
    case Store(pid, v, off, b) =>
      && pid in w.spaces && Covered(w.spaces[pid].areas, v) && off < PAGE_SIZE
      && exists w1: World :: ReadyToStore(w, pid, v, w1) && w' == Stored(w1, w1.spaces[pid].pt[v].ppn, off, b)
    case GiveUp(pid, v) =>
      && pid in w.spaces && (v in w.spaces[pid].pt ==> w.spaces[pid].pt[v].ppn in w.mem.rc)
      && exists k: nat ::
           Owns(w.spaces[pid].areas, k, v) && w.spaces[pid].areas[k].areaType.Mmap? && w' == Dropped(w, pid, k, v)
    case Protect(pid, s, e, perm) =>
      && pid in w.spaces && s < e && ProtectSafe(w, pid, s, e, perm)
      && exists sp': Space :: Reprotected(w.spaces[pid], s, e, perm, sp') && w' == Put(w, pid, sp', w.mem)
    case Exit(pid) => Exited(w, pid, w')
  }

  ghost predicate Run(mode: Mode, ws: seq<World>, ops: seq<Op>) {
    |ws| == |ops| + 1 && forall i :: 0 <= i < |ops| ==> Step(mode, ws[i], ops[i], ws[i + 1])
  }

  // ---- refinement ----

  function PageOf(s: Private, pid: nat, v: nat): Option<Page> {
    if pid in s && v in s[pid] then Some(s[pid][v]) else None
  }

  /** Every process sees its own memory of the plain machine. */
  ghost predicate Represents(w: World, s: Private) {
    && (forall pid: nat :: pid in w.spaces <==> pid in s)
    && (forall pid: nat, v: nat :: ContentAt(w, pid, v) == PageOf(s, pid, v))
  }

  lemma FaultRefines(w: World, pid: nat, v: nat, isWrite: bool, f: nat, w': World)
    requires WorldOk(w) && FaultDone(w, pid, v, isWrite, f, w') && Covered(w.spaces[pid].areas, v)
    ensures WorldOk(w') && SameContents(w, w')
  {
    if Fault(w.spaces[pid], w.mem, v, isWrite, f).Handled? {
      FaultStep(w, pid, v, isWrite, f);
    }
  }

  // What each operation does to contents, carried over to the plain machine.

  lemma SameRepresents(w: World, w': World, s: Private)
    requires Represents(w, s) && SameContents(w, w')
    ensures Represents(w', s)
  {
    forall pid: nat, v: nat ensures ContentAt(w', pid, v) == PageOf(s, pid, v) {
      assert ContentAt(w', pid, v) == ContentAt(w, pid, v);
    }
  }

  lemma NewAreaRepresents(w: World, w': World, s: Private, pid: nat, a: MapArea)
    requires Represents(w, s) && pid in w.spaces && (forall q: nat :: q in w'.spaces <==> q in w.spaces)
    requires forall q: nat, u: nat :: ContentAt(w', q, u)
               == if q == pid && a.start <= u < a.end then Some(ZeroPage()) else ContentAt(w, q, u)
    ensures Represents(w', SpecStep(s, NewArea(pid, a)))
  {
    var s' := SpecStep(s, NewArea(pid, a));
    forall q: nat, u: nat ensures ContentAt(w', q, u) == PageOf(s', q, u) {
      assert ContentAt(w, q, u) == PageOf(s, q, u);
    }
  }

  lemma ForkRepresents(w: World, w': World, s: Private, parent: nat, child: nat)
    requires Represents(w, s) && parent in w.spaces
             && (forall q: nat :: q in w'.spaces <==> q in w.spaces || q == child)
    requires forall q: nat, u: nat :: ContentAt(w', q, u) == ContentAt(w, if q == child then parent else q, u)
    ensures Represents(w', SpecStep(s, Fork(parent, child)))
  {
    var s' := SpecStep(s, Fork(parent, child));
    forall q: nat, u: nat ensures ContentAt(w', q, u) == PageOf(s', q, u) {
      var q' := if q == child then parent else q;
      assert ContentAt(w', q, u) == ContentAt(w, q', u) == PageOf(s, q', u);
    }
  }

  lemma StoreRepresents(w: World, w': World, s: Private, pid: nat, v: nat, off: nat, b: bv8)
    requires Represents(w, s) && off < PAGE_SIZE && ContentAt(w, pid, v).Some?
    requires forall q: nat :: q in w'.spaces <==> q in w.spaces
    requires forall q: nat, u: nat :: ContentAt(w', q, u)
               == if q == pid && u == v then Some(ContentAt(w, pid, v).value[off := b]) else ContentAt(w, q, u)
    ensures Represents(w', SpecStep(s, Store(pid, v, off, b)))
  {
    var s' := SpecStep(s, Store(pid, v, off, b));
    assert ContentAt(w, pid, v) == PageOf(s, pid, v);
    forall q: nat, u: nat ensures ContentAt(w', q, u) == PageOf(s', q, u) {
      assert ContentAt(w, q, u) == PageOf(s, q, u);
    }
  }

  lemma GiveUpRepresents(w: World, w': World, s: Private, pid: nat, v: nat)
    requires Represents(w, s) && ContentAt(w, pid, v).Some?
    requires forall q: nat :: q in w'.spaces <==> q in w.spaces
    requires forall q: nat, u: nat :: ContentAt(w', q, u)
               == if q == pid && u == v then Some(ZeroPage()) else ContentAt(w, q, u)
    ensures Represents(w', SpecStep(s, GiveUp(pid, v)))
  {
    var s' := SpecStep(s, GiveUp(pid, v));
    assert ContentAt(w, pid, v) == PageOf(s, pid, v);
    forall q: nat, u: nat ensures ContentAt(w', q, u) == PageOf(s', q, u) {
      assert ContentAt(w, q, u) == PageOf(s, q, u);
    }
  }

  lemma ExitRepresents(w: World, w': World, s: Private, pid: nat)
    requires Represents(w, s) && w'.spaces == w.spaces - {pid}
    requires forall q: nat, u: nat :: ContentAt(w', q, u) == if q == pid then None else ContentAt(w, q, u)
    ensures Represents(w', SpecStep(s, Exit(pid)))
  {
    var s' := SpecStep(s, Exit(pid));
    forall q: nat, u: nat ensures ContentAt(w', q, u) == PageOf(s', q, u) {
      assert ContentAt(w, q, u) == PageOf(s, q, u);
    }
  }

  lemma StoreRefines(w: World, pid: nat, v: nat, off: nat, b: bv8, w1: World, w': World, s: Private)
    requires WorldOk(w) && Represents(w, s) && pid in w.spaces && Covered(w.spaces[pid].areas, v) && off < PAGE_SIZE
    requires ReadyToStore(w, pid, v, w1) && w' == Stored(w1, w1.spaces[pid].pt[v].ppn, off, b)
    ensures WorldOk(w') && Represents(w', SpecStep(s, Store(pid, v, off, b)))
  {
    assert WorldOk(w1) && Represents(w1, s) by {
      if w1 != w {
        var f: nat :| FaultDone(w, pid, v, true, f, w1);
        FaultRefines(w, pid, v, true, f, w1);
        SameRepresents(w, w1, s);
      }
    }
    StoreStep(w1, pid, v, off, b);
    StoreRepresents(w1, w', s, pid, v, off, b);
  }

  /** One step of either kernel is a step of the plain machine. */
  lemma StepRefines(mode: Mode, w: World, op: Op, w': World, s: Private)
    requires WorldOk(w) && Represents(w, s) && Step(mode, w, op, w')
    ensures WorldOk(w') && Represents(w', SpecStep(s, op))
  {
    match op
    case NewArea(pid, a) =>
      PushStep(w, pid, a);
      NewAreaRepresents(w, w', s, pid, a);
    case Fork(parent, child) =>
      var copies: map<nat, nat> :|
        Forked(w, parent, child, copies, TagFor(mode), w') && CopiesFor(mode, w.spaces[parent], copies);
      ForkStep(w, parent, child, copies, TagFor(mode), w');
      ForkRepresents(w, w', s, parent, child);
    case Touch(pid, v, isWrite) =>
      var f: nat :| FaultDone(w, pid, v, isWrite, f, w');
      FaultRefines(w, pid, v, isWrite, f, w');
      SameRepresents(w, w', s);
    case Store(pid, v, off, b) =>
      var w1: World :| ReadyToStore(w, pid, v, w1) && w' == Stored(w1, w1.spaces[pid].pt[v].ppn, off, b);
      StoreRefines(w, pid, v, off, b, w1, w', s);
    case GiveUp(pid, v) =>
      GiveUpRefines(mode, w, pid, v, w', s);
    case Protect(pid, from, to, perm) =>
      var sp': Space :| Reprotected(w.spaces[pid], from, to, perm, sp') && w' == Put(w, pid, sp', w.mem);
      ProtectKeepsWorld(w, pid, from, to, perm, sp');
      SameRepresents(w, w', s);
    case Exit(pid) =>
      ExitStep(w, pid, w');
      ExitRepresents(w, w', s, pid);
  }

  lemma GiveUpRefines(mode: Mode, w: World, pid: nat, v: nat, w': World, s: Private)
    requires WorldOk(w) && Represents(w, s) && Step(mode, w, GiveUp(pid, v), w')
    ensures WorldOk(w') && Represents(w', SpecStep(s, GiveUp(pid, v)))
  {
    var k := GivenArea(mode, w, pid, v, w');
    GiveUpStep(w, pid, k, v);
    GiveUpRepresents(w, w', s, pid, v);
  }

  /** The area of the page that is given up. */
  lemma GivenArea(mode: Mode, w: World, pid: nat, v: nat, w': World) returns (k: nat)
    requires WorldOk(w) && Step(mode, w, GiveUp(pid, v), w')
    ensures pid in w.spaces && Owns(w.spaces[pid].areas, k, v) && w.spaces[pid].areas[k].areaType.Mmap?
    ensures (v in w.spaces[pid].pt ==> w.spaces[pid].pt[v].ppn in w.mem.rc) && w' == Dropped(w, pid, k, v)
    ensures Covered(w.spaces[pid].areas, v)
  {
    k :| Owns(w.spaces[pid].areas, k, v) && w.spaces[pid].areas[k].areaType.Mmap? && w' == Dropped(w, pid, k, v);
  }

  /** A world to start from: one process with nothing mapped and no frame in use. */
  lemma FirstWorld(pid: nat)
    ensures var w := World(map[pid := Space(map[], map[])], Memory(map[], map[]));
            WorldOk(w) && Represents(w, map[pid := map[]])
  {
    var w := World(map[pid := Space(map[], map[])], Memory(map[], map[]));
    assert forall q: nat, v: nat, p: nat :: !Maps(w, q, v, p);
  }

  /** Over any run from any world in order, each process sees exactly what it would see with memory of
      its own, and the world stays in order. */
  lemma {:induction false} RunRefines(mode: Mode, ws: seq<World>, ops: seq<Op>, s: Private)
    requires Run(mode, ws, ops) && WorldOk(ws[0]) && Represents(ws[0], s)
    ensures WorldOk(ws[|ops|]) && Represents(ws[|ops|], SpecRun(s, ops))
    decreases |ops|
  {
    if ops != [] {
      var n := |ops| - 1;
      RunPrefix(mode, ws, ops);
      RunRefines(mode, ws[..n + 1], ops[..n], s);
      assert ws[..n + 1][n] == ws[n];
      StepRefines(mode, ws[n], ops[n], ws[n + 1], SpecRun(s, ops[..n]));
    }
  }

  lemma RunPrefix(mode: Mode, ws: seq<World>, ops: seq<Op>)
    requires Run(mode, ws, ops) && ops != []
    ensures Run(mode, ws[..|ops|], ops[..|ops| - 1])
    ensures ws[..|ops|][0] == ws[0]
  {
    var us, os := ws[..|ops|], ops[..|ops| - 1];
    forall i | 0 <= i < |os| ensures Step(mode, us[i], os[i], us[i + 1]) {
      assert us[i] == ws[i] && os[i] == ops[i] && us[i + 1] == ws[i + 1];
    }
  }

  /** The operations a process can tell from nothing. */
  function Visible(ops: seq<Op>): seq<Op> {
    if ops == [] then []
    else
      var rest := Visible(ops[..|ops| - 1]);
      if ops[|ops| - 1].Touch? then rest else rest + [ops[|ops| - 1]]
  }

  lemma {:induction false} TouchesDoNotShow(s: Private, ops: seq<Op>)
    ensures SpecRun(s, ops) == SpecRun(s, Visible(ops))
    decreases |ops|
  {
    if ops != [] {
      var n := |ops| - 1;
      TouchesDoNotShow(s, ops[..n]);
      var rest := Visible(ops[..n]);
      if !ops[n].Touch? {
        assert (rest + [ops[n]])[..|rest|] == rest;
      }
    }
  }

  /** Copy-on-write fork refines eager fork: the same operations, whatever faults come in between and
      whatever frames are handed out, leave every process with the same bytes. */
  lemma CowRefinesEager(ws: seq<World>, ops: seq<Op>, es: seq<World>, eops: seq<Op>, s: Private)
    requires Run(CopyOnWrite, ws, ops) && WorldOk(ws[0]) && Represents(ws[0], s)
    requires Run(Eager, es, eops) && WorldOk(es[0]) && Represents(es[0], s)
    requires Visible(ops) == Visible(eops)
    ensures SameContents(ws[|ops|], es[|eops|])
  {
    RunRefines(CopyOnWrite, ws, ops, s);
    RunRefines(Eager, es, eops, s);
    TouchesDoNotShow(s, ops);
    TouchesDoNotShow(s, eops);
    forall pid: nat, v: nat ensures ContentAt(es[|eops|], pid, v) == ContentAt(ws[|ops|], pid, v) {
      assert ContentAt(ws[|ops|], pid, v) == PageOf(SpecRun(s, ops), pid, v);
    }
  }

  /** In every world in order, so in every world a run reaches, a frame that two pages hold is marked
      copy-on-write in both spaces and writable in neither. */
  lemma SharedFramesMarked(w: World, pid: nat, v: nat, pid': nat, v': nat, p: nat)
    requires WorldOk(w) && Maps(w, pid, v, p) && Maps(w, pid', v', p) && (pid, v) != (pid', v')
    ensures w.spaces[pid].pt[v].flags.cow && !w.spaces[pid].pt[v].flags.w
    ensures w.spaces[pid'].pt[v'].flags.cow && !w.spaces[pid'].pt[v'].flags.w
  {
    if w.mem.rc[p] <= 1 {
      SoleHolder(w, p, pid, v, pid', v');
    }
    assert CowIfShared(w.spaces[pid].pt[v], w.mem.rc) && CowIfShared(w.spaces[pid'].pt[v'], w.mem.rc);
  }
}
