/** The address space of a process: the area tree and the page table edited together. */
module MemorySets {
  import opened Address
  import opened Base
  import opened Ordered
  import opened Ptes
  import opened Areas
  import opened PageTables
  import opened AreaEdits
  import opened AreaFrames
  import opened CowWorlds
  import opened ForkLoops
  import opened RadixTrees
  import opened FlagPasses
  import opened FaultCases
  import opened FrameCounts
  import opened Munmaps
  import opened Advices

  /** Cutting points strictly inside an area are not keys. */
  lemma NewKeys(t: Tree, k: nat, s: nat, e: nat)
    requires WellFormed(t) && k in t
    ensures k < s < t[k].end ==> s !in t
    ensures k < e < t[k].end ==> e !in t
  {
  }

  lemma DropShrinks(t: Tree, k: nat)
    requires k in t
    ensures |t - {k}| < |t|
  {
    assert (t - {k}).Keys == t.Keys - {k};
  }

  lemma LeftOfLeft(a: MapArea, s: nat, e: nat)
    requires s <= e
    ensures LeftOf(LeftOf(a, e), s) == LeftOf(a, s)
  {
  }

  /** The tree with the pieces put in one after the other. */
  function Inserted(t: Tree, pieces: seq<MapArea>): Tree {
    if pieces == [] then t
    else
      var a := pieces[|pieces| - 1];
      Inserted(t, pieces[..|pieces| - 1])[a.start := a]
  }

  /** None of the pieces starts where an area or another piece does. */
  ghost predicate NewStarts(t: Tree, pieces: seq<MapArea>) {
    && (forall i :: 0 <= i < |pieces| ==> pieces[i].start !in t)
    && (forall i, j :: 0 <= i < j < |pieces| ==> pieces[i].start != pieces[j].start)
  }

  /** The part of an area that `mprotect` gives the permission to, as it splits it. */
  function MidOf(a: MapArea, s: nat, e: nat, perm: MapPermission): MapArea {
    (if ContainedIn(a, s, e) then a
     else if StrictContain(a, s, e) then RightOf(LeftOf(a, e), s)
     else if s <= a.start < e then LeftOf(a, e)
     else RightOf(a, s)).(perm := perm)
  }

  /** The pieces it inserts, in that order. */
  function PiecesOf(a: MapArea, s: nat, e: nat, perm: MapPermission): seq<MapArea> {
    var mid := MidOf(a, s, e, perm);
    if ContainedIn(a, s, e) then [mid]
    else if StrictContain(a, s, e) then [mid, RightOf(a, e), LeftOf(LeftOf(a, e), s)]
    else if s <= a.start < e then [RightOf(a, e), mid]
    else [mid, LeftOf(a, s)]
  }

  /** They fit exactly when the range is not empty. */
  lemma PiecesFit(t: Tree, a: MapArea, s: nat, e: nat, perm: MapPermission)
    requires a.start !in t && WellFormed(t[a.start := a]) && OverlapWith(a, s, e) && s <= e
    ensures NewStarts(t, PiecesOf(a, s, e, perm)) <==> s < e
  {
    if s < e {
      NewKeys(t[a.start := a], a.start, s, e);
    } else {
      var pieces := PiecesOf(a, s, e, perm);
      assert pieces[0].start == pieces[1].start;
    }
  }

  lemma PiecesProtect(t: Tree, a: MapArea, s: nat, e: nat, perm: MapPermission)
    requires a.start !in t && WellFormed(t[a.start := a]) && OverlapWith(a, s, e) && s < e
    ensures MidOf(a, s, e, perm) == Piece(a, s, e).(perm := perm)
    ensures Inserted(t, PiecesOf(a, s, e, perm)) == Protected(t[a.start := a], a.start, s, e, perm)
  {
    var fs := t[a.start := a][a.start].frames;
    assert forall v: nat :: v in fs ==> a.start <= v < a.end;
    PieceIsSplit(a, s, e);
    LeftOfLeft(a, s, e);
    var mid, left, right := MidOf(a, s, e, perm), LeftOf(a, s), RightOf(a, e);
    if ContainedIn(a, s, e) {
      assert [mid][..0] == [];
      PutTwice(t, a.start, a, mid);
    } else if StrictContain(a, s, e) {
      ThreeInserted(t, mid, right, left);
      PutThree(t, a, left, mid, right);
    } else if s <= a.start < e {
      TwoInserted(t, right, mid);
      PutTwo(t, a, mid, right);
    } else {
      TwoInserted(t, mid, left);
      PutTwo(t, a, left, mid);
    }
  }

  // ---- the order in which areas are put in ----

  lemma PutTwice(t: Tree, k: nat, a: MapArea, b: MapArea)
    ensures t[k := a][k := b] == t[k := b]
  {
  }

  lemma PutTwo(t: Tree, a: MapArea, b: MapArea, c: MapArea)
    requires a.start == b.start != c.start
    ensures t[a.start := a][b.start := b][c.start := c] == t[c.start := c][b.start := b]
  {
  }

  lemma PutThree(t: Tree, a: MapArea, b: MapArea, c: MapArea, d: MapArea)
    requires a.start == b.start != c.start && d.start != b.start && d.start != c.start
    ensures t[a.start := a][b.start := b][c.start := c][d.start := d] == t[c.start := c][d.start := d][b.start := b]
  {
  }

  lemma TwoInserted(t: Tree, a: MapArea, b: MapArea)
    ensures Inserted(t, [a, b]) == t[a.start := a][b.start := b]
  {
    assert [a, b][..1] == [a] && [a][..0] == [];
    assert Inserted(t, [a]) == t[a.start := a];
  }

  lemma ThreeInserted(t: Tree, a: MapArea, b: MapArea, c: MapArea)
    ensures Inserted(t, [a, b, c]) == t[a.start := a][b.start := b][c.start := c]
  {
    assert [a, b, c][..2] == [a, b];
    TwoInserted(t, a, b);
  }

  lemma JoinNothing(whole: Tree, t: Tree, rest: Tree)
    requires Join(whole, t, rest) && rest == map[]
    ensures whole == t
  {
  }

  /** Every area of `t` is in `u`. */
  ghost predicate Sub(t: Tree, u: Tree) {
    forall k: nat :: k in t ==> k in u && t[k] == u[k]
  }

  /** `whole` consists of `t` and `u`, which share no key. */
  ghost predicate Join(whole: Tree, t: Tree, u: Tree) {
    && Sub(t, whole) && Sub(u, whole)
    && (forall k: nat :: k in whole ==> k in t || k in u)
    && (forall k: nat :: k in t ==> k !in u)
  }

  /** `done` holds the first `i` of the keys. */
  ghost predicate DoneKeys(ks: seq<nat>, i: nat, done: set<nat>) {
    i <= |ks| && forall k: nat :: k in done <==> k in ks[..i]
  }

  lemma NextKey(ks: seq<nat>, i: nat, done: set<nat>)
    requires DoneKeys(ks, i, done) && i < |ks| && forall a, b :: 0 <= a < b < |ks| ==> ks[a] < ks[b]
    ensures ks[i] !in done && ks[i] in ks && DoneKeys(ks, i + 1, done + {ks[i]})
  {
    assert ks[..i + 1] == ks[..i] + [ks[i]];
  }

  lemma AllKeys(ks: seq<nat>, done: set<nat>, keys: set<nat>)
    requires DoneKeys(ks, |ks|, done) && forall k: nat :: k in ks <==> k in keys
    ensures done == keys
  {
    assert ks[..|ks|] == ks;
  }

  /** Physical frames and the `Arc` count of each. */
  class PhysMemory {
    var frames: map<nat, Page>
    var rc: map<nat, nat>

    ghost function View(): Memory
      reads this
    {
      Memory(frames, rc)
    }

    /** `frame_alloc`: any frame not in use and not frame 0, zeroed, with one owner. */
    method FrameAlloc() returns (f: nat)
      modifies this
      ensures f !in old(rc) && f !in old(frames) && f != 0
      ensures View() == AllocFrame(old(View()), f, ZeroPage())
    {
      FreshExists(rc.Keys + frames.Keys + {0});
      f :| f !in rc.Keys + frames.Keys + {0};
      frames, rc := frames[f := ZeroPage()], rc[f := 1];
    }

    /** `Arc::clone`. */
    method Clone(p: nat)
      requires p in rc
      modifies this`rc
      ensures rc == old(rc)[p := old(rc)[p] + 1]
    {
      rc := rc[p := rc[p] + 1];
    }

    /** Dropping an `Arc`; the last one frees the frame. */
    method Drop(p: nat)
      requires p in rc
      modifies this
      ensures View() == Release(old(View()), p)
    {
      if rc[p] <= 1 {
        frames, rc := frames - {p}, rc - {p};
      } else {
        rc := rc[p := rc[p] - 1];
      }
    }

    /** Dropping a map of `Arc`s. */
    method DropAll(gone: map<nat, nat>)
      requires Covers(gone, rc)
      modifies this
      ensures FramesDropped(old(View()), View(), gone)
    {
      ghost var m0, dropped: map<nat, nat> := View(), map[];
      DroppedNone(m0);
      var vs := Sorted(gone.Keys);
      for i := 0 to |vs|
        invariant GivenSoFar(gone, vs[..i], dropped) && FramesDropped(m0, View(), dropped)
      {
        ForkLoops.GivenMore(gone, vs, i, dropped);
        StillThere(m0, View(), gone, dropped, vs[i]);
        DropMore(m0, View(), dropped, vs[i], gone[vs[i]]);
        Drop(gone[vs[i]]);
        dropped := dropped[vs[i] := gone[vs[i]]];
      }
      GivenAll(gone, vs, dropped);
    }

    /** Copies the bytes of one frame into another. */
    method CopyPage(dst: nat, src: nat)
      requires dst in frames && src in frames
      modifies this`frames
      ensures frames == old(frames)[dst := old(frames)[src]]
    {
      frames := frames[dst := frames[src]];
    }
  }

  datatype FaultReturn = FaultOk(handled: bool) | FaultErr(error: FaultError) | FaultPanic

  class MemorySet {
    var areas: Tree
    /** The user pages of the page table, as the map that the multi-level table refines. */
    var pt: map<nat, Pte>

    constructor ()
      ensures areas == map[] && pt == map[]
    {
      areas, pt := map[], map[];
    }

    ghost function View(): Space
      reads this
    {
      Space(areas, pt)
    }

    /** `MapArea::map_one` on the area at `k`; `PageTable::map` asserts that the page is not mapped. */
    method MapOnePage(mem: PhysMemory, k: nat, v: nat) returns (f: nat)
      requires k in areas && v !in pt
      modifies this, mem
      ensures f !in old(mem.rc) && f !in old(mem.frames)
      ensures View() == MapOne(old(View()), k, v, f)
      ensures mem.View() == AllocFrame(old(mem.View()), f, ZeroPage())
    {
      f := mem.FrameAlloc();
      areas := areas[k := areas[k].(frames := areas[k].frames[v := f])];
      pt := pt[v := NewPage(f, FlagsOf(areas[k].perm))];
    }

    /** `MapArea::unmap_one` on the area at `k`. */
    method UnmapOnePage(mem: PhysMemory, k: nat, v: nat)
      requires k in areas && v in areas[k].frames && areas[k].frames[v] in mem.rc && v in pt
      modifies this, mem
      ensures areas == Forget(old(areas), k, v) && pt == old(pt) - {v}
      ensures mem.View() == Release(old(mem.View()), old(areas)[k].frames[v])
    {
      mem.Drop(areas[k].frames[v]);
      areas := Forget(areas, k, v);
      pt := pt - {v};
    }

    /** The copy-on-write branch of the fault handler: the page gets a frame of its own with the bytes of
        the shared one. */
    method CopyPageOnWrite(mem: PhysMemory, k: nat, v: nat) returns (f: nat)
      requires k in areas && v in areas[k].frames && v in pt && pt[v].ppn == areas[k].frames[v]
      requires pt[v].ppn in mem.rc && mem.rc[pt[v].ppn] > 1 && pt[v].ppn in mem.frames
      modifies this, mem
      ensures f !in old(mem.rc)
      ensures View() == MapOne(old(View()), k, v, f)
      ensures mem.View() == AllocFrame(Release(old(mem.View()), old(pt)[v].ppn), f, old(mem.frames)[old(pt)[v].ppn])
    {
      var src := pt[v].ppn;
      UnmapOnePage(mem, k, v);
      f := MapOnePage(mem, k, v);
      mem.CopyPage(pt[v].ppn, src);
      assert areas[k].frames == old(areas)[k].frames[v := f];
      assert areas == MapOne(old(View()), k, v, f).areas;
      assert pt == MapOne(old(View()), k, v, f).pt;
    }

    /** `handle_page_fault`: lazy allocation, copy on write, or giving the write right back. It panics when the
        page is mapped and the area found does not record it. */
    method HandlePageFault(mem: PhysMemory, v: nat, isWrite: bool) returns (r: FaultReturn, ghost f: nat)
      requires WellFormed(areas)
      requires forall k: nat :: k in areas && v in areas[k].frames ==>
                 v in pt && pt[v].ppn == areas[k].frames[v] && pt[v].ppn in mem.rc && pt[v].ppn in mem.frames
      modifies this, mem
      ensures f !in old(mem.rc)
      ensures match Fault(old(View()), old(mem.View()), v, isWrite, f)
              case Handled(sp, m) => r == FaultOk(true) && View() == sp && mem.View() == m
              case Refused => r == FaultOk(false) && View() == old(View()) && mem.View() == old(mem.View())
              case Failed(e) => r == FaultErr(e) && View() == old(View()) && mem.View() == old(mem.View())
              case Panics => r == FaultPanic
      ensures r == FaultErr(AreaNotFound) <==> forall k: nat :: k in old(areas) ==> !(k <= v <= old(areas)[k].end)
      ensures forall k: nat :: AnswersFor(old(areas), v, k) ==>
                var a := old(areas)[k];
                var handles := (a.areaType.Mmap? || a.areaType.Stack?) && a.start < a.end;
                && (r == FaultErr(NotMmapType) <==> !a.areaType.Mmap? && !a.areaType.Stack?)
                && (r == FaultErr(RangeEmpty) <==> (a.areaType.Mmap? || a.areaType.Stack?) && a.start == a.end)
                && (r == FaultPanic <==> handles && v !in a.frames && v in old(pt))
                && (r == FaultOk(false) <==> handles && v in a.frames && !old(pt)[v].flags.cow && !isWrite)
                && (r == FaultOk(true) <==> handles && if v in a.frames then old(pt)[v].flags.cow || isWrite
                                                        else v !in old(pt))
    {
      ghost var before := areas;
      assert forall k: nat :: AnswersFor(before, v, k) <==> AreaOf(before, v) == Some(k) by {
        forall k: nat { AnswersIsFound(before, v, k); }
      }
      FreshExists(mem.rc.Keys);
      f :| f !in mem.rc.Keys;
      var start := AreaOf(areas, v);
      if start.None? { return FaultErr(AreaNotFound), f; }
      var k := start.value;
      var area := areas[k];
      if !area.areaType.Mmap? && !area.areaType.Stack? { return FaultErr(NotMmapType), f; }
      if area.start == area.end { return FaultErr(RangeEmpty), f; }
      if v !in area.frames {
        if v in pt { return FaultPanic, f; }
        f := MapOnePage(mem, k, v);
        return FaultOk(true), f;
      }
      if !(pt[v].flags.cow || isWrite) { return FaultOk(false), f; }
      if mem.rc[area.frames[v]] > 1 {
        f := CopyPageOnWrite(mem, k, v);
      } else {
        pt := pt[v := UnCow(pt[v])];
      }
      return FaultOk(true), f;
    }

    /** Maps a page to a frame that is in use; with `isCow` marked copy on write and counted once more. */
    method MapGivenPage(mem: PhysMemory, v: nat, p: nat, flags: PteFlags, isCow: bool)
      requires v !in pt && (isCow ==> p in mem.rc)
      modifies this`pt, mem`rc
      ensures pt == old(pt)[v := GivenPte(p, flags, isCow)]
      ensures mem.rc == if isCow then old(mem.rc)[p := old(mem.rc)[p] + 1] else old(mem.rc)
    {
      pt := pt[v := NewPage(p, flags)];
      if isCow {
        pt := pt[v := SetCow(pt[v])];
        mem.Clone(p);
      }
    }

    /** `push_with_given_frames`: the pages of `given` are mapped to the frames given. With `isCow` they are
        marked, and the new area records the frames and becomes one more owner of each. */
    method PushGivenFrames(mem: PhysMemory, area: MapArea, given: map<nat, nat>, isCow: bool)
      requires area.frames == map[] && forall v: nat :: v in given ==> v !in pt
      requires isCow ==> OneToOne(given) && forall v: nat :: v in given ==> given[v] in mem.rc
      modifies this, mem`rc
      ensures areas == old(areas)[area.start := if isCow then area.(frames := given) else area]
      ensures EntriesGiven(old(pt), pt, given, RawFlags(area.perm), isCow)
      ensures if isCow then CountsCloned(old(mem.rc), mem.rc, given) else mem.rc == old(mem.rc)
    {
      var vs := Sorted(given.Keys);
      ghost var pt0, rc0, done: map<nat, nat> := pt, mem.rc, map[];
      GivingStart(given, vs, isCow, pt0, RawFlags(area.perm), rc0);
      for i := 0 to |vs|
        invariant Giving(given, vs, i, done, isCow, pt0, pt, RawFlags(area.perm), rc0, mem.rc)
        modifies this`pt, mem`rc
      {
        done := GiveNext(mem, given, vs, i, done, isCow, pt0, RawFlags(area.perm), rc0);
      }
      GivenAll(given, vs, done);
      areas := areas[area.start := if isCow then area.(frames := given) else area];
    }

    method GiveNext(mem: PhysMemory, given: map<nat, nat>, vs: seq<nat>, i: nat, ghost done: map<nat, nat>, isCow: bool,
                    ghost pt0: map<nat, Pte>, flags: PteFlags, ghost rc0: map<nat, nat>)
      returns (ghost done': map<nat, nat>)
      requires Giving(given, vs, i, done, isCow, pt0, pt, flags, rc0, mem.rc) && i < |vs|
      modifies this`pt, mem`rc
      ensures Giving(given, vs, i + 1, done', isCow, pt0, pt, flags, rc0, mem.rc)
    {
      var v: nat := vs[i];
      GivingNext(given, vs, i, done, isCow, pt0, pt, flags, rc0, mem.rc);
      MapGivenPage(mem, v, given[v], flags, isCow);
      done' := done[v := given[v]];
    }

    /** `set_cow` on the entry of every page of `frames`. */
    method MarkCow(frames: map<nat, nat>)
      requires forall v: nat :: v in frames ==> v in pt
      modifies this`pt
      ensures forall v: nat :: PteAt(pt, v) == if v in frames then Some(SetCow(old(pt)[v])) else old(PteAt(pt, v))
    {
      var vs := Sorted(frames.Keys);
      var i := 0;
      while i < |vs|
        invariant 0 <= i <= |vs|
        invariant forall v: nat :: PteAt(pt, v) == if v in vs[..i] then Some(SetCow(old(pt)[v])) else old(PteAt(pt, v))
      {
        assert PteAt(pt, vs[i]) == old(PteAt(pt, vs[i]));
        pt := pt[vs[i] := SetCow(pt[vs[i]])];
        i := i + 1;
      }
    }

    /** `push` without data: every page of the area gets a zeroed frame of its own. */
    method PushMapped(mem: PhysMemory, area: MapArea) returns (ghost got: map<nat, nat>)
      requires area.frames == map[] && forall v: nat :: area.start <= v < area.end ==> v !in pt
      modifies this, mem
      ensures forall v: nat :: v in got <==> area.start <= v < area.end
      ensures areas == old(areas)[area.start := area.(frames := got)]
      ensures EntriesGiven(old(pt), pt, got, FlagsOf(area.perm), false)
      ensures FramesTaken(old(mem.View()), mem.View(), got)
      ensures forall p: nat :: p in old(mem.frames) ==> p in mem.frames && mem.frames[p] == old(mem.frames)[p]
    {
      var frames: map<nat, nat> := map[];
      ghost var pt0, m0 := pt, mem.View();
      var v := area.start;
      while v < area.end
        invariant FreshSoFar(area, v, frames, pt0, pt, m0, mem.View())
        modifies this`pt, mem
      {
        frames := MapFresh(mem, area, v, frames, pt0, m0);
        v := v + 1;
      }
      got := frames;
      areas := areas[area.start := area.(frames := frames)];
    }

    /** `map_one` for the next page of a new area. */
    method MapFresh(mem: PhysMemory, area: MapArea, v: nat, frames: map<nat, nat>, ghost pt0: map<nat, Pte>,
                    ghost m0: Memory)
      returns (frames': map<nat, nat>)
      requires v < area.end && FreshSoFar(area, v, frames, pt0, pt, m0, mem.View())
      modifies this`pt, mem
      ensures FreshSoFar(area, v + 1, frames', pt0, pt, m0, mem.View())
    {
      ghost var m := mem.View();
      var f := mem.FrameAlloc();
      FreshStep(area, v, frames, pt0, pt, m0, m, f);
      frames' := frames[v := f];
      pt := pt[v := NewPage(f, FlagsOf(area.perm))];
    }

    /** Copies the bytes of every page in `[s, e)` from where `parent` maps it to where this space does. */
    method CopyBytesFrom(mem: PhysMemory, parent: MemorySet, s: nat, e: nat, ghost got: map<nat, nat>)
      requires s <= e && OneToOne(got) && forall v: nat :: v in got <==> s <= v < e
      requires forall v: nat :: v in got ==> v in pt && pt[v].ppn == got[v] && got[v] in mem.frames
      requires forall v: nat :: v in got ==>
                 v in parent.pt && parent.pt[v].ppn in mem.frames && !Takes(got, parent.pt[v].ppn)
      modifies mem`frames
      ensures forall p: nat :: p in mem.frames <==> p in old(mem.frames)
      ensures BytesCopied(old(mem.frames), mem.frames, parent.pt, got)
    {
      ghost var copied: map<nat, nat> := map[];
      var v := s;
      while v < e
        invariant s <= v <= e && CopiedSoFar(got, copied, v)
        invariant forall p: nat :: p in mem.frames <==> p in old(mem.frames)
        invariant BytesCopied(old(mem.frames), mem.frames, parent.pt, copied)
      {
        CopiedMore(got, copied, v, parent.pt[v].ppn);
        CopyMore(old(mem.frames), mem.frames, parent.pt, copied, v, got[v]);
        mem.CopyPage(pt[v].ppn, parent.pt[v].ppn);
        copied := copied[v := got[v]];
        v := v + 1;
      }
      CopiedAll(got, copied, v);
    }

    /** Halfway through a fork of `sp`, which began with memory `m0`. */
    ghost predicate MidFork(mode: Mode, mem: PhysMemory, child: MemorySet, sp: Space, m0: Memory, done: set<nat>,
                            copies: map<nat, nat>)
      reads this, child, mem
    {
      && child != this && sp.areas == areas && ForkReady(mode, sp, m0) && done <= areas.Keys
      && Forking(mode, sp, m0, done, copies, child.View(), pt, mem.View())
    }

    /** The branch for a shared mapping or a shared memory segment: the child gets the entries only. */
    method LendTo(mem: PhysMemory, child: MemorySet, area: MapArea, ghost mode: Mode, ghost copies: map<nat, nat>,
                  ghost c: Space)
      requires child != this && c == child.View() && FateOf(mode, area).Lend?
      requires forall v: nat :: v in area.frames ==> v !in c.pt
      modifies child, mem`rc
      ensures AreaForked(mode, area, copies, map[], c, pt, child.View(), pt) && mem.rc == old(mem.rc)
    {
      child.PushGivenFrames(mem, area.(frames := map[], mmapFlags := {}), area.frames, false);
    }

    method LendArea(mem: PhysMemory, child: MemorySet, k: nat, ghost mode: Mode,
                    ghost sp: Space, ghost m0: Memory, ghost done: set<nat>, ghost copies: map<nat, nat>)
      requires MidFork(mode, mem, child, sp, m0, done, copies) && k in areas && k !in done
               && FateOf(mode, areas[k]).Lend?
      modifies child, mem`rc
      ensures MidFork(mode, mem, child, sp, m0, done + {k}, copies)
    {
      ghost var c, m := child.View(), mem.View();
      FramesUnmapped(mode, sp, m0, done, copies, c, pt, m, k);
      LendTo(mem, child, areas[k], mode, copies, c);
      ForkKeeps(mode, sp, m0, done, copies, c, pt, m, k, child.View());
    }

    /** The branch for a private mmap area of a copy-on-write fork. */
    method ShareWith(mem: PhysMemory, child: MemorySet, area: MapArea, ghost mode: Mode, ghost copies: map<nat, nat>,
                     ghost c: Space, ghost pPt: map<nat, Pte>, ghost m: Memory)
      requires child != this && c == child.View() && pPt == pt && m == mem.View()
      requires FateOf(mode, area).Share? && OneToOne(area.frames)
      requires forall v: nat :: v in area.frames ==> v !in c.pt && v in pt && area.frames[v] in mem.rc
      modifies this`pt, child, mem`rc
      ensures AreaForked(mode, area, copies, map[], c, pPt, child.View(), pt)
      ensures CountsCloned(m.rc, mem.rc, area.frames) && mem.frames == m.frames
    {
      child.PushGivenFrames(mem, area.(frames := map[], mmapFlags := {MAP_PRIVATE}), area.frames, true);
      MarkCow(area.frames);
    }

    method ShareArea(mem: PhysMemory, child: MemorySet, k: nat, ghost mode: Mode,
                     ghost sp: Space, ghost m0: Memory, ghost done: set<nat>, ghost copies: map<nat, nat>)
      requires MidFork(mode, mem, child, sp, m0, done, copies) && k in areas && k !in done
               && FateOf(mode, areas[k]).Share?
      modifies this`pt, child, mem`rc
      ensures MidFork(mode, mem, child, sp, m0, done + {k}, copies)
    {
      ghost var c, pPt, m := child.View(), pt, mem.View();
      ShareReady(mode, sp, m0, done, copies, c, pt, m, k);
      ShareWith(mem, child, areas[k], mode, copies, c, pPt, m);
      ForkShares(mode, sp, m0, done, copies, c, pPt, m, k, child.View(), pt, mem.View());
    }

    /** The last branch: fresh frames and a copy of the bytes. */
    method CopyTo(mem: PhysMemory, child: MemorySet, area: MapArea, ghost c: Space, ghost m: Memory)
      returns (ghost got: map<nat, nat>, ghost m1: Memory)
      requires child != this && c == child.View() && m == mem.View() && area.start <= area.end
      requires forall v: nat :: area.start <= v < area.end ==>
                 v !in c.pt && v in pt && pt[v].ppn in m.frames && pt[v].ppn in m.rc
      modifies child, mem
      ensures forall v: nat :: v in got <==> area.start <= v < area.end
      ensures child.areas == c.areas[area.start := area.(frames := got, mmapFlags := {})]
      ensures EntriesGiven(c.pt, child.pt, got, FlagsOf(area.perm), false) && AreaCopied(m, m1, mem.View(), pt, got)
    {
      got := child.PushMapped(mem, area.(frames := map[], mmapFlags := {}));
      m1 := mem.View();
      CopyReady(m, m1, c.pt, child.pt, pt, FlagsOf(area.perm), got);
      child.CopyBytesFrom(mem, this, area.start, area.end, got);
    }

    method CopyArea(mem: PhysMemory, child: MemorySet, k: nat, ghost mode: Mode,
                    ghost sp: Space, ghost m0: Memory, ghost done: set<nat>, ghost copies: map<nat, nat>)
      returns (ghost copies': map<nat, nat>)
      requires MidFork(mode, mem, child, sp, m0, done, copies) && k in areas && k !in done
      requires FateOf(mode, areas[k]).Duplicate?
      modifies child, mem
      ensures MidFork(mode, mem, child, sp, m0, done + {k}, copies')
    {
      ghost var c, m := child.View(), mem.View();
      PagesReady(mode, sp, m0, done, copies, c, pt, m, k);
      ghost var got, m1 := CopyTo(mem, child, areas[k], c, m);
      CopiedArea(mode, sp, done, copies, c, pt, k, got, child.View());
      ForkCopies(mode, sp, m0, done, copies, c, pt, m, k, got, child.View(), m1, mem.View());
      copies' := copies + got;
    }

    /** One round of the loop of `from_existed_user`. */
    method ForkArea(mem: PhysMemory, child: MemorySet, k: nat,
                    ghost sp: Space, ghost m0: Memory, ghost done: set<nat>, ghost copies: map<nat, nat>)
      returns (ghost copies': map<nat, nat>)
      requires MidFork(CopyOnWrite, mem, child, sp, m0, done, copies) && k in areas && k !in done
      modifies this`pt, child, mem
      ensures MidFork(CopyOnWrite, mem, child, sp, m0, done + {k}, copies')
    {
      var area := areas[k];
      copies' := copies;
      if area.areaType.Stack? {
        ForkKeeps(CopyOnWrite, sp, m0, done, copies, child.View(), pt, mem.View(), k, child.View());
      } else if area.areaType.Mmap? && MAP_SHARED in area.mmapFlags {
        LendArea(mem, child, k, CopyOnWrite, sp, m0, done, copies);
      } else if area.areaType.Mmap? {
        ShareArea(mem, child, k, CopyOnWrite, sp, m0, done, copies);
      } else if area.areaType.Shm? {
        LendArea(mem, child, k, CopyOnWrite, sp, m0, done, copies);
      } else {
        copies' := CopyArea(mem, child, k, CopyOnWrite, sp, m0, done, copies);
      }
    }

    /** One round of the loop of `from_existed_user1`. */
    method EagerArea(mem: PhysMemory, child: MemorySet, k: nat,
                     ghost sp: Space, ghost m0: Memory, ghost done: set<nat>, ghost copies: map<nat, nat>)
      returns (ghost copies': map<nat, nat>)
      requires MidFork(Eager, mem, child, sp, m0, done, copies) && k in areas && k !in done
      modifies this`pt, child, mem
      ensures MidFork(Eager, mem, child, sp, m0, done + {k}, copies')
    {
      var area := areas[k];
      copies' := copies;
      if area.areaType.Mmap? && MAP_SHARED in area.mmapFlags {
        LendArea(mem, child, k, Eager, sp, m0, done, copies);
      } else {
        copies' := CopyArea(mem, child, k, Eager, sp, m0, done, copies);
      }
    }

    /** The loop over the areas in key order. */
    method ForkAreas(mem: PhysMemory, child: MemorySet, mode: Mode, ghost sp: Space, ghost m0: Memory)
      returns (ghost copies: map<nat, nat>)
      requires MidFork(mode, mem, child, sp, m0, {}, map[])
      modifies this`pt, child, mem
      ensures ForkResult(mode, sp, m0, copies, child.View(), View(), mem.View())
    {
      var ks := Sorted(areas.Keys);
      ghost var done: set<nat> := {};
      copies := map[];
      for i := 0 to |ks|
        invariant DoneKeys(ks, i, done) && MidFork(mode, mem, child, sp, m0, done, copies)
        modifies this`pt, child, mem
      {
        NextKey(ks, i, done);
        if mode.CopyOnWrite? {
          copies := ForkArea(mem, child, ks[i], sp, m0, done, copies);
        } else {
          copies := EagerArea(mem, child, ks[i], sp, m0, done, copies);
        }
        done := done + {ks[i]};
      }
      AllKeys(ks, done, areas.Keys);
    }

    /** `from_existed_user`: the child of a fork. Stacks are left out, shared mappings and segments lent,
        private mmap areas shared copy on write, and the others copied. */
    method FromExistedUser(mem: PhysMemory) returns (child: MemorySet, ghost copies: map<nat, nat>)
      requires ForkReady(CopyOnWrite, View(), mem.View())
      modifies this`pt, mem
      ensures fresh(child)
      ensures ForkResult(CopyOnWrite, old(View()), old(mem.View()), copies, child.View(), View(), mem.View())
    {
      child := new MemorySet();
      ForkStart(CopyOnWrite, View(), mem.View());
      copies := ForkAreas(mem, child, CopyOnWrite, View(), mem.View());
    }

    /** `BTreeMap::insert`, answering whether the key was free. */
    method Insert(a: MapArea) returns (isNew: bool)
      modifies this`areas
      ensures isNew <==> a.start !in old(areas)
      ensures areas == old(areas)[a.start := a]
    {
      isNew := a.start !in areas;
      areas := areas[a.start := a];
    }

    /** Takes the areas that meet `[s, e)` out of the tree, going through it in key order. */
    method DrainOverlapping(s: nat, e: nat) returns (overlapped: Tree)
      requires WellFormed(areas)
      modifies this`areas
      ensures Join(old(areas), areas, overlapped)
      ensures forall k: nat :: k in overlapped ==> OverlapWith(overlapped[k], s, e)
      ensures forall k: nat :: k in areas ==> !OverlapWith(areas[k], s, e)
    {
      overlapped := map[];
      var prev: Tree := map[];
      while areas != map[]
        invariant Sub(areas, old(areas)) && Sub(overlapped, old(areas)) && Sub(prev, old(areas))
        invariant forall k: nat :: k in old(areas) ==> k in areas || k in overlapped || k in prev
        invariant forall k: nat :: k in overlapped ==> k !in areas && OverlapWith(overlapped[k], s, e)
        invariant forall k: nat :: k in prev ==> k !in areas && !OverlapWith(prev[k], s, e)
        decreases |areas|
      {
        var k := MinKey(areas.Keys);
        var area := areas[k];
        DropShrinks(areas, k);
        areas := areas - {k};
        if OverlapWith(area, s, e) {
          overlapped := overlapped[k := area];
        } else {
          prev := prev[k := area];
        }
      }
      areas := prev;
    }

    /** `table` is the multi-level table whose pages `pt` holds. */
    ghost predicate Mirrors(table: PageTable)
      reads this, table, table.memory
    {
      table.Valid() && table.Pages() == pt
    }

    /** `update_flags` of an area that has its new permission. It fails (the kernel panics) exactly when a
        page it visits has no last-level table. */
    method UpdateFlags(table: PageTable, area: MapArea) returns (ok: bool)
      requires Mirrors(table)
      modifies this`pt, table.memory
      ensures Mirrors(table)
      ensures SameOutside(table.levels, table.root, table.place, old(table.memory.tables), table.memory.tables)
      ensures ok <==> AllReached(table.levels, table.root, old(table.memory.tables), area.start, |area.frames|)
      ensures ok ==> pt == Reflagged(table.levels, old(pt), area.start, |area.frames|, FlagsOf(area.perm))
    {
      var done;
      ghost var now;
      ok, done, now := table.UpdateRegion(area.start, |area.frames|, FlagsOf(area.perm), pt);
      pt := Reflagged(table.levels, pt, area.start, done, FlagsOf(area.perm));
    }

    /** The rest of `mprotect` for one drained area: split it as needed, give the part in the range the
        permission, rewrite entries and insert the pieces. False when an insertion meets a key that is
        there or the entries cannot be rewritten. */
    method ProtectOne(table: PageTable, area0: MapArea, s: nat, e: nat, perm: MapPermission) returns (ok: bool)
      requires area0.start !in areas && WellFormed(areas[area0.start := area0]) && OverlapWith(area0, s, e) && s <= e
      requires Mirrors(table)
      modifies this`areas, this`pt, table.memory
      ensures Mirrors(table)
      ensures SameOutside(table.levels, table.root, table.place, old(table.memory.tables), table.memory.tables)
      ensures s == e ==> !ok
      ensures s < e ==> (ok <==> PieceReached(table.levels, table.root, old(table.memory.tables), area0, s, e))
      ensures ok ==> areas == Protected(old(areas)[area0.start := area0], area0.start, s, e, perm)
      ensures ok ==> var piece := Piece(area0, s, e);
                     pt == Reflagged(table.levels, old(pt), piece.start, |piece.frames|, FlagsOf(perm))
    {
      var mid, pieces := MidOf(area0, s, e, perm), PiecesOf(area0, s, e, perm);
      PiecesFit(areas, area0, s, e, perm);
      if s < e {
        PiecesProtect(areas, area0, s, e, perm);
      }
      ok := UpdateFlags(table, mid);
      if !ok { return; }
      ok := InsertAll(pieces);
    }

    /** The insertions of `mprotect`, each asserted to find its key free. */
    method InsertAll(pieces: seq<MapArea>) returns (ok: bool)
      modifies this`areas
      ensures ok <==> NewStarts(old(areas), pieces)
      ensures ok ==> areas == Inserted(old(areas), pieces)
    {
      ghost var before := areas;
      assert pieces[..0] == [];
      for i := 0 to |pieces|
        invariant areas == Inserted(before, pieces[..i])
        invariant forall k: nat :: k in areas <==> k in before || exists j :: 0 <= j < i && pieces[j].start == k
        invariant forall j :: 0 <= j < i ==> pieces[j].start !in before
        invariant forall j, l :: 0 <= j < l < i ==> pieces[j].start != pieces[l].start
      {
        ok := Insert(pieces[i]);
        assert pieces[..i + 1][..i] == pieces[..i];
        if !ok { return; }
      }
      assert pieces[..|pieces|] == pieces;
      ok := true;
    }

    /** The loop state of `mprotect`, which began with areas `before`, entries `pt0` and tables `tables`. */
    ghost predicate MidMprotect(table: PageTable, overlapped: Tree, s: nat, e: nat, perm: MapPermission,
                                before: Tree, tables: Tables, pt0: map<nat, Pte>, whole: Tree)
      reads this, table, table.memory
    {
      && Join(whole, areas, overlapped) && Sub(overlapped, before)
      && Protecting(before, whole, areas, overlapped, s, e, perm)
      && Mirrors(table) && SameOutside(table.levels, table.root, table.place, tables, table.memory.tables)
      && Reflagging(before, overlapped, s, e, perm, pt0, pt)
      && ReachedBut(table.levels, table.root, tables, before, overlapped, s, e)
    }

    /** One round of the loop of `mprotect`. */
    method ProtectNext(table: PageTable, overlapped: Tree, k: nat, s: nat, e: nat, perm: MapPermission,
                       ghost before: Tree, ghost tables: Tables, ghost pt0: map<nat, Pte>, ghost whole: Tree)
      returns (ok: bool, ghost whole': Tree)
      requires WellFormed(before) && s <= e && k in overlapped && k in before
               && before[k].end <= PageCount(table.levels)
      requires MidMprotect(table, overlapped, s, e, perm, before, tables, pt0, whole)
      modifies this`areas, this`pt, table.memory
      ensures Mirrors(table)
      ensures ok ==> s < e && MidMprotect(table, overlapped - {k}, s, e, perm, before, tables, pt0, whole')
      ensures !ok ==> !((s < e || !Covered(before, s)) && CanReflag(table.levels, table.root, tables, before, s, e))
    {
      var area := overlapped[k];
      ghost var now, was := table.memory.tables, pt;
      if s < e {
        ProtectStep(before, whole, areas, overlapped, k, s, e, perm);
        whole' := Protected(whole, k, s, e, perm);
      } else {
        EmptyRangeCovered(before, whole, areas, overlapped, k, s, perm);
        whole' := whole;
      }
      SameReached(table.levels, table.root, table.place, tables, now, area, s, e);
      ok := ProtectOne(table, area, s, e, perm);
      if ok {
        SameOutsideTwice(table.levels, table.root, table.place, tables, now, table.memory.tables);
        ReflagStep(table.levels, before, overlapped, k, s, e, perm, pt0, was, pt);
        OneAreaLess(table.levels, table.root, tables, before, overlapped, k, s, e);
      } else {
        OneAreaFails(table.levels, table.root, tables, before, k, s, e);
      }
    }

    /** The areas that `[s, e)` meets are taken out. */
    method StartMprotect(table: PageTable, s: nat, e: nat, ghost perm: MapPermission,
                         ghost before: Tree, ghost tables: Tables, ghost pt0: map<nat, Pte>)
      returns (overlapped: Tree)
      requires WellFormed(areas) && Mirrors(table) && s <= e
      requires before == areas && tables == table.memory.tables && pt0 == pt
      modifies this`areas
      ensures MidMprotect(table, overlapped, s, e, perm, before, tables, pt0, before)
    {
      overlapped := DrainOverlapping(s, e);
      ProtectStart(before, areas, overlapped, s, e, perm);
      SameOutsideSelf(table.levels, table.root, table.place, tables);
      ReflagStart(before, overlapped, s, e, perm, pt);
    }

    /** Changes the protection of the pages from `start` on, `size` bytes. It fails (the kernel panics)
        exactly when the page range is empty and its start lies in an area, or when a page whose entry is
        to be rewritten has no last-level table. Otherwise the pages covered stay the same with all they
        had, exactly those in the range get the permission, and exactly the entries visited are rewritten. */
    method Mprotect(table: PageTable, start: nat, size: nat, perm: MapPermission) returns (ok: bool)
      requires WellFormed(areas) && start + size != 0
      requires Mirrors(table) && forall k: nat :: k in areas ==> areas[k].end <= PageCount(table.levels)
      modifies this`areas, this`pt, table.memory
      ensures Mirrors(table)
      ensures var s, e := Floor(start), Ceil(start + size);
              && (ok <==> (s < e || !Covered(old(areas), s))
                          && CanReflag(table.levels, table.root, old(table.memory.tables), old(areas), s, e))
              && (ok ==> WellFormed(areas))
              && (ok ==> forall p: nat :: Info(areas, p)
                           == if s <= p < e then WithPerm(Info(old(areas), p), perm) else Info(old(areas), p))
              && (ok ==> Reflagging(old(areas), map[], s, e, perm, old(pt), pt))
      ensures ok && size > 0 ==> ProtectedBytes(old(areas), areas, start, size, perm)
    {
      var s, e := Floor(start), Ceil(start + size);
      ghost var before, tables, pt0, whole := areas, table.memory.tables, pt, areas;
      var overlapped := StartMprotect(table, s, e, perm, before, tables, pt0);
      while overlapped != map[]
        invariant MidMprotect(table, overlapped, s, e, perm, before, tables, pt0, whole)
        decreases |overlapped|
      {
        var k := MinKey(overlapped.Keys);
        ok, whole := ProtectNext(table, overlapped, k, s, e, perm, before, tables, pt0, whole);
        if !ok { return; }
        DropShrinks(overlapped, k);
        overlapped := overlapped - {k};
      }
      JoinNothing(whole, areas, overlapped);
      ProtectDone(before, areas, s, e, perm);
      if size > 0 {
        BytesProtected(before, areas, start, size, perm);
      }
      return true;
    }

    /** The areas that `[s, e)` cuts. */
    method FindOverlaps(s: nat, e: nat) returns (overlaps: seq<nat>)
      requires WellFormed(areas)
      ensures forall j, j' :: 0 <= j < j' < |overlaps| ==> overlaps[j] != overlaps[j']
      ensures forall k: nat :: k in overlaps <==> k in areas && k < e && s < areas[k].end
    {
      var ks := Sorted(set k: nat | k in areas && k < e);
      overlaps := [];
      for i := 0 to |ks|
        invariant forall k: nat :: k in overlaps <==> k in ks[..i] && k in areas && areas[k].end > s
        invariant forall j, j' :: 0 <= j < j' < |overlaps| ==> overlaps[j] != overlaps[j']
      {
        var k: nat := ks[i];
        assert k in ks && k !in ks[..i];
        if areas[k].end > s {
          overlaps := overlaps + [k];
        }
      }
      assert ks[..|ks|] == ks;
    }

    /** Clears the entries of the pages of `[s, e)` that `area` has a frame for; `PageTable::unmap`
        asserts that they are mapped. */
    method UnmapFrames(area: MapArea, s: nat, e: nat)
      requires s <= e && forall v: nat :: s <= v < e && v in area.frames ==> v in pt
      modifies this`pt
      ensures pt == old(pt) - FramesIn(area, s, e)
    {
      ghost var pt0 := pt;
      assert FramesIn(area, s, s) == {};
      for v: nat := s to e
        invariant pt == pt0 - FramesIn(area, s, v)
      {
        OneMoreFrame(area, s, v);
        if v in area.frames {
          pt := pt - {v};
        }
      }
    }

    /** Cuts one area: removes it, puts what is left and right of the range back, and unmaps the pages
        of the range it had frames for. With the area go its counts on all its frames, those of the pages
        that are left included. */
    method CutOne(mem: PhysMemory, start: nat, s: nat, e: nat)
      requires start in areas && areas[start].start == start && s <= e
      requires forall v: nat :: s <= v < e && v in areas[start].frames ==> v in pt
      requires Covers(areas[start].frames, mem.rc)
      modifies this`areas, this`pt, mem
      ensures areas == Cut(old(areas), start, s, e)
      ensures pt == old(pt) - FramesIn(old(areas)[start], s, e)
      ensures FramesDropped(old(mem.View()), mem.View(), old(areas)[start].frames)
    {
      var area := areas[start];
      areas := areas - {start};
      var a0, a1 := area.start, area.end;
      if a0 < s {
        var left := Survivor(area, a0, s);
        areas := areas[left.start := left];
      }
      if a1 > e {
        var right := Survivor(area, e, a1);
        areas := areas[right.start := right];
      }
      UnmapFrames(area, s, e);
      mem.DropAll(area.frames);
    }

    /** The loop of `munmap` before it cuts the area at `overlaps[i]`. */
    ghost predicate MidMunmap(mem: PhysMemory, before: Tree, pt0: map<nat, Pte>, m0: Memory, overlaps: seq<nat>, i: nat,
                              s: nat, e: nat)
      reads this, mem
      requires i <= |overlaps|
    {
      && Cutting(before, areas, overlaps, i, s, e)
      && pt == pt0 - FramesOfIn(before, overlaps[..i], s, e)
      && FramesDropped(m0, mem.View(), FramesOf(before, overlaps[..i]))
    }

    method CutNext(mem: PhysMemory, ghost before: Tree, ghost pt0: map<nat, Pte>, ghost m0: Memory, overlaps: seq<nat>,
                   i: nat, s: nat, e: nat)
      requires i < |overlaps| && s <= e && MidMunmap(mem, before, pt0, m0, overlaps, i, s, e)
      requires RangeMapped(before, pt0, s, e) && Covers(Recorded(before), m0.rc)
      modifies this`areas, this`pt, mem
      ensures MidMunmap(mem, before, pt0, m0, overlaps, i + 1, s, e)
    {
      ghost var m := mem.View();
      CutStep(before, areas, overlaps, i, s, e);
      FramesStep(before, overlaps, i, s, e);
      NextMapped(before, pt0, pt, overlaps, i, s, e);
      NextCovered(before, overlaps, i, m0, m);
      CutOne(mem, overlaps[i], s, e);
      DroppedStep(before, overlaps, i, m0, m, mem.View());
      MinusTwice(pt0, FramesOfIn(before, overlaps[..i], s, e), FramesIn(before[overlaps[i]], s, e));
    }

    /** Removes the pages `[s, e)` from the address space. Exactly those pages go; other pages of the
        areas that were cut keep permission and type but are no longer recorded as having a frame. Of
        the page table, exactly the pages of the range that had a frame are cleared. Every page recorded in
        an area that was cut drops its count. What the call asks for holds again afterwards. */
    method Munmap(mem: PhysMemory, s: nat, e: nat)
      requires WellFormed(areas) && s <= e && RangeMapped(areas, pt, s, e) && Covers(Recorded(areas), mem.rc)
      modifies this`areas, this`pt, mem
      ensures WellFormed(areas) && Covers(Recorded(areas), mem.rc)
      ensures forall a: nat, b: nat :: RangeMapped(old(areas), old(pt), a, b) ==> RangeMapped(areas, pt, a, b)
      ensures SurvivorsKept(old(areas), areas, s, e)
      ensures forall p: nat :: Info(areas, p) == Unmapped(old(areas), s, e, p)
      ensures pt == Left(old(areas), old(pt), s, e)
      ensures FramesDropped(old(mem.View()), mem.View(), CutFrames(old(areas), s, e))
    {
      var overlaps := FindOverlaps(s, e);
      ghost var before, pt0, m0 := areas, pt, mem.View();
      CutStart(before, overlaps, s, e);
      FramesOfNone(before, overlaps);
      DroppedNone(m0);
      for i := 0 to |overlaps|
        invariant MidMunmap(mem, before, pt0, m0, overlaps, i, s, e)
      {
        CutNext(mem, before, pt0, m0, overlaps, i, s, e);
      }
      CutDone(before, areas, overlaps, s, e);
      CutFramesAll(before, overlaps, s, e);
      MunmapCovers(before, areas, m0, mem.View(), s, e);
      MunmapMapped(before, areas, pt0, s, e);
      MunmapSurvivors(before, areas, s, e);
    }

    /** One page of `madvise_dontneed`. It panics exactly when the page is mapped and no area is found for it. */
    method DropPage(mem: PhysMemory, v: nat) returns (ok: bool)
      requires WellFormed(areas)
      requires forall k: nat :: k in areas && v in areas[k].frames ==> areas[k].frames[v] in mem.rc
      modifies this`areas, this`pt, mem
      ensures ok <==> GiveOne(old(View()), old(mem.View()), v).Some?
      ensures ok ==> Some((View(), mem.View())) == GiveOne(old(View()), old(mem.View()), v)
    {
      if v !in pt { return true; }
      pt := pt - {v};
      var start := AreaOf(areas, v);
      if start.None? { return false; }
      var k := start.value;
      if v in areas[k].frames {
        mem.Drop(areas[k].frames[v]);
        areas := Forget(areas, k, v);
      }
      return true;
    }

    /** Gives up the frames of the pages `s` to `e`, both included. The pages stay in their areas; entries go,
        and frames with a count each, so the next access finds a zeroed page. It panics exactly when one of
        the pages is mapped and no area is found for it. */
    method MadviseDontneed(mem: PhysMemory, s: nat, e: nat) returns (ok: bool)
      requires WellFormed(areas) && s <= e + 1 && Covers(Recorded(areas), mem.rc)
      modifies this`areas, this`pt, mem
      ensures ok <==> !FailsIn(old(View()), s, e + 1)
      ensures ok ==> Advised(old(View()), old(mem.View()), MappedIn(old(View()), s, e + 1), View(), mem.View())
      ensures ok ==> WellFormed(areas) && Covers(Recorded(areas), mem.rc)
    {
      ghost var sp0, m0, gone := View(), mem.View(), {};
      AdviseStart(sp0, m0, s);
      for v := s to e + 1
        invariant gone == MappedIn(sp0, s, v) && !FailsIn(sp0, s, v)
        invariant Advised(sp0, m0, gone, View(), mem.View())
      {
        gone := AdviseRound(sp0, m0, s, v, e + 1, gone, View(), mem.View());
        ok := DropPage(mem, v);
        if !ok { return; }
      }
      ok := true;
      AdviseCovers(sp0, m0, gone, View(), mem.View());
    }
  }

  /** Page `p` holds one of the `size` bytes from `start` on. */
  ghost predicate HoldsByte(start: nat, size: nat, p: nat) {
    exists a: nat :: start <= a < start + size && a / PAGE_SIZE == p
  }

  /** All but the permission is the same for page `p` of both areas. */
  predicate SameButPerm(a: MapArea, b: MapArea, p: nat) {
    && a.areaType == b.areaType && a.mapType == b.mapType && a.mmapFlags == b.mmapFlags
    && (p in a.frames <==> p in b.frames) && (p in a.frames ==> a.frames[p] == b.frames[p])
  }

  /** Both trees have the same pages; exactly those that hold one of the bytes have the new permission, and
      nothing else is different. */
  ghost predicate ProtectedBytes(t: Tree, t': Tree, start: nat, size: nat, perm: MapPermission) {
    && (forall p: nat :: Covered(t', p) <==> Covered(t, p))
    && forall j: nat, k: nat, p: nat :: Owns(t, j, p) && Owns(t', k, p) ==>
         SameButPerm(t[j], t'[k], p) && t'[k].perm == if HoldsByte(start, size, p) then perm else t[j].perm
  }

  lemma BytesProtected(t: Tree, t': Tree, start: nat, size: nat, perm: MapPermission)
    requires WellFormed(t) && WellFormed(t') && size > 0
    requires forall p: nat :: Info(t', p)
               == if Floor(start) <= p < Ceil(start + size) then WithPerm(Info(t, p), perm) else Info(t, p)
    ensures ProtectedBytes(t, t', start, size, perm)
  {
    forall p: nat ensures Covered(t', p) <==> Covered(t, p) {
      assert Info(t', p).Some? <==> Info(t, p).Some?;
    }
    forall j: nat, k: nat, p: nat | Owns(t, j, p) && Owns(t', k, p)
      ensures SameButPerm(t[j], t'[k], p) && t'[k].perm == if HoldsByte(start, size, p) then perm else t[j].perm
    {
      InfoAt(t, j, p);
      InfoAt(t', k, p);
      PagesOfRange(start, size, p);
    }
  }

  /** The table that page 512 needs is not the one that page 0 needs. */
  lemma NoFirstTable(root: nat, tables: Tables, place: map<nat, Spot>)
    requires Placed(3, root, tables, place)
    requires forall q :: q in place && q != root ==> OnTheWay(3, place[q], 512)
    ensures !Walks(3, root, tables, 0)
  {
    SmallNumbers();
    TopPrefix(3, 0);
    LastTablePlace(3, root, tables, place, root, 2, 0);
  }

  lemma SmallNumbers()
    ensures PageCount(3) == 0x800_0000 && Key(3, 512) == 512
    ensures Prefix(3, 512, 0) == 1 && Prefix(3, 0, 0) == 0
  {
    KeepSmall(512, 3);
    KeepSmall(0, 3);
  }

  lemma LastPageOnly(t: Tree, a: MapArea, f: nat, root: nat, tables: Tables)
    requires t == map[0 := a] && a.start == 0 && a.end == 513 && a.frames == map[512 := f] && !Walks(3, root, tables, 0)
    ensures WellFormed(t) && !CanReflag(3, root, tables, t, 0, 513)
    ensures forall k: nat :: k in t ==> t[k].end <= PageCount(3)
  {
    SmallNumbers();
    assert 0 in t && 512 in t[0].frames;
    assert Piece(a, 0, 513).frames == map[512 := f];
    assert |Piece(a, 0, 513).frames| == 1;
    assert OverlapWith(t[0], 0, 513) && !PieceReached(3, root, tables, t[0], 0, 513);
  }

  /** A page table that maps page 512 and has the tables for that page only. */
  method LonePage(f: nat, flags: PteFlags) returns (table: PageTable)
    ensures fresh(table) && fresh(table.memory) && table.Valid() && table.levels == 3
    ensures table.Pages() == map[512 := NewPage(f, flags)] && !table.Reaches(0)
  {
    SmallNumbers();
    var memory := new FrameMemory();
    table := new PageTable(3, memory);
    var mapped := table.Map(512, f, flags);
    NoFirstTable(table.root, table.memory.tables, table.place);
  }

  method FailsOnFirstPages(space: MemorySet, table: PageTable, perm: MapPermission) returns (ok: bool)
    requires WellFormed(space.areas) && space.Mirrors(table)
    requires forall k: nat :: k in space.areas ==> space.areas[k].end <= PageCount(table.levels)
    requires !CanReflag(table.levels, table.root, table.memory.tables, space.areas, 0, 513)
    modifies space, table.memory
    ensures !ok
  {
    assert Floor(0) == 0 && Ceil(0 + 513 * PAGE_SIZE) == 513;
    ok := space.Mprotect(table, 0, 513 * PAGE_SIZE, perm);
  }

  /** `mprotect` of a whole lazy area of 513 pages fails when the last page is the only one with a frame:
      the entry of the first page is to be rewritten, and it has no last-level table. */
  method MprotectFails(area: MapArea, f: nat, perm: MapPermission) returns (ok: bool)
    requires area.start == 0 && area.end == 513 && area.frames == map[512 := f]
    ensures !ok
  {
    var table := LonePage(f, FlagsOf(area.perm));
    var t: Tree := map[0 := area];
    LastPageOnly(t, area, f, table.root, table.memory.tables);
    var space := new MemorySet();
    space.areas, space.pt := t, map[512 := NewPage(f, FlagsOf(area.perm))];
    ok := FailsOnFirstPages(space, table, perm);
  }

  // ---- the loop of mprotect ----

  lemma OneAreaLess(levels: nat, root: nat, tables: Tables, t: Tree, pending: Tree, k: nat, s: nat, e: nat)
    requires Sub(pending, t) && ReachedBut(levels, root, tables, t, pending, s, e)
    requires k in t && PieceReached(levels, root, tables, t[k], s, e)
    ensures Sub(pending - {k}, t) && ReachedBut(levels, root, tables, t, pending - {k}, s, e)
  {
  }

  lemma OneAreaFails(levels: nat, root: nat, tables: Tables, t: Tree, k: nat, s: nat, e: nat)
    requires k in t && OverlapWith(t[k], s, e)
    requires s < e ==> !PieceReached(levels, root, tables, t[k], s, e)
    requires s >= e ==> Covered(t, s)
    ensures !((s < e || !Covered(t, s)) && CanReflag(levels, root, tables, t, s, e))
  {
  }

  /** Halfway: the tree together with the areas still drained, `whole`, is well formed, and the pages
      in the range that are not in a drained area have the permission. For an empty range nothing has
      happened yet. */
  ghost predicate Protecting(before: Tree, whole: Tree, areas: Tree, pending: Tree,
                             s: nat, e: nat, perm: MapPermission) {
    && WellFormed(whole)
    && (forall k: nat :: k in pending ==> OverlapWith(pending[k], s, e))
    && (s >= e ==> whole == before && forall k: nat :: k in areas ==> !OverlapWith(areas[k], s, e))
    && (forall p: nat :: Info(whole, p) == HalfProtected(before, pending, s, e, perm, p))
  }

  /** What page `p` is while the areas `pending` are still to be done. */
  ghost function HalfProtected(before: Tree, pending: Tree, s: nat, e: nat, perm: MapPermission,
                               p: nat): Option<PageInfo> {
    if s <= p < e && !Covered(pending, p) then WithPerm(Info(before, p), perm) else Info(before, p)
  }

  lemma ProtectStart(before: Tree, areas: Tree, pending: Tree, s: nat, e: nat, perm: MapPermission)
    requires WellFormed(before) && Join(before, areas, pending)
    requires forall k: nat :: k in pending ==> OverlapWith(pending[k], s, e)
    requires forall k: nat :: k in areas ==> !OverlapWith(areas[k], s, e)
    ensures Protecting(before, before, areas, pending, s, e, perm)
  {
    forall p: nat | s <= p < e && !Covered(pending, p) ensures Info(before, p) == None {
      assert forall k: nat :: Owns(before, k, p) ==> Owns(pending, k, p);
    }
  }

  /** Dealing with the drained area `k` leads to the next halfway state. */
  lemma ProtectStep(before: Tree, whole: Tree, areas: Tree, pending: Tree, k: nat, s: nat, e: nat, perm: MapPermission)
    requires Join(whole, areas, pending) && Protecting(before, whole, areas, pending, s, e, perm)
    requires k in pending && s < e
    ensures k in whole && whole[k].start == k == pending[k].start && k !in areas
    ensures WellFormed(areas[k := pending[k]])
    ensures var areas' := Protected(areas[k := pending[k]], k, s, e, perm);
            var whole' := Protected(whole, k, s, e, perm);
            Join(whole', areas', pending - {k}) && Protecting(before, whole', areas', pending - {k}, s, e, perm)
  {
    SubWellFormed(areas[k := pending[k]], whole);
    ProtectJoin(whole, areas, pending, k, s, e, perm);
    var whole' := Protected(whole, k, s, e, perm);
    ProtectedPage(whole, k, s, e, perm, 0);
    forall p: nat ensures Info(whole', p) == HalfProtected(before, pending - {k}, s, e, perm, p) {
      ProtectedPage(whole, k, s, e, perm, p);
      PendingShrinks(whole, pending, k, p);
    }
  }

  lemma SubWellFormed(t: Tree, u: Tree)
    requires Sub(t, u) && WellFormed(u)
    ensures WellFormed(t)
  {
  }

  /** Working on the part of the tree that is not drained is working on the whole tree. */
  lemma ProtectJoin(whole: Tree, areas: Tree, pending: Tree, k: nat, s: nat, e: nat, perm: MapPermission)
    requires WellFormed(whole) && Join(whole, areas, pending) && k in pending && s < e
    requires OverlapWith(pending[k], s, e)
    ensures pending[k].start == k
    ensures Join(Protected(whole, k, s, e, perm), Protected(areas[k := pending[k]], k, s, e, perm), pending - {k})
  {
    NewKeys(whole, k, s, e);
    var t, u, a := areas[k := pending[k]], pending - {k}, pending[k];
    assert Join(whole, t, u);
    if ContainedIn(a, s, e) {
      JoinUpdate(whole, t, u, k, a.(perm := perm));
    } else if StrictContain(a, s, e) {
      var left, mid, right := LeftOf(a, s), RightOf(LeftOf(a, e), s).(perm := perm), RightOf(a, e);
      JoinUpdate(whole, t, u, k, left);
      JoinUpdate(whole[k := left], t[k := left], u, s, mid);
      JoinUpdate(whole[k := left][s := mid], t[k := left][s := mid], u, e, right);
    } else if s <= k < e {
      var left := LeftOf(a, e).(perm := perm);
      JoinUpdate(whole, t, u, k, left);
      JoinUpdate(whole[k := left], t[k := left], u, e, RightOf(a, e));
    } else {
      JoinUpdate(whole, t, u, k, LeftOf(a, s));
      JoinUpdate(whole[k := LeftOf(a, s)], t[k := LeftOf(a, s)], u, s, RightOf(a, s).(perm := perm));
    }
  }

  lemma JoinUpdate(whole: Tree, t: Tree, u: Tree, k: nat, a: MapArea)
    requires Join(whole, t, u) && k !in u
    ensures Join(whole[k := a], t[k := a], u)
  {
  }

  /** An empty range meets an area only at a covered page. */
  lemma EmptyRangeCovered(before: Tree, whole: Tree, areas: Tree, pending: Tree, k: nat, s: nat, perm: MapPermission)
    requires Join(whole, areas, pending) && Protecting(before, whole, areas, pending, s, s, perm) && k in pending
    ensures pending[k].start == k && k !in areas && WellFormed(areas[k := pending[k]])
    ensures Covered(before, s)
  {
    SubWellFormed(areas[k := pending[k]], whole);
    assert Owns(before, k, s);
  }

  /** Such a range: no bytes at the second page of an area of two pages. */
  lemma EmptyRangeOccurs(a: MapArea)
    requires a.start == 0 && a.end == 2 && a.frames == map[]
    ensures var t: Tree := map[0 := a];
            WellFormed(t) && Floor(PAGE_SIZE) == Ceil(PAGE_SIZE + 0) && Covered(t, Floor(PAGE_SIZE))
  {
    var t: Tree := map[0 := a];
    assert Owns(t, 0, 1);
  }

  /** What taking one area out of the drained ones means for a page. */
  lemma PendingShrinks(whole: Tree, pending: Tree, k: nat, p: nat)
    requires WellFormed(whole) && k in pending
    requires forall j: nat :: j in pending ==> j in whole && whole[j] == pending[j]
    ensures Covered(pending, p) <==> Owns(whole, k, p) || Covered(pending - {k}, p)
    ensures !(Owns(whole, k, p) && Covered(pending - {k}, p))
  {
    if Covered(pending, p) {
      var j: nat :| Owns(pending, j, p);
      assert j == k || Owns(pending - {k}, j, p);
    }
    if Owns(whole, k, p) {
      assert Owns(pending, k, p);
      if j: nat :| Owns(pending - {k}, j, p) {
        OneOwner(whole, j, k, p);
        assert false;
      }
    }
    if j: nat :| Owns(pending - {k}, j, p) {
      assert Owns(pending, j, p);
    }
  }

  lemma ProtectDone(before: Tree, areas: Tree, s: nat, e: nat, perm: MapPermission)
    requires Protecting(before, areas, areas, map[], s, e, perm) && s <= e
    ensures WellFormed(areas)
    ensures forall p: nat :: Info(areas, p)
              == if s <= p < e then WithPerm(Info(before, p), perm) else Info(before, p)
    ensures s == e ==> !Covered(before, s)
  {
    assert s == e ==> forall k: nat :: Owns(before, k, s) ==> OverlapWith(before[k], s, e);
  }
}
