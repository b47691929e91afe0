/** Which loads and stores get through, at once or after a fault, and which never do. */
module CowAccess {
  import opened Base
  import opened Ptes
  import opened Areas
  import opened AreaEdits
  import opened CowWorlds
  import opened CowInvariant
  import opened CowRuns

  /** The state in which the load of a page succeeds: at once, or after a read fault. */
  ghost predicate ReadyToLoad(w: World, pid: nat, v: nat, w1: World) {
    Readable(w1, pid, v) && (w1 == w || (!Readable(w, pid, v) && exists f: nat :: FaultDone(w, pid, v, false, f, w1)))
  }

  /** Page `v` of process `pid` is in an mmap area at `k`. */
  ghost predicate MmapPageAt(w: World, pid: nat, k: nat, v: nat) {
    pid in w.spaces && Owns(w.spaces[pid].areas, k, v) && w.spaces[pid].areas[k].areaType.Mmap?
  }

  /** What the state of a page means for its rights. */
  lemma RightsNow(w: World, pid: nat, k: nat, v: nat)
    requires WorldOk(w) && pid in w.spaces && Owns(w.spaces[pid].areas, k, v)
    ensures Readable(w, pid, v) ==> CanRead(w.spaces[pid], w.mem, v)
    ensures Writable(w, pid, v) ==> w.spaces[pid].areas[k].perm.w && CanWrite(w.spaces[pid], w.mem, v)
    ensures v in w.spaces[pid].pt ==> w.spaces[pid].pt[v].ppn in w.mem.rc && w.spaces[pid].pt[v].ppn in w.mem.frames
    ensures v in w.spaces[pid].pt && w.spaces[pid].pt[v].flags.w ==> w.spaces[pid].pt[v].flags.present
  {
    var sp := w.spaces[pid];
    assert SpaceOk(sp);
    NoFrameNoEntry(sp, k, v);
    AllLive(w, pid);
    if v in sp.pt {
      assert RightsMatch(sp.pt[v], sp.areas[k].perm);
    }
  }

  /** A fault on a page of an mmap area never panics; it is handled if it is a write fault, if the page has
      no frame, or if it shares one. */
  lemma FaultHappens(w: World, pid: nat, k: nat, v: nat, isWrite: bool, f: nat) returns (w1: World)
    requires WorldOk(w) && MmapPageAt(w, pid, k, v) && f !in w.mem.rc
    ensures FaultDone(w, pid, v, isWrite, f, w1)
    ensures isWrite || GetsFrame(w.spaces[pid], w.mem, v) ==> Fault(w.spaces[pid], w.mem, v, isWrite, f).Handled?
  {
    var sp := w.spaces[pid];
    assert SpaceOk(sp);
    AlwaysFaultable(w, pid, v);
    NoFrameNoEntry(sp, k, v);
    assert v in sp.pt ==> CowIfShared(sp.pt[v], w.mem.rc);
    FaultHandled(sp, w.mem, k, v, isWrite, f);
    var r := Fault(sp, w.mem, v, isWrite, f);
    w1 := if r.Handled? then Put(w, pid, r.sp, r.mem) else w;
  }

  lemma FaultHandled(sp: Space, mem: Memory, k: nat, v: nat, isWrite: bool, f: nat)
    requires WellFormed(sp.areas) && Owns(sp.areas, k, v) && sp.areas[k].areaType.Mmap?
    requires (v in sp.pt <==> v in sp.areas[k].frames) && (v in sp.pt ==> sp.pt[v].ppn == sp.areas[k].frames[v])
    requires forall j: nat :: j in sp.areas && v in sp.areas[j].frames ==>
               v in sp.pt && sp.areas[j].frames[v] in mem.rc && sp.areas[j].frames[v] in mem.frames
    requires v in sp.pt ==> CowIfShared(sp.pt[v], mem.rc)
    ensures !Fault(sp, mem, v, isWrite, f).Panics?
    ensures isWrite || GetsFrame(sp, mem, v) ==> Fault(sp, mem, v, isWrite, f).Handled?
  {
    assert Covered(sp.areas, v);
    OneOwner(sp.areas, AreaOf(sp.areas, v).value, k, v);
  }

  /** After a fault that was handled. */
  lemma AfterFault(w: World, pid: nat, k: nat, v: nat, isWrite: bool, f: nat, w1: World)
    requires WorldOk(w) && MmapPageAt(w, pid, k, v) && FaultDone(w, pid, v, isWrite, f, w1)
    requires Fault(w.spaces[pid], w.mem, v, isWrite, f).Handled?
    ensures Readable(w1, pid, v) <==> CanRead(w.spaces[pid], w.mem, v)
    ensures Writable(w1, pid, v) <==> w.spaces[pid].areas[k].perm.w && CanWrite(w.spaces[pid], w.mem, v)
  {
    var sp := w.spaces[pid];
    InfoAt(sp.areas, k, v);
    assert Covered(sp.areas, v);
    FaultGives(w, pid, v, isWrite, f);
    FaultRefines(w, pid, v, isWrite, f, w1);
    AllLive(w1, pid);
    RightsNow(w, pid, k, v);
  }

  // ---- stores ----

  /** A store to a page of an mmap area is carried out, after at most one fault, exactly if the area is
      writable and the page gets a frame of its own or its entry has the right, or remembers it. */
  lemma StoreEnabled(w: World, pid: nat, k: nat, v: nat, f: nat)
    requires WorldOk(w) && MmapPageAt(w, pid, k, v) && f !in w.mem.rc
    ensures (exists w1: World :: ReadyToStore(w, pid, v, w1))
            <==> w.spaces[pid].areas[k].perm.w && CanWrite(w.spaces[pid], w.mem, v)
  {
    if w1: World :| ReadyToStore(w, pid, v, w1) {
      StoreNeedsRight(w, pid, k, v, w1);
    }
    if w.spaces[pid].areas[k].perm.w && CanWrite(w.spaces[pid], w.mem, v) {
      var w1 := RightAllowsStore(w, pid, k, v, f);
    }
  }

  /** Whoever gets to store has the write right. */
  lemma StoreNeedsRight(w: World, pid: nat, k: nat, v: nat, w1: World)
    requires WorldOk(w) && MmapPageAt(w, pid, k, v) && ReadyToStore(w, pid, v, w1)
    ensures w.spaces[pid].areas[k].perm.w && CanWrite(w.spaces[pid], w.mem, v)
  {
    RightsNow(w, pid, k, v);
    if w1 != w {
      var f: nat :| FaultDone(w, pid, v, true, f, w1);
      var w2 := FaultHappens(w, pid, k, v, true, f);
      AfterFault(w, pid, k, v, true, f, w1);
    }
  }

  /** Whoever has the write right gets to store, at once or after a fault. */
  lemma RightAllowsStore(w: World, pid: nat, k: nat, v: nat, f: nat) returns (w1: World)
    requires WorldOk(w) && MmapPageAt(w, pid, k, v) && f !in w.mem.rc
    requires w.spaces[pid].areas[k].perm.w && CanWrite(w.spaces[pid], w.mem, v)
    ensures ReadyToStore(w, pid, v, w1)
  {
    if Writable(w, pid, v) {
      w1 := w;
    } else {
      w1 := FaultHappens(w, pid, k, v, true, f);
      AfterFault(w, pid, k, v, true, f, w1);
    }
  }

  // ---- loads ----

  /** A load from a page of an mmap area is carried out, after at most one fault, exactly if the page gets a
      frame of its own or the hardware can use its entry. */
  lemma LoadEnabled(w: World, pid: nat, k: nat, v: nat, f: nat)
    requires WorldOk(w) && MmapPageAt(w, pid, k, v) && f !in w.mem.rc
    ensures (exists w1: World :: ReadyToLoad(w, pid, v, w1)) <==> CanRead(w.spaces[pid], w.mem, v)
  {
    RightsNow(w, pid, k, v);
    if w1: World :| ReadyToLoad(w, pid, v, w1) {
      LoadNeedsEntry(w, pid, k, v, w1);
    }
    if CanRead(w.spaces[pid], w.mem, v) {
      if Readable(w, pid, v) {
        assert ReadyToLoad(w, pid, v, w);
      } else {
        var w1 := FaultHappens(w, pid, k, v, false, f);
        AfterFault(w, pid, k, v, false, f, w1);
        assert ReadyToLoad(w, pid, v, w1);
      }
    }
  }

  lemma LoadNeedsEntry(w: World, pid: nat, k: nat, v: nat, w1: World)
    requires WorldOk(w) && MmapPageAt(w, pid, k, v) && ReadyToLoad(w, pid, v, w1)
    ensures CanRead(w.spaces[pid], w.mem, v)
  {
    RightsNow(w, pid, k, v);
    if w1 != w {
      var f: nat :| FaultDone(w, pid, v, false, f, w1);
      if Fault(w.spaces[pid], w.mem, v, false, f).Handled? {
        AfterFault(w, pid, k, v, false, f, w1);
      }
    }
  }

  // ---- rights that are lost ----

  /** No further fault brings back what one fault does not. */
  lemma LostForGood(w: World, pid: nat, k: nat, v: nat, isWrite: bool, f: nat)
    requires WorldOk(w) && MmapPageAt(w, pid, k, v) && Faultable(w, pid, v) && WellFormed(w.spaces[pid].areas)
    requires Fault(w.spaces[pid], w.mem, v, isWrite, f).Handled?
    ensures StillLost(w.spaces[pid], w.mem, Fault(w.spaces[pid], w.mem, v, isWrite, f), v)
  {
    var sp := w.spaces[pid];
    assert SpaceOk(sp);
    AllLive(w, pid);
    NoFrameNoEntry(sp, k, v);
    LostInSpace(sp, w.mem, v, isWrite, f, k);
  }

  predicate StillLost(sp: Space, mem: Memory, r: FaultOutcome, v: nat)
    requires r.Handled?
  {
    (!CanWrite(sp, mem, v) ==> !CanWrite(r.sp, r.mem, v)) && (!CanRead(sp, mem, v) ==> !CanRead(r.sp, r.mem, v))
  }

  lemma LostInSpace(sp: Space, mem: Memory, v: nat, isWrite: bool, f: nat, k: nat)
    requires WellFormed(sp.areas) && Owns(sp.areas, k, v)
    requires v in sp.pt <==> v in sp.areas[k].frames
    requires v in sp.pt ==>
               sp.pt[v].ppn == sp.areas[k].frames[v] && sp.pt[v].ppn in mem.rc && sp.pt[v].ppn in mem.frames
    requires forall j: nat :: j in sp.areas && v in sp.areas[j].frames ==> j == k
    requires Fault(sp, mem, v, isWrite, f).Handled?
    ensures StillLost(sp, mem, Fault(sp, mem, v, isWrite, f), v)
  {
    FaultForms(sp, mem, v, isWrite, f, k);
  }

  /** The frame copies of a fork. */
  lemma ForkFound(mode: Mode, w: World, parent: nat, child: nat, w1: World) returns (copies: map<nat, nat>)
    requires WorldOk(w) && Step(mode, w, Fork(parent, child), w1)
    ensures parent in w.spaces && SpaceOk(w.spaces[parent]) && WorldOk(w1)
    ensures Forked(w, parent, child, copies, TagFor(mode), w1) && CopiesFor(mode, w.spaces[parent], copies)
  {
    copies :| Forked(w, parent, child, copies, TagFor(mode), w1) && CopiesFor(mode, w.spaces[parent], copies);
    ForkStep(w, parent, child, copies, TagFor(mode), w1);
  }

  /** A page that a fork shares, in the child. */
  lemma SharedChildPage(sp: Space, copies: map<nat, nat>, tag: set<MmapFlag>, k: nat, v: nat)
    requires WellFormed(sp.areas) && Owns(sp.areas, k, v) && v in sp.pt && v !in copies
    ensures var c := ChildOf(sp, copies, tag);
            && Owns(c.areas, k, v) && c.areas[k].perm == sp.areas[k].perm && c.areas[k].areaType == sp.areas[k].areaType
            && v in c.pt && c.pt[v] == SetCow(NewPage(sp.pt[v].ppn, RawFlags(sp.areas[k].perm)))
  {
    assert Covered(sp.areas, v);
    InfoAt(sp.areas, k, v);
  }

  lemma SharedCount(mem: Memory, mem': Memory, pt: map<nat, Pte>, copies: map<nat, nat>, v: nat)
    requires CountsForked(mem, mem', pt, copies) && v in pt && v !in copies && pt[v].ppn in mem.rc
    ensures pt[v].ppn in mem'.rc && mem'.rc[pt[v].ppn] == mem.rc[pt[v].ppn] + 1
  {
    assert SharedByFork(pt, copies, pt[v].ppn);
  }

  /** What a copy-on-write fork makes of a private page: the child has it on the parent's frame, by an entry
      with no right at all. */
  lemma SharedOnFork(w: World, parent: nat, child: nat, copies: map<nat, nat>, k: nat, v: nat, w1: World)
    requires MmapPageAt(w, parent, k, v) && v in w.spaces[parent].pt && WellFormed(w.spaces[parent].areas)
    requires Forked(w, parent, child, copies, TagFor(CopyOnWrite), w1) && w.spaces[parent].pt[v].ppn in w.mem.rc
    requires CopiesFor(CopyOnWrite, w.spaces[parent], copies)
    ensures child != parent && MmapPageAt(w1, child, k, v) && v in w1.spaces[child].pt
    ensures w1.spaces[child].areas[k].perm == w.spaces[parent].areas[k].perm
    ensures w1.spaces[child].pt[v] == SetCow(NewPage(w.spaces[parent].pt[v].ppn,
              RawFlags(w.spaces[parent].areas[k].perm)))
    ensures Maps(w1, parent, v, w.spaces[parent].pt[v].ppn)
    ensures var p := w.spaces[parent].pt[v].ppn; p in w1.mem.rc && w1.mem.rc[p] == w.mem.rc[p] + 1
  {
    var sp := w.spaces[parent];
    assert v !in copies by {
      assert IsMmapPage(sp.areas, v);
    }
    assert SpaceForked(sp, copies, w1, parent, child) && CountsForked(w.mem, w1.mem, sp.pt, copies);
    PageOnFork(sp, copies, w1, parent, child, k, v);
    SharedCount(w.mem, w1.mem, sp.pt, copies, v);
  }

  ghost predicate SpaceForked(sp: Space, copies: map<nat, nat>, w1: World, parent: nat, child: nat) {
    && child != parent && child in w1.spaces && w1.spaces[child] == ChildOf(sp, copies, TagFor(CopyOnWrite))
    && parent in w1.spaces && w1.spaces[parent] == ParentAfter(sp, copies)
  }

  lemma PageOnFork(sp: Space, copies: map<nat, nat>, w1: World, parent: nat, child: nat, k: nat, v: nat)
    requires WellFormed(sp.areas) && Owns(sp.areas, k, v) && sp.areas[k].areaType.Mmap? && v in sp.pt && v !in copies
    requires SpaceForked(sp, copies, w1, parent, child)
    ensures MmapPageAt(w1, child, k, v) && v in w1.spaces[child].pt
    ensures w1.spaces[child].areas[k].perm == sp.areas[k].perm
    ensures w1.spaces[child].pt[v] == SetCow(NewPage(sp.pt[v].ppn, RawFlags(sp.areas[k].perm)))
    ensures Maps(w1, parent, v, sp.pt[v].ppn)
  {
    SharedChildPage(sp, copies, TagFor(CopyOnWrite), k, v);
    ParentKeeps(sp, copies, v);
  }

  lemma ParentKeeps(sp: Space, copies: map<nat, nat>, v: nat)
    requires v in sp.pt
    ensures v in ParentAfter(sp, copies).pt && ParentAfter(sp, copies).pt[v].ppn == sp.pt[v].ppn
  {
  }

  /** When the parent ends its counts go, and the child is as it was. */
  lemma AfterExit(w1: World, parent: nat, child: nat, v: nat, p: nat, w2: World)
    requires Exited(w1, parent, w2) && child in w1.spaces && child != parent
    requires Maps(w1, parent, v, p) && p in w1.mem.rc && w1.mem.rc[p] == 2
    ensures child in w2.spaces && w2.spaces[child] == w1.spaces[child] && p in w2.mem.rc && w2.mem.rc[p] == 1
  {
    assert MappedTo(w1.spaces[parent].pt, p);
  }

  /** A child's page on a frame the parent had alone, once the parent has ended: it can be neither read nor
      written, whatever its area grants. */
  lemma ChildLosesPage(w: World, parent: nat, child: nat, k: nat, v: nat, w1: World, w2: World)
    requires WorldOk(w) && MmapPageAt(w, parent, k, v) && v in w.spaces[parent].pt
    requires w.spaces[parent].pt[v].ppn in w.mem.rc && w.mem.rc[w.spaces[parent].pt[v].ppn] == 1
    requires Step(CopyOnWrite, w, Fork(parent, child), w1) && Exited(w1, parent, w2)
    ensures MmapPageAt(w2, child, k, v) && w2.spaces[child].areas[k].perm == w.spaces[parent].areas[k].perm
    ensures !(exists w3: World :: ReadyToLoad(w2, child, v, w3))
            && !(exists w3: World :: ReadyToStore(w2, child, v, w3))
  {
    var copies := ForkFound(CopyOnWrite, w, parent, child, w1);
    LosesByExit(w, parent, child, copies, k, v, w1, w2);
  }

  lemma LosesByExit(w: World, parent: nat, child: nat, copies: map<nat, nat>, k: nat, v: nat, w1: World, w2: World)
    requires MmapPageAt(w, parent, k, v) && v in w.spaces[parent].pt && WellFormed(w.spaces[parent].areas)
    requires w.spaces[parent].pt[v].ppn in w.mem.rc && w.mem.rc[w.spaces[parent].pt[v].ppn] == 1
    requires Forked(w, parent, child, copies, TagFor(CopyOnWrite), w1)
    requires CopiesFor(CopyOnWrite, w.spaces[parent], copies)
    requires WorldOk(w1) && Exited(w1, parent, w2)
    ensures MmapPageAt(w2, child, k, v) && w2.spaces[child].areas[k].perm == w.spaces[parent].areas[k].perm
    ensures !(exists w3: World :: ReadyToLoad(w2, child, v, w3))
            && !(exists w3: World :: ReadyToStore(w2, child, v, w3))
  {
    SharedOnFork(w, parent, child, copies, k, v, w1);
    AfterExit(w1, parent, child, v, w.spaces[parent].pt[v].ppn, w2);
    assert WorldOk(w2) by { ExitStep(w1, parent, w2); }
    LosesPage(w2, child, k, v);
  }

  lemma LosesPage(w: World, pid: nat, k: nat, v: nat)
    requires WorldOk(w) && MmapPageAt(w, pid, k, v) && v in w.spaces[pid].pt
    requires w.spaces[pid].pt[v].ppn in w.mem.rc && w.mem.rc[w.spaces[pid].pt[v].ppn] <= 1
    requires w.spaces[pid].pt[v].flags == SetCow(NewPage(0, NO_FLAGS)).flags.(u := w.spaces[pid].pt[v].flags.u)
    ensures !(exists w1: World :: ReadyToLoad(w, pid, v, w1)) && !(exists w1: World :: ReadyToStore(w, pid, v, w1))
  {
    FreshExists(w.mem.rc.Keys);
    var f: nat :| f !in w.mem.rc.Keys;
    LoadEnabled(w, pid, k, v, f);
    StoreEnabled(w, pid, k, v, f);
  }

  /** A fork and the end of the child leave the parent's rights to its pages as they were. */
  lemma ParentKeepsRights(w: World, parent: nat, child: nat, k: nat, v: nat, w1: World, w2: World)
    requires WorldOk(w) && MmapPageAt(w, parent, k, v)
    requires Step(CopyOnWrite, w, Fork(parent, child), w1) && Exited(w1, child, w2)
    ensures MmapPageAt(w2, parent, k, v) && w2.spaces[parent].areas[k] == w.spaces[parent].areas[k]
    ensures CanRead(w2.spaces[parent], w2.mem, v) <==> CanRead(w.spaces[parent], w.mem, v)
    ensures CanWrite(w2.spaces[parent], w2.mem, v) <==> CanWrite(w.spaces[parent], w.mem, v)
  {
    var copies := ForkFound(CopyOnWrite, w, parent, child, w1);
    CountOfPage(w, parent, v);
    RightsByExit(w, parent, child, copies, k, v, w1, w2);
  }

  lemma CountOfPage(w: World, pid: nat, v: nat)
    requires Counted(w) && pid in w.spaces
    ensures v in w.spaces[pid].pt ==> w.spaces[pid].pt[v].ppn in w.mem.rc && w.mem.rc[w.spaces[pid].pt[v].ppn] > 0
  {
    AllLive(w, pid);
  }

  lemma RightsByExit(w: World, parent: nat, child: nat, copies: map<nat, nat>, k: nat, v: nat, w1: World, w2: World)
    requires MmapPageAt(w, parent, k, v) && WellFormed(w.spaces[parent].areas)
    requires v in w.spaces[parent].pt ==>
               w.spaces[parent].pt[v].ppn in w.mem.rc && w.mem.rc[w.spaces[parent].pt[v].ppn] > 0
    requires Forked(w, parent, child, copies, TagFor(CopyOnWrite), w1)
    requires CopiesFor(CopyOnWrite, w.spaces[parent], copies) && Exited(w1, child, w2)
    ensures MmapPageAt(w2, parent, k, v) && w2.spaces[parent].areas[k] == w.spaces[parent].areas[k]
    ensures CanRead(w2.spaces[parent], w2.mem, v) <==> CanRead(w.spaces[parent], w.mem, v)
    ensures CanWrite(w2.spaces[parent], w2.mem, v) <==> CanWrite(w.spaces[parent], w.mem, v)
  {
    var sp := w.spaces[parent];
    assert w2.spaces[parent] == ParentAfter(sp, copies);
    if v in sp.pt {
      assert v !in copies by {
        assert IsMmapPage(sp.areas, v);
      }
      assert v in w2.spaces[parent].pt && w2.spaces[parent].pt[v] == SetCow(sp.pt[v]);
      SharedOnFork(w, parent, child, copies, k, v, w1);
      ChildGone(w1, child, v, sp.pt[v].ppn, w2);
      RightsAlike(sp, w.mem, w2.spaces[parent], w2.mem, v);
    }
  }

  lemma RightsAlike(sp: Space, mem: Memory, sp': Space, mem': Memory, v: nat)
    requires v in sp.pt && v in sp'.pt && sp'.pt[v].ppn == sp.pt[v].ppn
    requires sp.pt[v].ppn in mem.rc && sp.pt[v].ppn in mem'.rc && mem'.rc[sp.pt[v].ppn] == mem.rc[sp.pt[v].ppn]
    requires sp'.pt[v].flags.present == sp.pt[v].flags.present
    requires sp'.pt[v].flags.w || sp'.pt[v].flags.wBackup <==> sp.pt[v].flags.w || sp.pt[v].flags.wBackup
    ensures CanRead(sp', mem', v) <==> CanRead(sp, mem, v)
    ensures CanWrite(sp', mem', v) <==> CanWrite(sp, mem, v)
  {
  }

  lemma ChildGone(w1: World, child: nat, v: nat, p: nat, w2: World)
    requires Exited(w1, child, w2) && Maps(w1, child, v, p) && p in w1.mem.rc && w1.mem.rc[p] > 1
    ensures p in w2.mem.rc && w2.mem.rc[p] == w1.mem.rc[p] - 1
  {
    assert MappedTo(w1.spaces[child].pt, p);
  }
}
