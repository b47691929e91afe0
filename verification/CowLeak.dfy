/** Whether a store can show in another page, and what `mprotect` has to do with it. */
module CowLeaks {
  import opened Address
  import opened Areas
  import opened CowWorlds
  import opened CowInvariant
  import opened CowProtects
  import opened CowRuns
  import opened CowAccess

  /** A store to page `v` of process `pid` shows in page `u` of process `q`. */
  ghost predicate Shows(w: World, pid: nat, v: nat, off: nat, b: bv8, q: nat, u: nat)
    requires Writable(w, pid, v) && off < PAGE_SIZE
  {
    ContentAt(Stored(w, w.spaces[pid].pt[v].ppn, off, b), q, u) != ContentAt(w, q, u)
  }

  /** A store shows in no page but the one stored to. */
  ghost predicate Isolated(w: World) {
    forall pid: nat, v: nat, off: nat, b: bv8, q: nat, u: nat ::
      Writable(w, pid, v) && off < PAGE_SIZE && (q, u) != (pid, v) ==> !Shows(w, pid, v, off, b, q, u)
  }

  /** A page that may be written shares its frame. */
  ghost predicate SharedWritable(w: World, pid: nat, v: nat) {
    Writable(w, pid, v) && w.spaces[pid].pt[v].ppn in w.mem.rc && w.mem.rc[w.spaces[pid].pt[v].ppn] > 1
  }

  /** Pages that may be written have a frame of their own. */
  ghost predicate WritableAlone(w: World) {
    forall pid: nat, v: nat :: !SharedWritable(w, pid, v)
  }

  ghost predicate MappedCovered(w: World) {
    forall pid: nat, v: nat :: pid in w.spaces && v in w.spaces[pid].pt ==> Covered(w.spaces[pid].areas, v)
  }

  /** A frame with more than one count has a second holder. */
  lemma SecondHolder(w: World, pid: nat, v: nat, p: nat) returns (q: nat, u: nat)
    requires Counted(w) && Maps(w, pid, v, p) && p in w.mem.rc && w.mem.rc[p] > 1
    ensures Maps(w, q, u, p) && (q, u) != (pid, v)
  {
    var hs := Holders(w, p);
    assert hs != {(pid, v)};
    assert (pid, v) in hs;
    var h :| h in hs && h != (pid, v);
    q, u := h.0, h.1;
  }

  /** Storing another byte to a frame shows in every page on it. */
  lemma StoreShows(w: World, pid: nat, v: nat, q: nat, u: nat, b: bv8)
    requires Writable(w, pid, v) && Maps(w, q, u, w.spaces[pid].pt[v].ppn) && Covered(w.spaces[q].areas, u)
    requires w.mem.frames[w.spaces[pid].pt[v].ppn][0] != b
    ensures Shows(w, pid, v, 0, b, q, u)
  {
    var p := w.spaces[pid].pt[v].ppn;
    var w' := Stored(w, p, 0, b);
    assert w'.mem.frames[p][0] == b;
  }

  function OtherByte(b: bv8): (c: bv8)
    ensures c != b
  {
    if b == 0 then 1 else 0
  }

  lemma SharedLeaks(w: World, pid: nat, v: nat)
    requires Counted(w) && MappedCovered(w) && Writable(w, pid, v)
    requires w.spaces[pid].pt[v].ppn in w.mem.rc && w.mem.rc[w.spaces[pid].pt[v].ppn] > 1
    ensures !Isolated(w)
  {
    var p := w.spaces[pid].pt[v].ppn;
    assert Maps(w, pid, v, p);
    var q, u := SecondHolder(w, pid, v, p);
    StoreShows(w, pid, v, q, u, OtherByte(w.mem.frames[p][0]));
  }

  lemma AloneIsolated(w: World, pid: nat, v: nat, off: nat, b: bv8, q: nat, u: nat)
    requires Counted(w) && Writable(w, pid, v) && off < PAGE_SIZE && (q, u) != (pid, v)
    requires w.spaces[pid].pt[v].ppn in w.mem.rc ==> w.mem.rc[w.spaces[pid].pt[v].ppn] <= 1
    ensures !Shows(w, pid, v, off, b, q, u)
  {
    var p := w.spaces[pid].pt[v].ppn;
    assert Maps(w, pid, v, p);
    if Maps(w, q, u, p) {
      SoleHolder(w, p, pid, v, q, u);
    }
  }

  /** Stores show nowhere else exactly if every page that may be written has a frame of its own. */
  lemma IsolatedIfAlone(w: World)
    requires Counted(w) && MappedCovered(w)
    ensures Isolated(w) <==> WritableAlone(w)
  {
    if WritableAlone(w) {
      forall pid: nat, v: nat, off: nat, b: bv8, q: nat, u: nat
        | Writable(w, pid, v) && off < PAGE_SIZE && (q, u) != (pid, v)
        ensures !Shows(w, pid, v, off, b, q, u)
      {
        assert !SharedWritable(w, pid, v);
        AloneIsolated(w, pid, v, off, b, q, u);
      }
    } else {
      var pid: nat, v: nat :| SharedWritable(w, pid, v);
      SharedLeaks(w, pid, v);
    }
  }

  /** After `mprotect` of mapped pages stores show nowhere else exactly if no page whose entry was rewritten
      shares its frame, or the permission is not to write. */
  lemma ProtectIsolates(w: World, pid: nat, s: nat, e: nat, perm: MapPermission, sp': Space)
    requires WorldOk(w) && pid in w.spaces && Reprotected(w.spaces[pid], s, e, perm, sp')
    requires VisitsMapped(w.spaces[pid], s, e)
    ensures Isolated(Put(w, pid, sp', w.mem)) <==> NoSharedWrite(w.spaces[pid], w.mem.rc, s, e, perm)
  {
    var w1 := Put(w, pid, sp', w.mem);
    assert Counted(w1) && MappedCovered(w1) by { ProtectCounted(w, pid, s, e, perm, sp'); }
    IsolatedIfAlone(w1);
    AloneAfter(w, pid, s, e, perm, sp');
  }

  lemma ProtectCounted(w: World, pid: nat, s: nat, e: nat, perm: MapPermission, sp': Space)
    requires WorldOk(w) && pid in w.spaces && Reprotected(w.spaces[pid], s, e, perm, sp')
    requires VisitsMapped(w.spaces[pid], s, e)
    ensures Counted(Put(w, pid, sp', w.mem)) && MappedCovered(Put(w, pid, sp', w.mem))
  {
    FramesSurvive(w.spaces[pid], s, e, perm, sp');
    ReflagCounted(w, pid, sp');
    forall q: nat, v: nat | q in w.spaces && v in w.spaces[q].pt ensures Covered(w.spaces[q].areas, v) {
      EntryCovered(w.spaces[q], v);
    }
  }

  /** Of the pages of this process, exactly those rewritten that share a frame are then shared and writable. */
  lemma PageAfter(w: World, pid: nat, s: nat, e: nat, perm: MapPermission, sp': Space, v: nat)
    requires SharedAreCow(w) && pid in w.spaces && Reprotected(w.spaces[pid], s, e, perm, sp')
    requires VisitsMapped(w.spaces[pid], s, e)
    requires v in w.spaces[pid].pt ==> w.spaces[pid].pt[v].ppn in w.mem.rc && w.spaces[pid].pt[v].ppn in w.mem.frames
    ensures SharedWritable(Put(w, pid, sp', w.mem), pid, v)
            <==> Rewritten(w.spaces[pid], s, e, v) && v in w.spaces[pid].pt
                 && w.mem.rc[w.spaces[pid].pt[v].ppn] > 1 && perm.w
  {
    var sp := w.spaces[pid];
    EntryAfter(sp, s, e, perm, sp', v);
    assert v in sp.pt ==> CowIfShared(sp.pt[v], w.mem.rc);
  }

  lemma OtherAfter(w: World, pid: nat, sp': Space, q: nat, v: nat)
    requires SharedAreCow(w) && pid in w.spaces && q != pid
    ensures !SharedWritable(Put(w, pid, sp', w.mem), q, v)
  {
    assert q in w.spaces && v in w.spaces[q].pt ==> CowIfShared(w.spaces[q].pt[v], w.mem.rc);
  }

  lemma AloneAfter(w: World, pid: nat, s: nat, e: nat, perm: MapPermission, sp': Space)
    requires SharedAreCow(w) && Counted(w) && pid in w.spaces && Reprotected(w.spaces[pid], s, e, perm, sp')
    requires VisitsMapped(w.spaces[pid], s, e)
    ensures WritableAlone(Put(w, pid, sp', w.mem)) <==> NoSharedWrite(w.spaces[pid], w.mem.rc, s, e, perm)
  {
    var sp, w1 := w.spaces[pid], Put(w, pid, sp', w.mem);
    AllLive(w, pid);
    if q: nat, v: nat :| SharedWritable(w1, q, v) {
      if q == pid {
        PageAfter(w, pid, s, e, perm, sp', v);
      } else {
        OtherAfter(w, pid, sp', q, v);
      }
    } else {
      forall v: nat | Rewritten(sp, s, e, v) && v in sp.pt && sp.pt[v].ppn in w.mem.rc && w.mem.rc[sp.pt[v].ppn] > 1
        ensures !perm.w
      {
        PageAfter(w, pid, s, e, perm, sp', v);
      }
    }
  }

  /** After a copy-on-write fork the parent may make a page it shares with the child writable: what it then
      stores the child reads. */
  lemma LeakAfterFork(w: World, parent: nat, child: nat, k: nat, v: nat, w1: World,
                      s: nat, e: nat, perm: MapPermission, sp': Space, b: bv8)
    requires WorldOk(w) && MmapPageAt(w, parent, k, v) && v in w.spaces[parent].pt
    requires Step(CopyOnWrite, w, Fork(parent, child), w1) && parent in w1.spaces
    requires Reprotected(w1.spaces[parent], s, e, perm, sp') && Rewritten(w1.spaces[parent], s, e, v) && perm.w
    requires w.spaces[parent].pt[v].ppn in w1.mem.frames && w1.mem.frames[w.spaces[parent].pt[v].ppn][0] != b
    ensures var w2 := Put(w1, parent, sp', w1.mem);
            Writable(w2, parent, v) && Shows(w2, parent, v, 0, b, child, v)
  {
    assert Maps(w, parent, v, w.spaces[parent].pt[v].ppn);
    assert SpaceOk(w.spaces[parent]);
    var copies := ForkFound(CopyOnWrite, w, parent, child, w1);
    SharedOnFork(w, parent, child, copies, k, v, w1);
    LeakToChild(w1, parent, child, k, v, w.spaces[parent].pt[v].ppn, s, e, perm, sp', b);
  }

  lemma LeakToChild(w1: World, parent: nat, child: nat, k: nat, v: nat, p: nat,
                    s: nat, e: nat, perm: MapPermission, sp': Space, b: bv8)
    requires parent in w1.spaces && child != parent && MmapPageAt(w1, child, k, v) && Maps(w1, child, v, p)
    requires Maps(w1, parent, v, p) && p in w1.mem.frames && w1.mem.frames[p][0] != b
    requires Reprotected(w1.spaces[parent], s, e, perm, sp') && Rewritten(w1.spaces[parent], s, e, v) && perm.w
    ensures var w2 := Put(w1, parent, sp', w1.mem);
            Writable(w2, parent, v) && Shows(w2, parent, v, 0, b, child, v)
  {
    var w2 := Put(w1, parent, sp', w1.mem);
    EntryAfter(w1.spaces[parent], s, e, perm, sp', v);
    assert Covered(w2.spaces[child].areas, v);
    StoreShows(w2, parent, v, child, v, b);
  }
}
