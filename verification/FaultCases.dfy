/** The page fault case by case: which area answers, and what each kind of fault leaves in entries, records,
    counts and bytes. */
module FaultCases {
  import opened Address
  import opened Base
  import opened Ptes
  import opened Areas
  import opened CowWorlds

  /** Area `k` answers for page `v`: it is the last that starts at or below `v`, and does not end before it. */
  ghost predicate AnswersFor(t: Tree, v: nat, k: nat) {
    k in t && k <= v <= t[k].end && forall j: nat :: j in t && j <= v ==> j <= k
  }

  lemma AnswersIsFound(t: Tree, v: nat, k: nat)
    requires WellFormed(t)
    ensures AnswersFor(t, v, k) <==> AreaOf(t, v) == Some(k)
  {
  }

  /** No other area, page or frame is touched; the page is mapped and recorded. */
  ghost predicate OnlyPage(sp: Space, sp': Space, k: nat, v: nat) {
    && k in sp.areas && k in sp'.areas && sp'.areas[k] == sp.areas[k].(frames := sp'.areas[k].frames)
    && (forall j: nat :: j != k ==>
        (j in sp'.areas <==> j in sp.areas) && (j in sp.areas ==> sp'.areas[j] == sp.areas[j]))
    && (forall u: nat :: u != v ==> (u in sp'.pt <==> u in sp.pt) && (u in sp.pt ==> sp'.pt[u] == sp.pt[u]))
    && (forall u: nat :: u != v ==> (u in sp'.areas[k].frames <==> u in sp.areas[k].frames)
                                    && (u in sp.areas[k].frames ==> sp'.areas[k].frames[u] == sp.areas[k].frames[u]))
    && v in sp'.pt && v in sp'.areas[k].frames && sp'.pt[v].ppn == sp'.areas[k].frames[v]
  }

  /** The page is on frame `f`, with the rights of its area and no mark. */
  predicate OwnEntry(e: Pte, f: nat, perm: MapPermission) {
    && e.valid && e.ppn == f && e.flags.present && e.flags.w == perm.w && e.flags.u == perm.u
    && !e.flags.cow && !e.flags.wBackup
  }

  /** Frame `f` is new, with one owner; of the others at most `p` has changed, and only its count. */
  ghost predicate OneFrameMore(mem: Memory, m: Memory, f: nat, p: nat) {
    && f in m.rc && m.rc[f] == 1 && f in m.frames
    && (forall q: nat :: q != f ==> (q in m.frames <==> q in mem.frames)
                                    && (q in mem.frames ==> m.frames[q] == mem.frames[q]))
    && (forall q: nat :: q != f ==> (q in m.rc <==> q in mem.rc) && (q in mem.rc && q != p ==> m.rc[q] == mem.rc[q]))
  }

  ghost predicate IsFault(sp: Space, mem: Memory, v: nat, isWrite: bool, f: nat, k: nat, sp': Space, m: Memory) {
    && WellFormed(sp.areas) && AnswersFor(sp.areas, v, k)
    && (forall j: nat :: j in sp.areas && v in sp.areas[j].frames ==>
          v in sp.pt && sp.areas[j].frames[v] in mem.rc && sp.areas[j].frames[v] in mem.frames)
    && Fault(sp, mem, v, isWrite, f) == Handled(sp', m)
  }

  /** A page without a frame gets a new one that is all zero. */
  lemma LazyFault(sp: Space, mem: Memory, v: nat, isWrite: bool, f: nat, k: nat, sp': Space, m: Memory)
    requires IsFault(sp, mem, v, isWrite, f, k, sp', m) && v !in sp.areas[k].frames
    ensures v !in sp.pt && OnlyPage(sp, sp', k, v) && OwnEntry(sp'.pt[v], f, sp.areas[k].perm)
    ensures OneFrameMore(mem, m, f, f) && forall i :: 0 <= i < PAGE_SIZE ==> m.frames[f][i] == 0
  {
    AnswersIsFound(sp.areas, v, k);
  }

  /** A page that shares its frame gets a new one with the same bytes, and the shared one loses one owner. */
  lemma SharedFault(sp: Space, mem: Memory, v: nat, isWrite: bool, f: nat, k: nat, sp': Space, m: Memory)
    requires IsFault(sp, mem, v, isWrite, f, k, sp', m) && v in sp.areas[k].frames && f !in mem.rc
    requires mem.rc[sp.areas[k].frames[v]] > 1
    ensures (sp.pt[v].flags.cow || isWrite) && OnlyPage(sp, sp', k, v) && OwnEntry(sp'.pt[v], f, sp.areas[k].perm)
    ensures var p := sp.areas[k].frames[v];
            OneFrameMore(mem, m, f, p) && m.frames[f] == mem.frames[p] && m.rc[p] == mem.rc[p] - 1
  {
    AnswersIsFound(sp.areas, v, k);
  }

  /** A page that has its frame alone keeps it, and gets the write right if its entry remembers one. */
  lemma SoleFault(sp: Space, mem: Memory, v: nat, isWrite: bool, f: nat, k: nat, sp': Space, m: Memory)
    requires IsFault(sp, mem, v, isWrite, f, k, sp', m) && v in sp.areas[k].frames
    requires mem.rc[sp.areas[k].frames[v]] <= 1 && sp.pt[v].ppn == sp.areas[k].frames[v]
    ensures (sp.pt[v].flags.cow || isWrite) && m == mem && OnlyPage(sp, sp', k, v)
    ensures var e, e' := sp.pt[v], sp'.pt[v];
            e'.ppn == e.ppn && e'.flags == e.flags.(w := e.flags.w || e.flags.wBackup)
  {
    AnswersIsFound(sp.areas, v, k);
  }
}
