/** Page-table entries at the level of their flags. Where the two architectures differ, as loongarch64
    has them: an entry is valid for the kernel unless it is all zero, the mark for copy on write is a bit
    of its own, and `set_flags` keeps that mark and the remembered write right. */
module Ptes {

  /** `present` is the bit V, without which the hardware does not use the entry. */
  datatype PteFlags = PteFlags(present: bool, w: bool, u: bool, cow: bool, wBackup: bool)

  datatype Pte = Pte(valid: bool, ppn: nat, flags: PteFlags)

  const NO_FLAGS := PteFlags(false, false, false, false, false)

  /** `PageTableEntry::empty`, also what a zeroed frame holds. */
  const EMPTY := Pte(false, 0, NO_FLAGS)

  /** `PageTableEntry::new_table`: an entry that leads to the next table. */
  function NewTable(ppn: nat): Pte {
    Pte(true, ppn, NO_FLAGS)
  }

  function NewPage(ppn: nat, flags: PteFlags): Pte {
    Pte(true, ppn, flags)
  }

  /** `set_flags`: the frame stays, and so do the two marks above the frame number. */
  function SetFlags(e: Pte, flags: PteFlags): (r: Pte)
    ensures r.ppn == e.ppn && r.flags.present == flags.present && r.flags.w == flags.w && r.flags.u == flags.u
    ensures (e.flags.cow ==> r.flags.cow) && (e.flags.wBackup ==> r.flags.wBackup)
  {
    Pte(true, e.ppn, flags.(cow := flags.cow || e.flags.cow, wBackup := flags.wBackup || e.flags.wBackup))
  }

  /** Takes the write right away, remembering whether there was one. */
  function SetCow(e: Pte): (r: Pte)
    ensures r.flags.cow && !r.flags.w && (r.flags.wBackup <==> e.flags.w || e.flags.wBackup)
  {
    SetFlags(e, e.flags.(wBackup := e.flags.wBackup || e.flags.w, w := false, cow := true))
  }

  /** Gives the remembered write right back. The marks it clears are kept by `set_flags`. */
  function UnCow(e: Pte): (r: Pte)
    ensures r.flags.w <==> e.flags.w || e.flags.wBackup
  {
    SetFlags(e, e.flags.(w := e.flags.w || e.flags.wBackup, cow := false, wBackup := false))
  }

  /** The entry of a page, as the walk finds it: all zero for a page that is not mapped. */
  function EntryOf(pt: map<nat, Pte>, v: nat): Pte {
    if v in pt then pt[v] else EMPTY
  }
}

/** The multi-level page table as values: a tree of 512-entry tables held in numbered frames. */
module RadixTrees {
  import opened Address
  import opened Base
  import opened Ptes

  type Tables = map<nat, seq<Pte>>

  /** Where a table sits: its level, and the page-number bits above the ones it indexes. */
  datatype Spot = Spot(level: nat, prefix: nat)

  /** What a zeroed frame holds. */
  function ZeroTable(): (t: seq<Pte>)
    ensures |t| == FANOUT && forall i :: 0 <= i < FANOUT ==> t[i] == EMPTY
  {
    seq(FANOUT, i => EMPTY)
  }

  /** The part of a page number a walk of `levels` levels looks at. */
  function Key(levels: nat, vpn: nat): nat {
    Keep(vpn, levels)
  }

  /** The prefix of the level-`l` table on the way to `vpn`. */
  function Prefix(levels: nat, vpn: nat, l: nat): nat
    requires l < levels
  {
    Drop(Key(levels, vpn), l + 1)
  }

  /** Every frame in `place` is a full table with one position in the tree, and valid entries
      above the last level lead to the table at the position below. One position per frame is
      the separation of the table frames. */
  ghost predicate Placed(levels: nat, root: nat, tables: Tables, place: map<nat, Spot>) {
    && levels > 0
    && root in place && place[root] == Spot(levels - 1, 0)
    && (forall p :: p in place ==> p in tables && |tables[p]| == FANOUT && place[p].level < levels)
    && (forall p, i :: p in place && place[p].level > 0 && 0 <= i < FANOUT && tables[p][i].valid ==>
          tables[p][i].ppn in place
          && place[tables[p][i].ppn] == Spot(place[p].level - 1, place[p].prefix * FANOUT + i))
  }

  /** The position of the table of its level on the way to `vpn`. */
  ghost predicate OnTheWay(levels: nat, spot: Spot, vpn: nat) {
    spot.level < levels && spot.prefix == Prefix(levels, vpn, spot.level)
  }

  /** The entry a walk for `vpn` ends at when it stands on table `p` of level `l`; an invalid
      entry on the way ends it at the empty entry. */
  ghost function LeafFrom(tables: Tables, p: nat, l: nat, vpn: nat): Pte
    decreases l
  {
    if p !in tables || |tables[p]| != FANOUT then EMPTY
    else
      var e := tables[p][PnIndex(vpn, l)];
      if l == 0 then e
      else if !e.valid then EMPTY
      else LeafFrom(tables, e.ppn, l - 1, vpn)
  }

  /** The last-level table on the way to `vpn`, if all the tables above it exist. */
  ghost function LastTable(tables: Tables, p: nat, l: nat, vpn: nat): Option<nat>
    decreases l
  {
    if p !in tables || |tables[p]| != FANOUT then None
    else if l == 0 then Some(p)
    else
      var e := tables[p][PnIndex(vpn, l)];
      if !e.valid then None else LastTable(tables, e.ppn, l - 1, vpn)
  }

  /** The walk for `vpn` reaches a last-level table. */
  ghost predicate Walks(levels: nat, root: nat, tables: Tables, vpn: nat) {
    levels > 0 && LastTable(tables, root, levels - 1, vpn).Some?
  }

  /** The entry of `vpn`. */
  ghost function Leaf(levels: nat, root: nat, tables: Tables, vpn: nat): Pte
    requires levels > 0
  {
    LeafFrom(tables, root, levels - 1, vpn)
  }

  /** The finite map the tree stands for. */
  ghost function Mapping(levels: nat, root: nat, tables: Tables): map<nat, Pte>
    requires levels > 0
  {
    map v: nat | 0 <= v < PageCount(levels) && Leaf(levels, root, tables, v).valid :: Leaf(levels, root, tables, v)
  }

  /** Entries of last-level tables that are not valid are all zero. */
  ghost predicate Clean(tables: Tables, place: map<nat, Spot>) {
    forall p, i :: p in place && place[p].level == 0 && p in tables && 0 <= i < |tables[p]| && !tables[p][i].valid ==>
      tables[p][i] == EMPTY
  }

  // ---- arithmetic of prefixes ----

  lemma PrefixStep(levels: nat, vpn: nat, l: nat)
    requires 0 < l < levels
    ensures Prefix(levels, vpn, l - 1) == Prefix(levels, vpn, l) * FANOUT + PnIndex(vpn, l)
  {
    KeepIndex(vpn, levels, l);
    DropStep(Key(levels, vpn), l);
  }

  lemma TopPrefix(levels: nat, vpn: nat)
    requires levels > 0
    ensures Prefix(levels, vpn, levels - 1) == 0
  {
    DropKept(vpn, levels);
  }

  /** A page is determined by the last-level prefix and the last index. */
  lemma KeyFromLast(levels: nat, vpn: nat)
    requires levels > 0
    ensures Key(levels, vpn) == Prefix(levels, vpn, 0) * FANOUT + PnIndex(vpn, 0)
  {
    KeepIndex(vpn, levels, 0);
    DropStep(Key(levels, vpn), 0);
  }

  // ---- walks in a placed tree ----

  /** A walk that reaches the last level stands on the table whose position is the page's prefix. */
  lemma {:induction false} LastTablePlace(levels: nat, root: nat, tables: Tables, place: map<nat, Spot>,
                                          p: nat, l: nat, vpn: nat)
    requires Placed(levels, root, tables, place)
    requires l < levels && p in place && place[p] == Spot(l, Prefix(levels, vpn, l))
    ensures var t := LastTable(tables, p, l, vpn);
            (t.Some? ==> t.value in place && place[t.value] == Spot(0, Prefix(levels, vpn, 0))
                         && LeafFrom(tables, p, l, vpn) == tables[t.value][PnIndex(vpn, 0)])
            && (t.None? ==> LeafFrom(tables, p, l, vpn) == EMPTY)
    decreases l
  {
    if l > 0 && tables[p][PnIndex(vpn, l)].valid {
      PrefixStep(levels, vpn, l);
      LastTablePlace(levels, root, tables, place, tables[p][PnIndex(vpn, l)].ppn, l - 1, vpn);
    }
  }

  /** Bits above the key do not matter to the walk. */
  lemma {:induction false} LeafOfKey(tables: Tables, levels: nat, p: nat, l: nat, v: nat, w: nat)
    requires l < levels && Key(levels, v) == Key(levels, w)
    ensures LeafFrom(tables, p, l, v) == LeafFrom(tables, p, l, w)
    ensures LastTable(tables, p, l, v) == LastTable(tables, p, l, w)
    decreases l
  {
    KeepIndex(v, levels, l);
    KeepIndex(w, levels, l);
    if p in tables && |tables[p]| == FANOUT && l > 0 {
      LeafOfKey(tables, levels, tables[p][PnIndex(v, l)].ppn, l - 1, v, w);
    }
  }

  /** Two pages share a last-level table only if they share all index bits but the last nine. */
  lemma LastTablesSeparate(levels: nat, root: nat, tables: Tables, place: map<nat, Spot>, v: nat, w: nat)
    requires Placed(levels, root, tables, place)
    requires LastTable(tables, root, levels - 1, v).Some?
    ensures LastTable(tables, root, levels - 1, v) == LastTable(tables, root, levels - 1, w)
            <==> Prefix(levels, v, 0) == Prefix(levels, w, 0)
  {
    TopPrefix(levels, v);
    TopPrefix(levels, w);
    LastTablePlace(levels, root, tables, place, root, levels - 1, v);
    LastTablePlace(levels, root, tables, place, root, levels - 1, w);
    if Prefix(levels, v, 0) == Prefix(levels, w, 0) {
      SamePrefixWalk(levels, tables, root, levels - 1, v, w);
    }
  }

  /** `translate` finds an entry for every page whose last-level table exists. One mapped page is
      enough for that: its 511 neighbours then translate to an entry although they are not mapped. */
  lemma NeighbourTranslates(levels: nat, root: nat, tables: Tables, place: map<nat, Spot>, v: nat, w: nat)
    requires Placed(levels, root, tables, place)
    requires Key(levels, v) in Mapping(levels, root, tables)
    requires Prefix(levels, v, 0) == Prefix(levels, w, 0)
    ensures LastTable(tables, root, levels - 1, w).Some?
  {
    MappedLeaf(levels, root, tables, v);
    TopPrefix(levels, v);
    LastTablePlace(levels, root, tables, place, root, levels - 1, v);
    SamePrefixWalk(levels, tables, root, levels - 1, v, w);
  }

  lemma {:induction false} SamePrefixWalk(levels: nat, tables: Tables, p: nat, l: nat, v: nat, w: nat)
    requires l < levels && Prefix(levels, v, 0) == Prefix(levels, w, 0)
    ensures LastTable(tables, p, l, v) == LastTable(tables, p, l, w)
    decreases l
  {
    if p in tables && |tables[p]| == FANOUT && l > 0 {
      SamePrefixIndex(levels, v, w, l);
      SamePrefixWalk(levels, tables, tables[p][PnIndex(v, l)].ppn, l - 1, v, w);
    }
  }

  lemma {:induction false} SamePrefixIndex(levels: nat, v: nat, w: nat, l: nat)
    requires 0 < l < levels && Prefix(levels, v, 0) == Prefix(levels, w, 0)
    ensures PnIndex(v, l) == PnIndex(w, l) && Prefix(levels, v, l) == Prefix(levels, w, l)
    decreases l
  {
    if l > 1 {
      SamePrefixIndex(levels, v, w, l - 1);
    }
    PrefixStep(levels, v, l);
    PrefixStep(levels, w, l);
  }

  /** Writing an entry of a last-level table moves no walk. */
  lemma {:induction false} WriteKeepsWalk(levels: nat, root: nat, tables: Tables, tables': Tables,
                                          place: map<nat, Spot>, t: nat, p: nat, l: nat, w: nat)
    requires Placed(levels, root, tables, place) && t in place && place[t].level == 0
    requires t in tables' && |tables'[t]| == FANOUT && tables' == tables[t := tables'[t]]
    requires l < levels && p in place && place[p].level == l
    ensures LastTable(tables', p, l, w) == LastTable(tables, p, l, w)
    decreases l
  {
    if l > 0 && tables[p][PnIndex(w, l)].valid {
      WriteKeepsWalk(levels, root, tables, tables', place, t, tables[p][PnIndex(w, l)].ppn, l - 1, w);
    }
  }

  /** A tree none of whose frames was written stands for the same map as before. */
  lemma UntouchedTree(levels: nat, root: nat, tables: Tables, tables': Tables, place: map<nat, Spot>)
    requires Placed(levels, root, tables, place)
    requires forall p :: p in place ==> p in tables' && tables'[p] == tables[p]
    ensures Placed(levels, root, tables', place)
    ensures Mapping(levels, root, tables') == Mapping(levels, root, tables)
  {
    forall w: nat ensures Leaf(levels, root, tables', w) == Leaf(levels, root, tables, w) {
      UntouchedWalk(levels, root, tables, tables', place, root, levels - 1, w);
    }
    SameMapping(levels, root, tables, tables');
  }

  lemma {:induction false} UntouchedWalk(levels: nat, root: nat, tables: Tables, tables': Tables,
                                         place: map<nat, Spot>, q: nat, l: nat, w: nat)
    requires Placed(levels, root, tables, place)
    requires forall p :: p in place ==> p in tables' && tables'[p] == tables[p]
    requires q in place && place[q].level == l
    ensures LeafFrom(tables', q, l, w) == LeafFrom(tables, q, l, w)
    decreases l
  {
    if l > 0 && tables[q][PnIndex(w, l)].valid {
      UntouchedWalk(levels, root, tables, tables', place, tables[q][PnIndex(w, l)].ppn, l - 1, w);
    }
  }

  // ---- writing one last-level entry ----

  /** Writing entry `i` of the last-level table `t` changes exactly the walks that end there. */
  lemma {:induction false} WriteLeafFrom(levels: nat, root: nat, tables: Tables, place: map<nat, Spot>,
                                         t: nat, i: nat, e: Pte, p: nat, l: nat, w: nat)
    requires Placed(levels, root, tables, place)
    requires t in place && place[t].level == 0 && i < FANOUT
    requires l < levels && p in place && place[p] == Spot(l, Prefix(levels, w, l))
    ensures var tables' := tables[t := tables[t][i := e]];
            LeafFrom(tables', p, l, w)
            == (if place[t].prefix == Prefix(levels, w, 0) && i == PnIndex(w, 0)
                   && LastTable(tables, p, l, w) == Some(t)
                then e else LeafFrom(tables, p, l, w))
            && LastTable(tables', p, l, w) == LastTable(tables, p, l, w)
    decreases l
  {
    LastTablePlace(levels, root, tables, place, p, l, w);
    if l > 0 && tables[p][PnIndex(w, l)].valid {
      PrefixStep(levels, w, l);
      WriteLeafFrom(levels, root, tables, place, t, i, e, tables[p][PnIndex(w, l)].ppn, l - 1, w);
    }
  }

  /** Writing the entry of `v` changes the entry of exactly the pages with the key of `v`. */
  lemma WriteLeaf(levels: nat, root: nat, tables: Tables, place: map<nat, Spot>, v: nat, t: nat, e: Pte)
    requires Placed(levels, root, tables, place)
    requires LastTable(tables, root, levels - 1, v) == Some(t)
    ensures t in tables && |tables[t]| == FANOUT
    ensures var tables' := tables[t := tables[t][PnIndex(v, 0) := e]];
            && Placed(levels, root, tables', place)
            && (forall w: nat :: Leaf(levels, root, tables', w)
                                 == if Key(levels, w) == Key(levels, v) then e else Leaf(levels, root, tables, w))
  {
    TopPrefix(levels, v);
    LastTablePlace(levels, root, tables, place, root, levels - 1, v);
    var i := PnIndex(v, 0);
    var tables' := tables[t := tables[t][i := e]];
    forall w: nat
      ensures Leaf(levels, root, tables', w)
              == if Key(levels, w) == Key(levels, v) then e else Leaf(levels, root, tables, w)
    {
      TopPrefix(levels, w);
      WriteLeafFrom(levels, root, tables, place, t, i, e, root, levels - 1, w);
      KeyFromLast(levels, v);
      KeyFromLast(levels, w);
      if Key(levels, w) == Key(levels, v) {
        LeafOfKey(tables, levels, root, levels - 1, v, w);
      } else {
        assert !(Prefix(levels, w, 0) == Prefix(levels, v, 0) && PnIndex(w, 0) == PnIndex(v, 0));
      }
    }
  }

  /** Two trees that differ in the entry of page `k` only, which is `e` in the second. */
  ghost predicate DifferAt(levels: nat, root: nat, tables: Tables, tables': Tables, k: nat, e: Pte)
    requires levels > 0
  {
    forall w: nat | w < PageCount(levels) ::
      Leaf(levels, root, tables', w) == if w == k then e else Leaf(levels, root, tables, w)
  }

  lemma WriteDiffers(levels: nat, root: nat, tables: Tables, place: map<nat, Spot>, v: nat, t: nat, e: Pte)
    requires Placed(levels, root, tables, place)
    requires LastTable(tables, root, levels - 1, v) == Some(t)
    ensures t in tables && |tables[t]| == FANOUT
    ensures var tables' := tables[t := tables[t][PnIndex(v, 0) := e]];
            Placed(levels, root, tables', place) && DifferAt(levels, root, tables, tables', Key(levels, v), e)
  {
    WriteLeaf(levels, root, tables, place, v, t, e);
    var tables' := tables[t := tables[t][PnIndex(v, 0) := e]];
    forall w: nat | w < PageCount(levels)
      ensures Leaf(levels, root, tables', w) == if w == Key(levels, v) then e else Leaf(levels, root, tables, w)
    {
      KeepSmall(w, levels);
    }
  }

  /** The difference, said of the maps: a valid entry is put in, an invalid one takes the page out. */
  lemma DifferMapping(levels: nat, root: nat, tables: Tables, tables': Tables, k: nat, e: Pte)
    requires levels > 0 && k < PageCount(levels)
    requires DifferAt(levels, root, tables, tables', k, e)
    ensures Mapping(levels, root, tables') == (if e.valid then Mapping(levels, root, tables)[k := e]
                                               else Mapping(levels, root, tables) - {k})
  {
  }

  /** Writing the entry of `v` is an update of the map at the key of `v`. */
  lemma WriteMapping(levels: nat, root: nat, tables: Tables, place: map<nat, Spot>, v: nat, t: nat, e: Pte)
    requires Placed(levels, root, tables, place)
    requires LastTable(tables, root, levels - 1, v) == Some(t)
    ensures t in tables && |tables[t]| == FANOUT
    ensures var tables' := tables[t := tables[t][PnIndex(v, 0) := e]];
            && Placed(levels, root, tables', place)
            && Mapping(levels, root, tables') == (if e.valid then Mapping(levels, root, tables)[Key(levels, v) := e]
                                                  else Mapping(levels, root, tables) - {Key(levels, v)})
  {
    WriteDiffers(levels, root, tables, place, v, t, e);
    KeepSmall(v, levels);
    KeepSmall(Key(levels, v), levels);
    DifferMapping(levels, root, tables, tables[t := tables[t][PnIndex(v, 0) := e]], Key(levels, v), e);
  }

  /** The map has a page exactly when the page's entry is valid, and has that entry. */
  lemma MappedLeaf(levels: nat, root: nat, tables: Tables, v: nat)
    requires levels > 0
    ensures Key(levels, v) in Mapping(levels, root, tables) <==> Leaf(levels, root, tables, v).valid
    ensures Key(levels, v) in Mapping(levels, root, tables) ==>
              Mapping(levels, root, tables)[Key(levels, v)] == Leaf(levels, root, tables, v)
  {
    KeepSmall(v, levels);
    KeepSmall(Key(levels, v), levels);
    LeafOfKey(tables, levels, root, levels - 1, v, Key(levels, v));
  }

  /** The entry of `v` is valid exactly when the map has the page. */
  lemma EntryValid(levels: nat, root: nat, tables: Tables, place: map<nat, Spot>, v: nat, t: nat)
    requires Placed(levels, root, tables, place)
    requires LastTable(tables, root, levels - 1, v) == Some(t)
    ensures t in tables && |tables[t]| == FANOUT
    ensures tables[t][PnIndex(v, 0)].valid <==> Key(levels, v) in Mapping(levels, root, tables)
  {
    MappedLeaf(levels, root, tables, v);
    TopPrefix(levels, v);
    LastTablePlace(levels, root, tables, place, root, levels - 1, v);
  }

  /** Trees with the same entries stand for the same map. */
  lemma SameMapping(levels: nat, root: nat, tables: Tables, tables': Tables)
    requires levels > 0
    requires forall w: nat :: Leaf(levels, root, tables', w) == Leaf(levels, root, tables, w)
    ensures Mapping(levels, root, tables') == Mapping(levels, root, tables)
  {
  }

  // ---- creating an intermediate table ----

  /** The tree after a zeroed frame `f` has been hung into entry `i` of table `p`. */
  function Grown(tables: Tables, p: nat, i: nat, f: nat): Tables
    requires p in tables && i < |tables[p]| && p != f
  {
    tables[f := ZeroTable()][p := tables[p][i := NewTable(f)]]
  }

  lemma GrownPlaced(levels: nat, root: nat, tables: Tables, place: map<nat, Spot>, p: nat, i: nat, f: nat)
    requires Placed(levels, root, tables, place)
    requires p in place && place[p].level > 0 && i < FANOUT && !tables[p][i].valid
    requires f !in tables
    ensures Placed(levels, root, Grown(tables, p, i, f),
                   place[f := Spot(place[p].level - 1, place[p].prefix * FANOUT + i)])
  {
  }

  /** A fresh zeroed table adds no page: every walk ends at the entry it ended at before. */
  lemma {:induction false} GrownLeafFrom(levels: nat, root: nat, tables: Tables, place: map<nat, Spot>,
                                         p: nat, i: nat, f: nat, q: nat, l: nat, w: nat)
    requires Placed(levels, root, tables, place)
    requires p in place && place[p].level > 0 && i < FANOUT && !tables[p][i].valid
    requires f !in tables
    requires l < levels && q in place && place[q].level == l
    ensures LeafFrom(Grown(tables, p, i, f), q, l, w) == LeafFrom(tables, q, l, w)
    decreases l
  {
    var tables' := Grown(tables, p, i, f);
    if l > 0 {
      var e := tables[q][PnIndex(w, l)];
      if q == p && PnIndex(w, l) == i {
        assert LeafFrom(tables', f, l - 1, w) == EMPTY;
      } else if e.valid {
        GrownLeafFrom(levels, root, tables, place, p, i, f, e.ppn, l - 1, w);
      }
    }
  }

  /** Hanging in a fresh zeroed table keeps the tree well placed and its map. */
  lemma GrownClean(tables: Tables, place: map<nat, Spot>, p: nat, i: nat, f: nat, spot: Spot)
    requires Clean(tables, place) && p in tables && i < |tables[p]| && f !in tables && p in place && place[p].level > 0
    ensures Clean(Grown(tables, p, i, f), place[f := spot])
  {
  }

  lemma ListGrows(frames: seq<nat>, place: map<nat, Spot>, f: nat, spot: Spot)
    requires (forall p :: p in frames <==> p in place) && f !in place
    requires forall i, j :: 0 <= i < j < |frames| ==> frames[i] != frames[j]
    ensures forall p :: p in frames + [f] <==> p in place[f := spot]
    ensures forall i, j :: 0 <= i < j < |frames + [f]| ==> (frames + [f])[i] != (frames + [f])[j]
  {
  }

  lemma GrownMapping(levels: nat, root: nat, tables: Tables, place: map<nat, Spot>, p: nat, i: nat, f: nat)
    requires Placed(levels, root, tables, place)
    requires p in place && place[p].level > 0 && i < FANOUT && !tables[p][i].valid
    requires f !in tables
    ensures Placed(levels, root, Grown(tables, p, i, f),
                   place[f := Spot(place[p].level - 1, place[p].prefix * FANOUT + i)])
    ensures Mapping(levels, root, Grown(tables, p, i, f)) == Mapping(levels, root, tables)
  {
    GrownPlaced(levels, root, tables, place, p, i, f);
    var tables' := Grown(tables, p, i, f);
    forall w: nat ensures Leaf(levels, root, tables', w) == Leaf(levels, root, tables, w) {
      GrownLeafFrom(levels, root, tables, place, p, i, f, root, levels - 1, w);
    }
    SameMapping(levels, root, tables, tables');
  }

  // ---- creating tables ----

  /** Tables have been created on the way to `vpn` below level `l`, in frames that were not in use. Tables
      of higher levels and frames that hold no table of this tree have not been written. */
  ghost predicate GrownFor(levels: nat, l: nat, vpn: nat, place: map<nat, Spot>, tables: Tables,
                           place': map<nat, Spot>, tables': Tables) {
    && (forall q :: q in place ==> q in place' && place'[q] == place[q])
    && (forall q :: q in place' && q !in place ==>
          q !in tables && OnTheWay(levels, place'[q], vpn) && place'[q].level < l)
    && (forall q :: q in tables && (q !in place || place[q].level > l) ==> q in tables' && tables'[q] == tables[q])
    && (forall q :: q in tables ==> q in tables')
  }

  lemma GrownTwice(levels: nat, l: nat, m: nat, vpn: nat, place0: map<nat, Spot>, tables0: Tables,
                   place1: map<nat, Spot>, tables1: Tables, place2: map<nat, Spot>, tables2: Tables)
    requires m < l && GrownFor(levels, l, vpn, place0, tables0, place1, tables1)
    requires GrownFor(levels, m, vpn, place1, tables1, place2, tables2)
    ensures GrownFor(levels, l, vpn, place0, tables0, place2, tables2)
  {
  }

  // ---- update_region ----

  /** Every walk reaches a last-level table as before, and frames that hold no table of this tree have not
      been written. */
  ghost predicate SameOutside(levels: nat, root: nat, place: map<nat, Spot>, tables: Tables, tables': Tables) {
    && (forall w: nat :: Walks(levels, root, tables', w) <==> Walks(levels, root, tables, w))
    && (forall p :: p in tables && p !in place ==> p in tables' && tables'[p] == tables[p])
  }

  lemma SameOutsideSelf(levels: nat, root: nat, place: map<nat, Spot>, tables: Tables)
    ensures SameOutside(levels, root, place, tables, tables)
  {
  }

  lemma SameOutsideTwice(levels: nat, root: nat, place: map<nat, Spot>, t0: Tables, t1: Tables, t2: Tables)
    requires SameOutside(levels, root, place, t0, t1) && SameOutside(levels, root, place, t1, t2)
    ensures SameOutside(levels, root, place, t0, t2)
  {
  }

  /** The walks of `n` pages from `from` on reach a last-level table. */
  ghost predicate AllReached(levels: nat, root: nat, tables: Tables, from: nat, n: nat) {
    forall v: nat :: from <= v < from + n ==> Walks(levels, root, tables, v)
  }

  /** The map after the entries of `n` pages from `from` on have got new flags. A page that was not mapped
      is now mapped to frame zero. */
  function Reflagged(levels: nat, pt: map<nat, Pte>, from: nat, n: nat, flags: PteFlags): map<nat, Pte> {
    if n == 0 then pt
    else
      var pt' := Reflagged(levels, pt, from, n - 1, flags);
      var k := Key(levels, from + n - 1);
      pt'[k := SetFlags(EntryOf(pt', k), flags)]
  }

  lemma LeafIsEntry(levels: nat, root: nat, tables: Tables, place: map<nat, Spot>, vpn: nat, t: nat)
    requires Placed(levels, root, tables, place) && Clean(tables, place)
    requires LastTable(tables, root, levels - 1, vpn) == Some(t)
    ensures t in tables && |tables[t]| == FANOUT
    ensures tables[t][PnIndex(vpn, 0)] == EntryOf(Mapping(levels, root, tables), Key(levels, vpn))
  {
    MappedLeaf(levels, root, tables, vpn);
    TopPrefix(levels, vpn);
    LastTablePlace(levels, root, tables, place, root, levels - 1, vpn);
  }

  lemma ReflaggedMore(levels: nat, pt: map<nat, Pte>, was: map<nat, Pte>, now: map<nat, Pte>, from: nat, n: nat,
                      flags: PteFlags)
    requires was == Reflagged(levels, pt, from, n, flags) && now == Reflagged(levels, was, from + n, 1, flags)
    ensures now == Reflagged(levels, pt, from, n + 1, flags)
  {
    assert Reflagged(levels, was, from + n, 0, flags) == was;
  }

  lemma ReflaggedOne(levels: nat, pt: map<nat, Pte>, v: nat, flags: PteFlags)
    ensures Reflagged(levels, pt, v, 1, flags) == pt[Key(levels, v) := SetFlags(EntryOf(pt, Key(levels, v)), flags)]
  {
    assert Reflagged(levels, pt, v, 0, flags) == pt;
  }

  lemma ReachedMore(levels: nat, root: nat, tables: Tables, from: nat, n: nat)
    requires AllReached(levels, root, tables, from, n) && Walks(levels, root, tables, from + n)
    ensures AllReached(levels, root, tables, from, n + 1)
  {
  }

  /** `done` pages from `vpn` on of a table that stood for `pages` in the frames `before` have got new flags,
      and now it stands for `now` in the frames `tables`. */
  ghost predicate RegionState(levels: nat, root: nat, place: map<nat, Spot>, before: Tables, tables: Tables,
                              pages: map<nat, Pte>, vpn: nat, done: nat, flags: PteFlags, now: map<nat, Pte>) {
    && SameOutside(levels, root, place, before, tables) && AllReached(levels, root, before, vpn, done)
    && now == Reflagged(levels, pages, vpn, done, flags)
  }

  lemma RegionStart(levels: nat, root: nat, place: map<nat, Spot>, tables: Tables, pages: map<nat, Pte>, vpn: nat,
                    flags: PteFlags)
    ensures RegionState(levels, root, place, tables, tables, pages, vpn, 0, flags, pages)
  {
  }

  lemma NotAllReached(levels: nat, root: nat, tables: Tables, from: nat, k: nat, n: nat)
    requires k < n && !Walks(levels, root, tables, from + k)
    ensures !AllReached(levels, root, tables, from, n)
  {
  }

  lemma RegionStep(levels: nat, root: nat, place: map<nat, Spot>, before: Tables, tables: Tables, tables': Tables,
                   pages: map<nat, Pte>, vpn: nat, done: nat, flags: PteFlags, was: map<nat, Pte>, now: map<nat, Pte>,
                   ok: bool)
    requires RegionState(levels, root, place, before, tables, pages, vpn, done, flags, was)
    requires SameOutside(levels, root, place, tables, tables') && (ok <==> Walks(levels, root, tables, vpn + done))
    requires (ok ==> now == Reflagged(levels, was, vpn + done, 1, flags)) && (!ok ==> now == was)
    ensures ok <==> Walks(levels, root, before, vpn + done)
    ensures RegionState(levels, root, place, before, tables', pages, vpn, if ok then done + 1 else done, flags, now)
  {
    SameOutsideTwice(levels, root, place, before, tables, tables');
    if ok {
      ReflaggedMore(levels, pages, was, now, vpn, done, flags);
      ReachedMore(levels, root, before, vpn, done);
    }
  }

  /** Inside the address space of the table, exactly the entries of those pages have changed. */
  lemma {:induction false} ReflaggedPage(levels: nat, pt: map<nat, Pte>, from: nat, n: nat, flags: PteFlags, v: nat)
    requires from + n <= PageCount(levels)
    ensures var pt' := Reflagged(levels, pt, from, n, flags);
            if from <= v < from + n then v in pt' && pt'[v] == SetFlags(EntryOf(pt, v), flags)
            else (v in pt' <==> v in pt) && (v in pt ==> pt'[v] == pt[v])
  {
    if n > 0 {
      ReflaggedPage(levels, pt, from, n - 1, flags, v);
      KeepSmall(from + n - 1, levels);
    }
  }
}

/** The page table as the kernel runs it: entries updated in place in shared frames. */
module PageTables {
  import opened Address
  import opened Base
  import opened Ptes
  import opened RadixTrees

  /** The physical frames that hold page tables. */
  class FrameMemory {
    var tables: Tables

    constructor ()
      ensures tables == map[]
    {
      tables := map[];
    }

    /** `frame_alloc` followed by the zeroing of `FrameTracker::new`: any frame not in use. Frame 0 is the
        kernel's, so an entry that leads to a table is never all zero. */
    method AllocZeroed() returns (f: nat)
      modifies this
      ensures f !in old(tables) && f != 0
      ensures tables == old(tables)[f := ZeroTable()]
    {
      FreshExists(tables.Keys + {0});
      f :| f !in tables.Keys + {0};
      tables := tables[f := ZeroTable()];
    }
  }

  class PageTable {
    const memory: FrameMemory
    /** `PAGE_LEVEL`. */
    const levels: nat
    var root: nat
    var frames: seq<nat>
    ghost var place: map<nat, Spot>

    ghost predicate Valid()
      reads this, memory
    {
      && 3 <= levels <= 4
      && Placed(levels, root, memory.tables, place)
      && (forall p :: p in frames <==> p in place)
      && (forall i, j :: 0 <= i < j < |frames| ==> frames[i] != frames[j])
      && Clean(memory.tables, place)
    }

    /** The walk for `vpn` reaches a last-level table. */
    ghost predicate Reaches(vpn: nat)
      reads this, memory
    {
      Walks(levels, root, memory.tables, vpn)
    }

    /** The pages this table translates, by the low `9 * levels` bits of their number. */
    ghost function Pages(): map<nat, Pte>
      reads this, memory
      requires Valid()
    {
      Mapping(levels, root, memory.tables)
    }

    /** Frames of other page tables (or of anything else) have been neither written nor taken. */
    twostate predicate OthersUntouched()
      reads this, memory
    {
      forall p :: p in old(memory.tables) && p !in old(place) ==>
                    p !in place && p in memory.tables && memory.tables[p] == old(memory.tables[p])
    }

    constructor (levels: nat, memory: FrameMemory)
      requires 3 <= levels <= 4
      modifies memory
      ensures Valid() && this.levels == levels && this.memory == memory
      ensures Pages() == map[] && place == map[root := Spot(levels - 1, 0)]
      ensures forall p :: p in old(memory.tables) ==> p in memory.tables && memory.tables[p] == old(memory.tables[p])
    {
      var f := memory.AllocZeroed();
      this.levels := levels;
      this.memory := memory;
      root := f;
      frames := [f];
      place := map[f := Spot(levels - 1, 0)];
    }

    /** Hangs a zeroed table into the invalid entry of `vpn` in table `p`. */
    method HangTable(p: nat, l: nat, vpn: nat) returns (next: nat)
      requires Valid() && 0 < l < levels
      requires p in place && place[p] == Spot(l, Prefix(levels, vpn, l))
      requires !memory.tables[p][PnIndex(vpn, l)].valid
      modifies this`frames, this`place, memory
      ensures Valid() && Pages() == old(Pages())
      ensures next !in old(memory.tables)
      ensures place == old(place)[next := Spot(l - 1, Prefix(levels, vpn, l - 1))]
      ensures memory.tables == Grown(old(memory.tables), p, PnIndex(vpn, l), next)
    {
      ghost var before, place0, frames0, i := memory.tables, place, frames, PnIndex(vpn, l);
      ghost var spot := Spot(l - 1, Prefix(levels, vpn, l - 1));
      assert spot == Spot(place[p].level - 1, place[p].prefix * FANOUT + i) by {
        PrefixStep(levels, vpn, l);
      }
      next := memory.AllocZeroed();
      GrownMapping(levels, root, before, place0, p, i, next);
      GrownClean(before, place0, p, i, next, spot);
      ListGrows(frames0, place0, next, spot);
      frames := frames + [next];
      memory.tables := memory.tables[p := memory.tables[p][PnIndex(vpn, l) := NewTable(next)]];
      place := place[next := spot];
      assert memory.tables == Grown(before, p, i, next);
    }

    /** One level of `find_pte_create`: follow the entry of `vpn` in table `p`, hanging in a
        zeroed table first if there is none. */
    method StepCreate(p: nat, l: nat, vpn: nat) returns (next: nat)
      requires Valid() && 0 < l < levels
      requires p in place && place[p] == Spot(l, Prefix(levels, vpn, l))
      modifies this`frames, this`place, memory
      ensures Valid() && Pages() == old(Pages())
      ensures GrownFor(levels, l, vpn, old(place), old(memory.tables), place, memory.tables)
      ensures next in place && place[next] == Spot(l - 1, Prefix(levels, vpn, l - 1)) && p in place
      ensures memory.tables[p][PnIndex(vpn, l)].valid && memory.tables[p][PnIndex(vpn, l)].ppn == next
    {
      PrefixStep(levels, vpn, l);
      var e := memory.tables[p][PnIndex(vpn, l)];
      if e.valid {
        next := e.ppn;
      } else {
        next := HangTable(p, l, vpn);
      }
    }

    /** The two lower levels of `find_pte_create`. */
    method StepTwice(p: nat, vpn: nat) returns (t: nat)
      requires Valid() && p in place && place[p] == Spot(2, Prefix(levels, vpn, 2))
      modifies this`frames, this`place, memory
      ensures Valid() && Pages() == old(Pages())
      ensures LastTable(memory.tables, p, 2, vpn) == Some(t)
      ensures GrownFor(levels, 2, vpn, old(place), old(memory.tables), place, memory.tables)
    {
      var t1 := StepCreate(p, 2, vpn);
      ghost var place1, tables1 := place, memory.tables;
      t := StepCreate(t1, 1, vpn);
      GrownTwice(levels, 2, 1, vpn, old(place), old(memory.tables), place1, tables1, place, memory.tables);
      assert LastTable(memory.tables, t1, 1, vpn) == Some(t);
    }

    /** The last-level table of `vpn`, created with the tables above it where they are missing; only
        tables on the way to `vpn` are created. No page's entry changes. */
    method FindPteCreate(vpn: nat) returns (t: nat)
      requires Valid()
      modifies this`frames, this`place, memory
      ensures Valid() && OthersUntouched()
      ensures LastTable(memory.tables, root, levels - 1, vpn) == Some(t)
      ensures Pages() == old(Pages())
      ensures GrownFor(levels, levels - 1, vpn, old(place), old(memory.tables), place, memory.tables)
    {
      TopPrefix(levels, vpn);
      if levels == 4 {
        var t2 := StepCreate(root, 3, vpn);
        ghost var place1, tables1 := place, memory.tables;
        t := StepTwice(t2, vpn);
        GrownTwice(levels, 3, 2, vpn, old(place), old(memory.tables), place1, tables1, place, memory.tables);
      } else {
        t := StepTwice(root, vpn);
      }
    }

    /** The last-level table of `vpn`, if the walk does not meet an invalid entry. */
    method FindPte(vpn: nat) returns (t: Option<nat>)
      requires Valid()
      ensures t == LastTable(memory.tables, root, levels - 1, vpn)
      ensures t.Some? ==> t.value in place && place[t.value].level == 0
                          && memory.tables[t.value][PnIndex(vpn, 0)] == Leaf(levels, root, memory.tables, vpn)
      ensures t.None? ==> !Leaf(levels, root, memory.tables, vpn).valid
    {
      TopPrefix(levels, vpn);
      LastTablePlace(levels, root, memory.tables, place, root, levels - 1, vpn);
      var p := root;
      if levels == 4 {
        var e := memory.tables[p][PnIndex(vpn, 3)];
        if !e.valid { return None; }
        p := e.ppn;
      }
      var e := memory.tables[p][PnIndex(vpn, 2)];
      if !e.valid { return None; }
      p := e.ppn;
      e := memory.tables[p][PnIndex(vpn, 1)];
      if !e.valid { return None; }
      return Some(e.ppn);
    }

    /** Writes the entry of `vpn` in its last-level table `t`. */
    method WriteEntry(vpn: nat, t: nat, e: Pte)
      requires Valid() && (e.valid || e == EMPTY)
      requires LastTable(memory.tables, root, levels - 1, vpn) == Some(t)
      modifies memory
      ensures Valid() && OthersUntouched()
      ensures Pages() == if e.valid then old(Pages())[Key(levels, vpn) := e] else old(Pages()) - {Key(levels, vpn)}
      ensures SameOutside(levels, root, place, old(memory.tables), memory.tables)
    {
      ghost var before := memory.tables;
      WriteMapping(levels, root, memory.tables, place, vpn, t, e);
      TopPrefix(levels, vpn);
      LastTablePlace(levels, root, memory.tables, place, root, levels - 1, vpn);
      memory.tables := memory.tables[t := memory.tables[t][PnIndex(vpn, 0) := e]];
      forall w: nat ensures Walks(levels, root, memory.tables, w) <==> Walks(levels, root, before, w) {
        WriteKeepsWalk(levels, root, before, memory.tables, place, t, root, levels - 1, w);
      }
    }

    /** `update` of the flags of one page: it fails exactly when the walk does not reach a last-level
        table, and otherwise writes the entry there, valid or not. */
    method UpdateFlags(vpn: nat, flags: PteFlags, ghost was: map<nat, Pte>) returns (ok: bool, ghost now: map<nat, Pte>)
      requires Valid() && Pages() == was
      modifies memory
      ensures Valid() && (ok <==> old(Reaches(vpn)))
      ensures Pages() == now && (ok ==> now == Reflagged(levels, was, vpn, 1, flags)) && (!ok ==> now == was)
      ensures SameOutside(levels, root, place, old(memory.tables), memory.tables)
    {
      var t := FindPte(vpn);
      now := was;
      if t.None? { return false, was; }
      var e := memory.tables[t.value][PnIndex(vpn, 0)];
      LeafIsEntry(levels, root, memory.tables, place, vpn, t.value);
      ReflaggedOne(levels, was, vpn, flags);
      now := was[Key(levels, vpn) := SetFlags(e, flags)];
      WriteEntry(vpn, t.value, SetFlags(e, flags));
      ok := true;
    }

    /** The loop state of `update_region`: `done` pages of a table that stood for `pages`, in the frames
        `before`, have been rewritten, and now it stands for `now`. */
    ghost predicate Updating(pages: map<nat, Pte>, before: Tables, vpn: nat, done: nat, flags: PteFlags,
                             now: map<nat, Pte>)
      reads this, memory
    {
      && Valid() && Pages() == now
      && RegionState(levels, root, place, before, memory.tables, pages, vpn, done, flags, now)
    }

    method UpdateNext(vpn: nat, done: nat, flags: PteFlags, ghost pages: map<nat, Pte>, ghost before: Tables,
                      ghost was: map<nat, Pte>)
      returns (ok: bool, ghost now: map<nat, Pte>)
      requires Updating(pages, before, vpn, done, flags, was)
      modifies memory
      ensures ok <==> Walks(levels, root, before, vpn + done)
      ensures Updating(pages, before, vpn, if ok then done + 1 else done, flags, now)
    {
      ghost var tables := memory.tables;
      ok, now := UpdateFlags(vpn + done, flags, was);
      RegionStep(levels, root, place, before, tables, memory.tables, pages, vpn, done, flags, was, now, ok);
    }

    /** `update_region`: it stops at the first page whose walk does not reach a last-level table, after
        having rewritten the entries before it. */
    method UpdateRegion(vpn: nat, n: nat, flags: PteFlags, ghost pages: map<nat, Pte>)
      returns (ok: bool, done: nat, ghost now: map<nat, Pte>)
      requires Valid() && Pages() == pages
      modifies memory
      ensures Updating(pages, old(memory.tables), vpn, done, flags, now)
      ensures done <= n && (ok <==> done == n) && (ok <==> AllReached(levels, root, old(memory.tables), vpn, n))
    {
      done, ok, now := 0, true, pages;
      ghost var before := memory.tables;
      RegionStart(levels, root, place, before, pages, vpn, flags);
      while done < n && ok
        invariant done <= n && Updating(pages, before, vpn, done, flags, now)
        invariant !ok ==> done < n && !Walks(levels, root, before, vpn + done)
        decreases n - done, ok
      {
        ok, now := UpdateNext(vpn, done, flags, pages, before, now);
        done := if ok then done + 1 else done;
      }
      if !ok {
        NotAllReached(levels, root, before, vpn, done, n);
      }
    }

    /** Maps `vpn` to frame `ppn`. The kernel panics (`ok` is false) exactly when the page is
        mapped already; otherwise precisely that page's translation changes. */
    method Map(vpn: nat, ppn: nat, flags: PteFlags) returns (ok: bool)
      requires Valid()
      modifies this`frames, this`place, memory
      ensures Valid() && OthersUntouched()
      ensures ok <==> Key(levels, vpn) !in old(Pages())
      ensures Pages() == if ok then old(Pages())[Key(levels, vpn) := NewPage(ppn, flags)] else old(Pages())
      ensures GrownFor(levels, levels - 1, vpn, old(place), old(memory.tables), place, memory.tables)
    {
      var t := FindPteCreate(vpn);
      EntryValid(levels, root, memory.tables, place, vpn, t);
      ok := !memory.tables[t][PnIndex(vpn, 0)].valid;
      if ok {
        WriteEntry(vpn, t, NewPage(ppn, flags));
      }
    }

    /** Unmaps `vpn`, which the kernel asserts to be mapped. Precisely that page goes. */
    method Unmap(vpn: nat)
      requires Valid()
      requires Key(levels, vpn) in Pages()
      modifies memory
      ensures Valid() && OthersUntouched()
      ensures Pages() == old(Pages()) - {Key(levels, vpn)}
    {
      MappedLeaf(levels, root, memory.tables, vpn);
      var t := FindPte(vpn);
      WriteEntry(vpn, t.value, EMPTY);
    }

    /** `translate`: the entry found by the walk, valid or not. It is valid exactly for the
        mapped pages. */
    method Translate(vpn: nat) returns (r: Option<Pte>)
      requires Valid()
      ensures r.Some? <==> LastTable(memory.tables, root, levels - 1, vpn).Some?
      ensures r.Some? && r.value.valid <==> Key(levels, vpn) in Pages()
      ensures Key(levels, vpn) in Pages() ==> r == Some(Pages()[Key(levels, vpn)])
    {
      MappedLeaf(levels, root, memory.tables, vpn);
      var t := FindPte(vpn);
      if t.None? { return None; }
      return Some(memory.tables[t.value][PnIndex(vpn, 0)]);
    }
  }
}