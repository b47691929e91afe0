/** How many of the recorded pages are on each frame, and what dropping some of them leaves in use. */
module FrameCounts {
  import opened Base
  import opened Areas
  import opened AreaEdits
  import opened AreaFrames
  import opened CowWorlds

  /** The pages of `m` on frame `p`. */
  ghost function On(m: map<nat, nat>, p: nat): set<nat> {
    set v: nat | v in m && m[v] == p
  }

  /** Every page of `m` has a count on its frame. */
  ghost predicate Covers(m: map<nat, nat>, rc: map<nat, nat>) {
    forall p: nat :: On(m, p) != {} ==> p in rc && rc[p] >= |On(m, p)|
  }

  /** Frame `p` is still in use when the pages of `gone` have dropped their counts. */
  ghost predicate Outlives(mem: Memory, gone: map<nat, nat>, p: nat) {
    p in mem.rc && (On(gone, p) == {} || mem.rc[p] > |On(gone, p)|)
  }

  /** One count less for every page of `gone`; a frame with no count left is freed. */
  ghost predicate FramesDropped(mem: Memory, mem': Memory, gone: map<nat, nat>) {
    && (forall p: nat :: p in mem'.rc <==> Outlives(mem, gone, p))
    && (forall p: nat :: p in mem'.rc ==> mem'.rc[p] == mem.rc[p] - |On(gone, p)|)
    && (forall p: nat :: p in mem'.frames <==> p in mem.frames && (p in mem.rc ==> Outlives(mem, gone, p)))
    && (forall p: nat :: p in mem'.frames ==> mem'.frames[p] == mem.frames[p])
  }

  lemma DroppedNone(mem: Memory)
    ensures FramesDropped(mem, mem, map[])
  {
    assert forall p: nat :: On(map[], p) == {};
  }

  lemma OnMore(m: map<nat, nat>, v: nat, p: nat, q: nat)
    requires v !in m
    ensures On(m[v := p], q) == On(m, q) + (if q == p then {v} else {}) && v !in On(m, q)
    ensures |On(m[v := p], q)| == |On(m, q)| + if q == p then 1 else 0
  {
    assert On(m[v := p], q) == On(m, q) + if q == p then {v} else {};
  }

  lemma DropMore(mem: Memory, mem': Memory, gone: map<nat, nat>, v: nat, p: nat)
    requires FramesDropped(mem, mem', gone) && v !in gone && p in mem'.rc
    ensures FramesDropped(mem, Release(mem', p), gone[v := p])
  {
    forall q: nat
      ensures |On(gone[v := p], q)| == |On(gone, q)| + if q == p then 1 else 0
      ensures On(gone[v := p], q) == {} <==> On(gone, q) == {} && q != p
    {
      OnMore(gone, v, p, q);
    }
  }

  /** A part of what is covered, one page short of frame `p`, leaves `p` in use. */
  lemma StillThere(mem: Memory, mem': Memory, all: map<nat, nat>, gone: map<nat, nat>, v: nat)
    requires Covers(all, mem.rc) && FramesDropped(mem, mem', gone) && v in all && v !in gone
    requires forall u: nat :: u in gone ==> u in all && gone[u] == all[u]
    ensures all[v] in mem'.rc
  {
    var p := all[v];
    assert v in On(all, p) && v !in On(gone, p);
    assert On(gone, p) < On(all, p);
    Smaller(On(gone, p), On(all, p));
  }

  // ---- two parts ----

  lemma OnUnion(a: map<nat, nat>, b: map<nat, nat>, p: nat)
    requires forall v: nat :: v in a ==> v !in b
    ensures On(a + b, p) == On(a, p) + On(b, p) && On(a, p) !! On(b, p)
    ensures |On(a + b, p)| == |On(a, p)| + |On(b, p)|
  {
    assert On(a + b, p) == On(a, p) + On(b, p);
    Disjoint(On(a, p), On(b, p));
  }

  lemma Disjoint(a: set<nat>, b: set<nat>)
    requires a !! b
    ensures |a + b| == |a| + |b|
  {
  }

  lemma DropTwice(m0: Memory, m1: Memory, m2: Memory, a: map<nat, nat>, b: map<nat, nat>)
    requires FramesDropped(m0, m1, a) && FramesDropped(m1, m2, b) && forall v: nat :: v in a ==> v !in b
    ensures FramesDropped(m0, m2, a + b)
  {
    forall p: nat
      ensures p in m2.rc <==> Outlives(m0, a + b, p)
      ensures p in m2.rc ==> m2.rc[p] == m0.rc[p] - |On(a + b, p)|
      ensures p in m2.frames <==> p in m0.frames && (p in m0.rc ==> Outlives(m0, a + b, p))
    {
      OnUnion(a, b, p);
      assert (p in m1.rc <==> Outlives(m0, a, p)) && (p in m2.rc <==> Outlives(m1, b, p));
    }
  }

  /** When one part of what is covered is dropped the other is still covered. */
  lemma RestCovered(m0: Memory, m1: Memory, all: map<nat, nat>, a: map<nat, nat>, b: map<nat, nat>)
    requires Covers(all, m0.rc) && FramesDropped(m0, m1, a) && forall v: nat :: v in a ==> v !in b
    requires forall v: nat :: v in a ==> v in all && a[v] == all[v]
    requires forall v: nat :: v in b ==> v in all && b[v] == all[v]
    ensures Covers(b, m1.rc)
  {
    forall p: nat | On(b, p) != {} ensures p in m1.rc && m1.rc[p] >= |On(b, p)| {
      OnUnion(a, b, p);
      assert On(a, p) + On(b, p) <= On(all, p);
      NoLarger(On(a, p) + On(b, p), On(all, p));
    }
  }

  // ---- the pages that areas record ----

  ghost function RecordedPages(t: Tree): set<nat> {
    set k: nat, v: nat | k in t && v in t[k].frames :: v
  }

  ghost function FrameOf(t: Tree, v: nat): nat {
    match FrameAt(t, v)
    case Some(f) => f
    case None => 0
  }

  /** The pages of a tree that have a frame, each with its frame. */
  ghost function Recorded(t: Tree): map<nat, nat> {
    map v: nat | v in RecordedPages(t) :: FrameOf(t, v)
  }

  lemma RecordedAt(t: Tree, k: nat, v: nat)
    requires WellFormed(t) && k in t && v in t[k].frames
    ensures v in Recorded(t) && Recorded(t)[v] == t[k].frames[v]
  {
    assert Owns(t, k, v);
    InfoAt(t, k, v);
    assert v in RecordedPages(t);
  }

  lemma RecordedHas(t: Tree, v: nat)
    ensures v in Recorded(t) <==> HasFrame(t, v)
  {
  }

  /** The frames that the areas `ks` record. */
  ghost function FramesOf(t: Tree, ks: seq<nat>): map<nat, nat> {
    map v: nat | v in RecordedPages(t) && HasFrameIn(t, ks, v) :: FrameOf(t, v)
  }

  lemma FramesOfNone(t: Tree, ks: seq<nat>)
    ensures FramesOf(t, ks[..0]) == map[]
  {
  }

  /** One more area adds its frames. */
  lemma FramesOfNext(t: Tree, ks: seq<nat>, i: nat)
    requires WellFormed(t) && i < |ks| && ks[i] in t && forall j, j' :: 0 <= j < j' < |ks| ==> ks[j] != ks[j']
    ensures FramesOf(t, ks[..i + 1]) == FramesOf(t, ks[..i]) + t[ks[i]].frames
    ensures forall v: nat :: v in FramesOf(t, ks[..i]) ==> v !in t[ks[i]].frames
  {
    var a, b, c := FramesOf(t, ks[..i]), t[ks[i]].frames, FramesOf(t, ks[..i + 1]);
    forall v: nat ensures (v in c <==> v in a || v in b) && !(v in a && v in b) && (v in c ==> c[v] == (a + b)[v]) {
      FramesOfPage(t, ks, i, v);
    }
    SameFramesMap(c, a + b);
  }

  lemma SameFramesMap(x: map<nat, nat>, y: map<nat, nat>)
    requires forall v: nat :: (v in x <==> v in y) && (v in x ==> x[v] == y[v])
    ensures x == y
  {
  }

  lemma FramesOfPage(t: Tree, ks: seq<nat>, i: nat, v: nat)
    requires WellFormed(t) && i < |ks| && ks[i] in t && forall j, j' :: 0 <= j < j' < |ks| ==> ks[j] != ks[j']
    ensures var a, b, c := FramesOf(t, ks[..i]), t[ks[i]].frames, FramesOf(t, ks[..i + 1]);
            (v in c <==> v in a || v in b) && !(v in a && v in b) && (v in c ==> c[v] == (a + b)[v])
  {
    assert ks[..i + 1] == ks[..i] + [ks[i]];
    DoneStep(t, ks[..i], ks[i], v);
    if v in t[ks[i]].frames {
      NotDone(t, ks[..i], ks[i], v);
      RecordedAt(t, ks[i], v);
    }
  }

  lemma FramesOfRecorded(t: Tree, ks: seq<nat>, i: nat)
    requires WellFormed(t) && i < |ks| && ks[i] in t
    ensures forall v: nat :: v in FramesOf(t, ks[..i]) ==> v in Recorded(t) && FramesOf(t, ks[..i])[v] == Recorded(t)[v]
    ensures forall v: nat :: v in t[ks[i]].frames ==> v in Recorded(t) && t[ks[i]].frames[v] == Recorded(t)[v]
  {
    forall v: nat | v in t[ks[i]].frames ensures v in Recorded(t) && t[ks[i]].frames[v] == Recorded(t)[v] {
      RecordedAt(t, ks[i], v);
    }
  }

  // ---- what `munmap` drops ----

  /** Page `p` belongs to an area that the range `[s, e)` cuts. */
  ghost predicate InCutArea(t: Tree, s: nat, e: nat, p: nat) {
    exists k: nat :: Owns(t, k, p) && k < e && s < t[k].end
  }

  /** The frames of the areas that `[s, e)` cuts. */
  ghost function CutFrames(t: Tree, s: nat, e: nat): map<nat, nat> {
    map v: nat | v in RecordedPages(t) && InCutArea(t, s, e, v) :: FrameOf(t, v)
  }

  lemma CutFramesAll(t: Tree, ks: seq<nat>, s: nat, e: nat)
    requires WellFormed(t) && forall k: nat :: k in ks <==> k in t && k < e && s < t[k].end
    ensures CutFrames(t, s, e) == FramesOf(t, ks[..|ks|])
  {
    assert ks[..|ks|] == ks;
    forall v: nat | v in RecordedPages(t) ensures HasFrameIn(t, ks, v) <==> InCutArea(t, s, e, v) {
      var k: nat :| k in t && v in t[k].frames;
      assert Owns(t, k, v);
      if InCutArea(t, s, e, v) {
        var j: nat :| Owns(t, j, v) && j < e && s < t[j].end;
        OneOwner(t, j, k, v);
        assert k in ks;
      }
      if HasFrameIn(t, ks, v) {
        var j: nat :| j in ks && j in t && v in t[j].frames;
        assert Owns(t, j, v);
      }
    }
  }
}
