/** `madvise_dontneed` on values. */
module Advices {
  import opened Base
  import opened Ptes
  import opened Areas
  import opened AreaFrames
  import opened CowWorlds
  import opened CowInvariant
  import opened FrameCounts

  /** Page `v` gives up its entry, and its frame if it is recorded; none if it is mapped and no area is found
      for it, where the kernel panics. */
  ghost function GiveOne(sp: Space, mem: Memory, v: nat): (r: Option<(Space, Memory)>)
    requires WellFormed(sp.areas)
    ensures r.Some? ==> WellFormed(r.value.0.areas)
  {
    if v !in sp.pt then Some((sp, mem))
    else
      match AreaOf(sp.areas, v)
      case None => None
      case Some(k) =>
        if v in sp.areas[k].frames && sp.areas[k].frames[v] in mem.rc then
          ForgetWellFormed(sp.areas, k, v);
          Some((Space(Forget(sp.areas, k, v), sp.pt - {v}), Release(mem, sp.areas[k].frames[v])))
        else Some((sp.(pt := sp.pt - {v}), mem))
  }

  /** Giving up one page of an mmap area is the step of the runs. */
  lemma GiveOneIsStep(w: World, pid: nat, k: nat, v: nat)
    requires WorldOk(w) && pid in w.spaces && Owns(w.spaces[pid].areas, k, v)
    ensures v in w.spaces[pid].pt ==> w.spaces[pid].pt[v].ppn in w.mem.rc
    ensures WellFormed(w.spaces[pid].areas) && GiveOne(w.spaces[pid], w.mem, v).Some?
    ensures var r := GiveOne(w.spaces[pid], w.mem, v).value;
            Put(w, pid, r.0, r.1) == Dropped(w, pid, k, v)
  {
    var sp := w.spaces[pid];
    assert SpaceOk(sp);
    AllLive(w, pid);
    NoFrameNoEntry(sp, k, v);
    assert Covered(sp.areas, v);
    OneOwner(sp.areas, AreaOf(sp.areas, v).value, k, v);
    if v !in sp.pt {
      NothingToForget(sp.areas, sp.pt, k, v);
      assert w.spaces[pid := sp] == w.spaces;
    }
  }

  lemma NothingToForget(t: Tree, pt: map<nat, Pte>, k: nat, v: nat)
    requires k in t && v !in pt && v !in t[k].frames
    ensures Forget(t, k, v) == t && pt - {v} == pt
  {
    assert t[k].frames - {v} == t[k].frames;
  }

  // ---- giving up a range ----

  ghost function MappedIn(sp: Space, s: nat, v: nat): set<nat> {
    set p: nat | p in sp.pt && s <= p < v
  }

  ghost function WithoutFrames(t: Tree, gone: set<nat>): Tree {
    map k: nat | k in t :: t[k].(frames := t[k].frames - gone)
  }

  /** The pages in `gone` have lost their entries and their frames; no area has changed otherwise. */
  ghost function GivenUp(sp: Space, gone: set<nat>): Space {
    Space(WithoutFrames(sp.areas, gone), sp.pt - gone)
  }

  /** The frames that the pages in `gone` are recorded on. */
  ghost function FramesAmong(t: Tree, gone: set<nat>): map<nat, nat> {
    map v: nat | v in RecordedPages(t) && v in gone :: FrameOf(t, v)
  }

  lemma WithoutNone(t: Tree)
    ensures WithoutFrames(t, {}) == t && FramesAmong(t, {}) == map[]
  {
    forall k: nat | k in t ensures t[k].(frames := t[k].frames - {}) == t[k] {
      assert t[k].frames - {} == t[k].frames;
    }
  }

  lemma WithoutWellFormed(t: Tree, gone: set<nat>)
    requires WellFormed(t)
    ensures WellFormed(WithoutFrames(t, gone))
  {
  }

  lemma SameAreaOf(t: Tree, gone: set<nat>, v: nat)
    requires WellFormed(t) && WellFormed(WithoutFrames(t, gone))
    ensures AreaOf(WithoutFrames(t, gone), v) == AreaOf(t, v)
  {
    assert forall k: nat :: k in WithoutFrames(t, gone) <==> k in t;
    assert LastAtMost(WithoutFrames(t, gone), v) == LastAtMost(t, v);
  }

  /** A page that no area records. */
  lemma WithoutUnrecorded(t: Tree, gone: set<nat>, v: nat)
    requires !HasFrame(t, v)
    ensures WithoutFrames(t, gone + {v}) == WithoutFrames(t, gone) && FramesAmong(t, gone + {v}) == FramesAmong(t, gone)
  {
    forall k: nat | k in t ensures t[k].frames - (gone + {v}) == t[k].frames - gone {
      MinusOther(t[k].frames, gone, v);
    }
  }

  /** A page that area `k` records. */
  lemma WithoutOneMore(t: Tree, gone: set<nat>, k: nat, v: nat)
    requires WellFormed(t) && k in t && v in t[k].frames
    ensures WithoutFrames(t, gone + {v}) == Forget(WithoutFrames(t, gone), k, v)
  {
    forall j: nat | j in t ensures WithoutFrames(t, gone + {v})[j] == Forget(WithoutFrames(t, gone), k, v)[j] {
      if j == k {
        MinusTwice(t[k].frames, gone, {v});
      } else {
        MinusOther(t[j].frames, gone, v);
      }
    }
  }

  lemma MinusOther(m: map<nat, nat>, gone: set<nat>, v: nat)
    requires v !in m
    ensures m - (gone + {v}) == m - gone
  {
  }

  lemma OneMoreAmong(t: Tree, gone: set<nat>, k: nat, v: nat)
    requires WellFormed(t) && k in t && v in t[k].frames
    ensures FramesAmong(t, gone + {v}) == FramesAmong(t, gone)[v := t[k].frames[v]]
  {
    RecordedAt(t, k, v);
  }

  lemma MappedMore(sp: Space, s: nat, v: nat)
    requires s <= v
    ensures MappedIn(sp, s, v + 1) == if v in sp.pt then MappedIn(sp, s, v) + {v} else MappedIn(sp, s, v)
  {
  }

  /** What is recorded afterwards is still counted. */
  lemma WithoutCovers(t: Tree, gone: set<nat>, m0: Memory, m: Memory)
    requires WellFormed(t) && Covers(Recorded(t), m0.rc) && FramesDropped(m0, m, FramesAmong(t, gone))
    ensures Covers(Recorded(WithoutFrames(t, gone)), m.rc)
  {
    WithoutWellFormed(t, gone);
    forall v: nat | v in Recorded(WithoutFrames(t, gone))
      ensures v in Recorded(t) && v !in gone && Recorded(WithoutFrames(t, gone))[v] == Recorded(t)[v]
    {
      RecordedHas(WithoutFrames(t, gone), v);
      var k: nat :| k in t && v in WithoutFrames(t, gone)[k].frames;
      RecordedAt(WithoutFrames(t, gone), k, v);
      RecordedAt(t, k, v);
    }
    RestCovered(m0, m, Recorded(t), FramesAmong(t, gone), Recorded(WithoutFrames(t, gone)));
  }

  /** A space that agrees with its page table still does. */
  lemma GivenUpAgrees(sp: Space, gone: set<nat>)
    requires Agree(sp.areas, sp.pt)
    ensures Agree(GivenUp(sp, gone).areas, GivenUp(sp, gone).pt)
  {
    forall v: nat | v in sp.pt - gone ensures HasFrame(WithoutFrames(sp.areas, gone), v) {
      assert HasFrame(sp.areas, v);
      var k: nat :| k in sp.areas && v in sp.areas[k].frames;
      assert v in WithoutFrames(sp.areas, gone)[k].frames;
    }
  }

  /** An area has page `v`, or ends at it. */
  ghost predicate Reached(t: Tree, v: nat) {
    exists k: nat :: k in t && k <= v <= t[k].end
  }

  /** Those are the pages that an area is found for. */
  lemma ReachedFound(t: Tree, v: nat)
    requires WellFormed(t)
    ensures AreaOf(t, v).Some? <==> Reached(t, v)
  {
    if k: nat :| k in t && k <= v <= t[k].end {
      assert v < t[k].end ==> Owns(t, k, v) && Covered(t, v);
    }
  }

  /** A page of `[s, e)` is mapped and no area is found for it. */
  ghost predicate FailsIn(sp: Space, s: nat, e: nat) {
    exists v: nat :: s <= v < e && v in sp.pt && !Reached(sp.areas, v)
  }

  /** Space and memory when the pages in `gone` have been given up: each recorded frame has lost a count. */
  ghost predicate Advised(sp0: Space, m0: Memory, gone: set<nat>, sp: Space, m: Memory) {
    sp == GivenUp(sp0, gone) && FramesDropped(m0, m, FramesAmong(sp0.areas, gone))
  }

  lemma AdviseStart(sp: Space, m: Memory, s: nat)
    ensures MappedIn(sp, s, s) == {} && Advised(sp, m, {}, sp, m) && !FailsIn(sp, s, s)
  {
    WithoutNone(sp.areas);
    assert sp.pt - {} == sp.pt;
    DroppedNone(m);
  }

  lemma GivenUpMore(sp: Space, gone: set<nat>, k: nat, v: nat)
    requires WellFormed(sp.areas) && k in sp.areas && v in sp.areas[k].frames
    ensures GivenUp(sp, gone + {v}) == Space(Forget(GivenUp(sp, gone).areas, k, v), GivenUp(sp, gone).pt - {v})
  {
    WithoutOneMore(sp.areas, gone, k, v);
    MinusTwice(sp.pt, gone, {v});
  }

  lemma DropAmong(t: Tree, m0: Memory, m: Memory, gone: set<nat>, k: nat, v: nat)
    requires WellFormed(t) && k in t && v in t[k].frames && v !in gone && t[k].frames[v] in m.rc
    requires FramesDropped(m0, m, FramesAmong(t, gone))
    ensures FramesDropped(m0, Release(m, t[k].frames[v]), FramesAmong(t, gone + {v}))
  {
    OneMoreAmong(t, gone, k, v);
    DropMore(m0, m, FramesAmong(t, gone), v, t[k].frames[v]);
  }

  /** What is still recorded is on frames in use. */
  lemma AdviseCovers(sp0: Space, m0: Memory, gone: set<nat>, sp: Space, m: Memory)
    requires Advised(sp0, m0, gone, sp, m) && WellFormed(sp0.areas) && Covers(Recorded(sp0.areas), m0.rc)
    ensures WellFormed(sp.areas) && Covers(Recorded(sp.areas), m.rc)
  {
    WithoutWellFormed(sp0.areas, gone);
    WithoutCovers(sp0.areas, gone, m0, m);
  }

  lemma RecordedLive(t: Tree, gone: set<nat>, v: nat, rc: map<nat, nat>)
    requires WellFormed(t) && WellFormed(WithoutFrames(t, gone)) && v !in gone
    requires Covers(Recorded(WithoutFrames(t, gone)), rc)
    ensures HasFrame(t, v) ==> FrameOf(t, v) in rc
    ensures forall k: nat :: k in t && v in WithoutFrames(t, gone)[k].frames ==>
              WithoutFrames(t, gone)[k].frames[v] in rc
  {
    var t' := WithoutFrames(t, gone);
    forall k: nat | k in t && v in t[k].frames ensures t[k].frames[v] == FrameOf(t, v) && t[k].frames[v] in rc {
      RecordedAt(t, k, v);
      RecordedAt(t', k, v);
      assert v in On(Recorded(t'), t[k].frames[v]);
    }
  }

  /** What giving up page `v` does when the pages in `gone` are given up already. */
  lemma OneMore(sp: Space, gone: set<nat>, v: nat, m: Memory)
    requires WellFormed(sp.areas) && WellFormed(WithoutFrames(sp.areas, gone)) && v !in gone
    requires HasFrame(sp.areas, v) ==> FrameOf(sp.areas, v) in m.rc
    ensures var r := GiveOne(GivenUp(sp, gone), m, v);
            if v !in sp.pt then r == Some((GivenUp(sp, gone), m))
            else if !Reached(sp.areas, v) then r == None
            else r.Some? && r.value.0 == GivenUp(sp, gone + {v})
                 && if HasFrame(sp.areas, v) then r.value.1 == Release(m, FrameOf(sp.areas, v)) else r.value.1 == m
  {
    SameAreaOf(sp.areas, gone, v);
    ReachedFound(sp.areas, v);
    if v in sp.pt && AreaOf(sp.areas, v).Some? {
      OnlyFound(sp.areas, v);
      if v in sp.areas[AreaOf(sp.areas, v).value].frames {
        OneRecorded(sp, gone, v, m);
      } else {
        OneUnrecorded(sp, gone, v, m);
      }
    }
  }

  lemma OneRecorded(sp: Space, gone: set<nat>, v: nat, m: Memory)
    requires WellFormed(sp.areas) && WellFormed(WithoutFrames(sp.areas, gone)) && v !in gone && v in sp.pt
    requires AreaOf(sp.areas, v).Some? && AreaOf(WithoutFrames(sp.areas, gone), v) == AreaOf(sp.areas, v)
    requires v in sp.areas[AreaOf(sp.areas, v).value].frames && FrameOf(sp.areas, v) in m.rc
    ensures GiveOne(GivenUp(sp, gone), m, v) == Some((GivenUp(sp, gone + {v}), Release(m, FrameOf(sp.areas, v))))
  {
    var k := AreaOf(sp.areas, v).value;
    RecordedAt(sp.areas, k, v);
    GivenUpMore(sp, gone, k, v);
  }

  lemma OneUnrecorded(sp: Space, gone: set<nat>, v: nat, m: Memory)
    requires WellFormed(WithoutFrames(sp.areas, gone)) && v !in gone && v in sp.pt && !HasFrame(sp.areas, v)
    requires AreaOf(WithoutFrames(sp.areas, gone), v).Some?
    ensures GiveOne(GivenUp(sp, gone), m, v) == Some((GivenUp(sp, gone + {v}), m))
  {
    WithoutUnrecorded(sp.areas, gone, v);
    MinusTwice(sp.pt, gone, {v});
  }

  /** One page: it fails when it is mapped and no area is found for it, and joins the others if it is mapped. */
  lemma AdviseOne(sp0: Space, m0: Memory, gone: set<nat>, v: nat, sp: Space, m: Memory)
    requires Advised(sp0, m0, gone, sp, m) && WellFormed(sp0.areas) && WellFormed(sp.areas) && v !in gone
    requires HasFrame(sp0.areas, v) ==> FrameOf(sp0.areas, v) in m.rc
    ensures GiveOne(sp, m, v).None? <==> v in sp0.pt && !Reached(sp0.areas, v)
    ensures GiveOne(sp, m, v).Some? ==>
              var r := GiveOne(sp, m, v).value;
              Advised(sp0, m0, if v in sp0.pt then gone + {v} else gone, r.0, r.1)
  {
    OneMore(sp0, gone, v, m);
    if v in sp0.pt && Reached(sp0.areas, v) {
      DropIfAny(sp0.areas, m0, m, gone, v);
    }
  }

  lemma DropIfAny(t: Tree, m0: Memory, m: Memory, gone: set<nat>, v: nat)
    requires WellFormed(t) && v !in gone && FramesDropped(m0, m, FramesAmong(t, gone))
    requires HasFrame(t, v) ==> FrameOf(t, v) in m.rc
    ensures FramesDropped(m0, if HasFrame(t, v) then Release(m, FrameOf(t, v)) else m, FramesAmong(t, gone + {v}))
  {
    if k: nat :| k in t && v in t[k].frames {
      RecordedAt(t, k, v);
      DropAmong(t, m0, m, gone, k, v);
    } else {
      WithoutUnrecorded(t, gone, v);
    }
  }

  /** A page that an area records is recorded by the area found for it. */
  lemma OnlyFound(t: Tree, v: nat)
    requires WellFormed(t) && AreaOf(t, v).Some?
    ensures HasFrame(t, v) ==> v in t[AreaOf(t, v).value].frames
  {
    if k: nat :| k in t && v in t[k].frames {
      assert Owns(t, k, v) && Covered(t, v);
      OneOwner(t, AreaOf(t, v).value, k, v);
    }
  }

  lemma FailsMore(sp: Space, s: nat, v: nat, e: nat)
    requires s <= v < e && !FailsIn(sp, s, v)
    ensures if v in sp.pt && !Reached(sp.areas, v) then FailsIn(sp, s, e) else !FailsIn(sp, s, v + 1)
  {
  }

  /** One round of the loop: page `v` of `[s, e)`. */
  lemma AdviseRound(sp0: Space, m0: Memory, s: nat, v: nat, e: nat, gone: set<nat>, sp: Space, m: Memory)
    returns (gone': set<nat>)
    requires s <= v < e && gone == MappedIn(sp0, s, v) && Advised(sp0, m0, gone, sp, m) && !FailsIn(sp0, s, v)
    requires WellFormed(sp0.areas) && Covers(Recorded(sp0.areas), m0.rc)
    ensures WellFormed(sp.areas) && gone' == MappedIn(sp0, s, v + 1)
    ensures forall k: nat :: k in sp.areas && v in sp.areas[k].frames ==> sp.areas[k].frames[v] in m.rc
    ensures match GiveOne(sp, m, v)
            case None => FailsIn(sp0, s, e)
            case Some(r) => !FailsIn(sp0, s, v + 1) && Advised(sp0, m0, gone', r.0, r.1)
  {
    gone' := if v in sp0.pt then gone + {v} else gone;
    FailsMore(sp0, s, v, e);
    MappedMore(sp0, s, v);
    AdviseCovers(sp0, m0, gone, sp, m);
    RecordedLive(sp0.areas, gone, v, m.rc);
    AdviseOne(sp0, m0, gone, v, sp, m);
  }

  /** A space that agrees with its page table lets no range fail. */
  lemma AgreementFinds(sp: Space, s: nat, e: nat)
    requires WellFormed(sp.areas) && Agree(sp.areas, sp.pt)
    ensures !FailsIn(sp, s, e)
  {
    forall v: nat | v in sp.pt ensures Reached(sp.areas, v) {
      assert HasFrame(sp.areas, v);
    }
  }
}
