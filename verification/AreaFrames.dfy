/** The frames recorded in the areas against the entries of the page table, on values. */
module AreaFrames {
  import opened Base
  import opened Ptes
  import opened Areas
  import opened AreaEdits

  ghost predicate HasFrame(t: Tree, v: nat) {
    exists k: nat :: k in t && v in t[k].frames
  }

  ghost predicate HasFrameIn(t: Tree, ks: seq<nat>, v: nat) {
    exists k: nat :: k in ks && k in t && v in t[k].frames
  }

  lemma DoneStep(t: Tree, done: seq<nat>, k: nat, v: nat)
    requires k in t
    ensures HasFrameIn(t, done + [k], v) <==> HasFrameIn(t, done, v) || v in t[k].frames
  {
    if HasFrameIn(t, done, v) {
      var j: nat :| j in done && j in t && v in t[j].frames;
      assert j in done + [k];
    }
    if v in t[k].frames {
      assert k in done + [k];
    }
  }

  /** A page of an area not yet done is not done. */
  lemma NotDone(t: Tree, done: seq<nat>, k: nat, v: nat)
    requires WellFormed(t) && k in t && k !in done && v in t[k].frames
    ensures !HasFrameIn(t, done, v)
  {
    if HasFrameIn(t, done, v) {
      var j: nat :| j in done && j in t && v in t[j].frames;
      OneOwner(t, j, k, v);
    }
  }

  /** Pages with a frame are mapped to it. */
  ghost predicate EntriesPresent(t: Tree, pt: map<nat, Pte>) {
    forall k: nat, v: nat :: k in t && v in t[k].frames ==> v in pt && pt[v].ppn == t[k].frames[v]
  }

  /** The pages mapped are exactly the pages with a frame, each to its frame. */
  ghost predicate Agree(t: Tree, pt: map<nat, Pte>) {
    EntriesPresent(t, pt) && forall v: nat :: v in pt ==> HasFrame(t, v)
  }

  ghost function FrameAt(t: Tree, v: nat): Option<nat> {
    match Info(t, v)
    case Some(info) => info.frame
    case None => None
  }

  /** The frame page `v` is mapped to. */
  function EntryAt(pt: map<nat, Pte>, v: nat): Option<nat> {
    if v in pt then Some(pt[v].ppn) else None
  }

  /** The agreement page by page. */
  lemma AgreeByPage(t: Tree, pt: map<nat, Pte>)
    requires WellFormed(t)
    ensures Agree(t, pt) <==> forall v: nat :: FrameAt(t, v) == EntryAt(pt, v)
  {
    if Agree(t, pt) {
      forall v: nat ensures FrameAt(t, v) == EntryAt(pt, v) {
        FrameAtHas(t, v);
        if v in pt {
          var k: nat :| k in t && v in t[k].frames;
          InfoAt(t, k, v);
        }
      }
    }
    if forall v: nat :: FrameAt(t, v) == EntryAt(pt, v) {
      forall k: nat, v: nat | k in t && v in t[k].frames ensures v in pt && pt[v].ppn == t[k].frames[v] {
        InfoAt(t, k, v);
        assert FrameAt(t, v) == EntryAt(pt, v);
      }
      forall v: nat | v in pt ensures HasFrame(t, v) {
        assert FrameAt(t, v) == EntryAt(pt, v);
        FrameAtHas(t, v);
      }
    }
  }

  lemma FrameAtHas(t: Tree, v: nat)
    requires WellFormed(t)
    ensures HasFrame(t, v) <==> FrameAt(t, v).Some?
  {
    if HasFrame(t, v) {
      var k: nat :| k in t && v in t[k].frames;
      InfoAt(t, k, v);
    }
    if FrameAt(t, v).Some? {
      var k: nat :| Owns(t, k, v);
      InfoAt(t, k, v);
    }
  }

  function Frameless(i: Option<PageInfo>): Option<PageInfo> {
    match i
    case Some(info) => Some(info.(frame := None))
    case None => None
  }

  /** The tree after page `v` of the area at `k` has given up its frame. */
  function Forget(t: Tree, k: nat, v: nat): Tree
    requires k in t
  {
    t[k := t[k].(frames := t[k].frames - {v})]
  }

  lemma ForgetWellFormed(t: Tree, k: nat, v: nat)
    requires WellFormed(t) && k in t
    ensures WellFormed(Forget(t, k, v))
  {
  }

  lemma ForgetPage(t: Tree, k: nat, v: nat, p: nat)
    requires WellFormed(t) && Owns(t, k, v)
    ensures Info(Forget(t, k, v), p) == if p == v then Frameless(Info(t, p)) else Info(t, p)
  {
    ForgetWellFormed(t, k, v);
    var t' := Forget(t, k, v);
    if j: nat :| Owns(t, j, p) {
      InfoAt(t, j, p);
      InfoAt(t', j, p);
      if p == v {
        OneOwner(t, j, k, p);
      }
    } else if j: nat :| Owns(t', j, p) {
      assert Owns(t, j, p);
      assert false;
    }
  }

  function PteAt(pt: map<nat, Pte>, v: nat): Option<Pte> {
    if v in pt then Some(pt[v]) else None
  }

  lemma ForgetAgrees(t: Tree, pt: map<nat, Pte>, k: nat, v: nat)
    requires WellFormed(t) && Agree(t, pt) && Owns(t, k, v)
    ensures WellFormed(Forget(t, k, v)) && Agree(Forget(t, k, v), pt - {v})
    ensures forall p: nat :: Info(Forget(t, k, v), p) == if p == v then Frameless(Info(t, p)) else Info(t, p)
  {
    ForgetWellFormed(t, k, v);
    AgreeByPage(t, pt);
    forall p: nat
      ensures FrameAt(Forget(t, k, v), p) == EntryAt(pt - {v}, p)
      ensures Info(Forget(t, k, v), p) == if p == v then Frameless(Info(t, p)) else Info(t, p)
    {
      ForgetPage(t, k, v, p);
      assert FrameAt(t, p) == EntryAt(pt, p);
    }
    AgreeByPage(Forget(t, k, v), pt - {v});
  }

  // ---- sets of pages ----

  /** The page numbers `[s, e)`. */
  ghost function Interval(s: nat, e: nat): (r: set<nat>)
    ensures forall v: nat :: v in r <==> s <= v < e
    ensures s <= e ==> |r| == e - s
    decreases e
  {
    if e <= s then {} else Interval(s, e - 1) + {e - 1}
  }

  /** A set of pages from `s` on without holes is an interval. */
  lemma DownClosed(keys: set<nat>, s: nat)
    requires forall v: nat :: v in keys ==> s <= v
    requires forall v: nat, w: nat :: w in keys && s <= v < w ==> v in keys
    ensures keys == Interval(s, s + |keys|)
  {
    var all := Interval(s, s + |keys|);
    if w: nat :| w in keys && w !in all {
      assert all + {w} <= keys;
      NoLarger(all + {w}, keys);
    } else {
      EqualSize(keys, all);
    }
  }

  lemma EqualSize(x: set<nat>, y: set<nat>)
    requires x <= y && |x| == |y|
    ensures x == y
  {
    if e :| e in y && e !in x {
      NoLarger(x + {e}, y);
    }
  }
}
