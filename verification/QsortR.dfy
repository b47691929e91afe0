/** `qsort_r` of the C support library: an in-place Shell sort of elements of any width. */
module ShellSort {

  type Compare = (seq<bv8>, seq<bv8>) -> int

  ghost predicate Le(cmp: Compare, a: seq<bv8>, b: seq<bv8>) {
    cmp(a, b) <= 0
  }

  ghost predicate Total(cmp: Compare) {
    forall a: seq<bv8>, b: seq<bv8> :: Le(cmp, a, b) || Le(cmp, b, a)
  }

  ghost predicate Transitive(cmp: Compare) {
    forall a: seq<bv8>, b: seq<bv8>, c: seq<bv8> :: Le(cmp, a, b) && Le(cmp, b, c) ==> Le(cmp, a, c)
  }

  /** Element `x` and the one `g` further on are in order, as far as `upTo`. */
  ghost predicate GapSorted(cmp: Compare, s: seq<seq<bv8>>, g: nat, upTo: nat) {
    upTo <= |s| && forall x, y :: 0 <= x && y == x + g && y < upTo ==> Le(cmp, s[x], s[y])
  }

  /** The elements up to `e` are in order except that the one at `p` may belong further down. */
  ghost predicate Sinking(cmp: Compare, s: seq<seq<bv8>>, g: nat, e: nat, p: nat) {
    && p <= e < |s| && 0 < g
    && (forall x, y :: 0 <= x && y == x + g && y <= e && y != p ==> Le(cmp, s[x], s[y]))
    && (p >= g && p + g <= e ==> Le(cmp, s[p - g], s[p + g]))
  }

  ghost function Swap<T>(s: seq<T>, x: nat, y: nat): seq<T>
    requires x < |s| && y < |s|
  {
    s[x := s[y]][y := s[x]]
  }

  lemma SwapPermutes<T>(s: seq<T>, x: nat, y: nat)
    requires x < y < |s|
    ensures multiset(Swap(s, x, y)) == multiset(s)
  {
  }

  lemma SinkStart(cmp: Compare, s: seq<seq<bv8>>, g: nat, e: nat)
    requires GapSorted(cmp, s, g, e) && 0 < g && e < |s|
    ensures Sinking(cmp, s, g, e, e)
  {
  }

  lemma SinkSwap(cmp: Compare, s: seq<seq<bv8>>, g: nat, e: nat, p: nat)
    requires Total(cmp) && Sinking(cmp, s, g, e, p) && p >= g && !Le(cmp, s[p - g], s[p])
    ensures Sinking(cmp, Swap(s, p - g, p), g, e, p - g)
  {
    var s' := Swap(s, p - g, p);
    assert Le(cmp, s'[p - g], s'[p]);
    forall x, y | 0 <= x && y == x + g && y <= e && y != p - g ensures Le(cmp, s'[x], s'[y]) {
      if x != p && y != p {
        assert s'[x] == s[x] && s'[y] == s[y];
      }
    }
    if p - g >= g {
      assert Le(cmp, s[p - g - g], s[p - g]);
    }
  }

  lemma SinkDone(cmp: Compare, s: seq<seq<bv8>>, g: nat, e: nat, p: nat)
    requires Sinking(cmp, s, g, e, p) && (p < g || Le(cmp, s[p - g], s[p]))
    ensures GapSorted(cmp, s, g, e + 1)
  {
  }

  ghost predicate Sorted(cmp: Compare, s: seq<seq<bv8>>) {
    forall x, y :: 0 <= x < y < |s| ==> Le(cmp, s[x], s[y])
  }

  lemma {:induction false} PairInOrder(cmp: Compare, s: seq<seq<bv8>>, x: nat, y: nat)
    requires Transitive(cmp) && GapSorted(cmp, s, 1, |s|) && x < y < |s|
    ensures Le(cmp, s[x], s[y])
    decreases y - x
  {
    assert Le(cmp, s[x], s[x + 1]);
    if x + 1 < y {
      PairInOrder(cmp, s, x + 1, y);
    }
  }

  lemma GapOneSorted(cmp: Compare, s: seq<seq<bv8>>)
    requires Transitive(cmp) && GapSorted(cmp, s, 1, |s|)
    ensures Sorted(cmp, s)
  {
    forall x, y | 0 <= x < y < |s| ensures Le(cmp, s[x], s[y]) {
      PairInOrder(cmp, s, x, y);
    }
  }

  /** The gaps 1, 4, 13, 40 and so on. */
  predicate IsGap(g: nat) {
    g == 1 || (g > 1 && g % 3 == 1 && IsGap((g - 1) / 3))
  }
}

/** Elements as stretches of a byte array. */
module Elements {
  import opened ShellSort

  /** Where element `e` of width `w` starts: after `e` elements. */
  ghost function At(e: nat, w: nat): nat {
    if e == 0 then 0 else At(e - 1, w) + w
  }

  lemma {:induction false} AtIsProduct(e: nat, w: nat)
    ensures At(e, w) == e * w
  {
    if e > 0 {
      AtIsProduct(e - 1, w);
      assert e * w == (e - 1) * w + w;
    }
  }

  lemma {:induction false} AtAdds(e: nat, f: nat, w: nat)
    ensures At(e + f, w) == At(e, w) + At(f, w)
  {
    if f > 0 {
      AtAdds(e, f - 1, w);
    }
  }

  lemma {:induction false} Apart(e: nat, f: nat, w: nat)
    requires e < f
    ensures At(e, w) + w <= At(f, w)
  {
    if e + 1 < f {
      Apart(e, f - 1, w);
    }
  }

  ghost function List(bytes: seq<bv8>, n: nat, w: nat): (r: seq<seq<bv8>>)
    requires At(n, w) <= |bytes|
    ensures |r| == n
  {
    if n == 0 then []
    else
      List(bytes, n - 1, w) + [bytes[At(n - 1, w)..At(n - 1, w) + w]]
  }

  lemma {:induction false} ListAt(bytes: seq<bv8>, n: nat, w: nat, e: nat)
    requires At(n, w) <= |bytes| && e < n
    ensures At(e, w) + w <= |bytes| && List(bytes, n, w)[e] == bytes[At(e, w)..At(e, w) + w]
  {
    if e < n - 1 {
      ListAt(bytes, n - 1, w, e);
    }
  }

  /** Where the byte at `k` came from. */
  ghost function Source(a: nat, b: nat, w: nat, k: nat): nat
    requires a + w <= b
  {
    if a <= k < a + w then k - a + b else if b <= k < b + w then k - b + a else k
  }

  /** The stretches of `w` bytes at `a` and `b` have changed places. */
  ghost predicate Swapped(bytes: seq<bv8>, bytes': seq<bv8>, a: nat, b: nat, w: nat) {
    && |bytes'| == |bytes| && a + w <= b && b + w <= |bytes|
    && forall k: nat :: k < |bytes| ==> bytes'[k] == bytes[Source(a, b, w, k)]
  }

  /** Two stretches that change places, or one that is apart from both. */
  ghost predicate Places(a: nat, b: nat, w: nat, c: nat, d: nat) {
    || (c == a && d == b) || (c == b && d == a)
    || (c == d && (c + w <= a || a + w <= c) && (c + w <= b || b + w <= c))
  }

  lemma SliceFrom(bytes: seq<bv8>, bytes': seq<bv8>, a: nat, b: nat, w: nat, c: nat, d: nat)
    requires Swapped(bytes, bytes', a, b, w) && c + w <= |bytes| && d + w <= |bytes|
    requires Places(a, b, w, c, d)
    ensures bytes'[c..c + w] == bytes[d..d + w]
  {
    var from, to := bytes[d..d + w], bytes'[c..c + w];
    forall i | 0 <= i < w ensures to[i] == from[i] {
      assert Source(a, b, w, c + i) == i + d;
      assert bytes'[c + i] == bytes[d + i];
    }
  }

  lemma ApartFrom(e: nat, x: nat, w: nat)
    requires e != x
    ensures At(e, w) + w <= At(x, w) || At(x, w) + w <= At(e, w)
  {
    if e < x { Apart(e, x, w); } else { Apart(x, e, w); }
  }

  /** Elements that do not overlap the two stretches stay, the two change places. */
  lemma SwapList(bytes: seq<bv8>, bytes': seq<bv8>, n: nat, w: nat, x: nat, y: nat)
    requires x < y < n && At(n, w) <= |bytes| && Swapped(bytes, bytes', At(x, w), At(y, w), w)
    ensures List(bytes', n, w) == Swap(List(bytes, n, w), x, y)
  {
    forall e: nat | e < n ensures List(bytes', n, w)[e] == Swap(List(bytes, n, w), x, y)[e] {
      SwapElement(bytes, bytes', n, w, x, y, e);
    }
  }

  lemma SwapAt<T>(l: seq<T>, x: nat, y: nat, e: nat)
    requires x < y < |l| && e < |l|
    ensures |Swap(l, x, y)| == |l| && Swap(l, x, y)[e] == l[if e == x then y else if e == y then x else e]
  {
  }

  lemma SwapElement(bytes: seq<bv8>, bytes': seq<bv8>, n: nat, w: nat, x: nat, y: nat, e: nat)
    requires x < y < n && e < n && At(n, w) <= |bytes| && Swapped(bytes, bytes', At(x, w), At(y, w), w)
    ensures List(bytes', n, w)[e] == Swap(List(bytes, n, w), x, y)[e]
  {
    var f := if e == x then y else if e == y then x else e;
    SwapAt(List(bytes, n, w), x, y, e);
    ListAt(bytes', n, w, e);
    ListAt(bytes, n, w, f);
    SwapPlaces(x, y, e, f, w);
    SliceFrom(bytes, bytes', At(x, w), At(y, w), w, At(e, w), At(f, w));
  }

  lemma SwapPlaces(x: nat, y: nat, e: nat, f: nat, w: nat)
    requires f == if e == x then y else if e == y then x else e
    ensures Places(At(x, w), At(y, w), w, At(e, w), At(f, w))
  {
    if e != x && e != y {
      ApartFrom(e, x, w);
      ApartFrom(e, y, w);
    }
  }
}

module QsortR {
  import opened ShellSort
  import opened Elements

  const SIZE_MAX: nat := 0xFFFF_FFFF_FFFF_FFFF

  /** Every value the routine computes in a `size_t` fits one. */
  type SizeT = x: nat | x <= SIZE_MAX

  /** The first gap: the least of 1, 4, 13, 40 and so on that is at least a third of the way. */
  method FirstGap(nel: SizeT) returns (gap: SizeT)
    requires nel > 1
    ensures IsGap(gap) && gap < nel && gap >= (nel - 1) / 3
  {
    gap := 1;
    while gap < (nel - 1) / 3
      invariant IsGap(gap) && gap < nel
    {
      assert (3 * gap + 1 - 1) / 3 == gap;
      gap := 3 * gap + 1;
    }
  }

  /** Exchanges two stretches of `width` bytes, byte by byte. */
  method SwapBytes(base: array<bv8>, a: SizeT, b: SizeT, width: SizeT)
    requires 0 < width && a + width <= b && b + width <= base.Length <= SIZE_MAX
    modifies base
    ensures Swapped(old(base[..]), base[..], a, b, width)
  {
    var k: SizeT := 0;
    while k < width
      invariant k <= width
      invariant forall m :: 0 <= m < base.Length ==>
                  base[m] == if a <= m < a + k then old(base[m - a + b])
                             else if b <= m < b + k then old(base[m - b + a])
                             else old(base[m])
    {
      base[a + k], base[b + k] := base[b + k], base[a + k];
      k := k + 1;
    }
  }

  /** The bytes from `m` on are the same. */
  ghost predicate TailKept(bytes: seq<bv8>, bytes': seq<bv8>, m: nat) {
    |bytes'| == |bytes| && forall k: nat :: m <= k < |bytes| ==> bytes'[k] == bytes[k]
  }

  /** `bytes'` has the same elements as `bytes`, in some order, and the same bytes after them. */
  ghost predicate Rearranged(bytes: seq<bv8>, bytes': seq<bv8>, n: nat, w: nat)
    requires At(n, w) <= |bytes|
  {
    TailKept(bytes, bytes', At(n, w)) && multiset(List(bytes', n, w)) == multiset(List(bytes, n, w))
  }

  lemma SwapRearranges(bytes: seq<bv8>, bytes': seq<bv8>, n: nat, w: nat, x: nat, y: nat)
    requires x < y < n && At(n, w) <= |bytes| && Swapped(bytes, bytes', At(x, w), At(y, w), w)
    ensures Rearranged(bytes, bytes', n, w)
  {
    SwapList(bytes, bytes', n, w, x, y);
    SwapPermutes(List(bytes, n, w), x, y);
    Apart(y, n, w);
  }

  lemma RearrangedAgain(b0: seq<bv8>, b1: seq<bv8>, b2: seq<bv8>, n: nat, w: nat)
    requires At(n, w) <= |b0| && Rearranged(b0, b1, n, w) && Rearranged(b1, b2, n, w)
    ensures Rearranged(b0, b2, n, w)
  {
  }

  /** One round of the loop over `j`: the elements at `a` and `b`, `g` places apart, are compared and
      exchanged when they are out of order. */
  method CompareSwap(base: array<bv8>, a: SizeT, b: SizeT, width: SizeT, cmp: Compare,
                     ghost n: nat, ghost g: nat, ghost e: nat, ghost p: nat, ghost bytes: seq<bv8>)
    returns (inOrder: bool, ghost bytes': seq<bv8>)
    requires 0 < width && base[..] == bytes && |bytes| <= SIZE_MAX && At(n, width) <= |bytes|
    requires 0 < g <= p <= e < n && a == At(p - g, width) && b == At(p, width)
    modifies base
    ensures base[..] == bytes' && Rearranged(bytes, bytes', n, width)
    ensures inOrder ==> bytes' == bytes && Le(cmp, List(bytes, n, width)[p - g], List(bytes, n, width)[p])
    ensures !inOrder && Total(cmp) && Sinking(cmp, List(bytes, n, width), g, e, p) ==>
              Sinking(cmp, List(bytes', n, width), g, e, p - g)
  {
    TwoElements(bytes, n, width, p - g, p);
    var first, second := base[a..a + width], base[b..b + width];
    assert first == bytes[a..a + width] && second == bytes[b..b + width];
    inOrder := cmp(first, second) <= 0;
    assert inOrder <==> Le(cmp, List(bytes, n, width)[p - g], List(bytes, n, width)[p]);
    bytes' := bytes;
    if !inOrder {
      SwapBytes(base, a, b, width);
      bytes' := base[..];
      SwapSinks(cmp, bytes, bytes', n, width, g, e, p);
    }
  }

  lemma TwoElements(bytes: seq<bv8>, n: nat, w: nat, x: nat, y: nat)
    requires x < y < n && At(n, w) <= |bytes|
    ensures At(x, w) + w <= At(y, w) && At(y, w) + w <= |bytes|
    ensures List(bytes, n, w)[x] == bytes[At(x, w)..At(x, w) + w]
            && List(bytes, n, w)[y] == bytes[At(y, w)..At(y, w) + w]
  {
    ListAt(bytes, n, w, x);
    ListAt(bytes, n, w, y);
    Apart(x, y, w);
  }

  lemma SwapSinks(cmp: Compare, bytes: seq<bv8>, bytes': seq<bv8>, n: nat, w: nat, g: nat, e: nat, p: nat)
    requires At(n, w) <= |bytes| && 0 < g <= p <= e < n && Swapped(bytes, bytes', At(p - g, w), At(p, w), w)
    requires !Le(cmp, List(bytes, n, w)[p - g], List(bytes, n, w)[p])
    ensures Rearranged(bytes, bytes', n, w)
    ensures Total(cmp) && Sinking(cmp, List(bytes, n, w), g, e, p) ==> Sinking(cmp, List(bytes', n, w), g, e, p - g)
  {
    SwapRearranges(bytes, bytes', n, w, p - g, p);
    SwapList(bytes, bytes', n, w, p - g, p);
    if Total(cmp) && Sinking(cmp, List(bytes, n, w), g, e, p) {
      SinkSwap(cmp, List(bytes, n, w), g, e, p);
    }
  }

  /** Moves the element at `i` down by gaps to its place. */
  method Sink(base: array<bv8>, i: SizeT, wgap: SizeT, width: SizeT, cmp: Compare,
              ghost n: nat, ghost g: nat, ghost e: nat, ghost before: seq<bv8>)
    returns (ghost bytes: seq<bv8>)
    requires 0 < width && base[..] == before && |before| <= SIZE_MAX && At(n, width) <= |before|
    requires 0 < g <= e < n && wgap == At(g, width) && i == At(e, width)
    modifies base
    ensures base[..] == bytes && Rearranged(before, bytes, n, width)
    ensures Total(cmp) && GapSorted(cmp, List(before, n, width), g, e) ==>
              GapSorted(cmp, List(bytes, n, width), g, e + 1)
  {
    var j: SizeT, inOrder := i, false;
    ghost var p: nat := e;
    bytes := before;
    SinkBegins(cmp, before, n, width, g, e);
    while !inOrder && j >= wgap
      invariant base[..] == bytes && SinkState(cmp, before, bytes, n, width, g, e, p, j, inOrder)
      decreases p, !inOrder
    {
      NotBelow(p, g, width);
      AtAdds(p - g, g, width);
      j := j - wgap;
      ghost var was := bytes;
      inOrder, bytes := CompareSwap(base, j, j + wgap, width, cmp, n, g, e, p, bytes);
      SinkGoesOn(cmp, before, was, bytes, n, width, g, e, p, j, inOrder);
      p := if inOrder then p else p - g;
    }
    SinkEnds(cmp, before, bytes, n, width, g, e, p, wgap, j, inOrder);
  }

  /** The loop state of `Sink`: the element is at `p`, and in order the elements are but for it. */
  ghost predicate SinkState(cmp: Compare, before: seq<bv8>, bytes: seq<bv8>, n: nat, w: nat, g: nat, e: nat, p: nat,
                            j: nat, inOrder: bool)
  {
    && At(n, w) <= |before| && 0 < g <= e < n && p <= e && Rearranged(before, bytes, n, w)
    && (if inOrder then
          p >= g && j == At(p - g, w) && Le(cmp, List(bytes, n, w)[p - g], List(bytes, n, w)[p])
        else j == At(p, w))
    && (Total(cmp) && GapSorted(cmp, List(before, n, w), g, e) ==> Sinking(cmp, List(bytes, n, w), g, e, p))
  }

  lemma SinkBegins(cmp: Compare, before: seq<bv8>, n: nat, w: nat, g: nat, e: nat)
    requires At(n, w) <= |before| && 0 < g <= e < n
    ensures SinkState(cmp, before, before, n, w, g, e, e, At(e, w), false)
  {
    if GapSorted(cmp, List(before, n, w), g, e) {
      SinkStart(cmp, List(before, n, w), g, e);
    }
  }

  lemma SinkGoesOn(cmp: Compare, before: seq<bv8>, bytes: seq<bv8>, bytes': seq<bv8>,
                   n: nat, w: nat, g: nat, e: nat, p: nat, j: nat, inOrder: bool)
    requires SinkState(cmp, before, bytes, n, w, g, e, p, At(p, w), false) && g <= p && j == At(p - g, w)
    requires Rearranged(bytes, bytes', n, w)
    requires inOrder ==> bytes' == bytes && Le(cmp, List(bytes, n, w)[p - g], List(bytes, n, w)[p])
    requires !inOrder && Total(cmp) && Sinking(cmp, List(bytes, n, w), g, e, p) ==>
               Sinking(cmp, List(bytes', n, w), g, e, p - g)
    ensures SinkState(cmp, before, bytes', n, w, g, e, if inOrder then p else p - g, j, inOrder)
  {
    RearrangedAgain(before, bytes, bytes', n, w);
  }

  lemma SinkEnds(cmp: Compare, before: seq<bv8>, bytes: seq<bv8>, n: nat, w: nat, g: nat, e: nat, p: nat, wgap: nat,
                 j: nat, inOrder: bool)
    requires SinkState(cmp, before, bytes, n, w, g, e, p, j, inOrder) && wgap == At(g, w) && (inOrder || j < wgap)
    ensures Total(cmp) && GapSorted(cmp, List(before, n, w), g, e) ==> GapSorted(cmp, List(bytes, n, w), g, e + 1)
  {
    if Total(cmp) && GapSorted(cmp, List(before, n, w), g, e) {
      if !inOrder {
        Below(p, g, w);
      }
      SinkDone(cmp, List(bytes, n, w), g, e, p);
    }
  }

  lemma Below(p: nat, g: nat, w: nat)
    requires At(p, w) < At(g, w)
    ensures p < g
  {
    if p > g {
      Apart(g, p, w);
    }
  }

  lemma NotBelow(p: nat, g: nat, w: nat)
    requires 0 < w && At(p, w) >= At(g, w)
    ensures p >= g
  {
    if p < g {
      Apart(p, g, w);
    }
  }

  /** One pass with gap `g`: every element from the `g`-th on is moved down to its place. */
  method GapPass(base: array<bv8>, wgap: SizeT, width: SizeT, wnel: SizeT, cmp: Compare, ghost n: nat, ghost g: nat,
                 ghost before: seq<bv8>)
    returns (ghost bytes: seq<bv8>)
    requires 0 < width && base[..] == before && |before| <= SIZE_MAX && At(n, width) <= |before|
    requires 0 < g < n && wgap == At(g, width) && wnel == At(n, width)
    modifies base
    ensures base[..] == bytes && Rearranged(before, bytes, n, width)
    ensures Total(cmp) ==> GapSorted(cmp, List(bytes, n, width), g, n)
  {
    var i: SizeT := wgap;
    ghost var e := g;
    bytes := before;
    while i < wnel
      invariant g <= e <= n && i == At(e, width) && base[..] == bytes && Rearranged(before, bytes, n, width)
      invariant Total(cmp) ==> GapSorted(cmp, List(bytes, n, width), g, e)
      decreases n - e
    {
      Below(e, n, width);
      ghost var was := bytes;
      bytes := Sink(base, i, wgap, width, cmp, n, g, e, bytes);
      RearrangedAgain(before, was, bytes, n, width);
      Apart(e, e + 1, width);
      Apart(e, n, width);
      i := i + width;
      e := e + 1;
    }
    NotBelow(e, n, width);
  }

  /** One pass, and the next gap. */
  method PassNext(base: array<bv8>, wgap: SizeT, width: SizeT, wnel: SizeT, cmp: Compare,
                  ghost n: nat, ghost g: nat, ghost before: seq<bv8>, ghost was: seq<bv8>)
    returns (wgap': SizeT, ghost g': nat, ghost bytes: seq<bv8>)
    requires 0 < width && base[..] == was && |was| <= SIZE_MAX && At(n, width) <= |was|
    requires 0 < wgap == At(g, width) && wnel == At(n, width) && g > 0 && PassState(cmp, before, was, n, width, g)
    modifies base
    ensures base[..] == bytes && wgap' == At(g', width) && g' < g && PassState(cmp, before, bytes, n, width, g')
  {
    bytes := GapPass(base, wgap, width, wnel, cmp, n, g, was);
    NextGap(g, (g - 1) / 3, width);
    PassStep(cmp, before, was, bytes, n, width, g);
    wgap' := (wgap - width) / 3;
    g' := (g - 1) / 3;
  }

  /** The passes, with smaller and smaller gaps; the last is always that of one element. */
  method Passes(base: array<bv8>, wgap0: SizeT, width: SizeT, wnel: SizeT, cmp: Compare,
                ghost n: nat, ghost g0: nat, ghost before: seq<bv8>)
    returns (ghost bytes: seq<bv8>)
    requires 0 < width && base[..] == before && |before| <= SIZE_MAX && At(n, width) <= |before|
    requires IsGap(g0) && g0 < n && wgap0 == At(g0, width) && wnel == At(n, width)
    modifies base
    ensures base[..] == bytes && Rearranged(before, bytes, n, width)
    ensures Total(cmp) ==> GapSorted(cmp, List(bytes, n, width), 1, n)
  {
    var wgap: SizeT := wgap0;
    ghost var g: nat := g0;
    bytes := before;
    while wgap > 0
      invariant base[..] == bytes && wgap == At(g, width) && PassState(cmp, before, bytes, n, width, g)
      decreases g
    {
      wgap, g, bytes := PassNext(base, wgap, width, wnel, cmp, n, g, before, bytes);
    }
    NotBelow(0, g, width);
  }

  /** Between two passes: `g` is the next gap, and there is none left only when the elements are in order. */
  ghost predicate PassState(cmp: Compare, before: seq<bv8>, bytes: seq<bv8>, n: nat, w: nat, g: nat) {
    && At(n, w) <= |before| && Rearranged(before, bytes, n, w) && g < n && (g > 0 ==> IsGap(g))
    && (g == 0 && Total(cmp) ==> GapSorted(cmp, List(bytes, n, w), 1, n))
  }

  lemma PassStep(cmp: Compare, before: seq<bv8>, was: seq<bv8>, bytes: seq<bv8>, n: nat, w: nat, g: nat)
    requires PassState(cmp, before, was, n, w, g) && g > 0 && Rearranged(was, bytes, n, w)
    requires Total(cmp) ==> GapSorted(cmp, List(bytes, n, w), g, n)
    ensures PassState(cmp, before, bytes, n, w, (g - 1) / 3)
  {
    RearrangedAgain(before, was, bytes, n, w);
    GapShrinks(g);
  }

  /** `qsort_r`. The bytes are always rearranged element by element, whatever the comparison answers; with
      a total preorder the elements end up in order. */
  method Qsort(base: array<bv8>, nel: SizeT, width: SizeT, cmp: Compare)
    requires nel * width <= base.Length <= SIZE_MAX
    modifies base
    ensures At(nel, width) == nel * width && Rearranged(old(base[..]), base[..], nel, width)
    ensures Total(cmp) && Transitive(cmp) ==> Sorted(cmp, List(base[..], nel, width))
  {
    AtIsProduct(nel, width);
    ghost var before := base[..];
    if nel > 1 && width > 0 {
      var gap := FirstGap(nel);
      AtIsProduct(gap, width);
      Apart(gap, nel, width);
      ghost var bytes := Passes(base, gap * width, width, nel * width, cmp, nel, gap, before);
      if Total(cmp) && Transitive(cmp) {
        GapOneSorted(cmp, List(bytes, nel, width));
      }
    } else {
      FewElements(cmp, before, nel, width);
    }
  }

  lemma GapShrinks(g: nat)
    requires IsGap(g)
    ensures var h := (g - 1) / 3; g == 3 * h + 1 && (h > 0 ==> IsGap(h))
  {
  }

  lemma ThreeTimes(h: nat, w: nat)
    ensures At(3 * h + 1, w) == 3 * At(h, w) + w
  {
    AtAdds(h, h, w);
    AtAdds(h + h, h, w);
    assert 3 * h == h + h + h;
  }

  /** A third of a gap, one element less, is the next gap, exactly; below the gap of one there is none. */
  lemma NextGap(g: nat, h: nat, w: nat)
    requires IsGap(g) && h == (g - 1) / 3
    ensures At(g, w) >= w && (At(g, w) - w) / 3 == At(h, w)
    ensures h < g && (h > 0 ==> IsGap(h)) && (h == 0 <==> g == 1)
  {
    GapShrinks(g);
    ThreeTimes(h, w);
  }

  lemma FewElements(cmp: Compare, bytes: seq<bv8>, n: nat, w: nat)
    requires At(n, w) <= |bytes| && (n <= 1 || w == 0)
    ensures Total(cmp) ==> Sorted(cmp, List(bytes, n, w))
  {
    if Total(cmp) {
      forall x, y | 0 <= x < y < n ensures Le(cmp, List(bytes, n, w)[x], List(bytes, n, w)[y]) {
        ListAt(bytes, n, w, x);
        ListAt(bytes, n, w, y);
        assert List(bytes, n, w)[x] == [] && List(bytes, n, w)[y] == [];
        assert Le(cmp, [], []);
      }
    }
  }
}
