/** How the kernel reaches user memory: translating addresses one page at a time, copying in both
    directions across page ends, and the scatter list of a user range. */
module UserMemory {
  import opened Base
  import opened Address
  import opened Ptes
  import opened RadixTrees

  /** For a page number, the entry that `find_pte` hands out. It is handed out whenever the last table
      exists, so it may be an invalid one. */
  type Translation = map<nat, Pte>

  datatype TranslateError = TranslationFailed(va: nat) | PermissionDenied(va: nat) | InternalBufferOverflow

  datatype CopyResult = CopyOk(n: nat) | CopyErr(error: TranslateError)

  /** For the pages below `bound`, the entries that `find_pte` hands out in a page table. */
  ghost function HandedOut(levels: nat, root: nat, tables: Tables, bound: nat): Translation
    requires levels > 0
  {
    map v: nat | 0 <= v < bound && Walks(levels, root, tables, v) :: Leaf(levels, root, tables, v)
  }

  /** Every frame lies inside the physical memory of `size` bytes. */
  ghost predicate InRam(t: Translation, size: nat) {
    forall v: nat :: v in t ==> (t[v].ppn + 1) * PAGE_SIZE <= size
  }

  /** An address `translate_va` translates, or with `write` one that `translate_va_with_perm` does. */
  predicate Good(t: Translation, va: nat, write: bool) {
    Floor(va) in t && (write ==> t[Floor(va)].flags.w)
  }

  /** The physical address of a good address. */
  function Pa(t: Translation, va: nat): nat {
    if Floor(va) in t then t[Floor(va)].ppn * PAGE_SIZE + PageOffset(va) else 0
  }

  ghost predicate AllGood(t: Translation, va: nat, n: nat, write: bool) {
    forall a: nat :: va <= a < va + n ==> Good(t, a, write)
  }

  /** How many of the `n` addresses from `va` on are good before the first that is not. */
  ghost function Reach(t: Translation, va: nat, n: nat, write: bool): (r: nat)
    ensures IsReach(t, va, n, write, r)
    decreases n
  {
    if n == 0 || !Good(t, va, write) then 0 else Reach(t, va + 1, n - 1, write) + 1
  }

  /** Where the bytes of a user range are. */
  ghost function Addresses(t: Translation, va: nat, n: nat): (r: seq<nat>)
    ensures |r| == n && forall k :: 0 <= k < n ==> r[k] == Pa(t, va + k)
  {
    if n == 0 then [] else Addresses(t, va, n - 1) + [Pa(t, va + n - 1)]
  }

  /** Addresses through a page table: a byte can be read as soon as the last table of its page exists, and
      written exactly when the page is mapped with the write right. A mapped page leads to its frame; of a
      page that is not mapped the answer is in frame 0. */
  lemma GoodInTable(levels: nat, root: nat, tables: Tables, place: map<nat, Spot>, bound: nat, va: nat)
    requires Placed(levels, root, tables, place) && Clean(tables, place) && Floor(va) < bound
    ensures var t, pages, v := HandedOut(levels, root, tables, bound), Mapping(levels, root, tables), Floor(va);
            && (Good(t, va, false) <==> Walks(levels, root, tables, v))
            && (Good(t, va, true) <==> Key(levels, v) in pages && pages[Key(levels, v)].flags.w)
            && (Key(levels, v) in pages ==> Pa(t, va) == pages[Key(levels, v)].ppn * PAGE_SIZE + PageOffset(va))
            && (Good(t, va, false) && Key(levels, v) !in pages ==> Pa(t, va) == PageOffset(va))
  {
    var v := Floor(va);
    MappedLeaf(levels, root, tables, v);
    TopPrefix(levels, v);
    LastTablePlace(levels, root, tables, place, root, levels - 1, v);
    if Walks(levels, root, tables, v) {
      LeafIsEntry(levels, root, tables, place, v, LastTable(tables, root, levels - 1, v).value);
    }
  }

  /** If the frames of the mapped pages lie in a memory of at least one page, so does all that is handed out. */
  lemma HandedOutInRam(levels: nat, root: nat, tables: Tables, place: map<nat, Spot>, bound: nat, size: nat)
    requires Placed(levels, root, tables, place) && Clean(tables, place) && size >= PAGE_SIZE
    requires InRam(Mapping(levels, root, tables), size)
    ensures InRam(HandedOut(levels, root, tables, bound), size)
  {
    forall v: nat | v in HandedOut(levels, root, tables, bound)
      ensures (HandedOut(levels, root, tables, bound)[v].ppn + 1) * PAGE_SIZE <= size
    {
      MappedLeaf(levels, root, tables, v);
      TopPrefix(levels, v);
      LastTablePlace(levels, root, tables, place, root, levels - 1, v);
      LeafIsEntry(levels, root, tables, place, v, LastTable(tables, root, levels - 1, v).value);
    }
  }

  // ---- bytes at a list of physical addresses ----

  ghost predicate Inside(addrs: seq<nat>, size: nat) {
    forall k :: 0 <= k < |addrs| ==> addrs[k] < size
  }

  ghost function LoadAt(phys: seq<bv8>, addrs: seq<nat>): seq<bv8>
    requires Inside(addrs, |phys|)
  {
    seq(|addrs|, k requires 0 <= k < |addrs| => phys[addrs[k]])
  }

  /** Storing the bytes of `b` at the addresses, one after the other. */
  ghost function StoreAt(phys: seq<bv8>, addrs: seq<nat>, b: seq<bv8>): (r: seq<bv8>)
    requires |addrs| == |b| && Inside(addrs, |phys|)
    ensures |r| == |phys|
    decreases |b|
  {
    if b == [] then phys
    else
      var n := |b| - 1;
      StoreAt(phys, addrs[..n], b[..n])[addrs[n] := b[n]]
  }

  ghost predicate Distinct(addrs: seq<nat>) {
    forall i, j :: 0 <= i < j < |addrs| ==> addrs[i] != addrs[j]
  }

  /** Bytes that are not stored to keep their value. */
  lemma {:induction false} StoreElsewhere(phys: seq<bv8>, addrs: seq<nat>, b: seq<bv8>, a: nat)
    requires |addrs| == |b| && Inside(addrs, |phys|) && a < |phys| && a !in addrs
    ensures StoreAt(phys, addrs, b)[a] == phys[a]
    decreases |b|
  {
    if b != [] {
      StoreElsewhere(phys, addrs[..|b| - 1], b[..|b| - 1], a);
    }
  }

  /** A byte stored to an address that no later byte is stored to is there afterwards. */
  lemma {:induction false} StoredByte(phys: seq<bv8>, addrs: seq<nat>, b: seq<bv8>, k: nat)
    requires |addrs| == |b| && Inside(addrs, |phys|) && k < |b|
    requires forall j :: k < j < |b| ==> addrs[j] != addrs[k]
    ensures StoreAt(phys, addrs, b)[addrs[k]] == b[k]
    decreases |b|
  {
    if k < |b| - 1 {
      StoredByte(phys, addrs[..|b| - 1], b[..|b| - 1], k);
    }
  }

  lemma ReadBack(phys: seq<bv8>, addrs: seq<nat>, b: seq<bv8>)
    requires Inside(addrs, |phys|) && |b| == |addrs| && Distinct(addrs)
    ensures LoadAt(StoreAt(phys, addrs, b), addrs) == b
  {
    forall k: nat | k < |b| ensures StoreAt(phys, addrs, b)[addrs[k]] == b[k] {
      StoredByte(phys, addrs, b, k);
    }
  }

  /** Two bytes that differ are not both read back from one address. */
  lemma ReadBackClash(phys: seq<bv8>, addrs: seq<nat>, b: seq<bv8>, i: nat, j: nat)
    requires Inside(addrs, |phys|) && |b| == |addrs| && i < j < |b| && addrs[i] == addrs[j] && b[i] != b[j]
    ensures LoadAt(StoreAt(phys, addrs, b), addrs) != b
  {
    var r := LoadAt(StoreAt(phys, addrs, b), addrs);
    assert r[i] == r[j];
  }

  /** Reading back what was stored gives it for every content exactly when no two addresses are the same. */
  lemma RoundTrip(phys: seq<bv8>, addrs: seq<nat>)
    requires Inside(addrs, |phys|)
    ensures (forall b: seq<bv8> :: |b| == |addrs| ==> LoadAt(StoreAt(phys, addrs, b), addrs) == b) <==> Distinct(addrs)
  {
    if Distinct(addrs) {
      forall b: seq<bv8> | |b| == |addrs| ensures LoadAt(StoreAt(phys, addrs, b), addrs) == b {
        ReadBack(phys, addrs, b);
      }
    } else {
      var i, j :| 0 <= i < j < |addrs| && addrs[i] == addrs[j];
      var b := seq(|addrs|, k => if k == i then 1 as bv8 else 0);
      ReadBackClash(phys, addrs, b, i, j);
    }
  }

  // ---- a run of consecutive addresses ----

  ghost function Run(pa: nat, n: nat): seq<nat> {
    seq(n, k requires 0 <= k < n => pa + k)
  }

  /** `copy_from_slice` into the bytes from `pa` on. */
  ghost function Overwrite(phys: seq<bv8>, pa: nat, b: seq<bv8>): (r: seq<bv8>)
    requires pa + |b| <= |phys|
    ensures |r| == |phys|
  {
    phys[..pa] + b + phys[pa + |b|..]
  }

  /** Storing a run after other addresses is overwriting a slice. */
  lemma {:induction false} StoreRun(phys: seq<bv8>, addrs: seq<nat>, b: seq<bv8>, pa: nat, c: seq<bv8>)
    requires |addrs| == |b| && Inside(addrs, |phys|) && pa + |c| <= |phys|
    ensures Inside(addrs + Run(pa, |c|), |phys|)
    ensures StoreAt(phys, addrs + Run(pa, |c|), b + c) == Overwrite(StoreAt(phys, addrs, b), pa, c)
    decreases |c|
  {
    if c == [] {
      assert addrs + Run(pa, 0) == addrs && b + c == b;
    } else {
      var m := |c| - 1;
      StoreRun(phys, addrs, b, pa, c[..m]);
      RunLast(addrs, pa, m);
      BytesLast(b, c);
      StoreLast(phys, addrs + Run(pa, m), b + c[..m], pa + m, c[m]);
      OverwriteLast(StoreAt(phys, addrs, b), pa, c);
    }
  }

  lemma RunLast(addrs: seq<nat>, pa: nat, m: nat)
    ensures addrs + Run(pa, m + 1) == (addrs + Run(pa, m)) + [pa + m]
  {
    assert Run(pa, m + 1) == Run(pa, m) + [pa + m];
  }

  lemma BytesLast(b: seq<bv8>, c: seq<bv8>)
    requires c != []
    ensures b + c == (b + c[..|c| - 1]) + [c[|c| - 1]]
  {
  }

  lemma BytesMore(src: seq<bv8>, n: nat, len: nat)
    requires n + len <= |src|
    ensures src[..n + len] == src[..n] + src[n..n + len]
  {
  }

  lemma StoreLast(phys: seq<bv8>, addrs: seq<nat>, b: seq<bv8>, a: nat, x: bv8)
    requires |addrs| == |b| && Inside(addrs, |phys|) && a < |phys|
    ensures Inside(addrs + [a], |phys|) && StoreAt(phys, addrs + [a], b + [x]) == StoreAt(phys, addrs, b)[a := x]
  {
    assert (addrs + [a])[..|b|] == addrs && (b + [x])[..|b|] == b;
  }

  lemma OverwriteLast(s: seq<bv8>, pa: nat, c: seq<bv8>)
    requires c != [] && pa + |c| <= |s|
    ensures var m := |c| - 1;
            Overwrite(s, pa, c) == Overwrite(s, pa, c[..m])[pa + m := c[m]]
  {
  }

  /** The addresses of a range that stays in one page are a run. */
  lemma PageRun(t: Translation, va: nat, n: nat, len: nat)
    requires AllGood(t, va, n + len, false) && PageOffset(va + n) + len <= PAGE_SIZE
    ensures Addresses(t, va, n + len) == Addresses(t, va, n) + Run(Pa(t, va + n), len)
  {
    var whole, parts := Addresses(t, va, n + len), Addresses(t, va, n) + Run(Pa(t, va + n), len);
    forall i: nat | i < n + len ensures whole[i] == parts[i] {
      if i >= n {
        SamePage(va + n, i - n);
        assert Good(t, va + n, false);
      }
    }
  }

  lemma SamePage(va: nat, k: nat)
    requires PageOffset(va) + k < PAGE_SIZE
    ensures Floor(va + k) == Floor(va) && PageOffset(va + k) == PageOffset(va) + k
  {
  }

  /** How many of `n` bytes from `va` on are in its page. */
  function InPage(va: nat, n: nat): (len: nat)
    ensures len <= n && PageOffset(va) + len <= PAGE_SIZE && (n > 0 ==> len > 0)
  {
    Min(n, PAGE_SIZE - PageOffset(va))
  }

  ghost predicate IsReach(t: Translation, va: nat, n: nat, write: bool, r: nat) {
    r <= n && AllGood(t, va, r, write) && (r < n ==> !Good(t, va + r, write))
  }

  lemma OneReach(t: Translation, va: nat, n: nat, write: bool, r: nat)
    requires IsReach(t, va, n, write, r)
    ensures r == Reach(t, va, n, write)
  {
  }

  /** When an address is good, so is the rest of its page. */
  lemma GoodPage(t: Translation, va: nat, write: bool, done: nat, len: nat)
    requires AllGood(t, va, done, write) && Good(t, va + done, write)
    requires PageOffset(va + done) + len <= PAGE_SIZE
    ensures AllGood(t, va, done + len, write) && AllGood(t, va, done + len, false)
  {
    forall a: nat | va <= a < va + done + len ensures Good(t, a, write) && Good(t, a, false) {
      if a >= va + done {
        SamePage(va + done, a - (va + done));
      }
    }
  }

  /** `now` is `before` with the first `n` bytes of `src` stored at `va`. */
  ghost predicate StoredSoFar(t: Translation, before: seq<bv8>, now: seq<bv8>, va: nat, src: seq<bv8>, n: nat) {
    && n <= |src| && Inside(Addresses(t, va, n), |before|)
    && now == StoreAt(before, Addresses(t, va, n), src[..n])
  }

  /** A slice of one page lies inside the memory its frame lies in. */
  lemma SliceInside(t: Translation, va: nat, len: nat, size: nat)
    requires Good(t, va, false) && InRam(t, size) && PageOffset(va) + len <= PAGE_SIZE
    ensures Pa(t, va) + len <= size
  {
  }

  /** Overwriting a slice of one page stores the next bytes. */
  lemma StoreStep(t: Translation, before: seq<bv8>, now: seq<bv8>, va: nat, src: seq<bv8>, n: nat, len: nat)
    requires StoredSoFar(t, before, now, va, src, n) && InRam(t, |before|)
    requires 0 < len && n + len <= |src| && AllGood(t, va, n + len, false) && PageOffset(va + n) + len <= PAGE_SIZE
    ensures Pa(t, va + n) + len <= |before| && |now| == |before|
    ensures StoredSoFar(t, before, Overwrite(now, Pa(t, va + n), src[n..n + len]), va, src, n + len)
  {
    assert Good(t, va + n, false);
    SliceInside(t, va + n, len, |before|);
    PageRun(t, va, n, len);
    StoreSlice(before, Addresses(t, va, n), src, n, len, Pa(t, va + n), Addresses(t, va, n + len));
  }

  lemma StoreSlice(before: seq<bv8>, addrs: seq<nat>, src: seq<bv8>, n: nat, len: nat, pa: nat, addrs': seq<nat>)
    requires n + len <= |src| && |addrs| == n && Inside(addrs, |before|) && pa + len <= |before|
    requires addrs' == addrs + Run(pa, len)
    ensures Inside(addrs', |before|)
    ensures StoreAt(before, addrs', src[..n + len])
            == Overwrite(StoreAt(before, addrs, src[..n]), pa, src[n..n + len])
  {
    BytesMore(src, n, len);
    StoreRun(before, addrs, src[..n], pa, src[n..n + len]);
  }

  /** `now` is `before` with its first `n` bytes read from `va`. */
  ghost predicate LoadedSoFar(t: Translation, phys: seq<bv8>, before: seq<bv8>, now: seq<bv8>, va: nat, n: nat) {
    && n <= |before| && Inside(Addresses(t, va, n), |phys|)
    && now == LoadAt(phys, Addresses(t, va, n)) + before[n..]
  }

  /** Reading a slice of one page reads the next bytes. */
  lemma LoadStep(t: Translation, phys: seq<bv8>, before: seq<bv8>, now: seq<bv8>, va: nat, n: nat, len: nat, pa: nat)
    requires LoadedSoFar(t, phys, before, now, va, n) && InRam(t, |phys|) && |now| == |before|
    requires n + len <= |before| && AllGood(t, va, n + len, false) && PageOffset(va + n) + len <= PAGE_SIZE
    requires pa == Pa(t, va + n) && pa + len <= |phys|
    ensures LoadedSoFar(t, phys, before, Overwrite(now, n, phys[pa..pa + len]), va, n + len)
  {
    PageRun(t, va, n, len);
    LoadRun(phys, Addresses(t, va, n), pa, len);
    OverwriteNext(LoadAt(phys, Addresses(t, va, n)), before, phys[pa..pa + len]);
  }

  lemma LoadRun(phys: seq<bv8>, addrs: seq<nat>, pa: nat, len: nat)
    requires Inside(addrs, |phys|) && pa + len <= |phys|
    ensures Inside(addrs + Run(pa, len), |phys|)
    ensures LoadAt(phys, addrs + Run(pa, len)) == LoadAt(phys, addrs) + phys[pa..pa + len]
  {
  }

  lemma OverwriteNext(done: seq<bv8>, before: seq<bv8>, c: seq<bv8>)
    requires |done| + |c| <= |before|
    ensures Overwrite(done + before[|done|..], |done|, c) == done + c + before[|done| + |c|..]
  {
  }

  /** The range has a byte in page `v`. */
  ghost predicate Touches(t: Translation, va: nat, n: nat, v: nat) {
    v in t && va < (v + 1) * PAGE_SIZE && v * PAGE_SIZE < va + n
  }

  /** The pages of the range have frames of their own. */
  ghost predicate OwnPages(t: Translation, va: nat, n: nat) {
    forall v: nat, u: nat :: Touches(t, va, n, v) && Touches(t, va, n, u) && v != u ==> t[v].ppn != t[u].ppn
  }

  /** Translating to distinct physical bytes follows from distinct pages being on distinct frames. */
  lemma DistinctFrames(t: Translation, va: nat, n: nat)
    requires AllGood(t, va, n, false) && OwnPages(t, va, n)
    ensures Distinct(Addresses(t, va, n))
  {
    var addrs := Addresses(t, va, n);
    forall i, j | 0 <= i < j < n ensures addrs[i] != addrs[j] {
      var v, u := Floor(va + i), Floor(va + j);
      assert Good(t, va + i, false) && Good(t, va + j, false);
      if v != u {
        assert Touches(t, va, n, v) && Touches(t, va, n, u);
      }
    }
  }

  /** `copy_to_user_bytes` and then `copy_from_user_bytes` on the same range give the bytes back when the
      range has no byte twice, and nothing outside the range has changed. */
  lemma CopyOutAndIn(t: Translation, ram: seq<bv8>, ram': seq<bv8>, va: nat, b: seq<bv8>, buf: seq<bv8>, buf': seq<bv8>)
    requires StoredSoFar(t, ram, ram', va, b, |b|) && LoadedSoFar(t, ram', buf, buf', va, |b|)
    requires Distinct(Addresses(t, va, |b|))
    ensures buf' == b + buf[|b|..]
    ensures |ram'| == |ram| && forall a: nat :: a < |ram| && a !in Addresses(t, va, |b|) ==> ram'[a] == ram[a]
  {
    assert b[..|b|] == b;
    ReadBack(ram, Addresses(t, va, |b|), b);
    forall a: nat | a < |ram| && a !in Addresses(t, va, |b|) ensures ram'[a] == ram[a] {
      StoreElsewhere(ram, Addresses(t, va, |b|), b, a);
    }
  }

  // ---- scatter lists ----

  /** A slice of one frame. */
  datatype Segment = Segment(ppn: nat, lo: nat, hi: nat)

  ghost predicate Slice(s: Segment) {
    s.lo < s.hi <= PAGE_SIZE
  }

  ghost function SegmentRun(s: Segment): seq<nat> {
    if s.lo <= s.hi then Run(s.ppn * PAGE_SIZE + s.lo, s.hi - s.lo) else []
  }

  ghost function SegmentRuns(segs: seq<Segment>): (r: seq<seq<nat>>)
    ensures |r| == |segs| && forall i :: 0 <= i < |segs| ==> r[i] == SegmentRun(segs[i])
  {
    if segs == [] then [] else SegmentRuns(segs[..|segs| - 1]) + [SegmentRun(segs[|segs| - 1])]
  }

  ghost function Flat<T>(ss: seq<seq<T>>): seq<T> {
    if ss == [] then [] else ss[0] + Flat(ss[1..])
  }

  lemma {:induction false} FlatAppend<T>(ss: seq<seq<T>>, s: seq<T>)
    ensures Flat(ss + [s]) == Flat(ss) + s
  {
    if ss == [] {
      assert Flat([s]) == s + Flat<T>([]);
    } else {
      FlatAppend(ss[1..], s);
      assert (ss + [s])[1..] == ss[1..] + [s];
    }
  }

  /** What the slices hold. */
  ghost function Contents(phys: seq<bv8>, runs: seq<seq<nat>>): (r: seq<seq<bv8>>)
    requires Inside(Flat(runs), |phys|)
    decreases |runs|
  {
    if runs == [] then []
    else
      InsideParts(runs, |phys|);
      Contents(phys, runs[..|runs| - 1]) + [LoadAt(phys, runs[|runs| - 1])]
  }

  lemma InsideParts(runs: seq<seq<nat>>, size: nat)
    requires runs != [] && Inside(Flat(runs), size)
    ensures var front, last := runs[..|runs| - 1], runs[|runs| - 1];
            Flat(runs) == Flat(front) + last && Inside(Flat(front), size) && Inside(last, size)
  {
    var front, last := runs[..|runs| - 1], runs[|runs| - 1];
    FlatAppend(front, last);
    assert runs == front + [last];
    var all := Flat(runs);
    assert forall k :: 0 <= k < |Flat(front)| ==> all[k] == Flat(front)[k];
    assert forall k :: 0 <= k < |last| ==> all[|Flat(front)| + k] == last[k];
  }

  /** The bytes of a scatter list in order are the bytes at its addresses in order. */
  lemma {:induction false} ContentsFlat(phys: seq<bv8>, runs: seq<seq<nat>>)
    requires Inside(Flat(runs), |phys|)
    ensures Flat(Contents(phys, runs)) == LoadAt(phys, Flat(runs))
    decreases |runs|
  {
    if runs != [] {
      var front, last := runs[..|runs| - 1], runs[|runs| - 1];
      InsideParts(runs, |phys|);
      ContentsFlat(phys, front);
      FlatAppend(Contents(phys, front), LoadAt(phys, last));
      LoadConcat(phys, Flat(front), last);
    }
  }

  lemma LoadConcat(phys: seq<bv8>, a: seq<nat>, b: seq<nat>)
    requires Inside(a, |phys|) && Inside(b, |phys|)
    ensures Inside(a + b, |phys|) && LoadAt(phys, a + b) == LoadAt(phys, a) + LoadAt(phys, b)
  {
  }

  /** What `read_from` promises: `n` bytes from `off` on, clipped at the end. */
  ghost function Clip(s: seq<bv8>, off: nat, n: nat): seq<bv8> {
    if off >= |s| then [] else s[off..off + Min(n, |s| - off)]
  }

  /** Reading from the scatter list of a range gives the bytes found by translating every address. */
  lemma ScatterReads(t: Translation, phys: seq<bv8>, va: nat, len: nat, runs: seq<seq<nat>>, off: nat, n: nat)
    requires Flat(runs) == Addresses(t, va, len) && Inside(Addresses(t, va, len), |phys|)
    ensures var m := if off >= len then 0 else Min(n, len - off);
            Inside(Addresses(t, va + off, m), |phys|)
            && Clip(Flat(Contents(phys, runs)), off, n) == LoadAt(phys, Addresses(t, va + off, m))
  {
    ContentsFlat(phys, runs);
    var m := if off >= len then 0 else Min(n, len - off);
    var part, whole := Addresses(t, va + off, m), Addresses(t, va, len);
    forall k | 0 <= k < m ensures part[k] == whole[off + k] {
      assert va + off + k == va + (off + k);
    }
  }

  /** `goal` is what has been read and the part of `rest` still to be read. */
  ghost predicate Reading(goal: seq<bv8>, result: seq<bv8>, rest: seq<bv8>, off: nat, n: nat) {
    goal == result + Clip(rest, off, n)
  }

  lemma ReadingSkips(goal: seq<bv8>, result: seq<bv8>, sub: seq<bv8>, rest: seq<bv8>, off: nat, n: nat)
    requires Reading(goal, result, sub + rest, off, n) && off >= |sub|
    ensures Reading(goal, result, rest, off - |sub|, n)
  {
    assert Clip(sub + rest, off, n) == Clip(rest, off - |sub|, n);
  }

  lemma ReadingTakes(goal: seq<bv8>, result: seq<bv8>, sub: seq<bv8>, rest: seq<bv8>, off: nat, n: nat, here: nat)
    requires Reading(goal, result, sub + rest, off, n) && off < |sub| && here == Min(|sub| - off, n)
    ensures Reading(goal, result + sub[off..off + here], rest, 0, n - here)
  {
    assert Clip(sub + rest, off, n) == sub[off..off + here] + Clip(rest, 0, n - here);
  }

  lemma FlatRest(buffers: seq<seq<bv8>>, i: nat)
    requires i < |buffers|
    ensures Flat(buffers[i..]) == buffers[i] + Flat(buffers[i + 1..])
  {
    assert buffers[i..][1..] == buffers[i + 1..];
  }

  /** `UserBuffer::read_from`. */
  method ReadFrom(buffers: seq<seq<bv8>>, offset: nat, len: nat) returns (result: seq<bv8>)
    ensures result == Clip(Flat(buffers), offset, len)
  {
    var total := TotalLen(buffers);
    if offset >= total { return []; }
    var toSkip: nat, toRead: nat := offset, Min(len, total - offset);
    ghost var goal, rest := Clip(Flat(buffers), offset, len), Flat(buffers);
    result := [];
    var i := 0;
    assert buffers[0..] == buffers;
    while i < |buffers| && toRead > 0
      invariant 0 <= i <= |buffers| && rest == Flat(buffers[i..])
      invariant Reading(goal, result, rest, toSkip, toRead)
    {
      var sub := buffers[i];
      FlatRest(buffers, i);
      rest := Flat(buffers[i + 1..]);
      if toSkip >= |sub| {
        ReadingSkips(goal, result, sub, rest, toSkip, toRead);
        toSkip := toSkip - |sub|;
      } else {
        var here := Min(|sub| - toSkip, toRead);
        ReadingTakes(goal, result, sub, rest, toSkip, toRead, here);
        result := result + sub[toSkip..toSkip + here];
        toSkip, toRead := 0, toRead - here;
      }
      i := i + 1;
    }
  }

  /** `UserBuffer::len`. */
  method TotalLen(buffers: seq<seq<bv8>>) returns (n: nat)
    ensures n == |Flat(buffers)|
  {
    n := 0;
    assert buffers[..0] == [];
    for i := 0 to |buffers|
      invariant n == |Flat(buffers[..i])|
    {
      assert buffers[..i + 1] == buffers[..i] + [buffers[i]];
      FlatAppend(buffers[..i], buffers[i]);
      n := n + |buffers[i]|;
    }
    assert buffers[..|buffers|] == buffers;
  }

  /** The loop states of the two copies. */
  ghost predicate OutState(t: Translation, before: seq<bv8>, now: seq<bv8>, va: nat, src: seq<bv8>, n: nat) {
    StoredSoFar(t, before, now, va, src, n) && AllGood(t, va, n, true)
  }

  ghost predicate InState(t: Translation, ram: seq<bv8>, before: seq<bv8>, now: seq<bv8>, va: nat, n: nat) {
    |now| == |before| && LoadedSoFar(t, ram, before, now, va, n) && AllGood(t, va, n, false)
  }

  lemma StoredNothing(t: Translation, before: seq<bv8>, va: nat, src: seq<bv8>)
    ensures OutState(t, before, before, va, src, 0)
  {
    assert src[..0] == [];
  }

  lemma LoadedNothing(t: Translation, ram: seq<bv8>, before: seq<bv8>, va: nat)
    ensures InState(t, ram, before, before, va, 0)
  {
    assert LoadAt(ram, Addresses(t, va, 0)) == [];
  }

  lemma OutStep(t: Translation, before: seq<bv8>, now: seq<bv8>, va: nat, src: seq<bv8>, n: nat, len: nat)
    requires InRam(t, |before|) && OutState(t, before, now, va, src, n) && Good(t, va + n, true)
    requires 0 < len && n + len <= |src| && PageOffset(va + n) + len <= PAGE_SIZE
    ensures Pa(t, va + n) + len <= |before| && |now| == |before|
    ensures OutState(t, before, Overwrite(now, Pa(t, va + n), src[n..n + len]), va, src, n + len)
  {
    GoodPage(t, va, true, n, len);
    StoreStep(t, before, now, va, src, n, len);
  }

  class UserSpace {
    const table: Translation
    /** Physical memory through the kernel's direct map. */
    const phys: array<bv8>

    constructor (table: Translation, phys: array<bv8>)
      ensures this.table == table && this.phys == phys
    {
      this.table, this.phys := table, phys;
    }

    /** `copy_from_slice` to a slice of physical memory. */
    method WriteSlice(pa: nat, src: seq<bv8>)
      requires pa + |src| <= phys.Length
      modifies phys
      ensures phys[..] == Overwrite(old(phys[..]), pa, src)
    {
      for i := 0 to |src|
        invariant forall k :: 0 <= k < phys.Length ==> phys[k] == if pa <= k < pa + i then src[k - pa] else old(phys[k])
      {
        phys[pa + i] := src[i];
      }
    }

    /** Stores the bytes that go to the page of the next address, which can be written. */
    method WriteNext(va: nat, src: seq<bv8>, done: nat, ghost before: seq<bv8>, ghost now: seq<bv8>)
      returns (done': nat, ghost now': seq<bv8>)
      requires phys[..] == now && InRam(table, |before|) && OutState(table, before, now, va, src, done)
      requires done < |src| && Good(table, va + done, true)
      modifies phys
      ensures phys[..] == now' && done < done' <= |src| && OutState(table, before, now', va, src, done')
    {
      var len := InPage(va + done, |src| - done);
      OutStep(table, before, now, va, src, done, len);
      now' := Overwrite(now, Pa(table, va + done), src[done..done + len]);
      WriteSlice(Pa(table, va + done), src[done..done + len]);
      done' := done + len;
    }

    /** The loop of `copy_to_user_bytes`: `copied` bytes are stored, and it stops short only at an address
        that cannot be written. */
    method CopyOut(va: nat, src: seq<bv8>, ghost before: seq<bv8>) returns (copied: nat, ghost now: seq<bv8>)
      requires phys[..] == before && InRam(table, |before|)
      modifies phys
      ensures phys[..] == now && StoredSoFar(table, before, now, va, src, copied)
      ensures IsReach(table, va, |src|, true, copied)
    {
      copied, now := 0, before;
      StoredNothing(table, before, va, src);
      while copied < |src| && Good(table, va + copied, true)
        invariant phys[..] == now && OutState(table, before, now, va, src, copied)
        decreases |src| - copied
      {
        copied, now := WriteNext(va, src, copied, before, now);
      }
    }

    /** `copy_to_user_bytes`: the bytes before the first address that cannot be written are stored. */
    method CopyToUserBytes(va: nat, src: seq<bv8>) returns (r: CopyResult)
      requires InRam(table, phys.Length)
      modifies phys
      ensures var n := Reach(table, va, |src|, true);
              && StoredSoFar(table, old(phys[..]), phys[..], va, src, n)
              && r == if n == |src| then CopyOk(n) else CopyErr(PermissionDenied(va + n))
    {
      var copied;
      ghost var now;
      copied, now := CopyOut(va, src, phys[..]);
      OneReach(table, va, |src|, true, copied);
      r := if copied == |src| then CopyOk(copied) else CopyErr(PermissionDenied(va + copied));
    }

    /** Reads the bytes from the page of the next address, as far as the buffer goes. */
    method ReadNext(dst: array<bv8>, va: nat, done: nat, len: nat, ghost ram: seq<bv8>, ghost before: seq<bv8>,
                    ghost now: seq<bv8>)
      returns (done': nat, ghost now': seq<bv8>)
      requires phys[..] == ram && dst[..] == now && dst != phys && InRam(table, |ram|)
      requires InState(table, ram, before, now, va, done) && done < len && done < dst.Length
               && Good(table, va + done, false)
      modifies dst
      ensures dst[..] == now' && done < done' <= len && InState(table, ram, before, now', va, done')
    {
      var step := Min(InPage(va + done, len - done), dst.Length - done);
      GoodPage(table, va, false, done, step);
      var pa := Pa(table, va + done);
      LoadStep(table, ram, before, now, va, done, step, pa);
      now' := Overwrite(now, done, ram[pa..pa + step]);
      ReadSlice(dst, done, pa, step);
      done' := done + step;
    }

    /** The loop of `copy_from_user_bytes`. It stops at an address that is not translated or, when `len` is
        more than the buffer holds, at the first translated address after the buffer is full. */
    method CopyIn(dst: array<bv8>, va: nat, len: nat, ghost ram: seq<bv8>, ghost before: seq<bv8>)
      returns (copied: nat, ghost now: seq<bv8>)
      requires phys[..] == ram && dst[..] == before && dst != phys && InRam(table, |ram|)
      modifies dst
      ensures dst[..] == now && copied <= |before| && LoadedSoFar(table, ram, before, now, va, copied)
      ensures IsReach(table, va, Min(len, |before|), false, copied)
    {
      copied, now := 0, before;
      LoadedNothing(table, ram, before, va);
      while copied < len && copied < dst.Length && Good(table, va + copied, false)
        invariant phys[..] == ram && dst[..] == now && copied <= len && InState(table, ram, before, now, va, copied)
        decreases len - copied
      {
        copied, now := ReadNext(dst, va, copied, len, ram, before, now);
      }
    }

    /** `copy_from_user_bytes`: the bytes before the first address that is not translated are read. A
        buffer that is too small is filled and refused once the address after it translates. */
    method CopyFromUserBytes(dst: array<bv8>, va: nat, len: nat) returns (r: CopyResult)
      requires InRam(table, phys.Length) && dst != phys
      modifies dst
      ensures var n := Reach(table, va, Min(len, dst.Length), false);
              && LoadedSoFar(table, phys[..], old(dst[..]), dst[..], va, n)
              && r == if n == len then CopyOk(len)
                      else if Good(table, va + n, false) then CopyErr(InternalBufferOverflow)
                      else CopyErr(TranslationFailed(va + n))
    {
      var copied;
      ghost var now;
      copied, now := CopyIn(dst, va, len, phys[..], dst[..]);
      OneReach(table, va, Min(len, dst.Length), false, copied);
      r := if copied == len then CopyOk(len)
      else if Good(table, va + copied, false) then CopyErr(InternalBufferOverflow)
      else CopyErr(TranslationFailed(va + copied));
    }

    /** `copy_from_slice` from a slice of physical memory. */
    method ReadSlice(dst: array<bv8>, at: nat, pa: nat, len: nat)
      requires pa + len <= phys.Length && at + len <= dst.Length && dst != phys
      modifies dst
      ensures dst[..] == Overwrite(old(dst[..]), at, phys[..][pa..pa + len])
    {
      for i := 0 to len
        invariant forall k :: 0 <= k < dst.Length ==>
                    dst[k] == if at <= k < at + i then phys[pa + k - at] else old(dst[k])
      {
        dst[at + i] := phys[pa + i];
      }
    }

    /** `translated_byte_buffer`: the slices of a range, which must be translated throughout. */
    method TranslatedByteBuffer(va: nat, len: nat) returns (segs: seq<Segment>)
      requires AllGood(table, va, len, false)
      ensures Scattered(table, va, len, segs)
    {
      segs := [];
      var start, end := va, va + len;
      while start < end
        invariant va <= start <= end && Scattered(table, va, start - va, segs)
      {
        var next := Min((Floor(start) + 1) * PAGE_SIZE, end);
        assert Good(table, start, false);
        var seg := SegmentTo(table[Floor(start)].ppn, start, next);
        ScatterStep(table, va, start - va, next - start, segs, seg);
        segs := segs + [seg];
        start := next;
      }
    }

    /** What is copied out to a range that can be written, with a frame of its own for every page, is
        copied in again, and no other byte of memory has changed. */
    method OutAndIn(va: nat, src: seq<bv8>, dst: array<bv8>) returns (out: CopyResult, back: CopyResult)
      requires InRam(table, phys.Length) && dst != phys && |src| <= dst.Length
      requires AllGood(table, va, |src|, true) && OwnPages(table, va, |src|)
      modifies phys, dst
      ensures out == CopyOk(|src|) && back == CopyOk(|src|) && dst[..] == src + old(dst[..])[|src|..]
      ensures forall a: nat :: a < phys.Length && a !in Addresses(table, va, |src|) ==> phys[a] == old(phys[a])
    {
      ghost var ram, buf := phys[..], dst[..];
      GoodReach(table, va, |src|, true);
      GoodReach(table, va, |src|, false);
      DistinctFrames(table, va, |src|);
      out := CopyToUserBytes(va, src);
      back := CopyFromUserBytes(dst, va, |src|);
      CopyOutAndIn(table, ram, phys[..], va, src, buf, dst[..]);
    }

    method ReadSegment(s: Segment) returns (slice: seq<bv8>)
      requires Slice(s) && s.ppn * PAGE_SIZE + s.hi <= phys.Length
      ensures slice == phys[..][s.ppn * PAGE_SIZE + s.lo..s.ppn * PAGE_SIZE + s.hi]
    {
      slice := phys[s.ppn * PAGE_SIZE + s.lo..s.ppn * PAGE_SIZE + s.hi];
    }

    /** The slices of physical memory that a scatter list names. */
    method Buffers(segs: seq<Segment>) returns (buffers: seq<seq<bv8>>)
      requires (forall s :: s in segs ==> Slice(s)) && Inside(Flat(SegmentRuns(segs)), phys.Length)
      ensures buffers == Contents(phys[..], SegmentRuns(segs))
    {
      buffers := [];
      ghost var ram, runs := phys[..], SegmentRuns(segs);
      for i := 0 to |segs|
        invariant Inside(Flat(runs[..i]), |ram|) && buffers == Contents(ram, runs[..i])
      {
        var seg := segs[i];
        ContentsStep(ram, runs, i);
        SliceLoads(ram, seg);
        var slice := ReadSegment(seg);
        buffers := buffers + [slice];
      }
      assert runs[..|segs|] == runs;
    }

    /** Reading `n` bytes at `offset` through the scatter list of a range gives the bytes that translating
        every address finds, clipped at the end of the range. */
    method ReadRange(va: nat, len: nat, offset: nat, n: nat) returns (bytes: seq<bv8>)
      requires InRam(table, phys.Length) && AllGood(table, va, len, false)
      ensures var m := if offset >= len then 0 else Min(n, len - offset);
              && Inside(Addresses(table, va + offset, m), phys.Length)
              && bytes == LoadAt(phys[..], Addresses(table, va + offset, m))
    {
      var segs := TranslatedByteBuffer(va, len);
      GoodInside(table, va, len, phys.Length);
      var buffers := Buffers(segs);
      bytes := ReadFrom(buffers, offset, n);
      ScatterReads(table, phys[..], va, len, SegmentRuns(segs), offset, n);
    }
  }

  lemma GoodReach(t: Translation, va: nat, n: nat, write: bool)
    requires AllGood(t, va, n, write)
    ensures Reach(t, va, n, write) == n && AllGood(t, va, n, false)
  {
    OneReach(t, va, n, write, n);
    forall a: nat | va <= a < va + n ensures Good(t, a, false) {
      assert Good(t, a, write);
    }
  }

  lemma GoodInside(t: Translation, va: nat, n: nat, size: nat)
    requires AllGood(t, va, n, false) && InRam(t, size)
    ensures Inside(Addresses(t, va, n), size)
  {
    var addrs := Addresses(t, va, n);
    forall k: nat | k < |addrs| ensures addrs[k] < size {
      assert Good(t, va + k, false);
    }
  }

  /** The slice from `start` to `next`: to its offset, or to the end of the page when that is zero. */
  function SegmentTo(ppn: nat, start: nat, next: nat): (s: Segment)
    requires start < next <= (Floor(start) + 1) * PAGE_SIZE
    ensures Slice(s) && s.ppn == ppn && s.lo == PageOffset(start) && s.hi == s.lo + (next - start)
  {
    if PageOffset(next) == 0 then Segment(ppn, PageOffset(start), PAGE_SIZE)
    else Segment(ppn, PageOffset(start), PageOffset(next))
  }

  /** The slices are those of the range, in order. */
  ghost predicate Scattered(t: Translation, va: nat, n: nat, segs: seq<Segment>) {
    (forall s :: s in segs ==> Slice(s)) && Flat(SegmentRuns(segs)) == Addresses(t, va, n)
  }

  /** Every first part of a scatter list inside memory is inside it. */
  lemma {:induction false} InsideFirst(runs: seq<seq<nat>>, size: nat, i: nat)
    requires Inside(Flat(runs), size) && i <= |runs|
    ensures Inside(Flat(runs[..i]), size)
    decreases |runs|
  {
    if i == |runs| {
      assert runs[..i] == runs;
    } else {
      var front := runs[..|runs| - 1];
      InsideParts(runs, size);
      InsideFirst(front, size, i);
      assert front[..i] == runs[..i];
    }
  }

  lemma ContentsStep(ram: seq<bv8>, runs: seq<seq<nat>>, i: nat)
    requires Inside(Flat(runs), |ram|) && i < |runs|
    ensures Inside(Flat(runs[..i]), |ram|) && Inside(Flat(runs[..i + 1]), |ram|) && Inside(runs[i], |ram|)
    ensures Contents(ram, runs[..i + 1]) == Contents(ram, runs[..i]) + [LoadAt(ram, runs[i])]
  {
    InsideFirst(runs, |ram|, i + 1);
    InsideParts(runs[..i + 1], |ram|);
    assert runs[..i + 1][..i] == runs[..i];
  }

  lemma SliceLoads(ram: seq<bv8>, s: Segment)
    requires Slice(s) && Inside(SegmentRun(s), |ram|)
    ensures var pa := s.ppn * PAGE_SIZE;
            pa + s.hi <= |ram| && ram[pa + s.lo..pa + s.hi] == LoadAt(ram, SegmentRun(s))
  {
    var run := SegmentRun(s);
    assert run[|run| - 1] < |ram|;
  }

  /** One more slice of one page adds its addresses. */
  lemma ScatterStep(t: Translation, va: nat, n: nat, len: nat, segs: seq<Segment>, seg: Segment)
    requires Scattered(t, va, n, segs) && Slice(seg) && len == seg.hi - seg.lo && AllGood(t, va, n + len, false)
    requires seg.lo == PageOffset(va + n) && seg.ppn * PAGE_SIZE + seg.lo == Pa(t, va + n)
    ensures Scattered(t, va, n + len, segs + [seg])
  {
    RunsAppend(segs, seg);
    PageRun(t, va, n, len);
  }

  lemma RunsAppend(segs: seq<Segment>, seg: Segment)
    ensures Flat(SegmentRuns(segs + [seg])) == Flat(SegmentRuns(segs)) + SegmentRun(seg)
  {
    assert (segs + [seg])[..|segs|] == segs;
    FlatAppend(SegmentRuns(segs), SegmentRun(seg));
  }
}
