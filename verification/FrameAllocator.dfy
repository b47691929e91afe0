/** Machine words as numbers, with single bits as the `bit_field` crate reads and sets them. */
module Words {

  const WORD_BITS: nat := 64

  /** `usize::MAX`. */
  const WORD_MAX: nat := 0xFFFF_FFFF_FFFF_FFFF

  function Bit(w: nat, i: nat): bool {
    if i == 0 then w % 2 == 1 else Bit(w / 2, i - 1)
  }

  function SetBit(w: nat, i: nat, b: bool): nat {
    if i == 0 then w / 2 * 2 + (if b then 1 else 0) else SetBit(w / 2, i - 1, b) * 2 + w % 2
  }

  /** `count_zeros` of a word of `n` bits. */
  function CountZeros(w: nat, n: nat): nat {
    if n == 0 then 0 else (if w % 2 == 1 then 0 else 1) + CountZeros(w / 2, n - 1)
  }

  /** The word of `n` ones. */
  function Ones(n: nat): nat {
    if n == 0 then 0 else 2 * Ones(n - 1) + 1
  }

  lemma {:induction false} BitAfterSet(w: nat, i: nat, b: bool, j: nat)
    ensures Bit(SetBit(w, i, b), j) == if j == i then b else Bit(w, j)
    decreases i
  {
    if i > 0 {
      var low := SetBit(w / 2, i - 1, b);
      assert SetBit(w, i, b) % 2 == w % 2 && SetBit(w, i, b) / 2 == low;
      if j > 0 {
        BitAfterSet(w / 2, i - 1, b, j - 1);
      }
    } else if j > 0 {
      assert SetBit(w, 0, b) / 2 == w / 2;
    }
  }

  lemma {:induction false} SetBitFits(w: nat, i: nat, b: bool, n: nat)
    requires i < n && w <= Ones(n)
    ensures SetBit(w, i, b) <= Ones(n)
    decreases n
  {
    if i > 0 {
      SetBitFits(w / 2, i - 1, b, n - 1);
    }
  }

  lemma {:induction false} OnesBit(n: nat, j: nat)
    requires j < n
    ensures Bit(Ones(n), j)
    decreases n
  {
    assert Ones(n) / 2 == Ones(n - 1);
    if j > 0 {
      OnesBit(n - 1, j - 1);
    }
  }

  lemma SetBitFitsWord(w: nat, i: nat, b: bool)
    requires i < WORD_BITS && w <= WORD_MAX
    ensures SetBit(w, i, b) <= WORD_MAX
  {
    var n := WORD_BITS;
    WordLimit(n);
    SetBitFits(w, i, b, n);
  }

  /** A zero word has no bit set. */
  lemma {:induction false} ZeroWord(j: nat)
    ensures !Bit(0, j)
  {
    if j > 0 {
      ZeroWord(j - 1);
    }
  }

  /** The number of `k` bytes of ones. */
  function OnesBytes(k: nat): nat {
    if k == 0 then 0 else 256 * OnesBytes(k - 1) + 255
  }

  lemma {:induction false} OnesByByte(k: nat)
    ensures Ones(8 * k) == OnesBytes(k)
  {
    if k > 0 {
      OnesByByte(k - 1);
      var n := 8 * (k - 1);
      assert Ones(n + 2) == 4 * Ones(n) + 3 && Ones(n + 4) == 4 * Ones(n + 2) + 3;
      assert Ones(n + 6) == 4 * Ones(n + 4) + 3 && Ones(n + 8) == 4 * Ones(n + 6) + 3;
    }
  }

  lemma WordLimit(n: nat)
    requires n == WORD_BITS
    ensures Ones(n) == WORD_MAX
  {
    OnesByByte(n / 8);
    assert OnesBytes(8) == WORD_MAX;
  }

  /** The bits of a word, lowest first. */
  ghost function WordFlags(w: nat, n: nat): (r: seq<bool>)
    ensures |r| == n && forall j :: 0 <= j < n ==> r[j] == Bit(w, j)
  {
    if n == 0 then [] else [w % 2 == 1] + WordFlags(w / 2, n - 1)
  }

  /** The bits of a list of words. */
  ghost function Flags(words: seq<nat>): (r: seq<bool>)
    ensures |r| == |words| * WORD_BITS
    ensures forall k :: 0 <= k < |r| ==> r[k] == Bit(words[k / WORD_BITS], k % WORD_BITS)
  {
    if words == [] then []
    else Flags(words[..|words| - 1]) + WordFlags(words[|words| - 1], WORD_BITS)
  }

  /** Setting a bit of the list of words sets one flag. */
  lemma FlagsAfterSet(words: seq<nat>, k: nat, b: bool)
    requires k < |words| * WORD_BITS
    ensures Flags(words[k / WORD_BITS := SetBit(words[k / WORD_BITS], k % WORD_BITS, b)]) == Flags(words)[k := b]
  {
    var words' := words[k / WORD_BITS := SetBit(words[k / WORD_BITS], k % WORD_BITS, b)];
    forall j: nat | j < |words| * WORD_BITS ensures Flags(words')[j] == Flags(words)[k := b][j] {
      BitAfterSet(words[k / WORD_BITS], k % WORD_BITS, b, j % WORD_BITS);
    }
  }

  ghost function FreeCount(used: seq<bool>): (n: nat)
    ensures n <= |used|
  {
    if used == [] then 0 else (if used[0] then 0 else 1) + FreeCount(used[1..])
  }

  lemma {:induction false} FreeCountAppend(a: seq<bool>, b: seq<bool>)
    ensures FreeCount(a + b) == FreeCount(a) + FreeCount(b)
  {
    if a == [] {
      assert a + b == b;
    } else {
      FreeCountAppend(a[1..], b);
      assert (a + b)[1..] == a[1..] + b;
    }
  }

  lemma {:induction false} CountZerosIsFree(w: nat, n: nat)
    ensures CountZeros(w, n) == FreeCount(WordFlags(w, n))
    decreases n
  {
    if n > 0 {
      CountZerosIsFree(w / 2, n - 1);
      assert WordFlags(w, n)[1..] == WordFlags(w / 2, n - 1);
    }
  }
}

/** The pages of physical regions and which of them are handed out. */
module Regions {

  /** Pages `[start, end)`; `used` has a flag for each and then padding. */
  datatype Region = Region(start: nat, end: nat, used: seq<bool>)

  /** The padding is marked used. */
  ghost predicate RegionOk(r: Region) {
    && r.start <= r.end && r.end - r.start <= |r.used|
    && (forall k :: r.end - r.start <= k < |r.used| ==> r.used[k])
  }

  /** `n` free pages from the `s`-th on. */
  ghost predicate FreeRun(r: Region, s: nat, n: nat) {
    s + n <= r.end - r.start && s + n <= |r.used| && forall j :: s <= j < s + n ==> !r.used[j]
  }

  ghost predicate LowestRun(r: Region, s: nat, n: nat) {
    FreeRun(r, s, n) && forall t: nat :: t < s ==> !FreeRun(r, t, n)
  }

  /** A free page with no free page before it. */
  lemma FirstFree(r: Region, s: nat)
    requires RegionOk(r) && s < |r.used| && !r.used[s] && forall k :: 0 <= k < s ==> r.used[k]
    ensures LowestRun(r, s, 1)
  {
    forall t: nat | t < s ensures !FreeRun(r, t, 1) {
      assert r.used[t];
    }
  }

  /** What the scan for `n` free pages knows at page `i`: the `free` pages before it are free, the one
      before those is not, and no run ends here. */
  ghost predicate Scanned(r: Region, i: nat, free: nat, n: nat) {
    && i <= r.end - r.start <= |r.used| && free < n && free <= i
    && (forall j :: i - free <= j < i ==> !r.used[j])
    && (i - free > 0 ==> r.used[i - free - 1])
    && (forall s: nat :: s + n <= i ==> !FreeRun(r, s, n))
  }

  lemma ScanFree(r: Region, i: nat, free: nat, n: nat)
    requires Scanned(r, i, free, n) && i < r.end - r.start && !r.used[i]
    ensures free + 1 < n ==> Scanned(r, i + 1, free + 1, n)
    ensures free + 1 == n ==> LowestRun(r, i - free, n)
  {
    forall s: nat | s < i - free && s + n <= i + 1 ensures !FreeRun(r, s, n) {
      assert s + n <= i || r.used[i - free - 1];
    }
  }

  lemma ScanUsed(r: Region, i: nat, free: nat, n: nat)
    requires Scanned(r, i, free, n) && i < r.end - r.start && r.used[i]
    ensures Scanned(r, i + 1, 0, n)
  {
  }

  ghost predicate HasRun(r: Region, n: nat) {
    exists s: nat :: FreeRun(r, s, n)
  }

  lemma NoFree(r: Region)
    requires forall k :: 0 <= k < |r.used| ==> r.used[k]
    ensures !HasRun(r, 1)
  {
    forall s: nat ensures !FreeRun(r, s, 1) {
      assert s < |r.used| ==> r.used[s];
    }
  }

  lemma ScanDone(r: Region, free: nat, n: nat)
    requires r.start <= r.end && Scanned(r, r.end - r.start, free, n)
    ensures !HasRun(r, n)
  {
  }

  ghost function Marked(used: seq<bool>, s: nat, n: nat, b: bool): (m: seq<bool>)
    requires s + n <= |used|
    ensures |m| == |used|
    ensures forall k :: 0 <= k < |used| ==> m[k] == if s <= k < s + n then b else used[k]
  {
    used[..s] + seq(n, k => b) + used[s + n..]
  }

  /** The page numbers `start + s` and on. */
  function Numbers(first: nat, n: nat): (r: seq<nat>)
    ensures |r| == n && forall k :: 0 <= k < n ==> r[k] == first + k
  {
    seq(n, k requires 0 <= k < n => first + k)
  }

  /** The region with the run taken. */
  ghost function Taken(r: Region, s: nat, n: nat): Region
    requires s + n <= |r.used|
  {
    r.(used := Marked(r.used, s, n, true))
  }

  /** The region with page `p` given back. */
  ghost function Returned(r: Region, p: nat): Region
    requires r.start <= p && p - r.start < |r.used|
  {
    r.(used := r.used[p - r.start := false])
  }
}

/** Frame conservation: what is handed out, what is left, over whole runs. */
module FrameRuns {
  import opened Words
  import opened Regions

  /** The pages handed out among the first `n`. */
  ghost function LiveUpTo(r: Region, n: nat): (live: set<nat>)
    requires n <= |r.used|
    ensures forall p: nat :: p in live <==> r.start <= p < r.start + n && r.used[p - r.start]
  {
    if n == 0 then {}
    else if r.used[n - 1] then LiveUpTo(r, n - 1) + {r.start + n - 1}
    else LiveUpTo(r, n - 1)
  }

  lemma {:induction false} LiveCount(r: Region, n: nat)
    requires n <= |r.used|
    ensures |LiveUpTo(r, n)| + FreeCount(r.used[..n]) == n
  {
    if n > 0 {
      LiveCount(r, n - 1);
      assert r.used[..n] == r.used[..n - 1] + [r.used[n - 1]];
      FreeCountAppend(r.used[..n - 1], [r.used[n - 1]]);
      assert r.start + n - 1 !in LiveUpTo(r, n - 1);
    }
  }

  ghost function Live(r: Region): set<nat>
    requires RegionOk(r)
  {
    LiveUpTo(r, r.end - r.start)
  }

  lemma {:induction false} NoneFree(used: seq<bool>)
    requires forall k :: 0 <= k < |used| ==> used[k]
    ensures FreeCount(used) == 0
  {
    if used != [] {
      NoneFree(used[1..]);
    }
  }

  lemma RegionConserves(r: Region)
    requires RegionOk(r)
    ensures |Live(r)| + FreeCount(r.used) == r.end - r.start
  {
    var n := r.end - r.start;
    LiveCount(r, n);
    assert r.used == r.used[..n] + r.used[n..];
    FreeCountAppend(r.used[..n], r.used[n..]);
    NoneFree(r.used[n..]);
  }

  ghost predicate AllOk(rs: seq<Region>) {
    forall i :: 0 <= i < |rs| ==> RegionOk(rs[i])
  }

  /** No page is in two regions. */
  ghost predicate Apart(rs: seq<Region>) {
    forall i, j :: 0 <= i < j < |rs| ==> rs[i].end <= rs[j].start || rs[j].end <= rs[i].start
  }

  /** Page `p` is in region `i`. */
  predicate In(rs: seq<Region>, i: nat, p: nat) {
    i < |rs| && rs[i].start <= p < rs[i].end
  }

  /** Page `p` of region `i` is handed out. */
  ghost predicate HeldIn(rs: seq<Region>, i: nat, p: nat) {
    In(rs, i, p) && p - rs[i].start < |rs[i].used| && rs[i].used[p - rs[i].start]
  }

  ghost predicate Held(rs: seq<Region>, p: nat) {
    exists i: nat :: HeldIn(rs, i, p)
  }

  ghost function LiveAll(rs: seq<Region>): set<nat>
    requires AllOk(rs)
  {
    if rs == [] then {} else LiveAll(rs[..|rs| - 1]) + Live(rs[|rs| - 1])
  }

  lemma HeldLast(rs: seq<Region>, p: nat)
    requires rs != []
    ensures Held(rs, p) <==> Held(rs[..|rs| - 1], p) || HeldIn(rs, |rs| - 1, p)
  {
    var front := rs[..|rs| - 1];
    assert forall i: nat :: HeldIn(front, i, p) ==> HeldIn(rs, i, p);
    assert forall i: nat :: HeldIn(rs, i, p) ==> i == |rs| - 1 || HeldIn(front, i, p);
  }

  lemma {:induction false} LiveMember(rs: seq<Region>, p: nat)
    requires AllOk(rs)
    ensures p in LiveAll(rs) <==> Held(rs, p)
  {
    if rs != [] {
      LiveMember(rs[..|rs| - 1], p);
      HeldLast(rs, p);
    }
  }

  lemma OneRegion(rs: seq<Region>, i: nat, j: nat, p: nat)
    requires Apart(rs) && In(rs, i, p) && In(rs, j, p)
    ensures i == j
  {
  }

  ghost function Total(rs: seq<Region>): nat
    requires AllOk(rs)
  {
    if rs == [] then 0 else Total(rs[..|rs| - 1]) + (rs[|rs| - 1].end - rs[|rs| - 1].start)
  }

  /** `remaining_frames`. */
  ghost function Remaining(rs: seq<Region>): nat {
    if rs == [] then 0 else Remaining(rs[..|rs| - 1]) + FreeCount(rs[|rs| - 1].used)
  }

  /** Free pages and pages handed out make up all pages. */
  lemma {:induction false} Conservation(rs: seq<Region>)
    requires AllOk(rs) && Apart(rs)
    ensures Remaining(rs) + |LiveAll(rs)| == Total(rs)
  {
    if rs != [] {
      var front, last := rs[..|rs| - 1], rs[|rs| - 1];
      Conservation(front);
      RegionConserves(last);
      assert LiveAll(front) !! Live(last) by {
        forall p: nat | p in LiveAll(front) ensures p !in Live(last) {
          LiveMember(front, p);
          var i: nat :| HeldIn(front, i, p);
          assert rs[i] == front[i];
        }
      }
    }
  }

  // ---- runs ----

  datatype Event = Got(frames: seq<nat>) | Refused(count: nat) | Gave(ppn: nat)

  /** What one call does: the first region with a run gives its lowest one; no region has a run; or the
      first region that has the page takes it back. */
  ghost predicate Step(rs: seq<Region>, e: Event, rs': seq<Region>) {
    match e
    case Got(frames) => exists i: nat, s: nat :: GotFrom(rs, frames, rs', i, s)
    case Refused(n) => rs' == rs && forall i :: 0 <= i < |rs| ==> !HasRun(rs[i], n)
    case Gave(p) => exists i: nat :: GaveTo(rs, p, rs', i)
  }

  ghost predicate GotFrom(rs: seq<Region>, frames: seq<nat>, rs': seq<Region>, i: nat, s: nat) {
    && i < |rs| && LowestRun(rs[i], s, |frames|) && frames == Numbers(rs[i].start + s, |frames|)
    && (forall j :: 0 <= j < i ==> !HasRun(rs[j], |frames|))
    && rs' == rs[i := Taken(rs[i], s, |frames|)]
  }

  ghost predicate GaveTo(rs: seq<Region>, p: nat, rs': seq<Region>, i: nat) {
    && HeldIn(rs, i, p) && (forall j: nat :: j < i ==> !In(rs, j, p))
    && rs' == rs[i := Returned(rs[i], p)]
  }

  ghost predicate NoRepeats(frames: seq<nat>) {
    forall a, b :: 0 <= a < b < |frames| ==> frames[a] != frames[b]
  }

  /** What a call may do to the set of pages that are handed out. */
  ghost predicate Fair(live: set<nat>, e: Event, live': set<nat>) {
    match e
    case Got(frames) => NoRepeats(frames) && (forall p :: p in frames ==> p !in live)
                        && (forall p: nat :: p in live' <==> p in live || p in frames)
    case Refused(_) => live' == live
    case Gave(p) => p in live && live' == live - {p}
  }

  /** Only region `i` differs. */
  ghost predicate SameBut(rs: seq<Region>, rs': seq<Region>, i: nat) {
    && |rs'| == |rs| && i < |rs| && rs'[i].start == rs[i].start && rs'[i].end == rs[i].end
    && |rs'[i].used| == |rs[i].used|
    && (forall j :: 0 <= j < |rs| && j != i ==> rs'[j] == rs[j])
  }

  lemma StillApart(rs: seq<Region>, rs': seq<Region>, i: nat)
    requires Apart(rs) && SameBut(rs, rs', i)
    ensures Apart(rs')
  {
  }

  lemma {:induction false} SameTotal(rs: seq<Region>, rs': seq<Region>, i: nat)
    requires AllOk(rs) && AllOk(rs') && SameBut(rs, rs', i)
    ensures Total(rs') == Total(rs)
    decreases |rs|
  {
    var n := |rs| - 1;
    if i < n {
      SameTotal(rs[..n], rs'[..n], i);
    } else {
      assert rs'[..n] == rs[..n];
    }
  }

  lemma GotFair(rs: seq<Region>, frames: seq<nat>, rs': seq<Region>, i: nat, s: nat)
    requires AllOk(rs) && Apart(rs) && GotFrom(rs, frames, rs', i, s)
    ensures AllOk(rs') && SameBut(rs, rs', i)
    ensures forall p: nat :: p in frames <==> rs[i].start + s <= p < rs[i].start + s + |frames|
    ensures Fair(LiveAll(rs), Got(frames), LiveAll(rs'))
  {
    var first := rs[i].start + s;
    forall p: nat ensures p in frames <==> first <= p < first + |frames| {
      if first <= p < first + |frames| {
        assert frames[p - first] == p;
      }
    }
    forall p: nat ensures p in LiveAll(rs') <==> p in LiveAll(rs) || p in frames {
      LiveMember(rs, p);
      LiveMember(rs', p);
      GotHeld(rs, frames, rs', i, s, p);
    }
    forall p: nat | p in frames ensures p !in LiveAll(rs) {
      LiveMember(rs, p);
      if j: nat :| HeldIn(rs, j, p) {
        OneRegion(rs, i, j, p);
      }
    }
  }

  lemma GotHeld(rs: seq<Region>, frames: seq<nat>, rs': seq<Region>, i: nat, s: nat, p: nat)
    requires AllOk(rs) && GotFrom(rs, frames, rs', i, s)
    requires p in frames <==> rs[i].start + s <= p < rs[i].start + s + |frames|
    ensures Held(rs', p) <==> Held(rs, p) || p in frames
  {
    if p in frames {
      assert HeldIn(rs', i, p);
    }
    if j: nat :| HeldIn(rs, j, p) {
      assert HeldIn(rs', j, p);
    }
    if j: nat :| HeldIn(rs', j, p) {
      assert HeldIn(rs, j, p) || p in frames;
    }
  }

  lemma GaveFair(rs: seq<Region>, p: nat, rs': seq<Region>, i: nat)
    requires AllOk(rs) && Apart(rs) && GaveTo(rs, p, rs', i)
    ensures AllOk(rs') && SameBut(rs, rs', i)
    ensures Fair(LiveAll(rs), Gave(p), LiveAll(rs'))
  {
    forall q: nat ensures q in LiveAll(rs') <==> q in LiveAll(rs) && q != p {
      LiveMember(rs, q);
      LiveMember(rs', q);
      GaveHeld(rs, p, rs', i, q);
    }
    LiveMember(rs, p);
  }

  lemma GaveHeld(rs: seq<Region>, p: nat, rs': seq<Region>, i: nat, q: nat)
    requires AllOk(rs) && Apart(rs) && GaveTo(rs, p, rs', i)
    ensures Held(rs', q) <==> Held(rs, q) && q != p
  {
    if j: nat :| HeldIn(rs, j, q) {
      assert q == p || HeldIn(rs', j, q);
    }
    if j: nat :| HeldIn(rs', j, q) {
      assert HeldIn(rs, j, q);
      if q == p {
        OneRegion(rs, i, j, p);
      }
    }
  }

  lemma StepFair(rs: seq<Region>, e: Event, rs': seq<Region>)
    requires AllOk(rs) && Apart(rs) && Step(rs, e, rs')
    ensures AllOk(rs') && Apart(rs') && Total(rs') == Total(rs)
    ensures Fair(LiveAll(rs), e, LiveAll(rs'))
  {
    match e
    case Got(frames) =>
      var i: nat, s: nat :| GotFrom(rs, frames, rs', i, s);
      GotFair(rs, frames, rs', i, s);
      StillApart(rs, rs', i);
      SameTotal(rs, rs', i);
    case Gave(p) =>
      var i: nat :| GaveTo(rs, p, rs', i);
      GaveFair(rs, p, rs', i);
      StillApart(rs, rs', i);
      SameTotal(rs, rs', i);
    case Refused(_) =>
  }

  ghost predicate Run(states: seq<seq<Region>>, log: seq<Event>) {
    |states| == |log| + 1 && forall k :: 0 <= k < |log| ==> Step(states[k], log[k], states[k + 1])
  }

  /** The pages a log of calls leaves handed out. */
  ghost function Outstanding(log: seq<Event>): set<nat> {
    if log == [] then {}
    else
      var before := Outstanding(log[..|log| - 1]);
      match log[|log| - 1]
      case Got(frames) => before + set p | p in frames
      case Refused(_) => before
      case Gave(p) => before - {p}
  }

  lemma FairReplays(log: seq<Event>, live': set<nat>)
    requires log != [] && Fair(Outstanding(log[..|log| - 1]), log[|log| - 1], live')
    ensures live' == Outstanding(log)
  {
  }

  lemma RunLiveStep(rs: seq<Region>, rs': seq<Region>, log: seq<Event>, n: nat)
    requires 0 < n <= |log| && AllOk(rs) && Apart(rs) && Step(rs, log[n - 1], rs')
             && LiveAll(rs) == Outstanding(log[..n - 1])
    ensures AllOk(rs') && Apart(rs') && Total(rs') == Total(rs) && LiveAll(rs') == Outstanding(log[..n])
  {
    StepFair(rs, log[n - 1], rs');
    assert log[..n][..n - 1] == log[..n - 1];
    FairReplays(log[..n], LiveAll(rs'));
  }

  /** The map of used pages holds exactly what the log leaves handed out. */
  lemma {:induction false} RunLive(states: seq<seq<Region>>, log: seq<Event>, n: nat)
    requires Run(states, log) && AllOk(states[0]) && Apart(states[0]) && LiveAll(states[0]) == {} && n <= |log|
    ensures AllOk(states[n]) && Apart(states[n]) && Total(states[n]) == Total(states[0])
    ensures LiveAll(states[n]) == Outstanding(log[..n])
  {
    if n > 0 {
      RunLive(states, log, n - 1);
      RunLiveStep(states[n - 1], states[n], log, n);
    }
  }

  /** In any run that starts with every page free, each call hands out pages that are not handed out
      already and takes back only pages that are. */
  lemma CallsFair(states: seq<seq<Region>>, log: seq<Event>, n: nat)
    requires Run(states, log) && AllOk(states[0]) && Apart(states[0]) && LiveAll(states[0]) == {} && n < |log|
    ensures Fair(Outstanding(log[..n]), log[n], Outstanding(log[..n + 1]))
  {
    RunLive(states, log, n);
    RunLive(states, log, n + 1);
    StepFair(states[n], log[n], states[n + 1]);
  }

  /** After any such run the pages handed out are inside the regions, the padding is still marked used,
      and free pages and those handed out make up all pages. */
  lemma FramesConserved(states: seq<seq<Region>>, log: seq<Event>)
    requires Run(states, log) && AllOk(states[0]) && Apart(states[0]) && LiveAll(states[0]) == {}
    ensures AllOk(states[|log|])
    ensures forall p: nat :: p in Outstanding(log) ==> Held(states[|log|], p)
    ensures Remaining(states[|log|]) + |Outstanding(log)| == Total(states[0])
  {
    assert log[..|log|] == log;
    RunLive(states, log, |log|);
    Conservation(states[|log|]);
    forall p: nat | p in Outstanding(log) ensures Held(states[|log|], p) {
      LiveMember(states[|log|], p);
    }
  }
}

module FrameAllocators {
  import opened Address
  import opened Base
  import opened Words
  import opened Regions
  import opened FrameRuns

  class FrameRegionMap {
    var bits: seq<nat>
    const startPpn: nat
    const endPpn: nat

    ghost predicate Valid()
      reads this
    {
      && startPpn <= endPpn && |bits| == (endPpn - startPpn + WORD_BITS - 1) / WORD_BITS
      && (forall i :: 0 <= i < |bits| ==> bits[i] <= WORD_MAX)
      && RegionOk(View())
    }

    ghost function View(): Region
      reads this
    {
      Region(startPpn, endPpn, Flags(bits))
    }

    /** A region with every page free and the padding of the last word marked used. */
    constructor (startPaddr: nat, endPaddr: nat)
      requires Floor(startPaddr) <= Floor(endPaddr)
      ensures Valid() && startPpn == Floor(startPaddr) && endPpn == Floor(endPaddr)
      ensures FreeRun(View(), 0, endPpn - startPpn)
    {
      startPpn, endPpn := Floor(startPaddr), Floor(endPaddr);
      bits := seq((Floor(endPaddr) - Floor(startPaddr) + WORD_BITS - 1) / WORD_BITS, i => 0);
      new;
      var numPages := endPpn - startPpn;
      forall k: nat | k < |bits| * WORD_BITS ensures !Flags(bits)[k] {
        ZeroWord(k % WORD_BITS);
      }
      for i := numPages to |bits| * WORD_BITS
        invariant |bits| == (endPpn - startPpn + WORD_BITS - 1) / WORD_BITS
        invariant forall w :: 0 <= w < |bits| ==> bits[w] <= WORD_MAX
        invariant forall k :: 0 <= k < |bits| * WORD_BITS ==> Flags(bits)[k] == (numPages <= k < i)
      {
        SetFlag(i, true);
      }
    }

    /** `BitArray::get_bit`. */
    function GetFlag(k: nat): (b: bool)
      reads this
      requires k < |bits| * WORD_BITS
      ensures b == Flags(bits)[k]
    {
      Bit(bits[k / WORD_BITS], k % WORD_BITS)
    }

    /** `BitArray::set_bit`. */
    method SetFlag(k: nat, b: bool)
      requires k < |bits| * WORD_BITS && forall i :: 0 <= i < |bits| ==> bits[i] <= WORD_MAX
      modifies this`bits
      ensures |bits| == old(|bits|) && forall i :: 0 <= i < |bits| ==> bits[i] <= WORD_MAX
      ensures Flags(bits) == old(Flags(bits))[k := b]
    {
      SetBitFitsWord(bits[k / WORD_BITS], k % WORD_BITS, b);
      FlagsAfterSet(bits, k, b);
      bits := bits[k / WORD_BITS := SetBit(bits[k / WORD_BITS], k % WORD_BITS, b)];
    }

    /** The inner loop: the bits of one word that is not full. */
    method AllocInWord(i: nat) returns (r: Option<nat>)
      requires Valid() && i < |bits| && forall k :: 0 <= k < i * WORD_BITS ==> Flags(bits)[k]
      modifies this`bits
      ensures Valid()
      ensures r.None? ==> bits == old(bits) && forall k :: 0 <= k < (i + 1) * WORD_BITS ==> Flags(bits)[k]
      ensures r.Some? ==> startPpn <= r.value && LowestRun(old(View()), r.value - startPpn, 1)
                          && View() == Taken(old(View()), r.value - startPpn, 1)
    {
      var bit := 0;
      while bit < WORD_BITS
        invariant 0 <= bit <= WORD_BITS && bits == old(bits)
        invariant forall k :: 0 <= k < i * WORD_BITS + bit ==> Flags(bits)[k]
      {
        var k := i * WORD_BITS + bit;
        if !GetFlag(k) {
          FirstFree(View(), k);
          assert Marked(Flags(bits), k, 1, true) == Flags(bits)[k := true];
          SetFlag(k, true);
          return Some(startPpn + k);
        }
        bit := bit + 1;
      }
      r := None;
    }

    /** The lowest free page, or none when there is no free page. */
    method Alloc() returns (r: Option<nat>)
      requires Valid()
      modifies this`bits
      ensures Valid()
      ensures r.None? ==> View() == old(View()) && !HasRun(View(), 1)
      ensures r.Some? ==> startPpn <= r.value && LowestRun(old(View()), r.value - startPpn, 1)
                          && View() == Taken(old(View()), r.value - startPpn, 1)
    {
      var i := 0;
      while i < |bits|
        invariant 0 <= i <= |bits| && bits == old(bits)
        invariant forall k :: 0 <= k < i * WORD_BITS ==> Flags(bits)[k]
      {
        if bits[i] != WORD_MAX {
          r := AllocInWord(i);
          if r.Some? { return; }
        } else {
          ghost var n := WORD_BITS;
          WordLimit(n);
          FullWord(bits, i, n);
        }
        i := i + 1;
      }
      NoFree(View());
      r := None;
    }

    /** The lowest run of `count` free pages, the `s`-th page and on, or none when there is no such run. */
    method AllocContiguous(count: nat) returns (r: Option<seq<nat>>, ghost s: nat)
      requires Valid()
      modifies this`bits
      ensures Valid()
      ensures r.None? ==> View() == old(View()) && !HasRun(View(), count)
      ensures r.Some? ==> LowestRun(old(View()), s, count) && r.value == Numbers(startPpn + s, count)
                          && View() == Taken(old(View()), s, count)
    {
      s := 0;
      if count == 0 {
        assert LowestRun(View(), 0, 0) && Numbers(startPpn, 0) == [];
        assert Marked(Flags(bits), 0, 0, true) == Flags(bits);
        return Some([]), s;
      }
      var numPages := endPpn - startPpn;
      if count > numPages { return None, s; }
      var foundStart, free := FindRun(count);
      if free < count {
        ScanDone(View(), free, count);
        return None, s;
      }
      s := foundStart;
      var frames := TakeRun(foundStart, count);
      return Some(frames), s;
    }

    /** The scan of `alloc_contiguous`, which stops at the first `count` free pages in a row. */
    method FindRun(count: nat) returns (foundStart: nat, free: nat)
      requires Valid() && count > 0
      ensures free == count ==> LowestRun(View(), foundStart, count)
      ensures free < count ==> Scanned(View(), endPpn - startPpn, free, count)
      ensures free <= count
    {
      foundStart, free := 0, 0;
      var numPages := endPpn - startPpn;
      ghost var r := View();
      for i := 0 to numPages
        invariant Scanned(r, i, free, count) && (free > 0 ==> foundStart == i - free)
      {
        if !GetFlag(i) {
          ScanFree(r, i, free, count);
          if free == 0 {
            foundStart := i;
          }
          free := free + 1;
          if free == count { return; }
        } else {
          ScanUsed(r, i, free, count);
          free := 0;
        }
      }
    }

    /** Marks the pages of a run one by one and hands them out. */
    method TakeRun(s: nat, count: nat) returns (frames: seq<nat>)
      requires Valid() && s + count <= |bits| * WORD_BITS
      modifies this`bits
      ensures Valid() && View() == Taken(old(View()), s, count) && frames == Numbers(startPpn + s, count)
    {
      frames := [];
      for j := 0 to count
        invariant Valid() && |bits| == old(|bits|) && Flags(bits) == Marked(old(Flags(bits)), s, j, true)
        invariant frames == Numbers(startPpn + s, j)
      {
        SetFlag(s + j, true);
        frames := frames + [startPpn + s + j];
      }
    }

    /** Gives a page back. The kernel panics when the page is not handed out. */
    method Dealloc(ppn: nat)
      requires Valid() && startPpn <= ppn < endPpn && View().used[ppn - startPpn]
      modifies this`bits
      ensures Valid() && View() == Returned(old(View()), ppn)
    {
      SetFlag(ppn - startPpn, false);
    }

    /** How many pages are free. */
    method FreePages() returns (n: nat)
      ensures n == FreeCount(View().used)
    {
      n := 0;
      for i := 0 to |bits|
        invariant n == FreeCount(Flags(bits[..i]))
      {
        assert bits[..i + 1][..i] == bits[..i];
        CountZerosIsFree(bits[i], WORD_BITS);
        FreeCountAppend(Flags(bits[..i]), WordFlags(bits[i], WORD_BITS));
        n := n + CountZeros(bits[i], WORD_BITS);
      }
      assert bits[..|bits|] == bits;
    }
  }

  ghost function Views(regions: seq<FrameRegionMap>): (rs: seq<Region>)
    reads regions
    ensures |rs| == |regions| && forall i :: 0 <= i < |rs| ==> rs[i] == regions[i].View()
  {
    if regions == [] then [] else Views(regions[..|regions| - 1]) + [regions[|regions| - 1].View()]
  }

  class FrameAllocator {
    var regions: seq<FrameRegionMap>

    ghost predicate Valid()
      reads this, regions
    {
      && (forall i :: 0 <= i < |regions| ==> regions[i].Valid())
      && (forall i, j :: 0 <= i < j < |regions| ==> regions[i] != regions[j])
    }

    ghost function View(): seq<Region>
      reads this, regions
    {
      Views(regions)
    }

    constructor ()
      ensures Valid() && View() == []
    {
      regions := [];
    }

    /** Adds a region with every page free. */
    method AddMemoryRegion(startPaddr: nat, endPaddr: nat)
      requires Valid() && Floor(startPaddr) <= Floor(endPaddr)
      modifies this
      ensures Valid() && |View()| == |old(View())| + 1 && View()[..|old(View())|] == old(View())
      ensures var r := View()[|old(View())|];
              RegionOk(r) && r.start == Floor(startPaddr) && r.end == Floor(endPaddr) && FreeRun(r, 0, r.end - r.start)
    {
      var region := new FrameRegionMap(startPaddr, endPaddr);
      assert forall i :: 0 <= i < |regions| ==> regions[i] != region;
      regions := regions + [region];
      assert regions[..|regions| - 1] == old(regions);
    }

    /** What calling region `i` changes. */
    twostate predicate OnlyRegion(i: nat)
      reads this, regions
      requires old(i < |regions|)
    {
      && regions == old(regions) && Valid()
      && forall j :: 0 <= j < |regions| && j != i ==> View()[j] == old(View())[j]
    }

    method AllocIn(i: nat) returns (r: Option<nat>)
      requires Valid() && i < |regions|
      modifies regions[i]
      ensures OnlyRegion(i)
      ensures r.None? ==> View()[i] == old(View())[i] && !HasRun(old(View())[i], 1)
      ensures r.Some? ==> View()[i].start <= r.value && LowestRun(old(View())[i], r.value - View()[i].start, 1)
                          && View()[i] == Taken(old(View())[i], r.value - View()[i].start, 1)
    {
      r := regions[i].Alloc();
    }

    method AllocContiguousIn(i: nat, count: nat) returns (r: Option<seq<nat>>, ghost s: nat)
      requires Valid() && i < |regions|
      modifies regions[i]
      ensures OnlyRegion(i)
      ensures r.None? ==> View()[i] == old(View())[i] && !HasRun(old(View())[i], count)
      ensures r.Some? ==> LowestRun(old(View())[i], s, count) && r.value == Numbers(View()[i].start + s, count)
                          && View()[i] == Taken(old(View())[i], s, count)
    {
      r, s := regions[i].AllocContiguous(count);
    }

    /** One page, from the first region that has one. */
    method Alloc() returns (r: Option<nat>)
      requires Valid()
      modifies regions
      ensures Valid() && regions == old(regions)
      ensures Step(old(View()), if r.Some? then Got([r.value]) else Refused(1), View())
    {
      ghost var rs := View();
      for i := 0 to |regions|
        invariant Valid() && regions == old(regions) && View() == rs
        invariant forall j :: 0 <= j < i ==> !HasRun(rs[j], 1)
      {
        r := AllocIn(i);
        if r.Some? {
          assert [r.value] == Numbers(r.value, 1);
          GotStep(rs, [r.value], View(), i, r.value - rs[i].start);
          return;
        }
        SameViews(rs, View());
      }
      r := None;
    }

    /** `count` pages in a row, from the first region that has them; without regions there are none, not
        even for a count of zero. */
    method AllocContiguous(count: nat) returns (r: Option<seq<nat>>)
      requires Valid()
      modifies regions
      ensures Valid() && regions == old(regions)
      ensures r.Some? ==> |r.value| == count
      ensures Step(old(View()), if r.Some? then Got(r.value) else Refused(count), View())
    {
      ghost var rs := View();
      for i := 0 to |regions|
        invariant Valid() && regions == old(regions) && View() == rs
        invariant forall j :: 0 <= j < i ==> !HasRun(rs[j], count)
      {
        ghost var s;
        r, s := AllocContiguousIn(i, count);
        if r.Some? {
          GotStep(rs, r.value, View(), i, s);
          return;
        }
        SameViews(rs, View());
      }
      r := None;
    }

    method DeallocIn(i: nat, ppn: nat)
      requires Valid() && HeldIn(View(), i, ppn)
      modifies regions[i]
      ensures OnlyRegion(i)
      ensures View()[i] == Returned(old(View())[i], ppn)
    {
      regions[i].Dealloc(ppn);
    }

    /** Gives a page back to the first region that has it. The kernel panics when no region has it or it
        is not handed out. */
    method Dealloc(ppn: nat)
      requires Valid() && exists i: nat :: FirstHolder(View(), i, ppn)
      modifies regions
      ensures Valid() && regions == old(regions)
      ensures Step(old(View()), Gave(ppn), View())
    {
      var i := FindRegion(ppn);
      ghost var rs := View();
      DeallocIn(i, ppn);
      ghost var rs' := View();
      assert |rs'| == |rs| && forall j :: 0 <= j < |rs| && j != i ==> rs'[j] == rs[j];
      GaveStep(rs, ppn, rs', i);
    }

    /** The first region that has the page. */
    method FindRegion(ppn: nat) returns (i: nat)
      requires Valid() && exists i: nat :: FirstHolder(View(), i, ppn)
      ensures FirstHolder(View(), i, ppn)
    {
      ghost var k: nat :| FirstHolder(View(), k, ppn);
      i := 0;
      while !(regions[i].startPpn <= ppn < regions[i].endPpn)
        invariant i <= k
        decreases k - i
      {
        assert !In(View(), i, ppn);
        i := i + 1;
      }
      assert In(View(), i, ppn);
    }

    method RemainingFrames() returns (n: nat)
      requires Valid()
      ensures n == Remaining(View())
    {
      n := 0;
      ghost var rs := View();
      for i := 0 to |regions|
        invariant n == Remaining(rs[..i])
      {
        var free := regions[i].FreePages();
        assert rs[..i + 1][..i] == rs[..i];
        n := n + free;
      }
      assert rs[..|regions|] == rs;
    }
  }

  /** Region `i` is the first that has page `p`, and there it is handed out. */
  ghost predicate FirstHolder(rs: seq<Region>, i: nat, p: nat) {
    HeldIn(rs, i, p) && forall j: nat :: j < i ==> !In(rs, j, p)
  }

  lemma SameViews(rs: seq<Region>, rs': seq<Region>)
    requires |rs'| == |rs| && forall j :: 0 <= j < |rs| ==> rs'[j] == rs[j]
    ensures rs' == rs
  {
  }

  lemma GaveStep(rs: seq<Region>, p: nat, rs': seq<Region>, i: nat)
    requires FirstHolder(rs, i, p) && |rs'| == |rs| && forall j :: 0 <= j < |rs| && j != i ==> rs'[j] == rs[j]
    requires rs'[i] == Returned(rs[i], p)
    ensures Step(rs, Gave(p), rs')
  {
    assert rs' == rs[i := rs'[i]];
    assert GaveTo(rs, p, rs', i);
  }

  lemma GotStep(rs: seq<Region>, frames: seq<nat>, rs': seq<Region>, i: nat, s: nat)
    requires i < |rs| && LowestRun(rs[i], s, |frames|) && frames == Numbers(rs[i].start + s, |frames|)
    requires forall j :: 0 <= j < i ==> !HasRun(rs[j], |frames|)
    requires |rs'| == |rs| && rs'[i] == Taken(rs[i], s, |frames|)
             && forall j :: 0 <= j < |rs| && j != i ==> rs'[j] == rs[j]
    ensures Step(rs, Got(frames), rs')
  {
    assert rs' == rs[i := Taken(rs[i], s, |frames|)];
    assert GotFrom(rs, frames, rs', i, s);
  }

  /** A word of ones has no free page. */
  lemma FullWord(bits: seq<nat>, i: nat, n: nat)
    requires i < |bits| && n == WORD_BITS && bits[i] == Ones(n)
    ensures forall k :: i * WORD_BITS <= k < (i + 1) * WORD_BITS ==> Flags(bits)[k]
  {
    var flags := Flags(bits);
    forall k | i * WORD_BITS <= k < (i + 1) * WORD_BITS ensures flags[k] {
      assert k / WORD_BITS == i;
      OnesBit(n, k % WORD_BITS);
      assert Bit(bits[i], k % WORD_BITS);
    }
  }
}
