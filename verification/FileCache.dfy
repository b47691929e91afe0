/** The write cache of a file against a plain sequence of bytes. */
module FileCaches {
  import opened Address

  function AlignedDown(addr: nat): (a: nat)
    ensures a % PAGE_SIZE == 0 && a <= addr < a + PAGE_SIZE
  {
    addr - addr % PAGE_SIZE
  }

  function Zeros(n: nat): (z: seq<bv8>)
    ensures |z| == n && forall k :: 0 <= k < n ==> z[k] == 0
  {
    seq(n, k => 0)
  }

  /** `Vec::resize` with zeros, which is also what growing or cutting a plain file does. */
  function Resize(s: seq<bv8>, n: nat): (r: seq<bv8>)
    ensures |r| == n
    ensures forall k :: 0 <= k < n ==> r[k] == if k < |s| then s[k] else 0
  {
    if n <= |s| then s[..n] else s + Zeros(n - |s|)
  }

  /** `copy_from_slice` of `b` to `off`. */
  function Patch(s: seq<bv8>, off: nat, b: seq<bv8>): (r: seq<bv8>)
    requires off + |b| <= |s|
    ensures |r| == |s|
    ensures forall k :: 0 <= k < |s| ==> r[k] == if off <= k < off + |b| then b[k - off] else s[k]
  {
    s[..off] + b + s[off + |b|..]
  }

  lemma PatchMore(s: seq<bv8>, off: nat, b: seq<bv8>, i: nat)
    requires off + |b| <= |s| && i < |b|
    ensures Patch(s, off, b[..i])[off + i := b[i]] == Patch(s, off, b[..i + 1])
  {
    var x, y := Patch(s, off, b[..i])[off + i := b[i]], Patch(s, off, b[..i + 1]);
    assert forall k :: 0 <= k < |s| ==> x[k] == y[k];
  }

  // ---- the cache as a value ----

  datatype Cache = Cache(data: seq<bv8>, offset: nat, size: nat)

  const NEW_CACHE := Cache([], 0, 0)

  /** The file as the cache holds it. */
  function Contents(c: Cache): seq<bv8> {
    Resize(c.data, c.size)
  }

  /** The buffer is long enough, and zero past the end of the file. */
  ghost predicate CacheOk(c: Cache) {
    c.size <= |c.data| && forall k :: c.size <= k < |c.data| ==> c.data[k] == 0
  }

  /** A buffer that is too short for `end` bytes grows to whole pages, of zeros. */
  function Roomy(data: seq<bv8>, end: nat): (r: seq<bv8>)
    ensures |r| >= end
  {
    if end > |data| then Resize(data, AlignedDown(end) + PAGE_SIZE) else data
  }

  /** `writebuf`, at the current offset, which stays. */
  function WriteBuf(c: Cache, buf: seq<bv8>): Cache {
    var end := c.offset + |buf|;
    Cache(Patch(Roomy(c.data, end), c.offset, buf), c.offset, if end > c.size then end else c.size)
  }

  /** `truncate`. */
  function Truncate(c: Cache, n: nat): Cache {
    var data := Resize(c.data, AlignedDown(n) + PAGE_SIZE);
    c.(data := data[..n] + Zeros(|data| - n), size := n)
  }

  /** The cached branch of `file_seek`: seeking past the end makes the file longer. */
  function Seek(c: Cache, offset: nat): Cache {
    (if offset > c.size then Truncate(c, offset) else c).(offset := offset)
  }

  /** How many bytes the cached branch of `file_read` reads into a buffer of `n`. The kernel subtracts
      the offset from the end, so the offset must not be past it. */
  function ReadSize(c: Cache, n: nat): nat
    requires c.offset <= c.size
  {
    (if c.offset + n <= c.size then c.offset + n else c.size) - c.offset
  }

  function ReadBuf(c: Cache, n: nat): seq<bv8>
    requires c.offset <= c.size <= |c.data|
  {
    c.data[c.offset..c.offset + ReadSize(c, n)]
  }

  // ---- a plain file ----

  function Grown(f: seq<bv8>, n: nat): (r: seq<bv8>)
    ensures |r| == (if n > |f| then n else |f|) && forall k :: 0 <= k < |r| ==> r[k] == if k < |f| then f[k] else 0
  {
    if n > |f| then Resize(f, n) else f
  }

  /** Bytes of `b` at `off`, after zeros where the file was too short. */
  function Written(f: seq<bv8>, off: nat, b: seq<bv8>): (r: seq<bv8>)
    ensures |r| == if off + |b| > |f| then off + |b| else |f|
    ensures forall k :: 0 <= k < |r| ==>
              r[k] == if off <= k < off + |b| then b[k - off] else if k < |f| then f[k] else 0
  {
    Patch(Grown(f, off + |b|), off, b)
  }

  function Clipped(f: seq<bv8>, off: nat, n: nat): (r: seq<bv8>)
    ensures |r| <= n && (|r| < n ==> off + |r| >= |f|)
    ensures forall k :: 0 <= k < |r| ==> off + k < |f| && r[k] == f[off + k]
  {
    if off >= |f| then [] else if off + n <= |f| then f[off..off + n] else f[off..]
  }

  // ---- one operation ----

  lemma WriteRefines(c: Cache, buf: seq<bv8>)
    requires CacheOk(c)
    ensures CacheOk(WriteBuf(c, buf)) && Contents(WriteBuf(c, buf)) == Written(Contents(c), c.offset, buf)
  {
    var x, y := Contents(WriteBuf(c, buf)), Written(Contents(c), c.offset, buf);
    assert |x| == |y| && forall k :: 0 <= k < |x| ==> x[k] == y[k];
  }

  lemma TruncateRefines(c: Cache, n: nat)
    requires CacheOk(c)
    ensures CacheOk(Truncate(c, n)) && Contents(Truncate(c, n)) == Resize(Contents(c), n)
  {
  }

  lemma SeekRefines(c: Cache, off: nat)
    requires CacheOk(c)
    ensures CacheOk(Seek(c, off)) && Contents(Seek(c, off)) == Grown(Contents(c), off)
    ensures Seek(c, off).offset == off <= Seek(c, off).size
  {
    TruncateRefines(c, off);
  }

  lemma ReadRefines(c: Cache, n: nat)
    requires CacheOk(c) && c.offset <= c.size
    ensures ReadBuf(c, n) == Clipped(Contents(c), c.offset, n)
  {
  }

  /** Making the file longer shows zeros exactly when the buffer was zero between the two ends. A buffer
      filled from disk has arbitrary bytes there. */
  lemma GrowShowsZeros(c: Cache, n: nat)
    requires c.size <= |c.data| && c.size <= n
    ensures Contents(Truncate(c, n)) == Resize(Contents(c), n)
            <==> forall k :: c.size <= k < n && k < |c.data| ==> c.data[k] == 0
  {
    var f, g := Contents(Truncate(c, n)), Resize(Contents(c), n);
    assert forall k :: 0 <= k < n ==> f[k] == if k < |c.data| then c.data[k] else 0;
    assert forall k :: 0 <= k < n ==> g[k] == if k < c.size then c.data[k] else 0;
    if f == g {
      forall k | c.size <= k < n && k < |c.data| ensures c.data[k] == 0 {
        assert f[k] == g[k];
      }
    }
  }

  /** An empty file over a buffer of one page with a byte in it: made longer, it shows that byte. */
  lemma GrowShowsRest(b: bv8)
    requires b != 0
    ensures Contents(Truncate(Cache([b] + Zeros(PAGE_SIZE - 1), 0, 0), 1)) == [b] != Resize([], 1)
  {
    var f := Contents(Truncate(Cache([b] + Zeros(PAGE_SIZE - 1), 0, 0), 1));
    assert |f| == 1 && f[0] == b && Resize([], 1)[0] == 0;
  }

  // ---- runs ----

  datatype FileOp = ReadAt(off: nat, n: nat) | WriteAt(off: nat, b: seq<bv8>) | SetLength(n: nat)

  /** What the operations do to the cache, and what the reads return. */
  function RunCache(ops: seq<FileOp>): (r: (Cache, seq<seq<bv8>>))
    ensures CacheOk(r.0)
  {
    if ops == [] then (NEW_CACHE, [])
    else
      var (c, out) := RunCache(ops[..|ops| - 1]);
      match ops[|ops| - 1]
      case ReadAt(off, n) =>
        SeekRefines(c, off);
        (Seek(c, off), out + [ReadBuf(Seek(c, off), n)])
      case WriteAt(off, b) =>
        SeekRefines(c, off);
        WriteRefines(Seek(c, off), b);
        (WriteBuf(Seek(c, off), b), out)
      case SetLength(n) =>
        TruncateRefines(c, n);
        (Truncate(c, n), out)
  }

  lemma WholeKept(c: Cache, n: nat, b: seq<bv8>)
    requires |c.data| % PAGE_SIZE == 0
    ensures |Truncate(c, n).data| % PAGE_SIZE == 0 && |Seek(c, n).data| % PAGE_SIZE == 0
    ensures |WriteBuf(c, b).data| % PAGE_SIZE == 0
  {
  }

  /** In any run the buffer is whole pages. */
  lemma {:induction false} WholePages(ops: seq<FileOp>)
    ensures |RunCache(ops).0.data| % PAGE_SIZE == 0
  {
    if ops != [] {
      WholePages(ops[..|ops| - 1]);
      var c := RunCache(ops[..|ops| - 1]).0;
      match ops[|ops| - 1]
      case ReadAt(off, n) => WholeKept(c, off, []);
      case WriteAt(off, b) =>
        WholeKept(c, off, []);
        WholeKept(Seek(c, off), 0, b);
      case SetLength(n) => WholeKept(c, n, []);
    }
  }

  function RunPlain(ops: seq<FileOp>): (seq<bv8>, seq<seq<bv8>>) {
    if ops == [] then ([], [])
    else
      var (f, out) := RunPlain(ops[..|ops| - 1]);
      match ops[|ops| - 1]
      case ReadAt(off, n) => (Grown(f, off), out + [Clipped(f, off, n)])
      case WriteAt(off, b) => (Written(f, off, b), out)
      case SetLength(n) => (Resize(f, n), out)
  }

  /** Any run on a new cache returns what the same run on a plain file returns, and leaves the same bytes. */
  lemma {:induction false} CacheRefinesFile(ops: seq<FileOp>)
    ensures Contents(RunCache(ops).0) == RunPlain(ops).0 && RunCache(ops).1 == RunPlain(ops).1
  {
    if ops != [] {
      CacheRefinesFile(ops[..|ops| - 1]);
      var c := RunCache(ops[..|ops| - 1]).0;
      var f := Contents(c);
      match ops[|ops| - 1]
      case ReadAt(off, n) =>
        SeekRefines(c, off);
        ReadRefines(Seek(c, off), n);
        assert Clipped(Grown(f, off), off, n) == Clipped(f, off, n);
      case WriteAt(off, b) =>
        SeekRefines(c, off);
        WriteRefines(Seek(c, off), b);
        assert Written(Grown(f, off), off, b) == Written(f, off, b);
      case SetLength(n) =>
        TruncateRefines(c, n);
    }
  }

  // ---- the cache object ----

  class VFileCache {
    var data: seq<bv8>
    var offset: nat
    var modified: bool
    var size: nat

    constructor ()
      ensures View() == NEW_CACHE && !modified
    {
      data, offset, modified, size := [], 0, false, 0;
    }

    function View(): Cache
      reads this
    {
      Cache(data, offset, size)
    }

    /** Short writes go byte by byte, others as a slice. */
    method WriteBuffer(buf: seq<bv8>) returns (len: nat)
      modifies this
      ensures View() == WriteBuf(old(View()), buf) && modified && len == |data|
    {
      var length := |buf|;
      MakeRoom(offset + length);
      if length <= 10 {
        CopyByByte(buf);
      } else {
        CopySlice(buf);
      }
      modified := true;
      len := |data|;
    }

    /** The file and the buffer reach to `end`. */
    method MakeRoom(end: nat)
      modifies this`size, this`data
      ensures size == (if end > old(size) then end else old(size)) && data == Roomy(old(data), end)
    {
      if end > size {
        size := end;
      }
      if end > |data| {
        data := Resize(data, AlignedDown(end) + PAGE_SIZE);
      }
    }

    method CopySlice(buf: seq<bv8>)
      requires offset + |buf| <= |data|
      modifies this`data
      ensures data == Patch(old(data), offset, buf)
    {
      data := data[..offset] + buf + data[offset + |buf|..];
    }

    method CopyByByte(buf: seq<bv8>)
      requires offset + |buf| <= |data|
      modifies this`data
      ensures data == Patch(old(data), offset, buf)
    {
      ghost var before := data;
      assert buf[..0] == [] && Patch(before, offset, []) == before;
      for i := 0 to |buf|
        invariant data == Patch(before, offset, buf[..i])
      {
        PatchMore(before, offset, buf, i);
        data := data[offset + i := buf[i]];
      }
      assert buf[..|buf|] == buf;
    }

    method TruncateTo(newSize: nat)
      modifies this
      ensures View() == Truncate(old(View()), newSize) && modified == old(modified)
    {
      data := Resize(data, AlignedDown(newSize) + PAGE_SIZE);
      var length := |data|;
      if newSize < length {
        data := data[..newSize] + Zeros(length - newSize);
      }
      size := newSize;
    }

    method SeekTo(off: nat)
      modifies this
      ensures View() == Seek(old(View()), off) && modified == old(modified)
    {
      if off > size {
        TruncateTo(off);
      }
      offset := off;
    }

    /** Fills the front of `buff` and says how far; the offset stays. It fails (the kernel panics) exactly
        when the file has been cut to before the offset. Short reads go byte by byte, others as a slice. */
    method Read(buff: array<bv8>) returns (ok: bool, n: nat)
      requires size <= |data|
      modifies buff
      ensures ok <==> offset <= size
      ensures ok ==> n == ReadSize(View(), buff.Length) <= buff.Length
      ensures ok ==> buff[..n] == ReadBuf(View(), buff.Length) && buff[n..] == old(buff[n..])
    {
      var length := buff.Length;
      var end := if offset + length <= size then offset + length else size;
      if end < offset { return false, 0; }
      ok, n := true, end - offset;
      if length <= 10 {
        for i := 0 to n
          invariant forall k :: 0 <= k < buff.Length ==> buff[k] == if k < i then data[offset + k] else old(buff[k])
        {
          buff[i] := data[offset + i];
        }
      } else {
        forall i | 0 <= i < n {
          buff[i] := data[offset + i];
        }
      }
    }
  }
}
