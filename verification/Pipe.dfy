/** A pipe as a value: the bytes in flight, the two ends and the tasks waiting on them. */
module PipeStates {
  import opened Base

  const RING_BUFFER_SIZE: nat := 0x4000

  /** `woken` are the tasks woken so far and not yet polled again. */
  datatype PipeState = PipeState(
    data: seq<bv8>,
    readEndClosed: bool,
    writeEndClosed: bool,
    readWaiters: seq<nat>,
    writeWaiters: seq<nat>,
    woken: set<nat>)

  const NEW_PIPE := PipeState([], false, false, [], [], {})

  function Elements(s: seq<nat>): set<nat> {
    set t | t in s
  }

  function NotifyReaders(p: PipeState): PipeState {
    p.(readWaiters := [], woken := p.woken + Elements(p.readWaiters))
  }

  function NotifyWriters(p: PipeState): PipeState {
    p.(writeWaiters := [], woken := p.woken + Elements(p.writeWaiters))
  }

  function RegisterReader(p: PipeState, t: nat): PipeState {
    if t in p.readWaiters then p else p.(readWaiters := p.readWaiters + [t])
  }

  function RegisterWriter(p: PipeState, t: nat): PipeState {
    if t in p.writeWaiters then p else p.(writeWaiters := p.writeWaiters + [t])
  }

  function CloseWriteEnd(p: PipeState): PipeState {
    if p.writeEndClosed then p else NotifyReaders(p.(writeEndClosed := true))
  }

  function CloseReadEnd(p: PipeState): PipeState {
    if p.readEndClosed then p else NotifyWriters(p.(readEndClosed := true))
  }

  /** How many bytes a read of up to `n` bytes moves, and a write of `n`. */
  function Readable(p: PipeState, n: nat): nat {
    Min(n, |p.data|)
  }

  function Writable(p: PipeState, n: nat): nat {
    Min(n, RING_BUFFER_SIZE - Min(RING_BUFFER_SIZE, |p.data|))
  }

  /** Reading up to `n` bytes at once: writers hear of it when the pipe was full. */
  function ReadSome(p: PipeState, n: nat): PipeState {
    var p' := p.(data := p.data[Readable(p, n)..]);
    if n > 0 && |p.data| == RING_BUFFER_SIZE then NotifyWriters(p') else p'
  }

  /** Writing as much of `b` as fits: readers hear of it when the pipe was empty. */
  function WriteSome(p: PipeState, b: seq<bv8>): PipeState {
    var p' := p.(data := p.data + b[..Writable(p, |b|)]);
    if Writable(p, |b|) > 0 && p.data == [] then NotifyReaders(p') else p'
  }

  ghost predicate NoRepeats(s: seq<nat>) {
    forall i, j :: 0 <= i < j < |s| ==> s[i] != s[j]
  }

  /** Nobody is registered twice. Waiting readers mean an empty pipe that can still be written to,
      waiting writers a full one that
      can still be read. */
  ghost predicate PipeOk(p: PipeState) {
    && |p.data| <= RING_BUFFER_SIZE && NoRepeats(p.readWaiters) && NoRepeats(p.writeWaiters)
    && (p.readWaiters != [] ==> p.data == [] && !p.writeEndClosed)
    && (p.writeWaiters != [] ==> |p.data| == RING_BUFFER_SIZE && !p.readEndClosed)
  }

  /** One more byte read. */
  lemma ReadOneMore(p: PipeState, n: nat)
    requires |p.data| <= RING_BUFFER_SIZE && n < |p.data|
    ensures |ReadSome(p, n).data| == |p.data| - n
    ensures ReadSome(ReadSome(p, n), 1) == ReadSome(p, n + 1)
  {
    assert p.data[n..][1..] == p.data[n + 1..];
    assert Elements([]) == {};
  }

  /** One more byte written. */
  lemma WriteOneMore(p: PipeState, b: seq<bv8>, n: nat)
    requires n < |b| && |p.data| + n < RING_BUFFER_SIZE
    ensures |WriteSome(p, b[..n]).data| == |p.data| + n
    ensures WriteSome(WriteSome(p, b[..n]), [b[n]]) == WriteSome(p, b[..n + 1])
  {
    assert b[..n][..n] == b[..n] && b[..n + 1][..n + 1] == b[..n] + [b[n]];
    assert [b[n]][..1] == [b[n]];
  }
}

/** Tasks that read, write, poll and close, in any interleaving. */
module PipeRuns {
  import opened PipeStates

  /** Where a task stands. A blocked call first lets go of the lock, then polls its future, and if that
      registers its waker it sleeps until it is woken. */
  datatype Mode = Idle | PollsRead | PollsWrite | SleepsRead | SleepsWrite

  /** `sent` and `received` are all bytes ever written and read. */
  datatype World = World(pipe: PipeState, modes: map<nat, Mode>, sent: seq<bv8>, received: seq<bv8>)

  datatype Op =
    | Read(t: nat, n: nat, nonBlock: bool)
    | Write(t: nat, b: seq<bv8>, nonBlock: bool)
    | PollIn(t: nat)
    | PollOut(t: nat)
    | Wake(t: nat)
    | GiveUp(t: nat)
    | DropReadEnd
    | DropWriteEnd

  function ModeOf(w: World, t: nat): Mode {
    if t in w.modes then w.modes[t] else Idle
  }

  function SetMode(w: World, t: nat, m: Mode): World {
    w.(modes := w.modes[t := m])
  }

  /** One attempt of `read` under the lock. */
  function ReadCall(w: World, t: nat, n: nat, nonBlock: bool): World {
    if n == 0 then w
    else if w.pipe.data != [] then
      w.(pipe := ReadSome(w.pipe, n), received := w.received + w.pipe.data[..Readable(w.pipe, n)])
    else if w.pipe.writeEndClosed || nonBlock then w
    else SetMode(w, t, PollsRead)
  }

  function WriteCall(w: World, t: nat, b: seq<bv8>, nonBlock: bool): World {
    if b == [] || w.pipe.readEndClosed then w
    else if |w.pipe.data| < RING_BUFFER_SIZE then
      w.(pipe := WriteSome(w.pipe, b), sent := w.sent + b[..Writable(w.pipe, |b|)])
    else if nonBlock then w
    else SetMode(w, t, PollsWrite)
  }

  /** Checking for data and registering, both for the future of `read` and for `poll`. */
  function PollReadCall(w: World, t: nat): World {
    if w.pipe.data != [] || w.pipe.writeEndClosed then SetMode(w, t, Idle)
    else SetMode(w.(pipe := RegisterReader(w.pipe, t)), t, SleepsRead)
  }

  function PollWriteCall(w: World, t: nat): World {
    if |w.pipe.data| < RING_BUFFER_SIZE || w.pipe.readEndClosed then SetMode(w, t, Idle)
    else SetMode(w.(pipe := RegisterWriter(w.pipe, t)), t, SleepsWrite)
  }

  /** A sleeper that is woken polls again. */
  function Awake(m: Mode): Mode {
    match m
    case SleepsRead => PollsRead
    case SleepsWrite => PollsWrite
    case _ => m
  }

  /** What one step does; a step that its task cannot take does nothing. */
  function Next(w: World, op: Op): World {
    match op
    case Read(t, n, nonBlock) => if ModeOf(w, t) == Idle then ReadCall(w, t, n, nonBlock) else w
    case Write(t, b, nonBlock) => if ModeOf(w, t) == Idle then WriteCall(w, t, b, nonBlock) else w
    case PollIn(t) => if ModeOf(w, t) in {Idle, PollsRead} then PollReadCall(w, t) else w
    case PollOut(t) => if ModeOf(w, t) in {Idle, PollsWrite} then PollWriteCall(w, t) else w
    case Wake(t) =>
      if t !in w.pipe.woken then w
      else SetMode(w.(pipe := w.pipe.(woken := w.pipe.woken - {t})), t, Awake(ModeOf(w, t)))
    case GiveUp(t) => SetMode(w, t, Idle)
    case DropReadEnd => w.(pipe := CloseReadEnd(w.pipe))
    case DropWriteEnd => w.(pipe := CloseWriteEnd(w.pipe))
  }

  function Run(w: World, ops: seq<Op>): World {
    if ops == [] then w else Next(Run(w, ops[..|ops| - 1]), ops[|ops| - 1])
  }

  const START := World(NEW_PIPE, map[], [], [])

  /** Every sleeping task is registered or has been woken. */
  ghost predicate Heard(w: World) {
    && (forall t: nat :: ModeOf(w, t) == SleepsRead ==> t in w.pipe.readWaiters || t in w.pipe.woken)
    && (forall t: nat :: ModeOf(w, t) == SleepsWrite ==> t in w.pipe.writeWaiters || t in w.pipe.woken)
  }

  ghost predicate WorldOk(w: World) {
    PipeOk(w.pipe) && Heard(w) && w.sent == w.received + w.pipe.data
  }

  lemma ReadKeeps(w: World, t: nat, n: nat, nonBlock: bool)
    requires WorldOk(w) && ModeOf(w, t) == Idle
    ensures WorldOk(ReadCall(w, t, n, nonBlock))
  {
    if n > 0 && w.pipe.data != [] {
      var m := Readable(w.pipe, n);
      assert w.pipe.data == w.pipe.data[..m] + w.pipe.data[m..];
    }
  }

  lemma WriteKeeps(w: World, t: nat, b: seq<bv8>, nonBlock: bool)
    requires WorldOk(w) && ModeOf(w, t) == Idle
    ensures WorldOk(WriteCall(w, t, b, nonBlock))
  {
  }

  lemma StepKeeps(w: World, op: Op)
    requires WorldOk(w)
    ensures WorldOk(Next(w, op))
  {
    match op
    case Read(t, n, nonBlock) =>
      if ModeOf(w, t) == Idle { ReadKeeps(w, t, n, nonBlock); }
    case Write(t, b, nonBlock) =>
      if ModeOf(w, t) == Idle { WriteKeeps(w, t, b, nonBlock); }
    case PollIn(t) => PollsKeep(w, t);
    case PollOut(t) => PollsKeep(w, t);
    case Wake(t) => WakeKeeps(w, t);
    case GiveUp(t) =>
    case DropReadEnd => DropsKeep(w);
    case DropWriteEnd => DropsKeep(w);
  }

  lemma PollsKeep(w: World, t: nat)
    requires WorldOk(w)
    ensures WorldOk(PollReadCall(w, t)) && WorldOk(PollWriteCall(w, t))
  {
    RegisterKeeps(w.pipe, t);
  }

  lemma RegisterKeeps(p: PipeState, t: nat)
    requires PipeOk(p)
    ensures p.data == [] && !p.writeEndClosed ==> PipeOk(RegisterReader(p, t))
    ensures |p.data| == RING_BUFFER_SIZE && !p.readEndClosed ==> PipeOk(RegisterWriter(p, t))
  {
  }

  lemma WakeKeeps(w: World, t: nat)
    requires WorldOk(w)
    ensures WorldOk(Next(w, Wake(t)))
  {
  }

  lemma DropsKeep(w: World)
    requires WorldOk(w)
    ensures WorldOk(Next(w, DropReadEnd)) && WorldOk(Next(w, DropWriteEnd))
  {
  }

  lemma {:induction false} RunKeeps(ops: seq<Op>)
    ensures WorldOk(Run(START, ops))
  {
    if ops != [] {
      RunKeeps(ops[..|ops| - 1]);
      StepKeeps(Run(START, ops[..|ops| - 1]), ops[|ops| - 1]);
    }
  }

  /** No wakeup is lost, in any run: a task asleep for reading has been woken as soon as there is data or
      the write end is closed, and one asleep for writing as soon as there is room or nobody can read. */
  lemma NoLostWakeup(ops: seq<Op>, t: nat)
    ensures var w := Run(START, ops);
            && (ModeOf(w, t) == SleepsRead && (w.pipe.data != [] || w.pipe.writeEndClosed) ==> t in w.pipe.woken)
            && (ModeOf(w, t) == SleepsWrite && (|w.pipe.data| < RING_BUFFER_SIZE || w.pipe.readEndClosed) ==>
                t in w.pipe.woken)
  {
    RunKeeps(ops);
  }

  /** Only dropping an end closes it. */
  lemma EndsKept(w: World, op: Op)
    ensures Next(w, op).pipe.writeEndClosed <==> w.pipe.writeEndClosed || op == DropWriteEnd
    ensures Next(w, op).pipe.readEndClosed <==> w.pipe.readEndClosed || op == DropReadEnd
  {
  }

  /** In any run an end is closed exactly when it has been dropped. */
  lemma {:induction false} ClosedWhenDropped(ops: seq<Op>)
    ensures Run(START, ops).pipe.writeEndClosed <==> DropWriteEnd in ops
    ensures Run(START, ops).pipe.readEndClosed <==> DropReadEnd in ops
  {
    if ops != [] {
      var front, op := ops[..|ops| - 1], ops[|ops| - 1];
      ClosedWhenDropped(front);
      EndsKept(Run(START, front), op);
      assert ops == front + [op];
    }
  }

  /** Nobody waits for an end that has been dropped: a reader that finds the pipe empty, or any writer, is
      done with its call, and who was asleep has been woken. */
  lemma NobodyWaitsForDropped(ops: seq<Op>, t: nat, n: nat, b: seq<bv8>, nonBlock: bool)
    ensures var w := Run(START, ops);
            && (DropWriteEnd in ops && ModeOf(w, t) == Idle ==> ModeOf(Next(w, Read(t, n, nonBlock)), t) == Idle)
            && (DropReadEnd in ops && ModeOf(w, t) == Idle ==> Next(w, Write(t, b, nonBlock)) == w)
            && (DropWriteEnd in ops && ModeOf(w, t) == SleepsRead ==> t in w.pipe.woken)
            && (DropReadEnd in ops && ModeOf(w, t) == SleepsWrite ==> t in w.pipe.woken)
  {
    ClosedWhenDropped(ops);
    NoLostWakeup(ops, t);
  }

  /** In any run nobody is registered twice on a side, and only on a side that is not ready. */
  lemma RegisteredOnce(ops: seq<Op>)
    ensures var p := Run(START, ops).pipe;
            && (forall i, j :: 0 <= i < j < |p.readWaiters| ==> p.readWaiters[i] != p.readWaiters[j])
            && (forall i, j :: 0 <= i < j < |p.writeWaiters| ==> p.writeWaiters[i] != p.writeWaiters[j])
            && (p.readWaiters != [] ==> p.data == [] && !p.writeEndClosed)
            && (p.writeWaiters != [] ==> |p.data| == RING_BUFFER_SIZE && !p.readEndClosed)
  {
    RunKeeps(ops);
  }

  /** What was written is what was read and then what is in the pipe, byte for byte and in order. */
  lemma StreamInOrder(ops: seq<Op>)
    ensures var w := Run(START, ops);
            w.sent == w.received + w.pipe.data && |w.pipe.data| <= RING_BUFFER_SIZE
  {
    RunKeeps(ops);
  }
}

/** The ring buffer and the two ends. */
module Pipes {
  import opened PipeStates
  import opened UserMemory
  import PipeRuns

  datatype RingBufferStatus = Full | Empty | Normal

  datatype PipeErrno = EAGAIN | EPIPE | EBADF

  datatype PipeResult = PipeOk(n: nat) | PipeErr(errno: PipeErrno) | Pending

  datatype PollEvent = POLLIN | POLLOUT | POLLHUP | POLLERR

  /** The bytes from `head` to `tail` around the ring. */
  ghost function Ring(arr: seq<bv8>, head: nat, tail: nat, status: RingBufferStatus): seq<bv8>
    requires head < |arr| && tail < |arr|
  {
    if status == Empty then [] else if tail > head then arr[head..tail] else arr[head..] + arr[..tail]
  }

  ghost predicate RingOk(size: nat, head: nat, tail: nat, status: RingBufferStatus) {
    head < size && tail < size && (status == Normal <==> head != tail)
  }

  lemma RingLength(arr: seq<bv8>, head: nat, tail: nat, status: RingBufferStatus)
    requires RingOk(|arr|, head, tail, status)
    ensures |Ring(arr, head, tail, status)| <= |arr|
    ensures |Ring(arr, head, tail, status)| == |arr| <==> status == Full
    ensures Ring(arr, head, tail, status) == [] <==> status == Empty
  {
  }

  /** `(i + 1) % size` for an index. */
  function After(i: nat, size: nat): nat {
    if i + 1 == size then 0 else i + 1
  }

  lemma RingPut(arr: seq<bv8>, head: nat, tail: nat, status: RingBufferStatus, b: bv8, status': RingBufferStatus)
    requires |arr| > 1 && RingOk(|arr|, head, tail, status) && status != Full
    requires status' == if After(tail, |arr|) == head then Full else Normal
    ensures RingOk(|arr|, head, After(tail, |arr|), status')
    ensures Ring(arr[tail := b], head, After(tail, |arr|), status') == Ring(arr, head, tail, status) + [b]
  {
    var arr' := arr[tail := b];
    if head <= tail {
      assert arr'[head..tail] == arr[head..tail];
      assert arr'[head..tail + 1] == arr[head..tail] + [b];
    } else {
      assert arr'[head..] == arr[head..];
      assert arr'[..tail + 1] == arr[..tail] + [b];
    }
  }

  lemma RingTake(arr: seq<bv8>, head: nat, tail: nat, status: RingBufferStatus, status': RingBufferStatus)
    requires |arr| > 1 && RingOk(|arr|, head, tail, status) && status != Empty
    requires status' == if After(head, |arr|) == tail then Empty else Normal
    ensures RingOk(|arr|, After(head, |arr|), tail, status')
    ensures Ring(arr, head, tail, status) == [arr[head]] + Ring(arr, After(head, |arr|), tail, status')
  {
    if head < tail {
      assert arr[head..tail] == [arr[head]] + arr[head + 1..tail];
    } else {
      assert arr[head..] == [arr[head]] + arr[head + 1..];
    }
  }

  class PipeRingBuffer {
    const arr: array<bv8>
    var head: nat
    var tail: nat
    var status: RingBufferStatus
    var readEndClosed: bool
    var writeEndClosed: bool
    var readWaiters: seq<nat>
    var writeWaiters: seq<nat>
    /** The tasks whose wakers have been called. */
    var woken: set<nat>

    ghost predicate Valid()
      reads this
    {
      arr.Length == RING_BUFFER_SIZE && RingOk(arr.Length, head, tail, status)
    }

    ghost function View(): PipeState
      reads this, arr
      requires Valid()
    {
      PipeState(Ring(arr[..], head, tail, status), readEndClosed, writeEndClosed, readWaiters, writeWaiters, woken)
    }

    constructor ()
      ensures Valid() && fresh(arr) && View() == NEW_PIPE
    {
      arr := new bv8[RING_BUFFER_SIZE](i => 0);
      head, tail, status := 0, 0, Empty;
      readEndClosed, writeEndClosed := false, false;
      readWaiters, writeWaiters, woken := [], [], {};
    }

    method NotifyReadWaiters()
      requires Valid()
      modifies this`readWaiters, this`woken
      ensures Valid() && View() == NotifyReaders(old(View()))
    {
      while readWaiters != []
        invariant woken + Elements(readWaiters) == old(woken + Elements(readWaiters))
        decreases |readWaiters|
      {
        assert Elements(readWaiters) == {readWaiters[0]} + Elements(readWaiters[1..]);
        woken, readWaiters := woken + {readWaiters[0]}, readWaiters[1..];
      }
    }

    method NotifyWriteWaiters()
      requires Valid()
      modifies this`writeWaiters, this`woken
      ensures Valid() && View() == NotifyWriters(old(View()))
    {
      while writeWaiters != []
        invariant woken + Elements(writeWaiters) == old(woken + Elements(writeWaiters))
        decreases |writeWaiters|
      {
        assert Elements(writeWaiters) == {writeWaiters[0]} + Elements(writeWaiters[1..]);
        woken, writeWaiters := woken + {writeWaiters[0]}, writeWaiters[1..];
      }
    }

    method RegisterReaderWaker(t: nat)
      requires Valid()
      modifies this`readWaiters
      ensures Valid() && View() == RegisterReader(old(View()), t)
    {
      if t !in readWaiters {
        readWaiters := readWaiters + [t];
      }
    }

    method RegisterWriterWaker(t: nat)
      requires Valid()
      modifies this`writeWaiters
      ensures Valid() && View() == RegisterWriter(old(View()), t)
    {
      if t !in writeWaiters {
        writeWaiters := writeWaiters + [t];
      }
    }

    method MarkWriteEndClosed()
      requires Valid()
      modifies this
      ensures Valid() && View() == CloseWriteEnd(old(View()))
      ensures writeEndClosed && readEndClosed == old(readEndClosed) && View().data == old(View().data)
    {
      if !writeEndClosed {
        writeEndClosed := true;
        NotifyReadWaiters();
      }
    }

    method MarkReadEndClosed()
      requires Valid()
      modifies this
      ensures Valid() && View() == CloseReadEnd(old(View()))
      ensures readEndClosed && writeEndClosed == old(writeEndClosed) && View().data == old(View().data)
    {
      if !readEndClosed {
        readEndClosed := true;
        NotifyWriteWaiters();
      }
    }

    /** Puts a byte at the tail, where there must be room. */
    method PutTail(b: bv8)
      requires Valid() && status != Full
      modifies this`tail, this`status, arr
      ensures Valid() && View().data == old(View().data) + [b]
    {
      arr[tail] := b;
      tail := (tail + 1) % RING_BUFFER_SIZE;
      status := if tail == head then Full else Normal;
      assert arr[..] == old(arr[..])[old(tail) := b];
      RingPut(old(arr[..]), head, old(tail), old(status), b, status);
    }

    method WriteByte(b: bv8) returns (r: PipeResult)
      requires Valid()
      modifies this, arr
      ensures Valid()
      ensures r == if |old(View()).data| == RING_BUFFER_SIZE then PipeErr(EAGAIN)
                   else if old(readEndClosed) then PipeErr(EPIPE) else PipeOk(1)
      ensures View() == if r == PipeOk(1) then WriteSome(old(View()), [b]) else old(View())
    {
      RingLength(arr[..], head, tail, status);
      if status == Full { return PipeErr(EAGAIN); }
      if readEndClosed { return PipeErr(EPIPE); }
      var wasEmpty := status == Empty;
      PutTail(b);
      assert [b][..1] == [b];
      if wasEmpty {
        NotifyReadWaiters();
      }
      r := PipeOk(1);
    }

    /** Takes the byte at the head, which there must be. */
    method TakeHead() returns (b: bv8)
      requires Valid() && status != Empty
      modifies this`head, this`status
      ensures Valid() && [b] + View().data == old(View().data)
    {
      b := arr[head];
      head := (head + 1) % RING_BUFFER_SIZE;
      status := if head == tail then Empty else Normal;
      RingTake(arr[..], old(head), tail, old(status), status);
    }

    method ReadByte() returns (ok: bool, b: bv8)
      requires Valid()
      modifies this
      ensures Valid() && (ok <==> old(View()).data != [])
      ensures ok ==> b == old(View()).data[0]
      ensures View() == if ok then ReadSome(old(View()), 1) else old(View())
    {
      RingLength(arr[..], head, tail, status);
      if status == Empty { return false, 0; }
      var wasFull := status == Full;
      b := TakeHead();
      assert View().data == old(View()).data[1..];
      if wasFull {
        NotifyWriteWaiters();
      }
      ok := true;
    }

    function AvailableRead(): (n: nat)
      reads this, arr
      requires Valid()
      ensures n == |View().data|
    {
      if status == Empty then 0 else if tail > head then tail - head else tail + RING_BUFFER_SIZE - head
    }

    function AvailableWrite(): (n: nat)
      reads this, arr
      requires Valid()
      ensures n == RING_BUFFER_SIZE - |View().data|
    {
      if status == Full then 0 else RING_BUFFER_SIZE - AvailableRead()
    }
  }

  // ---- filling user segments ----

  ghost predicate SameShape(out: seq<seq<bv8>>, bufs: seq<seq<bv8>>) {
    |out| == |bufs| && forall i :: 0 <= i < |bufs| ==> |out[i]| == |bufs[i]|
  }

  /** Byte `at` of segment `i` is the `pos`-th byte of the buffer. */
  ghost predicate Position(bufs: seq<seq<bv8>>, i: nat, at: nat, pos: nat) {
    i <= |bufs| && at <= (if i < |bufs| then |bufs[i]| else 0) && pos == |Flat(bufs[..i])| + at
  }

  lemma {:induction false} PositionInside(bufs: seq<seq<bv8>>, i: nat, at: nat)
    requires i < |bufs| && at < |bufs[i]|
    ensures |Flat(bufs[..i])| + at < |Flat(bufs)| && Flat(bufs)[|Flat(bufs[..i])| + at] == bufs[i][at]
    decreases i
  {
    if i > 0 {
      PositionInside(bufs[1..], i - 1, at);
      assert bufs[1..][..i - 1] == bufs[..i][1..];
    }
  }

  lemma PositionNext(bufs: seq<seq<bv8>>, i: nat, pos: nat)
    requires i < |bufs| && Position(bufs, i, |bufs[i]|, pos)
    ensures Position(bufs, i + 1, 0, pos)
  {
    FlatAppend(bufs[..i], bufs[i]);
    assert bufs[..i + 1] == bufs[..i] + [bufs[i]];
  }

  lemma PositionEnd(bufs: seq<seq<bv8>>, pos: nat)
    requires Position(bufs, |bufs|, 0, pos)
    ensures pos == |Flat(bufs)|
  {
    assert bufs[..|bufs|] == bufs;
  }

  lemma {:induction false} SameLength(out: seq<seq<bv8>>, bufs: seq<seq<bv8>>)
    requires SameShape(out, bufs)
    ensures |Flat(out)| == |Flat(bufs)|
  {
    if bufs != [] {
      SameLength(out[1..], bufs[1..]);
    }
  }

  /** Storing a byte in a segment stores it at its position. */
  lemma {:induction false} FlatPut(out: seq<seq<bv8>>, i: nat, at: nat, b: bv8)
    requires i < |out| && at < |out[i]|
    ensures |Flat(out[..i])| + at < |Flat(out)|
    ensures Flat(out[i := out[i][at := b]]) == Flat(out)[|Flat(out[..i])| + at := b]
    decreases i
  {
    PositionInside(out, i, at);
    if i > 0 {
      FlatPut(out[1..], i - 1, at, b);
      assert out[1..][..i - 1] == out[..i][1..];
      assert out[i := out[i][at := b]][1..] == out[1..][i - 1 := out[i][at := b]];
    }
  }

  /** The first `n` bytes of the buffer have been replaced by those of `data`. */
  ghost predicate Filled(bufs: seq<seq<bv8>>, out: seq<seq<bv8>>, data: seq<bv8>, n: nat) {
    && SameShape(out, bufs) && n <= |data| && n <= |Flat(bufs)|
    && Flat(out) == data[..n] + Flat(bufs)[n..]
  }

  lemma FillByte(bufs: seq<seq<bv8>>, out: seq<seq<bv8>>, data: seq<bv8>, i: nat, at: nat, n: nat)
    requires Filled(bufs, out, data, n) && Position(bufs, i, at, n) && i < |bufs| && at < |bufs[i]| && n < |data|
    ensures Filled(bufs, out[i := out[i][at := data[n]]], data, n + 1)
  {
    FlatPut(out, i, at, data[n]);
    SameLength(out[..i], bufs[..i]);
    PositionInside(bufs, i, at);
    var flat, flat' := Flat(out), Flat(out[i := out[i][at := data[n]]]);
    assert flat' == flat[n := data[n]];
    assert flat[n := data[n]] == data[..n + 1] + Flat(bufs)[n + 1..];
  }

  /** The call is the step of the runs: it leaves the same pipe, waits exactly if the step does, and otherwise
      has moved the same bytes. */
  ghost predicate ReadsAs(w: PipeRuns.World, t: nat, n: nat, nonBlock: bool, r: PipeResult, out: seq<bv8>,
                          p: PipeState) {
    var w' := PipeRuns.Next(w, PipeRuns.Read(t, n, nonBlock));
    && w'.pipe == p && (PipeRuns.ModeOf(w', t) == PipeRuns.PollsRead <==> r == Pending)
    && (r.PipeOk? ==> r.n <= |out| && w'.received == w.received + out[..r.n])
  }

  ghost predicate WritesAs(w: PipeRuns.World, t: nat, b: seq<bv8>, nonBlock: bool, r: PipeResult, p: PipeState) {
    var w' := PipeRuns.Next(w, PipeRuns.Write(t, b, nonBlock));
    && w'.pipe == p && (PipeRuns.ModeOf(w', t) == PipeRuns.PollsWrite <==> r == Pending)
    && (r.PipeOk? ==> r.n <= |b| && w'.sent == w.sent + b[..r.n])
  }

  /** One end of a pipe. */
  class Pipe {
    const readable: bool
    const writable: bool
    const buffer: PipeRingBuffer
    var nonBlock: bool

    constructor (readable: bool, writable: bool, buffer: PipeRingBuffer, nonBlock: bool)
      ensures this.readable == readable && this.writable == writable && this.buffer == buffer
              && this.nonBlock == nonBlock
    {
      this.readable, this.writable, this.buffer, this.nonBlock := readable, writable, buffer, nonBlock;
    }

    /** One attempt of `read` under the lock: data is moved at once, and otherwise the end of the stream,
        a refusal, or `Pending` when the caller has to wait. */
    method Read(bufs: seq<seq<bv8>>) returns (r: PipeResult, out: seq<seq<bv8>>)
      requires buffer.Valid()
      modifies buffer
      ensures buffer.Valid()
      ensures var p, len := old(buffer.View()), |Flat(bufs)|;
              if readable && len > 0 && p.data != [] then
                r == PipeOk(Readable(p, len)) && buffer.View() == ReadSome(p, len)
                && Filled(bufs, out, p.data, Readable(p, len))
              else
                buffer.View() == p && out == bufs
                && r == if !readable then PipeErr(EBADF)
                        else if len == 0 || p.writeEndClosed then PipeOk(0)
                        else if nonBlock then PipeErr(EAGAIN)
                        else Pending
      ensures readable ==> forall w: PipeRuns.World, t: nat ::
                w.pipe == old(buffer.View()) && PipeRuns.ModeOf(w, t) == PipeRuns.Idle ==>
                  ReadsAs(w, t, |Flat(bufs)|, nonBlock, r, Flat(out), buffer.View())
    {
      out := bufs;
      if !readable { return PipeErr(EBADF), bufs; }
      var len := TotalLen(bufs);
      if len == 0 { return PipeOk(0), bufs; }
      if buffer.AvailableRead() > 0 {
        var n;
        n, out := Fill(bufs, len, buffer.View());
        r := PipeOk(n);
      } else if buffer.writeEndClosed {
        r := PipeOk(0);
      } else if nonBlock {
        r := PipeErr(EAGAIN);
      } else {
        r := Pending;
      }
    }

    /** Moves bytes from the ring into the segments until either runs out. */
    method Fill(bufs: seq<seq<bv8>>, len: nat, ghost p: PipeState) returns (total: nat, out: seq<seq<bv8>>)
      requires buffer.Valid() && buffer.View() == p && len == |Flat(bufs)| > 0 && p.data != []
      modifies buffer
      ensures buffer.Valid() && buffer.View() == ReadSome(p, len)
      ensures total == Readable(p, len) && Filled(bufs, out, p.data, total)
    {
      RingBounds(buffer);
      FillStart(p, bufs);
      total, out := 0, bufs;
      var i, at, ranOut := 0, 0, false;
      while i < |bufs| && !ranOut && total < len
        invariant 0 <= i && 0 <= at && Filling(bufs, out, p, i, at, total)
        invariant if ranOut then ReadSome(p, total).data == [] else at == 0
        decreases |bufs| - i, !ranOut
      {
        at, total, out, ranOut := FillSegment(bufs, out, i, total, len, p);
        if !ranOut {
          PositionNext(bufs, i, total);
          i, at := i + 1, 0;
        }
      }
      FillEnd(bufs, out, p, i, at, total, len);
    }

    /** The loop state of `Fill`. */
    ghost predicate Filling(bufs: seq<seq<bv8>>, out: seq<seq<bv8>>, p: PipeState, i: nat, at: nat, total: nat)
      reads buffer, buffer.arr
    {
      && buffer.Valid() && buffer.View() == ReadSome(p, total) && Filled(bufs, out, p.data, total)
      && Position(bufs, i, at, total)
    }

    /** The inner loop of `read`: one segment. */
    method FillSegment(bufs: seq<seq<bv8>>, out0: seq<seq<bv8>>, i: nat, total0: nat, len: nat, ghost p: PipeState)
      returns (at: nat, total: nat, out: seq<seq<bv8>>, ranOut: bool)
      requires i < |bufs| && len == |Flat(bufs)| && |p.data| <= RING_BUFFER_SIZE
      requires Filling(bufs, out0, p, i, 0, total0)
      modifies buffer
      ensures Filling(bufs, out, p, i, at, total)
      ensures if ranOut then ReadSome(p, total).data == [] else at == |bufs[i]|
    {
      at, total, out := 0, total0, out0;
      while at < |bufs[i]| && total < len
        invariant Filling(bufs, out, p, i, at, total)
      {
        var ok, b := buffer.ReadByte();
        if !ok { return at, total, out, true; }
        ReadByteAt(p, total);
        ReadOneMore(p, total);
        FillByte(bufs, out, p.data, i, at, total);
        out := out[i := out[i][at := b]];
        at, total := at + 1, total + 1;
      }
      if at < |bufs[i]| {
        PositionInside(bufs, i, at);
        assert false;
      }
      ranOut := false;
    }

    /** One attempt of `write` under the lock. */
    method Write(bufs: seq<seq<bv8>>) returns (r: PipeResult)
      requires buffer.Valid()
      modifies buffer, buffer.arr
      ensures buffer.Valid()
      ensures var p, len := old(buffer.View()), |Flat(bufs)|;
              if writable && len > 0 && !p.readEndClosed && |p.data| < RING_BUFFER_SIZE then
                r == PipeOk(Writable(p, len)) && buffer.View() == WriteSome(p, Flat(bufs))
              else
                buffer.View() == p
                && r == if !writable then PipeErr(EBADF)
                        else if len == 0 then PipeOk(0)
                        else if p.readEndClosed then PipeErr(EPIPE)
                        else if nonBlock then PipeErr(EAGAIN)
                        else Pending
      ensures writable ==> forall w: PipeRuns.World, t: nat ::
                w.pipe == old(buffer.View()) && PipeRuns.ModeOf(w, t) == PipeRuns.Idle ==>
                  WritesAs(w, t, Flat(bufs), nonBlock, r, buffer.View())
    {
      if !writable { return PipeErr(EBADF); }
      var len := TotalLen(bufs);
      if len == 0 { return PipeOk(0); }
      if buffer.readEndClosed { return PipeErr(EPIPE); }
      if buffer.AvailableWrite() > 0 {
        var n := Push(bufs, len, buffer.View());
        r := PipeOk(n);
      } else if nonBlock {
        r := PipeErr(EAGAIN);
      } else {
        r := Pending;
      }
    }

    /** The loop state of `Push`: the first `total` bytes are in the ring. */
    ghost predicate Pushing(bufs: seq<seq<bv8>>, p: PipeState, i: nat, at: nat, total: nat)
      reads buffer, buffer.arr
    {
      && buffer.Valid() && total <= |Flat(bufs)| && |p.data| + total <= RING_BUFFER_SIZE
      && buffer.View() == WriteSome(p, Flat(bufs)[..total]) && Position(bufs, i, at, total)
    }

    /** Moves bytes from the segments into the ring until either runs out. */
    method Push(bufs: seq<seq<bv8>>, len: nat, ghost p: PipeState) returns (total: nat)
      requires buffer.Valid() && buffer.View() == p && len == |Flat(bufs)| > 0
      requires !p.readEndClosed && |p.data| < RING_BUFFER_SIZE
      modifies buffer, buffer.arr
      ensures buffer.Valid() && buffer.View() == WriteSome(p, Flat(bufs))
      ensures total == Writable(p, len)
    {
      total := 0;
      PushStart(p, bufs);
      var i, at, full := 0, 0, false;
      while i < |bufs| && !full && total < len
        invariant 0 <= i && 0 <= at && Pushing(bufs, p, i, at, total)
        invariant if full then |p.data| + total == RING_BUFFER_SIZE else at == 0
        decreases |bufs| - i, !full
      {
        at, total, full := PushSegment(bufs, i, total, len, p);
        if !full {
          PositionNext(bufs, i, total);
          i, at := i + 1, 0;
        }
      }
      PushEnd(bufs, p, i, at, total, len);
    }

    /** Writes the next byte while there is room. The kernel unwraps the result of `write_byte`, and it is
        never an error here. */
    method PushByte(bufs: seq<seq<bv8>>, i: nat, at: nat, total: nat, ghost p: PipeState)
      requires Pushing(bufs, p, i, at, total) && !p.readEndClosed
      requires i < |bufs| && at < |bufs[i]| && |p.data| + total < RING_BUFFER_SIZE
      modifies buffer, buffer.arr
      ensures Pushing(bufs, p, i, at + 1, total + 1)
    {
      WriteLength(p, Flat(bufs), total);
      PositionInside(bufs, i, at);
      var r := buffer.WriteByte(bufs[i][at]);
      assert r == PipeOk(1);
      WriteOneMore(p, Flat(bufs), total);
    }

    /** The inner loop of `write`: one segment. */
    method PushSegment(bufs: seq<seq<bv8>>, i: nat, total0: nat, len: nat, ghost p: PipeState)
      returns (at: nat, total: nat, full: bool)
      requires i < |bufs| && len == |Flat(bufs)| && !p.readEndClosed
      requires Pushing(bufs, p, i, 0, total0)
      modifies buffer, buffer.arr
      ensures Pushing(bufs, p, i, at, total)
      ensures if full then |p.data| + total == RING_BUFFER_SIZE else at == |bufs[i]|
    {
      at, total := 0, total0;
      while at < |bufs[i]| && total < len
        invariant Pushing(bufs, p, i, at, total)
      {
        WriteLength(p, Flat(bufs), total);
        if buffer.AvailableWrite() == 0 { return at, total, true; }
        PushByte(bufs, i, at, total, p);
        at, total := at + 1, total + 1;
      }
      if at < |bufs[i]| {
        PositionInside(bufs, i, at);
        assert false;
      }
      full := false;
    }

    /** `poll`: what is ready now; a side that is asked for and not ready gets the waker. */
    method Poll(pollIn: bool, pollOut: bool, t: nat) returns (revents: set<PollEvent>)
      requires buffer.Valid()
      modifies buffer
      ensures buffer.Valid()
      ensures var p := old(buffer.View());
              var p1 := if readable && pollIn && p.data == [] && !p.writeEndClosed then RegisterReader(p, t) else p;
              buffer.View() == if writable && pollOut && |p.data| == RING_BUFFER_SIZE && !p.readEndClosed
                               then RegisterWriter(p1, t) else p1
      ensures var p := old(buffer.View());
              && (POLLIN in revents <==> readable && pollIn && (p.data != [] || p.writeEndClosed))
              && (POLLHUP in revents <==> readable && p.writeEndClosed)
              && (POLLOUT in revents <==> writable && pollOut && (|p.data| < RING_BUFFER_SIZE || p.readEndClosed))
              && (POLLERR in revents <==> writable && p.readEndClosed)
    {
      RingBounds(buffer);
      revents := {};
      if readable {
        if pollIn {
          if buffer.AvailableRead() > 0 {
            revents := revents + {POLLIN};
          } else if buffer.writeEndClosed {
            revents := revents + {POLLIN, POLLHUP};
          } else {
            buffer.RegisterReaderWaker(t);
          }
        }
        if buffer.writeEndClosed {
          revents := revents + {POLLHUP};
        }
      }
      if writable {
        if pollOut {
          if buffer.AvailableWrite() > 0 {
            revents := revents + {POLLOUT};
          } else if buffer.readEndClosed {
            revents := revents + {POLLOUT, POLLERR};
          } else {
            buffer.RegisterWriterWaker(t);
          }
        }
        if buffer.readEndClosed {
          revents := revents + {POLLERR};
        }
      }
    }

    /** The future a blocked read waits on. */
    method PollReadReady(t: nat) returns (ready: bool)
      requires buffer.Valid()
      modifies buffer
      ensures buffer.Valid()
      ensures ready <==> old(buffer.View()).data != [] || old(buffer.writeEndClosed)
      ensures buffer.View() == if ready then old(buffer.View()) else RegisterReader(old(buffer.View()), t)
      ensures forall w: PipeRuns.World ::
                w.pipe == old(buffer.View()) && PipeRuns.ModeOf(w, t) in {PipeRuns.Idle, PipeRuns.PollsRead} ==>
                  var w' := PipeRuns.Next(w, PipeRuns.PollIn(t));
                  w'.pipe == buffer.View()
                    && PipeRuns.ModeOf(w', t) == if ready then PipeRuns.Idle else PipeRuns.SleepsRead
    {
      if buffer.AvailableRead() > 0 || buffer.writeEndClosed { return true; }
      buffer.RegisterReaderWaker(t);
      ready := false;
    }

    /** The future a blocked write waits on. */
    method PollWriteReady(t: nat) returns (ready: bool)
      requires buffer.Valid()
      modifies buffer
      ensures buffer.Valid()
      ensures ready <==> |old(buffer.View()).data| < RING_BUFFER_SIZE || old(buffer.readEndClosed)
      ensures buffer.View() == if ready then old(buffer.View()) else RegisterWriter(old(buffer.View()), t)
      ensures forall w: PipeRuns.World ::
                w.pipe == old(buffer.View()) && PipeRuns.ModeOf(w, t) in {PipeRuns.Idle, PipeRuns.PollsWrite} ==>
                  var w' := PipeRuns.Next(w, PipeRuns.PollOut(t));
                  w'.pipe == buffer.View()
                  && PipeRuns.ModeOf(w', t) == if ready then PipeRuns.Idle else PipeRuns.SleepsWrite
    {
      if buffer.AvailableWrite() > 0 || buffer.readEndClosed { return true; }
      buffer.RegisterWriterWaker(t);
      ready := false;
    }

    /** Dropping an end closes it and wakes the other side. */
    method Drop()
      requires buffer.Valid()
      modifies buffer
      ensures buffer.Valid()
      ensures var p := if readable then CloseReadEnd(old(buffer.View())) else old(buffer.View());
              buffer.View() == if writable then CloseWriteEnd(p) else p
      ensures buffer.writeEndClosed <==> old(buffer.writeEndClosed) || writable
      ensures buffer.readEndClosed <==> old(buffer.readEndClosed) || readable
      ensures buffer.View().data == old(buffer.View()).data
      ensures writable && !old(buffer.writeEndClosed) ==>
                buffer.readWaiters == [] && forall t :: t in old(buffer.readWaiters) ==> t in buffer.woken
      ensures readable && !old(buffer.readEndClosed) ==>
                buffer.writeWaiters == [] && forall t :: t in old(buffer.writeWaiters) ==> t in buffer.woken
    {
      if readable {
        buffer.MarkReadEndClosed();
      }
      if writable {
        buffer.MarkWriteEndClosed();
      }
    }
  }

  lemma PushStart(p: PipeState, bufs: seq<seq<bv8>>)
    ensures WriteSome(p, Flat(bufs)[..0]) == p && Position(bufs, 0, 0, 0)
  {
    assert Flat(bufs)[..0] == [] && bufs[..0] == [];
  }

  lemma WriteLength(p: PipeState, b: seq<bv8>, n: nat)
    requires n <= |b| && |p.data| + n <= RING_BUFFER_SIZE
    ensures |WriteSome(p, b[..n]).data| == |p.data| + n && WriteSome(p, b[..n]).readEndClosed == p.readEndClosed
  {
  }

  lemma PushEnd(bufs: seq<seq<bv8>>, p: PipeState, i: nat, at: nat, n: nat, len: nat)
    requires len == |Flat(bufs)| > 0 && n <= len && |p.data| + n <= RING_BUFFER_SIZE && |p.data| < RING_BUFFER_SIZE
    requires Position(bufs, i, at, n) && (|p.data| + n == RING_BUFFER_SIZE || n >= len || (i == |bufs| && at == 0))
    ensures n == Writable(p, len) && WriteSome(p, Flat(bufs)[..n]) == WriteSome(p, Flat(bufs))
  {
    if i == |bufs| {
      PositionEnd(bufs, n);
    }
    assert Flat(bufs)[..n][..n] == Flat(bufs)[..n];
  }

  /** The next byte of what is left is the next byte. */
  lemma ReadByteAt(p: PipeState, n: nat)
    requires |p.data| <= RING_BUFFER_SIZE && n <= |p.data| && ReadSome(p, n).data != []
    ensures n < |p.data| && ReadSome(p, n).data[0] == p.data[n]
  {
  }

  lemma RingBounds(buffer: PipeRingBuffer)
    requires buffer.Valid()
    ensures |buffer.View().data| <= RING_BUFFER_SIZE
  {
    RingLength(buffer.arr[..], buffer.head, buffer.tail, buffer.status);
  }

  lemma FillStart(p: PipeState, bufs: seq<seq<bv8>>)
    ensures ReadSome(p, 0) == p && Filled(bufs, bufs, p.data, 0) && Position(bufs, 0, 0, 0)
  {
    assert p.data[0..] == p.data && p.data[..0] == [] && Flat(bufs)[0..] == Flat(bufs);
    assert bufs[..0] == [];
  }

  /** When the bytes or the segments have run out, everything that could be moved has been. */
  lemma FillEnd(bufs: seq<seq<bv8>>, out: seq<seq<bv8>>, p: PipeState, i: nat, at: nat, n: nat, len: nat)
    requires |p.data| <= RING_BUFFER_SIZE && p.data != [] && len == |Flat(bufs)| > 0
    requires Filled(bufs, out, p.data, n) && Position(bufs, i, at, n)
    requires ReadSome(p, n).data == [] || n >= len || (i == |bufs| && at == 0)
    ensures n == Readable(p, len) && ReadSome(p, n) == ReadSome(p, len)
  {
    if i == |bufs| {
      PositionEnd(bufs, n);
    }
  }
}
