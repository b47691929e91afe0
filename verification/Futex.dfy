/** Futex queues as values: who is woken, who is moved and who stays. */
module FutexQueues {
  import opened Base

  /** A `FutexWaiterNode`; `id` tells nodes apart as their `Arc`s do. */
  datatype Waiter = Waiter(id: nat, taskId: nat, waitBitmask: bv32)

  datatype FutexKey = FutexKey(token: nat, uaddr: nat)

  const ALL_BITS: bv32 := 0xFFFF_FFFF

  predicate Matches(w: Waiter, mask: bv32) {
    w.waitBitmask & mask != 0
  }

  /** The waiters that `wake_matching_waiters` wakes, and those it leaves. */
  ghost function Woken(q: seq<Waiter>, n: nat, mask: bv32): seq<Waiter> {
    if q == [] then []
    else if n > 0 && Matches(q[0], mask) then [q[0]] + Woken(q[1..], n - 1, mask)
    else Woken(q[1..], n, mask)
  }

  ghost function Unwoken(q: seq<Waiter>, n: nat, mask: bv32): seq<Waiter> {
    if q == [] then []
    else if n > 0 && Matches(q[0], mask) then Unwoken(q[1..], n - 1, mask)
    else [q[0]] + Unwoken(q[1..], n, mask)
  }

  /** Those of `q` that match, or that do not, in order. */
  ghost function Select(q: seq<Waiter>, mask: bv32, matching: bool): seq<Waiter> {
    if q == [] then []
    else (if Matches(q[0], mask) == matching then [q[0]] else []) + Select(q[1..], mask, matching)
  }

  /** Woken are the matching waiters of a first stretch of the queue, which is the whole queue unless `n`
      have been woken; everyone else stays, in order. */
  lemma {:induction false} WokenStretch(q: seq<Waiter>, n: nat, mask: bv32) returns (c: nat)
    ensures c <= |q| && Woken(q, n, mask) == Select(q[..c], mask, true)
    ensures Unwoken(q, n, mask) == Select(q[..c], mask, false) + q[c..]
    ensures |Woken(q, n, mask)| == n || (|Woken(q, n, mask)| < n && c == |q|)
  {
    if n == 0 || q == [] {
      c := 0;
      NoneWoken(q, mask);
    } else {
      var rest, m := q[1..], if Matches(q[0], mask) then n - 1 else n;
      var d := WokenStretch(rest, m, mask);
      c := d + 1;
      SelectFront(q, c, mask);
      WokenFront(q, n, m, mask);
      Joined(if Matches(q[0], mask) then [] else [q[0]], Select(rest[..d], mask, false), rest[d..]);
    }
  }

  /** The first waiter, and the others. */
  lemma WokenFront(q: seq<Waiter>, n: nat, m: nat, mask: bv32)
    requires q != [] && m == if n > 0 && Matches(q[0], mask) then n - 1 else n
    ensures var first := n > 0 && Matches(q[0], mask);
            && Woken(q, n, mask) == (if first then [q[0]] else []) + Woken(q[1..], m, mask)
            && Unwoken(q, n, mask) == (if first then [] else [q[0]]) + Unwoken(q[1..], m, mask)
  {
  }

  lemma Joined(a: seq<Waiter>, b: seq<Waiter>, c: seq<Waiter>)
    ensures a + (b + c) == a + b + c
  {
  }

  lemma SelectFront(q: seq<Waiter>, c: nat, mask: bv32)
    requires 0 < c <= |q|
    ensures forall b: bool :: Select(q[..c], mask, b)
              == (if Matches(q[0], mask) == b then [q[0]] else []) + Select(q[1..][..c - 1], mask, b)
    ensures q[c..] == q[1..][c - 1..]
  {
    assert q[..c][1..] == q[1..][..c - 1];
  }

  lemma {:induction false} NoneWoken(q: seq<Waiter>, mask: bv32)
    ensures Woken(q, 0, mask) == [] && Unwoken(q, 0, mask) == q
  {
    if q != [] {
      NoneWoken(q[1..], mask);
    }
  }

  /** The bits of `b` are all among those of `m`. */
  predicate Within(b: bv32, m: bv32) {
    b & m == b
  }

  /** A waiter matches when it has a bit in common with the mask, and with all bits set when it has any. */
  lemma MatchesByBits(w: Waiter, mask: bv32)
    ensures Matches(w, mask) <==> exists b: bv32 :: b != 0 && Within(b, w.waitBitmask) && Within(b, mask)
    ensures Matches(w, ALL_BITS) <==> w.waitBitmask != 0
  {
    if Matches(w, mask) {
      CommonBits(w.waitBitmask, mask);
    }
    if b: bv32 :| b != 0 && Within(b, w.waitBitmask) && Within(b, mask) {
      SharedBits(b, w.waitBitmask, mask);
    }
  }

  lemma CommonBits(x: bv32, y: bv32)
    ensures Within(x & y, x) && Within(x & y, y)
  {
  }

  lemma SharedBits(b: bv32, x: bv32, y: bv32)
    requires b != 0 && Within(b, x) && Within(b, y)
    ensures x & y != 0
  {
    assert b & (x & y) == b;
  }

  /** When everyone matches, the first `n` are woken. */
  lemma {:induction false} EveryoneMatches(q: seq<Waiter>, n: nat, mask: bv32)
    requires forall i :: 0 <= i < |q| ==> Matches(q[i], mask)
    ensures var m := if n <= |q| then n else |q|;
            Woken(q, n, mask) == q[..m] && Unwoken(q, n, mask) == q[m..]
  {
    if n == 0 {
      NoneWoken(q, mask);
    } else if q != [] {
      EveryoneMatches(q[1..], n - 1, mask);
    }
  }

  /** No waiter of the queue is without any bit. */
  ghost predicate AllHaveBits(q: seq<Waiter>) {
    forall w :: w in q ==> w.waitBitmask != 0
  }

  /** Of queue `q` the first `n` have been woken, the next `m` are at the end of queue `l`, and the others stay, all
      as far as there are so many; `count` is how many were woken or moved. */
  ghost predicate FrontMoved(q: seq<Waiter>, l: seq<Waiter>, log: seq<Waiter>, n: nat, m: nat, count: nat,
                             q': seq<Waiter>, l': seq<Waiter>, log': seq<Waiter>) {
    var k := Min(n, |q|);
    var moved := Min(m, |q| - k);
    count == k + moved && log' == log + q[..k] && l' == l + q[k..k + moved] && q' == q[k + moved..]
  }

  /** When everyone has a bit, a requeue that wakes up to `n` and moves up to `m` of the others takes both from
      the front, one after the other. */
  lemma FrontTaken(q: seq<Waiter>, n: nat, m: nat)
    requires AllHaveBits(q)
    ensures var k := Min(n, |q|);
            var rest := Unwoken(q, n, ALL_BITS);
            var moved := Min(m, |rest|);
            && Woken(q, n, ALL_BITS) == q[..k] && rest == q[k..]
            && rest[moved..] == q[k + moved..] && rest[..moved] == q[k..k + moved]
  {
    forall i | 0 <= i < |q| ensures Matches(q[i], ALL_BITS) {
      assert q[i] in q;
      MatchesByBits(q[i], ALL_BITS);
    }
    EveryoneMatches(q, n, ALL_BITS);
  }

  /** Whoever is woken matches. */
  lemma {:induction false} WokenMatch(q: seq<Waiter>, n: nat, mask: bv32, w: Waiter)
    requires w in Woken(q, n, mask)
    ensures w.waitBitmask & mask != 0
  {
    if n > 0 && Matches(q[0], mask) {
      if w != q[0] {
        WokenMatch(q[1..], n - 1, mask, w);
      }
    } else {
      WokenMatch(q[1..], n, mask, w);
    }
  }

  /** Nobody is lost and nobody is doubled. */
  lemma {:induction false} WokenConserves(q: seq<Waiter>, n: nat, mask: bv32)
    ensures multiset(Woken(q, n, mask)) + multiset(Unwoken(q, n, mask)) == multiset(q)
  {
    if q != [] {
      assert q == [q[0]] + q[1..];
      WokenConserves(q[1..], if n > 0 && Matches(q[0], mask) then n - 1 else n, mask);
    }
  }

  /** `retain` of everything but one node. */
  ghost function Without(q: seq<Waiter>, id: nat): seq<Waiter> {
    if q == [] then []
    else Without(q[..|q| - 1], id) + if q[|q| - 1].id == id then [] else [q[|q| - 1]]
  }

  lemma WithoutOne(w: Waiter, id: nat)
    ensures Without([w], id) == if w.id == id then [] else [w]
  {
    assert [w][..0] == [];
  }

  /** Every waiter is kept or taken out on its own, and those kept stay in order. */
  lemma {:induction false} WithoutJoins(a: seq<Waiter>, b: seq<Waiter>, id: nat)
    ensures Without(a + b, id) == Without(a, id) + Without(b, id)
  {
    if b == [] {
      assert a + b == a;
    } else {
      WithoutJoins(a, b[..|b| - 1], id);
      assert (a + b)[..|a + b| - 1] == a + b[..|b| - 1];
    }
  }

  lemma WokenOne(w: Waiter, n: nat, mask: bv32)
    ensures Woken([w], n, mask) == if n > 0 && Matches(w, mask) then [w] else []
    ensures Unwoken([w], n, mask) == if n > 0 && Matches(w, mask) then [] else [w]
  {
  }

  /** One more waiter at the end. */
  lemma {:induction false} WokenAppend(q: seq<Waiter>, w: Waiter, n: nat, mask: bv32)
    ensures var k := |Woken(q, n, mask)|;
            && k <= n
            && Woken(q + [w], n, mask) == Woken(q, n, mask) + (if k < n && Matches(w, mask) then [w] else [])
            && Unwoken(q + [w], n, mask) == Unwoken(q, n, mask) + (if k < n && Matches(w, mask) then [] else [w])
  {
    if q == [] {
      assert q + [w] == [w];
      WokenOne(w, n, mask);
    } else {
      var m := if n > 0 && Matches(q[0], mask) then n - 1 else n;
      var rest, b := q[1..], |Woken(q[1..], m, mask)| < m && Matches(w, mask);
      assert (q + [w])[1..] == rest + [w] && (q + [w])[0] == q[0];
      WokenAppend(rest, w, m, mask);
      WokenFront(q, n, m, mask);
      WokenFront(q + [w], n, m, mask);
      var taken := if n > 0 && Matches(q[0], mask) then [q[0]] else [];
      var kept := if n > 0 && Matches(q[0], mask) then [] else [q[0]];
      Joined(taken, Woken(rest, m, mask), if b then [w] else []);
      Joined(kept, Unwoken(rest, m, mask), if b then [] else [w]);
    }
  }
}

/** All queues and the waiters woken so far, over any sequence of calls. */
module FutexRuns {
  import opened Base
  import opened FutexQueues

  datatype Table = Table(queues: map<FutexKey, seq<Waiter>>, woken: seq<Waiter>)

  datatype Place = OnQueue(key: FutexKey) | InLog

  ghost function At(t: Table, p: Place): seq<Waiter> {
    match p
    case OnQueue(k) => if k in t.queues then t.queues[k] else []
    case InLog => t.woken
  }

  ghost function Put(t: Table, k: FutexKey, q: seq<Waiter>): Table {
    t.(queues := t.queues[k := q])
  }

  datatype Op =
    | Wait(key: FutexKey, w: Waiter)
    | Wake(key: FutexKey, n: nat, mask: bv32)
    | Requeue(key: FutexKey, key2: FutexKey, numToWake: nat, numToRequeue: nat)
    | Cleanup(key: FutexKey, id: nat)

  /** What a call leaves on each queue and in the log; a requeue onto the same key is refused. */
  ghost function Next(t: Table, op: Op): Table {
    match op
    case Wait(k, w) => Put(t, k, At(t, OnQueue(k)) + [w])
    case Wake(k, n, mask) =>
      Put(t, k, Unwoken(At(t, OnQueue(k)), n, mask)).(woken := t.woken + Woken(At(t, OnQueue(k)), n, mask))
    case Requeue(k, l, n, m) =>
      if k == l then t
      else
        var q := At(t, OnQueue(k));
        var rest := Unwoken(q, n, ALL_BITS);
        var moved := Min(m, |rest|);
        Put(Put(t, k, rest[moved..]), l, At(t, OnQueue(l)) + rest[..moved]).(woken := t.woken + Woken(q, n, ALL_BITS))
    case Cleanup(k, id) => Put(t, k, Without(At(t, OnQueue(k)), id))
  }

  /** How often node `id` is in `q`. */
  ghost function Count(q: seq<Waiter>, id: nat): nat {
    if q == [] then 0 else Count(q[..|q| - 1], id) + if q[|q| - 1].id == id then 1 else 0
  }

  lemma {:induction false} CountAppend(a: seq<Waiter>, b: seq<Waiter>, id: nat)
    ensures Count(a + b, id) == Count(a, id) + Count(b, id)
  {
    if b == [] {
      assert a + b == a;
    } else {
      CountAppend(a, b[..|b| - 1], id);
      assert (a + b)[..|a + b| - 1] == a + b[..|b| - 1];
    }
  }

  lemma {:induction false} CountWoken(q: seq<Waiter>, n: nat, mask: bv32, id: nat)
    ensures Count(Woken(q, n, mask), id) + Count(Unwoken(q, n, mask), id) == Count(q, id)
  {
    if q != [] {
      var wakes := n > 0 && Matches(q[0], mask);
      CountWoken(q[1..], if wakes then n - 1 else n, mask, id);
      assert q == [q[0]] + q[1..];
      CountAppend([q[0]], q[1..], id);
      CountAppend([q[0]], if wakes then Woken(q[1..], n - 1, mask) else Unwoken(q[1..], n, mask), id);
    }
  }

  lemma {:induction false} CountWithout(q: seq<Waiter>, gone: nat, id: nat)
    ensures Count(Without(q, gone), id) == if id == gone then 0 else Count(q, id)
  {
    if q != [] {
      CountWithout(q[..|q| - 1], gone, id);
      var last := q[|q| - 1];
      CountAppend(Without(q[..|q| - 1], gone), if last.id == gone then [] else [last], id);
    }
  }

  /** How often node `id` is at place `p`. */
  ghost function Here(t: Table, p: Place, id: nat): nat {
    Count(At(t, p), id)
  }

  /** Node `id` is in at most one place, and there once. */
  ghost predicate Once(t: Table, id: nat) {
    && (forall p: Place :: Here(t, p, id) <= 1)
    && (forall p: Place, q: Place :: Here(t, p, id) > 0 && Here(t, q, id) > 0 ==> p == q)
  }

  /** Node `id` is on a queue or has been woken. */
  ghost predicate Present(t: Table, id: nat) {
    exists p: Place :: Here(t, p, id) > 0
  }

  /** A call adds the node that waits, and removes only a node whose cleanup finds it. */
  ghost predicate Accounted(t: Table, op: Op, t': Table, id: nat) {
    && Once(t', id)
    && (Present(t', id) <==> (op.Wait? && op.w.id == id)
                             || (Present(t, id) && !(op.Cleanup? && op.id == id && Here(t, OnQueue(op.key), id) > 0)))
  }

  /** Elsewhere than at the three places nothing has changed. */
  ghost predicate SameBut(t: Table, t': Table, id: nat, p: Place, q: Place, r: Place) {
    forall s: Place :: s != p && s != q && s != r ==> Here(t', s, id) == Here(t, s, id)
  }

  /** The same for counts `c` and `c'` per place: moving between three places keeps the only place only. */
  lemma OnlyPlace(c: Place -> nat, c': Place -> nat, p: Place, q: Place, r: Place)
    requires p != q && q != r && p != r && forall s: Place :: c(s) <= 1
    requires forall s: Place, u: Place :: c(s) > 0 && c(u) > 0 ==> s == u
    requires forall s: Place :: s != p && s != q && s != r ==> c'(s) == c(s)
    requires c'(p) + c'(q) + c'(r) == c(p) + c(q) + c(r)
    ensures forall s: Place :: c'(s) <= 1
    ensures forall s: Place, u: Place :: c'(s) > 0 && c'(u) > 0 ==> s == u
    ensures (exists s: Place :: c'(s) > 0) <==> (exists s: Place :: c(s) > 0)
  {
    assert c(p) + c(q) + c(r) <= 1;
    if s: Place :| c(s) > 0 {
      assert c'(s) > 0 || c'(p) > 0 || c'(q) > 0 || c'(r) > 0;
    }
    if s: Place :| c'(s) > 0 {
      assert c(s) > 0 || c(p) > 0 || c(q) > 0 || c(r) > 0;
    }
  }

  /** A node that moves between places is still in one place. */
  lemma MovedOnce(t: Table, t': Table, id: nat, p: Place, q: Place, r: Place)
    requires Once(t, id) && p != q && q != r && p != r && SameBut(t, t', id, p, q, r)
    requires Here(t', p, id) + Here(t', q, id) + Here(t', r, id) == Here(t, p, id) + Here(t, q, id) + Here(t, r, id)
    ensures Once(t', id) && (Present(t', id) <==> Present(t, id))
  {
    var c, c' := (s: Place) => Here(t, s, id), (s: Place) => Here(t', s, id);
    OnlyPlace(c, c', p, q, r);
    assert forall s: Place :: Here(t, s, id) == c(s);
    assert forall s: Place :: Here(t', s, id) == c'(s);
  }

  lemma WaitAccounted(t: Table, k: FutexKey, w: Waiter, id: nat)
    requires Once(t, id) && (w.id == id ==> !Present(t, id))
    ensures Accounted(t, Wait(k, w), Next(t, Wait(k, w)), id)
  {
    var t' := Next(t, Wait(k, w));
    CountAppend(At(t, OnQueue(k)), [w], id);
    assert Here(t', OnQueue(k), id) == Here(t, OnQueue(k), id) + if w.id == id then 1 else 0;
    assert forall p: Place :: p != OnQueue(k) ==> Here(t', p, id) == Here(t, p, id);
  }

  lemma WakeAccounted(t: Table, k: FutexKey, n: nat, mask: bv32, id: nat)
    requires Once(t, id)
    ensures Accounted(t, Wake(k, n, mask), Next(t, Wake(k, n, mask)), id)
  {
    var t', q := Next(t, Wake(k, n, mask)), At(t, OnQueue(k));
    assert Count(Unwoken(q, n, mask), id) + Count(t.woken + Woken(q, n, mask), id)
      == Count(q, id) + Count(t.woken, id) by {
      CountWoken(q, n, mask, id);
      CountAppend(t.woken, Woken(q, n, mask), id);
    }
    var other := OnQueue(FutexKey(k.token, k.uaddr + 1));
    assert SameBut(t, t', id, OnQueue(k), InLog, other);
    MovedOnce(t, t', id, OnQueue(k), InLog, other);
  }

  lemma RequeueCounts(q: seq<Waiter>, q2: seq<Waiter>, log: seq<Waiter>, n: nat, m: nat, id: nat)
    ensures var rest := Unwoken(q, n, ALL_BITS);
            var moved := Min(m, |rest|);
            Count(rest[moved..], id) + Count(q2 + rest[..moved], id) + Count(log + Woken(q, n, ALL_BITS), id)
            == Count(q, id) + Count(q2, id) + Count(log, id)
  {
    var rest := Unwoken(q, n, ALL_BITS);
    var moved := Min(m, |rest|);
    CountWoken(q, n, ALL_BITS, id);
    CountAppend(log, Woken(q, n, ALL_BITS), id);
    CountAppend(q2, rest[..moved], id);
    assert Count(rest, id) == Count(rest[..moved], id) + Count(rest[moved..], id) by {
      CountAppend(rest[..moved], rest[moved..], id);
      assert rest == rest[..moved] + rest[moved..];
    }
  }

  lemma RequeueAccounted(t: Table, k: FutexKey, l: FutexKey, n: nat, m: nat, id: nat)
    requires Once(t, id)
    ensures Accounted(t, Requeue(k, l, n, m), Next(t, Requeue(k, l, n, m)), id)
  {
    if k != l {
      var t' := Next(t, Requeue(k, l, n, m));
      RequeueCounts(At(t, OnQueue(k)), At(t, OnQueue(l)), t.woken, n, m, id);
      assert SameBut(t, t', id, OnQueue(k), InLog, OnQueue(l));
      MovedOnce(t, t', id, OnQueue(k), InLog, OnQueue(l));
    }
  }

  lemma CleanupAccounted(t: Table, k: FutexKey, gone: nat, id: nat)
    requires Once(t, id)
    ensures Accounted(t, Cleanup(k, gone), Next(t, Cleanup(k, gone)), id)
  {
    var t' := Next(t, Cleanup(k, gone));
    CountWithout(At(t, OnQueue(k)), gone, id);
    assert forall p: Place :: p != OnQueue(k) ==> Here(t', p, id) == Here(t, p, id);
    assert Here(t', OnQueue(k), id) == if id == gone then 0 else Here(t, OnQueue(k), id);
  }

  lemma StepAccounted(t: Table, op: Op, id: nat)
    requires Once(t, id) && (op.Wait? && op.w.id == id ==> !Present(t, id))
    ensures Accounted(t, op, Next(t, op), id)
  {
    match op
    case Wait(k, w) => WaitAccounted(t, k, w, id);
    case Wake(k, n, mask) => WakeAccounted(t, k, n, mask, id);
    case Requeue(k, l, n, m) => RequeueAccounted(t, k, l, n, m, id);
    case Cleanup(k, gone) => CleanupAccounted(t, k, gone, id);
  }

  ghost function Run(ops: seq<Op>): Table {
    if ops == [] then Table(map[], []) else Next(Run(ops[..|ops| - 1]), ops[|ops| - 1])
  }

  /** In any run a waiter without any bit is never woken. */
  lemma {:induction false} NoBitNeverWoken(ops: seq<Op>, w: Waiter)
    requires w.waitBitmask == 0
    ensures w !in Run(ops).woken
  {
    if ops != [] {
      var front, op := ops[..|ops| - 1], ops[|ops| - 1];
      NoBitNeverWoken(front, w);
      if op.Wake? || op.Requeue? {
        var q, n := At(Run(front), OnQueue(op.key)), if op.Wake? then op.n else op.numToWake;
        var mask := if op.Wake? then op.mask else ALL_BITS;
        if w in Woken(q, n, mask) {
          WokenMatch(q, n, mask, w);
        }
      }
    }
  }

  /** Every node waits at most once: two waits have two nodes. */
  ghost predicate NewNodes(ops: seq<Op>) {
    forall i, j :: 0 <= i < j < |ops| && ops[i].Wait? && ops[j].Wait? ==> ops[i].w.id != ops[j].w.id
  }

  ghost predicate Waited(ops: seq<Op>, id: nat) {
    exists i :: 0 <= i < |ops| && ops[i].Wait? && ops[i].w.id == id
  }

  /** In any run no node is ever doubled, on one queue or across queues and wakeups, and none appears that
      did not wait. */
  lemma {:induction false} NeverDoubled(ops: seq<Op>, id: nat)
    requires NewNodes(ops)
    ensures Once(Run(ops), id) && (Present(Run(ops), id) ==> Waited(ops, id))
  {
    if ops != [] {
      var front, op := ops[..|ops| - 1], ops[|ops| - 1];
      NeverDoubled(front, id);
      StepAccounted(Run(front), op, id);
      if Waited(front, id) {
        var i :| 0 <= i < |front| && front[i].Wait? && front[i].w.id == id;
        assert ops[i] == front[i];
      }
    }
  }

  /** In any run a node that has waited is on a queue or woken until its cleanup takes it away. */
  lemma NeverLost(ops: seq<Op>, op: Op, id: nat)
    requires NewNodes(ops + [op])
    ensures Present(Run(ops + [op]), id) <==>
              (op.Wait? && op.w.id == id)
              || (Present(Run(ops), id) && !(op.Cleanup? && op.id == id && Here(Run(ops), OnQueue(op.key), id) > 0))
  {
    var all := ops + [op];
    assert all[..|all| - 1] == ops;
    forall i, j | 0 <= i < j < |ops| && ops[i].Wait? && ops[j].Wait? ensures ops[i].w.id != ops[j].w.id {
      assert all[i] == ops[i] && all[j] == ops[j];
    }
    NeverDoubled(ops, id);
    assert op.Wait? ==> forall i :: 0 <= i < |ops| && all[i].Wait? ==> all[i].w.id != all[|ops|].w.id;
    assert op.Wait? ==> !Waited(ops, op.w.id);
    StepAccounted(Run(ops), op, id);
  }

  /** The waiters a requeue moves to its second key. */
  ghost function Moves(t: Table, op: Op): seq<Waiter>
    requires op.Requeue?
  {
    var rest := Unwoken(At(t, OnQueue(op.key)), op.numToWake, ALL_BITS);
    if op.key == op.key2 then [] else rest[..Min(op.numToRequeue, |rest|)]
  }

  /** The key node `id` was last put under: the one it waited on, or where the last requeue that moved it
      put it. */
  ghost function LastKey(ops: seq<Op>, id: nat): Option<FutexKey> {
    if ops == [] then None
    else
      var front, op := ops[..|ops| - 1], ops[|ops| - 1];
      if op.Wait? && op.w.id == id then Some(op.key)
      else if op.Requeue? && Count(Moves(Run(front), op), id) > 0 then Some(op.key2)
      else LastKey(front, id)
  }

  /** A call that neither brings node `id` nor moves it puts it on no other queue. */
  lemma StaysPut(t: Table, op: Op, k: FutexKey, id: nat)
    requires !(op.Wait? && op.w.id == id) && !(op.Requeue? && Count(Moves(t, op), id) > 0)
    ensures Here(Next(t, op), OnQueue(k), id) <= Here(t, OnQueue(k), id)
  {
    var q := At(t, OnQueue(op.key));
    match op
    case Wait(l, w) =>
      CountAppend(q, [w], id);
      assert [w][..0] == [];
    case Wake(l, n, mask) => CountWoken(q, n, mask, id);
    case Requeue(l, l2, n, m) =>
      if l != l2 {
        UnmovedCounts(q, At(t, OnQueue(l2)), n, m, id);
      }
    case Cleanup(l, gone) => CountWithout(q, gone, id);
  }

  lemma UnmovedCounts(q: seq<Waiter>, q2: seq<Waiter>, n: nat, m: nat, id: nat)
    requires var rest := Unwoken(q, n, ALL_BITS); Count(rest[..Min(m, |rest|)], id) == 0
    ensures var rest := Unwoken(q, n, ALL_BITS);
            var moved := Min(m, |rest|);
            Count(rest[moved..], id) <= Count(q, id) && Count(q2 + rest[..moved], id) == Count(q2, id)
  {
    var rest := Unwoken(q, n, ALL_BITS);
    var moved := Min(m, |rest|);
    CountWoken(q, n, ALL_BITS, id);
    CountAppend(q2, rest[..moved], id);
    CountAppend(rest[..moved], rest[moved..], id);
    assert rest == rest[..moved] + rest[moved..];
  }

  /** In any run a node that is on a queue is on that of its last key. */
  lemma {:induction false} OnLastKey(ops: seq<Op>, k: FutexKey, id: nat)
    requires NewNodes(ops) && Here(Run(ops), OnQueue(k), id) > 0
    ensures LastKey(ops, id) == Some(k)
  {
    var front, op := ops[..|ops| - 1], ops[|ops| - 1];
    var t, t' := Run(front), Run(ops);
    NeverDoubled(ops, id);
    if op.Wait? && op.w.id == id {
      CountAppend(At(t, OnQueue(op.key)), [op.w], id);
      OneNode(op.w);
      assert Here(t', OnQueue(op.key), id) > 0;
    } else if op.Requeue? && Count(Moves(t, op), id) > 0 {
      CountAppend(At(t, OnQueue(op.key2)), Moves(t, op), id);
      assert Here(t', OnQueue(op.key2), id) > 0;
    } else {
      StaysPut(t, op, k, id);
      OnLastKey(front, k, id);
    }
  }

  ghost predicate Queued(t: Table, id: nat) {
    exists k: FutexKey :: Here(t, OnQueue(k), id) > 0
  }

  /** In any run a cleanup leaves its node off every queue exactly when the node is on none, or the key of
      the cleanup is the last one the node was put under. */
  lemma CleanupInRuns(ops: seq<Op>, key: FutexKey, id: nat)
    requires NewNodes(ops)
    ensures !Queued(Run(ops + [Cleanup(key, id)]), id) <==> (Queued(Run(ops), id) ==> LastKey(ops, id) == Some(key))
  {
    var all, t := ops + [Cleanup(key, id)], Run(ops);
    assert Run(all) == Next(t, Cleanup(key, id)) by {
      assert all[..|all| - 1] == ops;
    }
    if k: FutexKey :| Here(t, OnQueue(k), id) > 0 {
      NeverDoubled(ops, id);
      OnLastKey(ops, k, id);
      CleanupOfQueued(t, key, id, k);
    } else {
      CleanupComplete(t, key, id);
    }
  }

  lemma CleanupOfQueued(t: Table, key: FutexKey, id: nat, k: FutexKey)
    requires Once(t, id) && Here(t, OnQueue(k), id) > 0
    ensures !Queued(Next(t, Cleanup(key, id)), id) <==> k == key
  {
    CleanupComplete(t, key, id);
    assert forall l: FutexKey :: l != k ==> OnQueue(l) != OnQueue(k) && Here(t, OnQueue(l), id) == 0;
  }

  /** A node that no requeue has moved has its first key as its last. */
  lemma {:induction false} UnmovedKey(ops: seq<Op>, i: nat, id: nat)
    requires NewNodes(ops) && i < |ops| && ops[i].Wait? && ops[i].w.id == id
    requires forall j :: i < j < |ops| && ops[j].Requeue? ==> Count(Moves(Run(ops[..j]), ops[j]), id) == 0
    ensures LastKey(ops, id) == Some(ops[i].key)
  {
    var front, op := ops[..|ops| - 1], ops[|ops| - 1];
    if i < |front| {
      forall j | i < j < |front| && front[j].Requeue? ensures Count(Moves(Run(front[..j]), front[j]), id) == 0 {
        assert front[..j] == ops[..j] && front[j] == ops[j];
      }
      UnmovedKey(front, i, id);
    }
  }

  /** A cleanup leaves its node off every queue exactly when the node was on no other queue. */
  lemma CleanupComplete(t: Table, key: FutexKey, id: nat)
    ensures (forall k: FutexKey :: Here(Next(t, Cleanup(key, id)), OnQueue(k), id) == 0)
            <==> (forall k: FutexKey :: k != key ==> Here(t, OnQueue(k), id) == 0)
  {
    var t' := Next(t, Cleanup(key, id));
    CountWithout(At(t, OnQueue(key)), id, id);
    assert forall k: FutexKey :: k != key ==> Here(t', OnQueue(k), id) == Here(t, OnQueue(k), id);
    assert Here(t', OnQueue(key), id) == 0;
  }

  /** A waiter that a requeue moves is missed by a cleanup with its first key. */
  lemma CleanupMisses(w: Waiter, k: FutexKey, l: FutexKey)
    requires k != l
    ensures var t := Next(Next(Table(map[], []), Wait(k, w)), Requeue(k, l, 0, 1));
            Here(Next(t, Cleanup(k, w.id)), OnQueue(l), w.id) == 1
  {
    var t1 := Next(Table(map[], []), Wait(k, w));
    assert At(t1, OnQueue(k)) == [w] && At(t1, OnQueue(l)) == [];
    NoneWoken([w], ALL_BITS);
    var t2 := Next(t1, Requeue(k, l, 0, 1));
    assert At(t2, OnQueue(l)) == [w];
    var t3 := Next(t2, Cleanup(k, w.id));
    assert At(t3, OnQueue(l)) == [w];
    OneNode(w);
  }

  lemma OneNode(w: Waiter)
    ensures Count([w], w.id) == 1
  {
    assert [w][..0] == [];
  }
}

/** The global table of queues and the calls that change it. */
module Futexes {
  import opened Base
  import opened FutexQueues
  import FutexRuns

  datatype FutexErrno = EFAULT | EINVAL | EAGAIN

  datatype FutexResult = FutexOk(n: nat) | FutexErr(errno: FutexErrno)

  /** What the wakers have been called for, in order. */
  class WakeLog {
    var woken: seq<Waiter>

    constructor ()
      ensures woken == []
    {
      woken := [];
    }

    method Wake(w: Waiter)
      modifies this
      ensures woken == old(woken) + [w]
    {
      woken := woken + [w];
    }
  }

  class FutexWaitQueue {
    var waiters: seq<Waiter>

    constructor ()
      ensures waiters == []
    {
      waiters := [];
    }

    /** Takes up to `n` waiters off the front. */
    method DrainWaiters(n: nat) returns (drained: seq<Waiter>)
      modifies this
      ensures drained + waiters == old(waiters)
      ensures |drained| == if n <= |old(waiters)| then n else |old(waiters)|
    {
      if n == 0 { return []; }
      var count := if |waiters| < n then |waiters| else n;
      if count == 0 { return []; }
      drained := waiters[..count];
      waiters := waiters[count..];
    }

    method EnqueueWaiters(more: seq<Waiter>)
      modifies this
      ensures waiters == old(waiters) + more
    {
      waiters := waiters + more;
    }

    method AddWaiter(w: Waiter)
      modifies this
      ensures waiters == old(waiters) + [w]
    {
      waiters := waiters + [w];
    }

    /** Takes one particular node out; the others keep their order. */
    method RemoveSpecificWaiter(id: nat)
      modifies this
      ensures waiters == Without(old(waiters), id)
    {
      var kept := [];
      for i := 0 to |waiters|
        invariant kept == Without(waiters[..i], id)
      {
        assert waiters[..i + 1][..i] == waiters[..i];
        if waiters[i].id != id {
          kept := kept + [waiters[i]];
        }
      }
      assert waiters[..|waiters|] == waiters;
      waiters := kept;
    }

    /** Wakes up to `n` waiters that match and keeps the others in order. */
    method WakeMatchingWaiters(log: WakeLog, n: nat, mask: bv32) returns (count: nat)
      modifies this, log
      ensures waiters == Unwoken(old(waiters), n, mask)
      ensures log.woken == old(log.woken) + Woken(old(waiters), n, mask)
      ensures count == |Woken(old(waiters), n, mask)|
    {
      count := 0;
      var notWoken := [];
      ghost var done: seq<Waiter> := [];
      while waiters != []
        invariant done + waiters == old(waiters) && notWoken == Unwoken(done, n, mask)
        invariant count == |Woken(done, n, mask)| && log.woken == old(log.woken) + Woken(done, n, mask)
        decreases |waiters|
      {
        var node := waiters[0];
        WokenAppend(done, node, n, mask);
        assert done + waiters == (done + [node]) + waiters[1..];
        waiters := waiters[1..];
        done := done + [node];
        if count < n && Matches(node, mask) {
          log.Wake(node);
          count := count + 1;
        } else {
          notWoken := notWoken + [node];
        }
      }
      assert done == old(waiters);
      waiters := notWoken;
    }
  }

  /** A user address a futex word can be at. */
  predicate Aligned(uaddr: nat) {
    uaddr != 0 && uaddr % 4 == 0
  }

  class FutexSystem {
    var queues: map<FutexKey, FutexWaitQueue>
    const log: WakeLog

    constructor (log: WakeLog)
      ensures Valid() && queues == map[] && this.log == log
    {
      queues, this.log := map[], log;
    }

    ghost predicate Valid()
      reads this
    {
      forall k, l :: k in queues && l in queues && k != l ==> queues[k] != queues[l]
    }

    /** The waiters on a key; a key without a queue has none. */
    ghost function Queue(k: FutexKey): seq<Waiter>
      reads this, queues.Values
    {
      if k in queues then queues[k].waiters else []
    }

    /** The queues and the log are those of table `t` of the runs. */
    ghost predicate Shows(t: FutexRuns.Table)
      reads this, queues.Values, log
    {
      log.woken == FutexRuns.At(t, FutexRuns.InLog) && forall k :: Queue(k) == FutexRuns.At(t, FutexRuns.OnQueue(k))
    }

    /** The wake arm: up to `n` matching waiters, and a queue that becomes empty is removed. */
    method Wake(key: FutexKey, n: nat, mask: bv32) returns (r: FutexResult)
      requires Valid()
      modifies this, queues.Values, log
      ensures Valid() && r == FutexOk(|Woken(old(Queue(key)), n, mask)|)
      ensures Queue(key) == Unwoken(old(Queue(key)), n, mask)
      ensures log.woken == old(log.woken) + Woken(old(Queue(key)), n, mask)
      ensures forall k :: k != key ==> Queue(k) == old(Queue(k)) && (k in queues <==> k in old(queues))
      ensures key in queues <==> key in old(queues) && (n == 0 || Queue(key) != [])
      ensures forall t: FutexRuns.Table :: old(Shows(t)) ==> Shows(FutexRuns.Next(t, FutexRuns.Wake(key, n, mask)))
    {
      NoneWoken(Queue(key), mask);
      if n == 0 { return FutexOk(0); }
      if key !in queues { return FutexOk(0); }
      var queue := queues[key];
      var count := queue.WakeMatchingWaiters(log, n, mask);
      if queue.waiters == [] {
        queues := queues - {key};
      }
      r := FutexOk(count);
    }

    /** The first half of a requeue: waking on the first key, whatever the bitmasks. */
    method WakeFirst(key: FutexKey, numToWake: nat) returns (woken: nat)
      requires Valid()
      modifies queues.Values, log
      ensures Valid() && woken == |Woken(old(Queue(key)), numToWake, ALL_BITS)|
      ensures Queue(key) == Unwoken(old(Queue(key)), numToWake, ALL_BITS)
      ensures log.woken == old(log.woken) + Woken(old(Queue(key)), numToWake, ALL_BITS)
      ensures forall k :: k != key ==> Queue(k) == old(Queue(k))
    {
      NoneWoken(Queue(key), ALL_BITS);
      woken := 0;
      if numToWake > 0 {
        if key in queues {
          woken := queues[key].WakeMatchingWaiters(log, numToWake, ALL_BITS);
        }
      }
    }

    /** The second half: up to `numToRequeue` of the others go to the end of the second queue. */
    method MoveRest(key: FutexKey, key2: FutexKey, numToRequeue: nat) returns (moved: nat)
      requires Valid() && key != key2
      modifies this, queues.Values
      ensures Valid() && moved == Min(numToRequeue, |old(Queue(key))|)
      ensures Queue(key) == old(Queue(key))[moved..]
      ensures Queue(key2) == old(Queue(key2)) + old(Queue(key))[..moved]
      ensures forall k :: k != key && k != key2 ==> Queue(k) == old(Queue(k)) && (k in queues <==> k in old(queues))
      ensures key in queues <==> key in old(queues) && (numToRequeue == 0 || Queue(key) != [])
      ensures key2 in queues <==> key2 in old(queues) || moved > 0
    {
      moved := 0;
      if numToRequeue > 0 {
        var toMove := [];
        if key in queues {
          var queue := queues[key];
          toMove := queue.DrainWaiters(numToRequeue);
          if queue.waiters == [] {
            queues := queues - {key};
          }
        }
        moved := |toMove|;
        if moved > 0 {
          if key2 !in queues {
            var queue2 := new FutexWaitQueue();
            queues := queues[key2 := queue2];
          }
          queues[key2].EnqueueWaiters(toMove);
        }
      }
    }

    /** Both halves, for two keys that are not the same. */
    method WakeAndMove(key: FutexKey, key2: FutexKey, numToWake: nat, numToRequeue: nat) returns (count: nat)
      requires Valid() && key != key2
      modifies this, queues.Values, log
      ensures Valid()
      ensures var rest := Unwoken(old(Queue(key)), numToWake, ALL_BITS);
              var moved := Min(numToRequeue, |rest|);
              && count == |Woken(old(Queue(key)), numToWake, ALL_BITS)| + moved
              && log.woken == old(log.woken) + Woken(old(Queue(key)), numToWake, ALL_BITS)
              && Queue(key) == rest[moved..] && Queue(key2) == old(Queue(key2)) + rest[..moved]
              && forall k :: k != key && k != key2 ==> Queue(k) == old(Queue(k))
    {
      var woken := WakeFirst(key, numToWake);
      var moved := MoveRest(key, key2, numToRequeue);
      count := woken + moved;
    }

    /** The requeue arm. With `expected`, the compare-and-requeue arm: `current` is the value read from user
        memory. Null or misaligned addresses and equal keys are refused first. */
    method Requeue(token: nat, uaddr: nat, uaddr2: nat, numToWake: nat, numToRequeue: nat, expected: Option<bv32>,
                   current: bv32)
      returns (r: FutexResult)
      requires Valid()
      modifies this, queues.Values, log
      ensures Valid()
      ensures r.FutexErr? ==>
                queues == old(queues) && log.woken == old(log.woken) && forall k :: Queue(k) == old(Queue(k))
      ensures r == FutexErr(EFAULT) <==> uaddr == 0 || uaddr % 4 != 0 || uaddr2 == 0 || uaddr2 % 4 != 0
      ensures r == FutexErr(EINVAL) <==> uaddr != 0 && uaddr % 4 == 0 && uaddr2 == uaddr
      ensures r == FutexErr(EAGAIN) <==>
                Aligned(uaddr) && Aligned(uaddr2) && uaddr2 != uaddr && expected.Some? && expected.value != current
      ensures r.FutexOk? ==>
                var key, key2 := FutexKey(token, uaddr), FutexKey(token, uaddr2);
                var rest := Unwoken(old(Queue(key)), numToWake, ALL_BITS);
                var moved := Min(numToRequeue, |rest|);
                && r == FutexOk(|Woken(old(Queue(key)), numToWake, ALL_BITS)| + moved)
                && log.woken == old(log.woken) + Woken(old(Queue(key)), numToWake, ALL_BITS)
                && Queue(key) == rest[moved..] && Queue(key2) == old(Queue(key2)) + rest[..moved]
                && forall k :: k != key && k != key2 ==> Queue(k) == old(Queue(k))
      ensures r.FutexOk? && AllHaveBits(old(Queue(FutexKey(token, uaddr)))) ==>
                var key, key2 := FutexKey(token, uaddr), FutexKey(token, uaddr2);
                FrontMoved(old(Queue(key)), old(Queue(key2)), old(log.woken), numToWake, numToRequeue, r.n,
                           Queue(key), Queue(key2), log.woken)
      ensures r.FutexOk? ==> forall t: FutexRuns.Table :: old(Shows(t)) ==>
                var key, key2 := FutexKey(token, uaddr), FutexKey(token, uaddr2);
                Shows(FutexRuns.Next(t, FutexRuns.Requeue(key, key2, numToWake, numToRequeue)))
    {
      if !Aligned(uaddr) || !Aligned(uaddr2) { return FutexErr(EFAULT); }
      var key, key2 := FutexKey(token, uaddr), FutexKey(token, uaddr2);
      if key == key2 { return FutexErr(EINVAL); }
      if expected.Some? && expected.value != current { return FutexErr(EAGAIN); }
      if AllHaveBits(Queue(key)) {
        FrontTaken(Queue(key), numToWake, numToRequeue);
      }
      var count := WakeAndMove(key, key2, numToWake, numToRequeue);
      r := FutexOk(count);
    }

    /** The first poll of a waiting future: its node goes to the end of the queue of its key. */
    method Register(key: FutexKey, w: Waiter)
      requires Valid()
      modifies this, queues.Values
      ensures Valid() && Queue(key) == old(Queue(key)) + [w]
      ensures forall k :: k != key ==> Queue(k) == old(Queue(k))
      ensures forall t: FutexRuns.Table :: old(Shows(t)) ==> Shows(FutexRuns.Next(t, FutexRuns.Wait(key, w)))
    {
      if key !in queues {
        var queue := new FutexWaitQueue();
        queues := queues[key := queue];
      }
      queues[key].AddWaiter(w);
    }

    /** What a waiting future does when it is dropped: it takes its node off the queue of the key it was
        created with. */
    method Cleanup(key: FutexKey, id: nat)
      requires Valid()
      modifies this, queues.Values
      ensures Valid() && Queue(key) == Without(old(Queue(key)), id)
      ensures forall k :: k != key ==> Queue(k) == old(Queue(k))
      ensures forall t: FutexRuns.Table :: old(Shows(t)) ==> Shows(FutexRuns.Next(t, FutexRuns.Cleanup(key, id)))
    {
      if key in queues {
        queues[key].RemoveSpecificWaiter(id);
        if queues[key].waiters == [] {
          queues := queues - {key};
        }
      }
    }
  }

}
