/**
 FifoQueue and its subclasses: a bounded queue under a mutex, with counters of
 accepted, refused and removed items, and removal of a batch under one lock.
 */
module FifoQueue {
  import opened Basics

  type Word32 = x: int | 0 <= x < TWO_TO_THE_32

  /** The queue, its counters, and the items accepted and removed so far. */
  datatype State<T> = State(q: seq<T>, maxSize: Word32, numEnqueued: nat, numNotEnqueued: nat, numDequeued: nat,
                            accepted: seq<T>, removed: seq<T>)

  function Init<T>(maxSize: Word32): State<T> {
    State([], maxSize, 0, 0, 0, [], [])
  }

  /** The length is read through a 32-bit number. */
  predicate CanEnqueue<T>(s: State<T>) {
    |s.q| % TWO_TO_THE_32 < s.maxSize
  }

  function Enqueue<T>(s: State<T>, item: T): State<T> {
    if CanEnqueue(s) then s.(q := s.q + [item], numEnqueued := s.numEnqueued + 1, accepted := s.accepted + [item])
    else s.(numNotEnqueued := s.numNotEnqueued + 1)
  }

  /** `dequeue`; on an empty queue nothing happens and the caller gets NULL. */
  function Dequeue<T>(s: State<T>): State<T> {
    if s.q == [] then s
    else s.(q := s.q[1..], numDequeued := s.numDequeued + 1, removed := s.removed + [s.q[0]])
  }

  /** `dequeueBatch` into a vector that already holds `have` items: how many rows
      it removes. */
  function BatchSize<T>(s: State<T>, maxRows: nat, have: nat): (n: nat)
    ensures n <= |s.q|
  {
    if have >= maxRows then 0 else if maxRows - have <= |s.q| then maxRows - have else |s.q|
  }

  function Batch<T>(s: State<T>, n: nat): State<T>
    requires n <= |s.q|
  {
    s.(q := s.q[n..], numDequeued := s.numDequeued + n, removed := s.removed + s.q[..n])
  }

  datatype Action<T> = Put(item: T) | Take | TakeBatch(maxRows: nat, have: nat)

  function Next<T>(s: State<T>, a: Action<T>): State<T> {
    match a
    case Put(item) => Enqueue(s, item)
    case Take => Dequeue(s)
    case TakeBatch(maxRows, have) => Batch(s, BatchSize(s, maxRows, have))
  }

  function Run<T>(maxSize: Word32, run: seq<Action<T>>): State<T> {
    if run == [] then Init(maxSize) else Next(Run(maxSize, run[..|run| - 1]), run[|run| - 1])
  }

  // ----- every run -----

  /** First in, first out, nothing lost or invented, and the counters agree. */
  ghost predicate Inv<T>(s: State<T>) {
    && s.accepted == s.removed + s.q
    && s.numEnqueued == |s.accepted| && s.numDequeued == |s.removed|
    && |s.q| <= s.maxSize
  }

  lemma StepKeepsInv<T>(s: State<T>, a: Action<T>)
    requires Inv(s)
    ensures Inv(Next(s, a))
  {
    if a.TakeBatch? {
      var n := BatchSize(s, a.maxRows, a.have);
      assert s.removed + s.q[..n] + s.q[n..] == s.removed + s.q;
    }
  }

  function Puts<T>(run: seq<Action<T>>): nat {
    if run == [] then 0 else Puts(run[..|run| - 1]) + if run[|run| - 1].Put? then 1 else 0
  }

  /** Every run: what was accepted is what was removed followed by what is still
      there, the length is the difference of the counters and never above the
      limit, and every attempt is counted as accepted or as refused. */
  lemma {:induction false} RunExact<T>(maxSize: Word32, run: seq<Action<T>>)
    ensures var s := Run(maxSize, run);
            && s.accepted == s.removed + s.q
            && |s.removed| == s.numDequeued && |s.accepted| == s.numEnqueued
            && |s.q| == s.numEnqueued - s.numDequeued <= s.maxSize == maxSize
            && s.numEnqueued + s.numNotEnqueued == Puts(run)
  {
    if run != [] {
      var front := run[..|run| - 1];
      RunExact(maxSize, front);
      StepKeepsInv(Run(maxSize, front), run[|run| - 1]);
    }
  }

  /** An item is refused exactly when the queue is full; the 32-bit length does not
      matter because the limit is a 32-bit number too. */
  lemma RefusedIffFull<T>(maxSize: Word32, run: seq<Action<T>>, item: T)
    ensures var s := Run(maxSize, run);
            var n := Run(maxSize, run + [Put(item)]);
            && (n.accepted == s.accepted <==> |s.q| == maxSize)
            && (n.accepted == s.accepted + [item] <==> |s.q| < maxSize)
            && (n.numNotEnqueued == s.numNotEnqueued + 1 <==> |s.q| == maxSize)
  {
    assert (run + [Put(item)])[..|run + [Put(item)]| - 1] == run;
    var s := Run(maxSize, run);
    assert Run(maxSize, run + [Put(item)]) == Enqueue(s, item);
    hide Run, Puts, Enqueue;
    RunExact(maxSize, run);
    EnqueueExact(s, item);
  }

  lemma EnqueueExact<T>(s: State<T>, item: T)
    requires |s.q| <= s.maxSize
    ensures var n := Enqueue(s, item);
            && (n.accepted == s.accepted <==> |s.q| == s.maxSize)
            && (n.accepted == s.accepted + [item] <==> |s.q| < s.maxSize)
            && (n.numNotEnqueued == s.numNotEnqueued + 1 <==> |s.q| == s.maxSize)
  {
    assert |s.accepted + [item]| == |s.accepted| + 1;
  }

  /** The k-th item ever removed is the k-th item ever accepted, also in any later
      state of the run. */
  lemma {:induction false} RemovedInOrder<T>(maxSize: Word32, run: seq<Action<T>>, later: seq<Action<T>>)
    ensures var s, n := Run(maxSize, run), Run(maxSize, run + later);
            s.removed <= n.removed <= n.accepted && s.accepted <= n.accepted
  {
    if later == [] {
      assert run + later == run;
      RunExact(maxSize, run);
    } else {
      var front := later[..|later| - 1];
      assert (run + later)[..|run + later| - 1] == run + front;
      RemovedInOrder(maxSize, run, front);
      RunExact(maxSize, run + later);
    }
  }

  /** A removal takes the oldest item that is still there, a batch as many of them as
      the output has room for; nothing else changes. */
  lemma TakeExact<T>(maxSize: Word32, run: seq<Action<T>>, maxRows: nat, have: nat)
    ensures var s, n := Run(maxSize, run), Run(maxSize, run + [Take]);
            && n.accepted == s.accepted && n.numNotEnqueued == s.numNotEnqueued
            && n.removed == s.accepted[..Min(|s.removed| + 1, |s.accepted|)]
    ensures var s, n := Run(maxSize, run), Run(maxSize, run + [TakeBatch(maxRows, have)]);
            var room := if have >= maxRows then 0 else maxRows - have;
            && n.accepted == s.accepted && n.numNotEnqueued == s.numNotEnqueued
            && n.removed == s.accepted[..Min(|s.removed| + room, |s.accepted|)]
  {
    hide Run, Dequeue, Batch, BatchSize;
    var s := Run(maxSize, run);
    RunExact(maxSize, run);
    RunAppend(maxSize, run, Take);
    RunAppend(maxSize, run, TakeBatch(maxRows, have));
    RemovesOldest(s);
    BatchRemovesOldest(s, maxRows, have);
  }

  lemma RunAppend<T>(maxSize: Word32, run: seq<Action<T>>, a: Action<T>)
    ensures Run(maxSize, run + [a]) == Next(Run(maxSize, run), a)
  {
    assert (run + [a])[..|run + [a]| - 1] == run;
  }

  lemma RemovesOldest<T>(s: State<T>)
    requires s.accepted == s.removed + s.q
    ensures var n := Dequeue(s);
            n.accepted == s.accepted && n.numNotEnqueued == s.numNotEnqueued
            && n.removed == s.accepted[..Min(|s.removed| + 1, |s.accepted|)]
  {
    if s.q != [] {
      assert s.accepted[..|s.removed| + 1] == s.removed + [s.q[0]];
    }
  }

  lemma BatchRemovesOldest<T>(s: State<T>, maxRows: nat, have: nat)
    requires s.accepted == s.removed + s.q
    ensures var n, room := Batch(s, BatchSize(s, maxRows, have)), if have >= maxRows then 0 else maxRows - have;
            n.accepted == s.accepted && n.numNotEnqueued == s.numNotEnqueued
            && n.removed == s.accepted[..Min(|s.removed| + room, |s.accepted|)]
  {
    var size := BatchSize(s, maxRows, have);
    assert s.accepted[..|s.removed| + size] == s.removed + s.q[..size];
  }

  // ----- batches -----

  function DequeueMany<T>(s: State<T>, n: nat): State<T>
    decreases n
  {
    if n == 0 then s else DequeueMany(Dequeue(s), n - 1)
  }

  /** A batch is as many single removals as there is room for in the output, however
      many of those find the queue empty. */
  lemma {:induction false} BatchIsRepeatedDequeue<T>(s: State<T>, maxRows: nat, have: nat)
    ensures Batch(s, BatchSize(s, maxRows, have)) == DequeueMany(s, if have >= maxRows then 0 else maxRows - have)
    decreases maxRows - have
  {
    if have >= maxRows {
      assert s.q[..0] == [] && s.q[0..] == s.q;
    } else {
      BatchIsRepeatedDequeue(Dequeue(s), maxRows, have + 1);
      if s.q != [] {
      } else {
        assert s.removed + [] == s.removed;
      }
    }
  }

  // ----- the fill level, read without the lock -----

  /** `fillPct` reads the number accepted in state `a` and the number removed in
      state `b`; the difference is a 64-bit number. Either may be read first. */
  function Pending<T>(a: State<T>, b: State<T>): nat {
    (a.numEnqueued - b.numDequeued) % TWO_TO_THE_64
  }

  /** The fill level is right between the two reads, never above the limit, exactly
      when no more was removed by the second read than had been accepted at the
      first; otherwise it wraps around. */
  lemma PendingExact<T>(maxSize: Word32, run: seq<Action<T>>, between: seq<Action<T>>)
    requires |Run(maxSize, run + between).accepted| < TWO_TO_THE_64 - TWO_TO_THE_32
    ensures var s, n := Run(maxSize, run), Run(maxSize, run + between);
            && (n.numDequeued <= s.numEnqueued <==> Pending(s, n) <= maxSize)
            && (n.numDequeued <= s.numEnqueued ==>
                  Pending(s, n) == |n.q| - (n.numEnqueued - s.numEnqueued) && Pending(s, n) <= |s.q|)
            && (n.numDequeued > s.numEnqueued ==>
                  Pending(s, n) == TWO_TO_THE_64 - (n.numDequeued - s.numEnqueued))
  {
    hide Run;
    RunExact(maxSize, run);
    RunExact(maxSize, run + between);
    RemovedInOrder(maxSize, run, between);
  }

  /** Read the other way round, the fill level never wraps around: it is the length at
      either read plus what went through in between, and so above the limit exactly
      when that is more than the room there was at the first read. */
  lemma PendingOtherOrder<T>(maxSize: Word32, run: seq<Action<T>>, between: seq<Action<T>>)
    requires |Run(maxSize, run + between).accepted| < TWO_TO_THE_64 - TWO_TO_THE_32
    ensures var s, n := Run(maxSize, run), Run(maxSize, run + between);
            && Pending(n, s) == |s.q| + (n.numEnqueued - s.numEnqueued) == |n.q| + (n.numDequeued - s.numDequeued)
            && (Pending(n, s) > maxSize <==> n.numEnqueued - s.numEnqueued > maxSize - |s.q|)
  {
    hide Run;
    RunExact(maxSize, run);
    RunExact(maxSize, run + between);
    RemovedInOrder(maxSize, run, between);
  }

  /** Such a wrap-around happens: one item accepted and removed between the reads. */
  lemma PendingWraps<T>(maxSize: Word32, item: T)
    requires maxSize > 0
    ensures Pending(Run<T>(maxSize, []), Run(maxSize, [Put(item), Take])) == TWO_TO_THE_64 - 1
  {
    assert [Put(item), Take][..1] == [Put(item)] && [Put(item)][..0] == [];
    assert Run(maxSize, [Put(item)]) == Enqueue(Init(maxSize), item);
  }

  // ----- the class -----

  class FifoQueue<T> {
    var q: seq<T>
    const maxSize: Word32
    const null_: T
    var numEnqueued: nat
    var numNotEnqueued: nat
    var numDequeued: nat
    ghost var accepted: seq<T>
    ghost var removed: seq<T>

    ghost function View(): State<T>
      reads this
    {
      State(q, maxSize, numEnqueued, numNotEnqueued, numDequeued, accepted, removed)
    }

    constructor (queueSize: Word32, nothing: T)
      ensures View() == Init(queueSize) && null_ == nothing
    {
      q, maxSize, null_ := [], queueSize, nothing;
      numEnqueued, numNotEnqueued, numDequeued := 0, 0, 0;
      accepted, removed := [], [];
    }

    method Enqueue(item: T) returns (rv: bool)
      requires Inv(View())
      modifies this
      ensures Inv(View()) && View() == Next(old(View()), Put(item))
      ensures rv <==> |old(q)| < maxSize
    {
      StepKeepsInv(View(), Put(item));
      if |q| % TWO_TO_THE_32 < maxSize {
        q, accepted := q + [item], accepted + [item];
        rv := true;
      } else {
        rv := false;
      }
      if rv {
        numEnqueued := numEnqueued + 1;
      } else {
        numNotEnqueued := numNotEnqueued + 1;
      }
    }

    method Dequeue() returns (rv: T)
      requires Inv(View())
      modifies this
      ensures Inv(View()) && View() == Next(old(View()), Take)
      ensures rv == if |old(removed)| < |accepted| then accepted[|old(removed)|] else null_
    {
      StepKeepsInv(View(), Take);
      if q == [] {
        rv := null_;
      } else {
        rv := q[0];
        q, removed := q[1..], removed + [rv];
        numDequeued := numDequeued + 1;
      }
    }

    /** The result counts what `out` already held as well. */
    method DequeueBatch(maxRows: nat, out: seq<T>) returns (rows: seq<T>, count: nat)
      requires Inv(View())
      modifies this
      ensures Inv(View()) && View() == Next(old(View()), TakeBatch(maxRows, |out|))
      ensures rows == out + removed[|old(removed)|..] && count == |rows|
      ensures count <= maxRows || rows == out
      ensures count < maxRows ==> q == []
    {
      StepKeepsInv(View(), TakeBatch(maxRows, |out|));
      rows := out;
      ghost var s, n := View(), 0;
      ghost var size := BatchSize(s, maxRows, |out|);
      assert View() == Batch(s, 0);
      while |rows| < maxRows && q != []
        invariant n <= size && View() == Batch(s, n) && rows == out + s.q[..n]
        decreases |q|
      {
        rows, removed := rows + [q[0]], removed + [q[0]];
        q := q[1..];
        numDequeued := numDequeued + 1;
        n := n + 1;
        assert s.q[..n] == s.q[..n - 1] + [s.q[n - 1]];
      }
      assert n == size;
      assert removed[|old(removed)|..] == s.q[..n];
      count := |rows|;
    }
  }
}
