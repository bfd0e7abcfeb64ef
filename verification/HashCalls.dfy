/**
 What every sequence of calls on the hash object leaves where: which bucket an entry is
 in and in which order, when an entry is admitted, which entries stay in the table, and
 that an entry that left it is deleted by the next calls once nobody uses it.
 */
module HashCalls {
  import opened Basics
  import opened HashLifecycle
  import opened GenericHash
  import opened HashTables
  import opened HashRefinement
  import opened HashPurge
  import opened HashProgress

  // ----- facts from the state machine -----

  /** Where an entry can be besides the table. */
  predicate Left(f: Fields, e: nat) {
    e in Vec(f.shadow) || e in Vec(f.idle) || e in f.inUse || e in f.deleted
  }

  lemma EntryPlace(s: Hash, e: nat)
    requires Inv(s) && s.offline.Resting?
    ensures e in s.table ==> !(e in Vec(s.shadow) || e in Vec(s.idle) || e in s.inUse || e in s.deleted)
    ensures e < |s.state| && e !in s.table ==> e in Vec(s.shadow) || e in Vec(s.idle) || e in s.inUse || e in s.deleted
    ensures e in s.table ==> e < |s.state|
  {
    assert EntryOk(s, e);
    InIffOccurs(Vec(s.shadow), e);
    InIffOccurs(Vec(s.idle), e);
    InIffOccurs(s.inUse, e);
    InIffOccurs(s.deleted, e);
    OccursNone(e);
    hide Occurs, UseOk, StateOk, Shaped, Counted, Bounded;
  }

  /** Between calls an entry is in the table or has left it, and the counters say how
      many are waiting. */
  lemma CallFacts(xs: seq<Snapshot>, calls: seq<Call>, numHashes: nat, maxSize: nat, k: nat, e: nat)
    requires IsCallRun(xs, calls, numHashes, maxSize) && k < |xs|
    ensures var f := xs[k].fields;
            && Distinct(f.table) && |f.table| == numHashes && f.cursor < numHashes && |f.state| == |f.uses|
            && (e in Entries(f.table) ==> !Left(f, e) && e < |f.state|)
            && (e < |f.state| && e !in Entries(f.table) ==> Left(f, e))
            && f.numIdle - f.numPurged == |Vec(f.shadow)| + |Vec(f.idle)| + |f.inUse|
  {
    CursorInRange(xs, calls, numHashes, maxSize, k);
    var acts, s := EveryCallSequence(xs, calls, numHashes, maxSize, k);
    hide IsCallRun, Leads, Entries, Distinct;
    EntryPlace(s, e);
    RestingCounts(s);
    SizesAgree(s);
    hide Inv;
  }

  lemma RestingCounts(s: Hash)
    requires Inv(s) && s.inline.Ready? && s.offline.Resting?
    ensures s.numIdle - s.numPurged == |Vec(s.shadow)| + |Vec(s.idle)| + |s.inUse|
  {
    hide EntryOk, Bounded;
  }

  lemma CallStep(xs: seq<Snapshot>, calls: seq<Call>, numHashes: nat, maxSize: nat, k: nat)
    requires IsCallRun(xs, calls, numHashes, maxSize) && 0 < k < |xs|
    ensures Possible(xs[k - 1], maxSize, calls[k - 1]) && xs[k] == Effect(xs[k - 1], maxSize, calls[k - 1])
  {
    hide Effect, Possible;
    assert xs[k - 1 + 1] == Effect(xs[k - 1], maxSize, calls[k - 1]);
  }

  /** A call keeps the number of entries, or adds one. */
  lemma CallSizes(x: Snapshot, maxSize: nat, call: Call)
    requires Possible(x, maxSize, call)
    ensures |Effect(x, maxSize, call).fields.state| >= |x.fields.state|
  {
    if call.PurgeIdle? {
      var f := x.fields;
      StatesKept(FirstPass(f), f.cursor, NumVisited(FirstPass(f), f.cursor, call.o, call.pace, 0), call.o);
    }
    hide Visits, NumVisited, Marked, LastHeld, SetState;
  }

  lemma {:induction false} SizesGrow(xs: seq<Snapshot>, calls: seq<Call>, numHashes: nat, maxSize: nat, from: nat, until: nat)
    requires IsCallRun(xs, calls, numHashes, maxSize) && from <= until < |xs|
    ensures |xs[from].fields.state| <= |xs[until].fields.state|
    decreases until
  {
    hide Effect, Possible;
    if from < until {
      SizesGrow(xs, calls, numHashes, maxSize, from, until - 1);
      CallStep(xs, calls, numHashes, maxSize, until);
      CallSizes(xs[until - 1], maxSize, calls[until - 1]);
    }
  }

  // ----- add -----

  /** Along every sequence of calls, in terms of the entries themselves: an entry is
      admitted exactly if the table and the entries waiting outside it are within the
      limit, and not more than 5000 of them wait while fewer are in the table. It then
      is at the head of the bucket its key belongs to, with its first state and no
      uses; otherwise nothing changes. */
  lemma AddExact(xs: seq<Snapshot>, calls: seq<Call>, numHashes: nat, maxSize: nat, k: nat)
    requires IsCallRun(xs, calls, numHashes, maxSize) && k < |calls| && calls[k].Add?
    ensures var f, g := xs[k].fields, xs[k + 1].fields;
            var size, waiting := |Entries(f.table)|, |Vec(f.shadow)| + |Vec(f.idle)| + |f.inUse|;
            var b := calls[k].key % numHashes;
            && |f.table| == |g.table| == numHashes
            && xs[k + 1].iface == xs[k].iface
            && if size + waiting <= maxSize && !(waiting > 5000 && waiting > size)
               then g == f.(table := g.table, state := f.state + [calls[k].initial], uses := f.uses + [0])
                    && g.table[b] == [|f.state|] + f.table[b]
                    && forall c | 0 <= c < numHashes && c != b :: g.table[c] == f.table[c]
               else g == f
  {
    CallFacts(xs, calls, numHashes, maxSize, k, 0);
    CallStep(xs, calls, numHashes, maxSize, k + 1);
    SizeIsPopulation(xs[k].fields.table);
    hide IsCallRun, Entries, Population, Distinct;
  }

  // ----- buckets -----

  /** Newest first, all of them added. */
  ghost predicate Descends(v: seq<nat>, n: nat) {
    && (forall i, j | 0 <= i < j < |v| :: v[i] > v[j])
    && (forall i | 0 <= i < |v| :: v[i] < n)
  }

  lemma {:induction false} StayingDescends(chain: seq<nat>, state: seq<EntryState>, o: Oracle, n: nat)
    requires Descends(chain, n)
    ensures Descends(Staying(chain, state, o), n)
  {
    hide Goes;
    if chain != [] {
      var rest := Staying(chain[1..], state, o);
      StayingDescends(chain[1..], state, o, n);
      forall q | 0 <= q < |rest| ensures rest[q] < chain[0] {
        StayingExact(chain[1..], state, o, rest[q]);
        assert rest[q] in chain[1..];
      }
      hide Staying;
      HeadDescends(chain[0], rest, n);
      assert Staying(chain, state, o) == rest || Staying(chain, state, o) == [chain[0]] + rest by {
        SplitFront(chain, state, o);
      }
    }
  }

  lemma HeadDescends(x: nat, v: seq<nat>, n: nat)
    requires Descends(v, n) && x < n && forall q | 0 <= q < |v| :: v[q] < x
    ensures Descends([x] + v, n)
  {
    var w := [x] + v;
    forall i, j | 0 <= i < j < |w| ensures w[i] > w[j] {
      assert w[j] == v[j - 1] && (i > 0 ==> w[i] == v[i - 1]);
    }
  }

  lemma SplitFront(chain: seq<nat>, state: seq<EntryState>, o: Oracle)
    requires chain != []
    ensures Staying(chain, state, o) == Staying(chain[1..], state, o)
            || Staying(chain, state, o) == [chain[0]] + Staying(chain[1..], state, o)
  {
  }

  lemma PurgedBucket(f: Fields, o: Oracle, pace: Pace, iface: Interface, b: nat)
    requires f.cursor < |f.table| && b < |f.table| && ChainsDisjoint(f.table)
    ensures var g := PurgedIdle(f, o, pace, iface);
            && |g.table| == |f.table| && |g.state| == |f.state|
            && (g.table[b] == f.table[b] || g.table[b] == Staying(f.table[b], f.state, o))
  {
    var p := FirstPass(f);
    var v := NumVisited(p, f.cursor, o, pace, 0);
    BucketAfterVisits(p, f.cursor, v, o, b);
    hide Visits, NumVisited, Marked, LastHeld, Staying;
  }

  /** In every bucket the entries are in the reverse of the order they were added in. */
  lemma {:induction false} NewestFirst(xs: seq<Snapshot>, calls: seq<Call>, numHashes: nat, maxSize: nat, k: nat, b: nat)
    requires IsCallRun(xs, calls, numHashes, maxSize) && k < |xs| && b < numHashes
    ensures |xs[k].fields.table| == numHashes && Descends(xs[k].fields.table[b], |xs[k].fields.state|)
  {
    hide Entries, PurgedIdle, PurgedQueued;
    CallFacts(xs, calls, numHashes, maxSize, k, 0);
    if k > 0 {
      NewestFirst(xs, calls, numHashes, maxSize, k - 1, b);
      CallFacts(xs, calls, numHashes, maxSize, k - 1, 0);
      CallStep(xs, calls, numHashes, maxSize, k);
      hide IsCallRun, Distinct;
      BucketStep(xs[k - 1], maxSize, calls[k - 1], b);
    }
  }

  lemma BucketStep(x: Snapshot, maxSize: nat, call: Call, b: nat)
    requires Possible(x, maxSize, call) && x.fields.cursor < |x.fields.table| && Distinct(x.fields.table)
    requires b < |x.fields.table| && Descends(x.fields.table[b], |x.fields.state|)
    ensures var g := Effect(x, maxSize, call).fields;
            |g.table| == |x.fields.table| && Descends(g.table[b], |g.state|)
  {
    match call
    case Add(key, initial) =>
    case PurgeIdle(o, pace) =>
      PurgedBucket(x.fields, o, pace, x.iface, b);
      StayingDescends(x.fields.table[b], x.fields.state, o, |x.fields.state|);
      hide PurgedIdle;
    case PurgeQueued => hide Unused, Used;
    case Outside(a) => hide SetState;
  }

  /** Call `i` added entry `e` under a key of bucket `b`. */
  ghost predicate AddedAs(xs: seq<Snapshot>, calls: seq<Call>, maxSize: nat, i: nat, e: nat, b: nat) {
    && i < |calls| && i < |xs| && calls[i].Add? && |xs[i].fields.table| > 0
    && RoomIn(xs[i].fields, maxSize) && |xs[i].fields.state| == e && calls[i].key % |xs[i].fields.table| == b
  }

  /** An entry is only ever in the bucket of the key it was added under. */
  lemma {:induction false} EntryInItsBucket(xs: seq<Snapshot>, calls: seq<Call>, numHashes: nat, maxSize: nat, k: nat, b: nat, e: nat)
    requires IsCallRun(xs, calls, numHashes, maxSize) && k < |xs|
    requires b < |xs[k].fields.table| && e in xs[k].fields.table[b]
    ensures exists i: nat :: i < k && AddedAs(xs, calls, maxSize, i, e, b)
  {
    hide Entries, Distinct, PurgedIdle, PurgedQueued, RoomIn;
    if k > 0 {
      CallFacts(xs, calls, numHashes, maxSize, k, 0);
      CallFacts(xs, calls, numHashes, maxSize, k - 1, 0);
      CallStep(xs, calls, numHashes, maxSize, k);
      BucketOrigin(xs[k - 1], maxSize, calls[k - 1], b, e);
      if e in xs[k - 1].fields.table[b] {
        EntryInItsBucket(xs, calls, numHashes, maxSize, k - 1, b, e);
      } else {
        assert AddedAs(xs, calls, maxSize, k - 1, e, b);
      }
    }
  }

  lemma BucketOrigin(x: Snapshot, maxSize: nat, call: Call, b: nat, e: nat)
    requires Possible(x, maxSize, call) && x.fields.cursor < |x.fields.table| && Distinct(x.fields.table)
    requires b < |x.fields.table| == |Effect(x, maxSize, call).fields.table|
    requires e in Effect(x, maxSize, call).fields.table[b]
    ensures e in x.fields.table[b]
            || (call.Add? && RoomIn(x.fields, maxSize) && e == |x.fields.state| && b == call.key % |x.fields.table|)
  {
    hide RoomIn;
    match call
    case Add(key, initial) =>
    case PurgeIdle(o, pace) =>
      PurgedBucket(x.fields, o, pace, x.iface, b);
      StayingExact(x.fields.table[b], x.fields.state, o, e);
      hide PurgedIdle;
    case PurgeQueued => hide Unused, Used;
    case Outside(a) => hide SetState;
  }

  // ----- what stays -----

  /** The call does not detach the entry: a purge finds the bucket busy, or is not
      forced and the entry is not both active and ready. */
  predicate KeptBy(x: Snapshot, call: Call, b: nat, e: nat) {
    call.PurgeIdle? ==>
      || b in call.o.busy
      || (!call.o.force && !(e in call.o.ready && e < |x.fields.state| && x.fields.state[e] == Active))
  }

  /** Along every sequence of calls: an entry that no purge finds active and ready, and
      no forced purge reaches, is still in its bucket at the end. */
  lemma {:induction false} EntryStaysIn(xs: seq<Snapshot>, calls: seq<Call>, numHashes: nat, maxSize: nat,
                                        from: nat, until: nat, b: nat, e: nat)
    requires IsCallRun(xs, calls, numHashes, maxSize) && from <= until < |xs|
    requires b < |xs[from].fields.table| && e in xs[from].fields.table[b]
    requires forall k | from <= k < until :: KeptBy(xs[k], calls[k], b, e)
    ensures b < |xs[until].fields.table| && e in xs[until].fields.table[b]
    decreases until
  {
    hide Entries, Distinct, Effect, KeptBy;
    if from < until {
      EntryStaysIn(xs, calls, numHashes, maxSize, from, until - 1, b, e);
      CallFacts(xs, calls, numHashes, maxSize, until - 1, e);
      CallStep(xs, calls, numHashes, maxSize, until);
      CallKeeps(xs[until - 1], maxSize, calls[until - 1], b, e);
    }
  }

  lemma CallKeeps(x: Snapshot, maxSize: nat, call: Call, b: nat, e: nat)
    requires Possible(x, maxSize, call) && x.fields.cursor < |x.fields.table| && Distinct(x.fields.table)
    requires b < |x.fields.table| && e in x.fields.table[b] && KeptBy(x, call, b, e)
    ensures var g := Effect(x, maxSize, call).fields;
            b < |g.table| && e in g.table[b]
  {
    match call
    case Add(key, initial) => hide RoomIn;
    case PurgeIdle(o, pace) =>
      var p := FirstPass(x.fields);
      BucketAfterVisits(p, x.fields.cursor, NumVisited(p, x.fields.cursor, o, pace, 0), o, b);
      StayingExact(x.fields.table[b], x.fields.state, o, e);
      hide Visits, NumVisited, Marked, LastHeld;
    case PurgeQueued => hide Unused, Used;
    case Outside(a) => hide SetState;
  }

  // ----- what is deleted -----

  /** How far an entry that left the table has come: it waits anywhere; in the shadow
      vector only while no vector is queued; no longer in the shadow vector; deleted. */
  predicate Reached(f: Fields, e: nat, stage: nat) {
    && Left(f, e)
    && (stage >= 1 && e in Vec(f.shadow) ==> f.idle.None?)
    && (stage >= 2 ==> e !in Vec(f.shadow))
    && (stage >= 3 ==> e in f.deleted)
  }

  /** What a scan detaches was in the table. */
  lemma {:induction false} DetachedFromTable(p: Pass, cursor: nat, j: nat, o: Oracle, e: nat)
    requires cursor < |p.table| && j <= |p.table| && ChainsDisjoint(p.table) && e !in Entries(p.table)
    ensures var r := Visits(p, cursor, j, o);
            r.shadow[..|p.shadow|] == p.shadow && e !in r.shadow[|p.shadow|..]
  {
    hide Entries, Staying, Leaving, Touched, Held, ChainsDisjoint, Bucket, Offset;
    if j == 0 {
      assert p.shadow[|p.shadow|..] == [];
    } else {
      DetachedFromTable(p, cursor, j - 1, o, e);
      var r, c := Visits(p, cursor, j - 1, o), Bucket(cursor, j - 1, |p.table|);
      OffsetExact(cursor, c, j - 1, |p.table|);
      BucketAfterVisits(p, cursor, j - 1, o, c);
      NotLeaving(p.table, c, r.state, o, e);
      AppendAvoids(r.shadow, Leaving(p.table[c], r.state, o), |p.shadow|, e);
    }
  }

  lemma NotLeaving(table: seq<seq<nat>>, c: nat, state: seq<EntryState>, o: Oracle, e: nat)
    requires c < |table| && e !in Entries(table)
    ensures e !in Leaving(table[c], state, o)
  {
    InEntries(table, e);
    StayingExact(table[c], state, o, e);
  }

  lemma AppendAvoids(a: seq<nat>, b: seq<nat>, k: nat, e: nat)
    requires k <= |a| && e !in a[k..] && e !in b
    ensures (a + b)[..k] == a[..k] && e !in (a + b)[k..]
  {
    assert (a + b)[k..] == a[k..] + b;
  }

  lemma PurgeIdleStage(f: Fields, o: Oracle, pace: Pace, iface: Interface, e: nat, stage: nat)
    requires f.cursor < |f.table| && ChainsDisjoint(f.table) && e !in Entries(f.table) && Reached(f, e, stage)
    ensures var g := PurgedIdle(f, o, pace, iface);
            Reached(g, e, if stage == 1 then 2 else stage)
  {
    var p := FirstPass(f);
    var v := NumVisited(p, f.cursor, o, pace, 0);
    DetachedFromTable(p, f.cursor, v, o, e);
    var r := Visits(p, f.cursor, v, o);
    assert r.shadow == p.shadow + r.shadow[|p.shadow|..];
    hide Visits, NumVisited, Marked, LastHeld, Entries, ChainsDisjoint;
  }

  lemma PurgeQueuedStage(f: Fields, e: nat, stage: nat)
    requires Reached(f, e, stage)
    ensures Reached(PurgedQueued(f), e, if stage == 0 then 1 else stage)
    ensures stage >= 2 && e < |f.uses| && f.uses[e] == 0 ==> Reached(PurgedQueued(f), e, 3)
  {
    var g := PurgedQueued(f);
    PurgedQueuedExact(f, e);
    InIffOccurs(Vec(f.idle), e);
    InIffOccurs(f.inUse, e);
    InIffOccurs(g.inUse, e);
    InIffOccurs(f.deleted, e);
    InIffOccurs(g.deleted, e);
    hide Occurs, PurgedQueued;
  }

  /** A call never takes an entry back, and the two purges move it on. */
  lemma CallStage(x: Snapshot, maxSize: nat, call: Call, e: nat, stage: nat)
    requires Possible(x, maxSize, call) && x.fields.cursor < |x.fields.table| && ChainsDisjoint(x.fields.table)
    requires e !in Entries(x.fields.table) && Reached(x.fields, e, stage)
    ensures var g := Effect(x, maxSize, call).fields;
            && Reached(g, e, stage)
            && (call.PurgeQueued? && stage == 0 ==> Reached(g, e, 1))
            && (call.PurgeIdle? && stage == 1 ==> Reached(g, e, 2))
            && (call.PurgeQueued? && stage == 2 && e < |x.fields.uses| && x.fields.uses[e] == 0 ==> Reached(g, e, 3))
  {
    hide Entries, ChainsDisjoint;
    match call
    case Add(key, initial) => hide RoomIn;
    case PurgeIdle(o, pace) =>
      PurgeIdleStage(x.fields, o, pace, x.iface, e, stage);
      hide PurgedIdle;
    case PurgeQueued =>
      PurgeQueuedStage(x.fields, e, stage);
      hide PurgedQueued;
    case Outside(a) => hide SetState;
  }

  lemma RunStage(xs: seq<Snapshot>, calls: seq<Call>, numHashes: nat, maxSize: nat, k: nat, e: nat, stage: nat)
    requires IsCallRun(xs, calls, numHashes, maxSize) && k < |calls| && Reached(xs[k].fields, e, stage)
    ensures var f, g, call := xs[k].fields, xs[k + 1].fields, calls[k];
            && Reached(g, e, stage)
            && (call.PurgeQueued? && stage == 0 ==> Reached(g, e, 1))
            && (call.PurgeIdle? && stage == 1 ==> Reached(g, e, 2))
            && (call.PurgeQueued? && stage == 2 && e < |f.uses| && f.uses[e] == 0 ==> Reached(g, e, 3))
  {
    CallFacts(xs, calls, numHashes, maxSize, k, e);
    CallStep(xs, calls, numHashes, maxSize, k + 1);
    hide IsCallRun, Entries, Effect;
    assert ChainsDisjoint(xs[k].fields.table);
    hide Distinct;
    CallStage(xs[k], maxSize, calls[k], e, stage);
  }

  lemma {:induction false} StageStays(xs: seq<Snapshot>, calls: seq<Call>, numHashes: nat, maxSize: nat,
                                      from: nat, until: nat, e: nat, stage: nat)
    requires IsCallRun(xs, calls, numHashes, maxSize) && from <= until < |xs| && Reached(xs[from].fields, e, stage)
    ensures Reached(xs[until].fields, e, stage)
    decreases until
  {
    hide Reached, Effect, Possible;
    if from < until {
      StageStays(xs, calls, numHashes, maxSize, from, until - 1, e, stage);
      RunStage(xs, calls, numHashes, maxSize, until - 1, e, stage);
    }
  }

  /** Along every sequence of calls: an entry that has left the table is deleted after
      a `purgeQueuedIdleEntries`, a `purgeIdle` and a `purgeQueuedIdleEntries`, whatever
      is called in between, if nobody uses it at the last of them; and stays deleted. */
  lemma DetachedEntryDeleted(xs: seq<Snapshot>, calls: seq<Call>, numHashes: nat, maxSize: nat,
                             from: nat, i: nat, j: nat, k: nat, until: nat, e: nat)
    requires IsCallRun(xs, calls, numHashes, maxSize) && from <= i < j < k < until < |xs|
    requires Left(xs[from].fields, e)
    requires calls[i].PurgeQueued? && calls[j].PurgeIdle? && calls[k].PurgeQueued?
    requires e < |xs[k].fields.uses| && xs[k].fields.uses[e] == 0
    ensures e in xs[until].fields.deleted
  {
    assert Reached(xs[from].fields, e, 0);
    assert Reached(xs[until].fields, e, 3) ==> e in xs[until].fields.deleted;
    hide Reached, IsCallRun, Left;
    StageStays(xs, calls, numHashes, maxSize, from, i, e, 0);
    RunStage(xs, calls, numHashes, maxSize, i, e, 0);
    StageStays(xs, calls, numHashes, maxSize, i + 1, j, e, 1);
    RunStage(xs, calls, numHashes, maxSize, j, e, 1);
    StageStays(xs, calls, numHashes, maxSize, j + 1, k, e, 2);
    RunStage(xs, calls, numHashes, maxSize, k, e, 2);
    StageStays(xs, calls, numHashes, maxSize, k + 1, until, e, 3);
  }

  /** From the table to deletion: an active entry that stays ready, in a bucket that is
      not busy, is deleted after `num_hashes` calls of `purgeIdle` and then the three
      purges, if nobody uses it at the last of them. */
  lemma ReadyEntryDeleted(xs: seq<Snapshot>, calls: seq<Call>, numHashes: nat, maxSize: nat,
                          from: nat, mid: nat, i: nat, j: nat, k: nat, until: nat, b: nat, e: nat)
    requires IsCallRun(xs, calls, numHashes, maxSize) && from <= mid <= i < j < k < until < |xs|
    requires b < |xs[from].fields.table| && e in xs[from].fields.table[b]
    requires e < |xs[from].fields.state| && xs[from].fields.state[e] == Active
    requires forall n | from <= n < mid :: LeavesReady(calls[n], b, e)
    requires PurgeCalls(calls[from..mid]) >= numHashes
    requires calls[i].PurgeQueued? && calls[j].PurgeIdle? && calls[k].PurgeQueued?
    requires e < |xs[k].fields.uses| && xs[k].fields.uses[e] == 0
    ensures e in xs[until].fields.deleted
  {
    ReadyEntryLeaves(xs, calls, numHashes, maxSize, from, mid, b, e);
    SizesGrow(xs, calls, numHashes, maxSize, from, mid);
    CallFacts(xs, calls, numHashes, maxSize, mid, e);
    hide IsCallRun, Entries, Left, Distinct, LeavesReady, PurgeCalls;
    DetachedEntryDeleted(xs, calls, numHashes, maxSize, mid, i, j, k, until, e);
  }
}
