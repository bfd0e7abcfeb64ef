/**
 Idle entries do leave the table: an active entry that stays ready for the idle
 transition, in a bucket whose lock is free, is detached by one of the next
 `num_hashes` calls of `purgeIdle`, whatever else is called in between and however
 few buckets each call visits.
 */
module HashProgress {
  import opened HashLifecycle
  import opened GenericHash
  import opened HashTables
  import opened HashRefinement

  /** Nothing in the call keeps the entry: every scan finds it ready and its bucket
      free, and nobody else changes its state. */
  predicate LeavesReady(call: Call, b: nat, e: nat) {
    match call
    case PurgeIdle(o, _) => e in o.ready && b !in o.busy
    case Outside(a) => a != StepBack(e) && !(a.Promote? && a.entry == e)
    case _ => true
  }

  function PurgeCalls(calls: seq<Call>): nat {
    if calls == [] then 0
    else PurgeCalls(calls[..|calls| - 1]) + if calls[|calls| - 1].PurgeIdle? then 1 else 0
  }

  /** The entry waits in its bucket, active. */
  predicate Waits(f: Fields, b: nat, e: nat) {
    b < |f.table| && e in f.table[b] && e < |f.state| && f.state[e] == Active && f.cursor < |f.table|
  }

  ghost predicate Gone(f: Fields, e: nat) {
    e < |f.state| && e !in Entries(f.table)
  }

  /** How many buckets a scan visits before it comes to `b`. */
  function Distance(f: Fields, b: nat): nat
    requires f.cursor < |f.table| && b < |f.table|
  {
    Offset(f.cursor, b, |f.table|)
  }

  // ----- one call of purgeIdle -----

  /** Every bucket shrinks. */
  lemma OnlyShrinks(p: Pass, cursor: nat, j: nat, o: Oracle, e: nat)
    requires cursor < |p.table| && j <= |p.table| && ChainsDisjoint(p.table)
    ensures e in Entries(Visits(p, cursor, j, o).table) ==> e in Entries(p.table)
  {
    var r := Visits(p, cursor, j, o);
    InEntries(r.table, e);
    InEntries(p.table, e);
    hide Visits, Entries;
    if c: nat :| c < |r.table| && e in r.table[c] {
      BucketAfterVisits(p, cursor, j, o, c);
      StayingExact(p.table[c], p.state, o, e);
    }
  }

  /** If the scan reaches the bucket the entry leaves the table; otherwise the entry
      stays as it is and the bucket has come closer. */
  lemma ScanReady(p: Pass, cursor: nat, v: nat, o: Oracle, b: nat, e: nat)
    requires cursor < |p.table| && 1 <= v <= |p.table| && ChainsDisjoint(p.table)
    requires b < |p.table| && e in p.table[b] && e < |p.state| && p.state[e] == Active
    requires e in o.ready && b !in o.busy
    ensures var r := Visits(p, cursor, v, o);
            && |r.state| == |p.state|
            && (Offset(cursor, b, |p.table|) < v ==> e !in Entries(r.table))
            && (Offset(cursor, b, |p.table|) >= v ==> e in r.table[b] && r.state[e] == Active)
  {
    var r := Visits(p, cursor, v, o);
    BucketAfterVisits(p, cursor, v, o, b);
    StayingExact(p.table[b], p.state, o, e);
    InEntries(r.table, e);
    hide Visits, Entries, Offset;
    if Offset(cursor, b, |p.table|) < v {
      forall c: nat | c < |r.table| ensures e !in r.table[c] {
        BucketAfterVisits(p, cursor, v, o, c);
        StayingExact(p.table[c], p.state, o, e);
      }
    }
  }

  lemma {:induction false} MarkedElsewhere(state: seq<EntryState>, v: seq<nat>, iface: Interface, e: nat)
    requires e < |state| && e !in v
    ensures Marked(state, v, iface)[e] == state[e]
    decreases v
  {
    hide SetState;
    if v != [] {
      if v[0] < |state| {
        MarkedElsewhere(state[v[0] := SetState(state[v[0]], Idle, iface)], v[1..], iface, e);
      } else {
        MarkedElsewhere(state, v[1..], iface, e);
      }
    }
  }

  lemma PurgeReady(f: Fields, o: Oracle, pace: Pace, iface: Interface, b: nat, e: nat)
    requires Waits(f, b, e) && ChainsDisjoint(f.table) && e in o.ready && b !in o.busy
    requires var g := PurgedIdle(f, o, pace, iface);
             e in Entries(g.table) ==> e !in Vec(g.shadow)
    ensures var g := PurgedIdle(f, o, pace, iface);
            && |g.table| == |f.table|
            && (Gone(g, e) || (Waits(g, b, e) && Distance(g, b) < Distance(f, b)))
  {
    var p := FirstPass(f);
    var v := NumVisited(p, f.cursor, o, pace, 0);
    var r, g := Visits(p, f.cursor, v, o), PurgedIdle(f, o, pace, iface);
    ScanProgress(p, f.cursor, o, pace);
    ScanReady(p, f.cursor, v, o, b, e);
    hide Visits, NumVisited, Entries, Marked, LastHeld, Offset;
    if Distance(f, b) >= v {
      InEntries(g.table, e);
      assert e in Entries(g.table);
      CloserCursor(f.cursor, v, b, |f.table|);
      var detached := r.shadow[|p.shadow|..];
      assert e !in detached;
      MarkedElsewhere(r.state, detached, iface, e);
    }
  }

  lemma PurgeKeepsGone(f: Fields, o: Oracle, pace: Pace, iface: Interface, e: nat)
    requires f.cursor < |f.table| && ChainsDisjoint(f.table) && Gone(f, e)
    ensures Gone(PurgedIdle(f, o, pace, iface), e)
  {
    var p := FirstPass(f);
    var v := NumVisited(p, f.cursor, o, pace, 0);
    OnlyShrinks(p, f.cursor, v, o, e);
    StatesKept(p, f.cursor, v, o);
    hide Visits, NumVisited, Entries, Marked, LastHeld;
  }

  lemma {:induction false} StatesKept(p: Pass, cursor: nat, j: nat, o: Oracle)
    requires |p.table| > 0
    ensures |Visits(p, cursor, j, o).state| == |p.state|
  {
    if j > 0 {
      StatesKept(p, cursor, j - 1, o);
    }
  }

  // ----- any call -----

  /** Either the entry has left, or it waits and its bucket is closer by the number of
      purges. */
  ghost predicate Progress(f: Fields, b: nat, e: nat, left: int) {
    || Gone(f, e)
    || (Waits(f, b, e) && Distance(f, b) <= left)
  }

  lemma AddProgress(f: Fields, key: nat, initial: EntryState, b: nat, e: nat, left: int)
    requires |f.table| > 0 && Progress(f, b, e, left)
    ensures Progress(Added(f, key, initial), b, e, left)
  {
    hide Offset;
    var g := Added(f, key, initial);
    InEntries(f.table, e);
    InEntries(g.table, e);
    hide Entries;
    var c := key % |f.table|;
    assert g.table[c] == [|f.state|] + f.table[c];
  }

  lemma OutsideProgress(x: Snapshot, maxSize: nat, a: Action, b: nat, e: nat, left: int)
    requires Possible(x, maxSize, Outside(a)) && LeavesReady(Outside(a), b, e) && Progress(x.fields, b, e, left)
    ensures Progress(Effect(x, maxSize, Outside(a)).fields, b, e, left)
  {
    hide Offset, Entries, SetState;
  }

  lemma CallProgress(x: Snapshot, maxSize: nat, call: Call, b: nat, e: nat, left: int)
    requires Possible(x, maxSize, call) && LeavesReady(call, b, e) && Progress(x.fields, b, e, left)
    requires x.fields.cursor < |x.fields.table| && ChainsDisjoint(x.fields.table)
    requires var f := Effect(x, maxSize, call).fields; e in Entries(f.table) ==> e !in Vec(f.shadow)
    ensures Progress(Effect(x, maxSize, call).fields, b, e, if call.PurgeIdle? then left - 1 else left)
  {
    hide Added, PurgedIdle, Entries, Offset, ChainsDisjoint;
    match call
    case Add(key, initial) => AddProgress(x.fields, key, initial, b, e, left);
    case PurgeIdle(o, pace) =>
      if Gone(x.fields, e) {
        PurgeKeepsGone(x.fields, o, pace, x.iface, e);
      } else {
        PurgeReady(x.fields, o, pace, x.iface, b, e);
      }
    case PurgeQueued =>
    case Outside(a) => OutsideProgress(x, maxSize, a, b, e, left);
  }

  /** The facts a call needs, from the machine's invariant. */
  lemma SnapshotFacts(xs: seq<Snapshot>, calls: seq<Call>, numHashes: nat, maxSize: nat, k: nat, e: nat)
    requires IsCallRun(xs, calls, numHashes, maxSize) && k < |xs|
    ensures var f := xs[k].fields;
            ChainsDisjoint(f.table) && (e in Entries(f.table) ==> e !in Vec(f.shadow))
  {
    hide IsCallRun, Leads, Entries, ChainsDisjoint;
    var acts, s := EveryCallSequence(xs, calls, numHashes, maxSize, k);
    assert EntryOk(s, e);
    OnePlace(s, e);
    hide Inv, EntryOk;
  }

  lemma {:induction false} CursorInRange(xs: seq<Snapshot>, calls: seq<Call>, numHashes: nat, maxSize: nat, k: nat)
    requires IsCallRun(xs, calls, numHashes, maxSize) && k < |xs|
    ensures |xs[k].fields.table| == numHashes && xs[k].fields.cursor < numHashes
  {
    if k > 0 {
      CursorInRange(xs, calls, numHashes, maxSize, k - 1);
      assert xs[k - 1 + 1] == Effect(xs[k - 1], maxSize, calls[k - 1]);
      hide Visits, NumVisited, Next, Abs;
    }
  }

  lemma {:induction false} EveryCallProgress(xs: seq<Snapshot>, calls: seq<Call>, numHashes: nat, maxSize: nat,
                                             from: nat, until: nat, b: nat, e: nat)
    requires IsCallRun(xs, calls, numHashes, maxSize) && from <= until < |xs|
    requires b < numHashes && Waits(xs[from].fields, b, e)
    requires forall k | from <= k < until :: LeavesReady(calls[k], b, e)
    ensures xs[from].fields.cursor < |xs[from].fields.table| && b < |xs[from].fields.table|
    ensures Progress(xs[until].fields, b, e, Distance(xs[from].fields, b) - PurgeCalls(calls[from..until]))
    decreases until
  {
    hide LeavesReady, Distance, Effect, Possible;
    if until == from {
      assert calls[from..until] == [];
    } else {
      EveryCallProgress(xs, calls, numHashes, maxSize, from, until - 1, b, e);
      var left := Distance(xs[from].fields, b) - PurgeCalls(calls[from..until - 1]);
      assert calls[from..until][..until - 1 - from] == calls[from..until - 1] && calls[from..until][until - 1 - from] == calls[until - 1];
      assert xs[until - 1 + 1] == Effect(xs[until - 1], maxSize, calls[until - 1]);
      CursorInRange(xs, calls, numHashes, maxSize, until - 1);
      SnapshotFacts(xs, calls, numHashes, maxSize, until - 1, e);
      SnapshotFacts(xs, calls, numHashes, maxSize, until, e);
      hide Progress, Waits, Gone, Entries, ChainsDisjoint;
      CallProgress(xs[until - 1], maxSize, calls[until - 1], b, e, left);
    }
  }

  /** Along every sequence of calls: an active entry that stays ready, in a bucket that
      is not busy when scanned, has left the table after `num_hashes` calls of
      `purgeIdle`. */
  lemma ReadyEntryLeaves(xs: seq<Snapshot>, calls: seq<Call>, numHashes: nat, maxSize: nat,
                         from: nat, until: nat, b: nat, e: nat)
    requires IsCallRun(xs, calls, numHashes, maxSize) && from <= until < |xs|
    requires b < |xs[from].fields.table| && e in xs[from].fields.table[b]
    requires e < |xs[from].fields.state| && xs[from].fields.state[e] == Active
    requires forall k | from <= k < until :: LeavesReady(calls[k], b, e)
    requires PurgeCalls(calls[from..until]) >= numHashes
    ensures e !in Entries(xs[until].fields.table)
  {
    CursorInRange(xs, calls, numHashes, maxSize, from);
    hide IsCallRun, PurgeCalls, LeavesReady, Entries;
    EveryCallProgress(xs, calls, numHashes, maxSize, from, until, b, e);
  }
}
