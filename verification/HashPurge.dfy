/**
 What one call of the hash object does to one entry: where the entry is afterwards, in
 which state it is and how many uses are held of it; and how many buckets a scan walks.
 */
module HashPurge {
  import opened Basics
  import opened HashLifecycle
  import opened GenericHash
  import opened HashTables

  // ----- one chain -----

  lemma {:induction false} LeavesOnce(chain: seq<nat>, state: seq<EntryState>, o: Oracle, e: nat)
    requires NoRepeat(chain)
    ensures Occurs(Leaving(chain, state, o), e) == if e in chain && Goes(e, state, o) then 1 else 0
  {
    hide Goes;
    if chain != [] {
      var rest := Leaving(chain[1..], state, o);
      LeavesOnce(chain[1..], state, o, e);
      OccursHead([chain[0]] + rest, 0, e);
      assert ([chain[0]] + rest)[0..] == [chain[0]] + rest && ([chain[0]] + rest)[1..] == rest;
      assert e == chain[0] ==> e !in chain[1..];
    }
  }

  lemma {:induction false} HeldElsewhere(uses: seq<int>, state: seq<EntryState>, chain: seq<nat>, e: nat, o: Oracle)
    requires e < |uses| && e !in chain
    ensures Held(uses, state, chain, o)[e] == uses[e]
  {
    if chain != [] {
      HeldElsewhere(uses, state, chain[..|chain| - 1], e, o);
    }
  }

  lemma {:induction false} TouchedOnce(state: seq<EntryState>, uses: seq<int>, chain: seq<nat>, e: nat, o: Oracle)
    requires NoRepeat(chain) && e in chain && e < |state| == |uses|
    ensures Touched(state, chain, o)[e] == Housekept(e, state[e], o)
    ensures Held(uses, state, chain, o)[e] == uses[e] + Hold(e, state[e], o)
  {
    hide Housekept, Hold;
    var front, last := chain[..|chain| - 1], chain[|chain| - 1];
    if e == last {
      assert e !in front;
      TouchedElsewhere(state, front, e, o);
      HeldElsewhere(uses, state, front, e, o);
    } else {
      assert e in front;
      TouchedOnce(state, uses, front, e, o);
    }
  }

  // ----- a scan -----

  lemma GrownVector(a: seq<nat>, b: seq<nat>, k: nat, e: nat)
    requires k <= |a|
    ensures (a + b)[..k] == a[..k] && (a + b)[k..] == a[k..] + b
    ensures Occurs((a + b)[k..], e) == Occurs(a[k..], e) + Occurs(b, e)
  {
  }

  /** After `j` visits: an entry whose bucket was visited, its lock free, has been
      housekept once, and is once in the shadow vector if it was due; any other is as
      it was. */
  lemma {:induction false} VisitsEntry(p: Pass, cursor: nat, j: nat, o: Oracle, b: nat, e: nat)
    requires cursor < |p.table| && b < |p.table| && j <= |p.table| && Distinct(p.table)
    requires e in p.table[b] && e < |p.state| == |p.uses|
    ensures var r, seen := Visits(p, cursor, j, o), Offset(cursor, b, |p.table|) < j && b !in o.busy;
            && |r.state| == |r.uses| == |p.state|
            && r.state[e] == (if seen then Housekept(e, p.state[e], o) else p.state[e])
            && r.uses[e] == p.uses[e] + (if seen then Hold(e, p.state[e], o) else 0)
            && r.shadow[..|p.shadow|] == p.shadow
            && Occurs(r.shadow[|p.shadow|..], e) == if seen && Goes(e, p.state, o) then 1 else 0
  {
    hide Goes, Housekept, Hold, Touched, Held, Leaving, Staying, Occurs, Offset, Bucket, NoRepeat;
    if j == 0 {
      OccursNone(e);
      assert p.shadow[|p.shadow|..] == [];
    } else {
      VisitsEntry(p, cursor, j - 1, o, b, e);
      var r, c := Visits(p, cursor, j - 1, o), Bucket(cursor, j - 1, |p.table|);
      OffsetExact(cursor, b, j - 1, |p.table|);
      OffsetExact(cursor, c, j - 1, |p.table|);
      BucketAfterVisits(p, cursor, j - 1, o, c);
      if c !in o.busy {
        var left := Leaving(p.table[c], r.state, o);
        GrownVector(r.shadow, left, |p.shadow|, e);
        VisitedNow(p, r, c, b, e, o);
      }
    }
  }

  lemma VisitedNow(p: Pass, r: Pass, c: nat, b: nat, e: nat, o: Oracle)
    requires c < |p.table| && b < |p.table| && Distinct(p.table) && e in p.table[b] && e < |p.state|
    requires |r.state| == |r.uses| == |p.state|
    requires forall x | x in p.table[c] && x < |p.state| :: r.state[x] == p.state[x]
    ensures var chain := p.table[c];
            && Occurs(Leaving(chain, r.state, o), e) == (if c == b && Goes(e, p.state, o) then 1 else 0)
            && Touched(r.state, chain, o)[e] == (if c == b then Housekept(e, p.state[e], o) else r.state[e])
            && Held(r.uses, r.state, chain, o)[e] == r.uses[e] + if c == b then Hold(e, p.state[e], o) else 0
  {
    var chain := p.table[c];
    LeavesOnce(chain, r.state, o, e);
    if c == b {
      TouchedOnce(r.state, r.uses, chain, e, o);
    } else {
      assert e !in chain;
      TouchedElsewhere(r.state, chain, e, o);
      HeldElsewhere(r.uses, r.state, chain, e, o);
    }
  }

  // ----- marking -----

  lemma {:induction false} MarkedExact(state: seq<EntryState>, uses: seq<int>, v: seq<nat>, iface: Interface, o: Oracle, e: nat)
    requires e < |state| == |uses| && Occurs(v, e) <= 1
    ensures Marked(state, v, iface)[e] == if Occurs(v, e) == 1 then SetState(state[e], Idle, iface) else state[e]
    ensures LastHeld(uses, v, o)[e] == uses[e] + if Occurs(v, e) == 1 then Times(o.lastHeld, e) else 0
    decreases v
  {
    hide SetState, Times, Occurs;
    if v == [] {
      OccursNone(e);
    } else {
      var x := v[0];
      OccursHead(v, 0, e);
      assert v[0..] == v;
      if x < |state| {
        MarkedExact(state[x := SetState(state[x], Idle, iface)], uses[x := uses[x] + Times(o.lastHeld, x)], v[1..], iface, o, e);
      } else {
        MarkedExact(state, uses, v[1..], iface, o, e);
      }
    }
  }

  // ----- purgeIdle -----

  /** What a call of `purgeIdle` does to an entry of the table. It leaves if its bucket
      is reached with its lock free and it is not idle, and the purge is forced or it
      is active and ready. An entry reached has its detection ended if housekeeping
      ends it, and is active once detected; one that leaves then becomes idle, unless
      it is not active and the interface runs. Housekeeping is skipped for an active
      entry that leaves, and done once more for each entry that has left. */
  lemma PurgedEntry(f: Fields, o: Oracle, pace: Pace, iface: Interface, b: nat, e: nat)
    requires f.cursor < |f.table| && b < |f.table| && Distinct(f.table)
    requires e in f.table[b] && e < |f.state| == |f.uses| && e !in Vec(f.shadow)
    ensures var g, v := PurgedIdle(f, o, pace, iface), NumVisited(FirstPass(f), f.cursor, o, pace, 0);
            var st, seen := f.state[e], Offset(f.cursor, b, |f.table|) < v && b !in o.busy;
            var leaves := seen && st != Idle && (o.force || (st == Active && e in o.ready));
            var settled := if seen && (st == ProtocolDetected || ((st == Allocated || st == NotYetDetected) && e in o.detected))
                           then Active else st;
            && (e in g.table[b] <==> !leaves)
            && (e in Vec(g.shadow) <==> leaves)
            && |g.state| == |g.uses| == |f.state|
            && g.state[e] == (if leaves && (settled == Active || !iface.running) then Idle else settled)
            && g.uses[e] == f.uses[e]
               + (if seen && st != Idle && !(leaves && st == Active) then Times(o.held, e) else 0)
               + (if leaves then Times(o.lastHeld, e) else 0)
  {
    hide Visits, NumVisited, Marked, LastHeld, Times, Occurs, NoRepeat, Staying, Leaving, SetState, Housekept, Hold, Goes, Offset, Distinct;
    var p := FirstPass(f);
    var v := NumVisited(p, f.cursor, o, pace, 0);
    ScannedEntry(p, f.cursor, v, o, iface, b, e);
    SettledExact(e, f.state[e], o, iface);
  }

  lemma SettledExact(e: nat, st: EntryState, o: Oracle, iface: Interface)
    ensures var leaves := st != Idle && (o.force || (st == Active && e in o.ready));
            && Housekept(e, st, o) == (if st == ProtocolDetected || ((st == Allocated || st == NotYetDetected) && e in o.detected)
                                       then Active else st)
            && (leaves ==> SetState(Housekept(e, st, o), Idle, iface)
                           == if Housekept(e, st, o) == Active || !iface.running then Idle else Housekept(e, st, o))
            && Hold(e, st, o) == (if st != Idle && !(leaves && st == Active) then Times(o.held, e) else 0)
  {
    hide Times;
  }

  /** The same before the state and the uses are worked out. */
  lemma ScannedEntry(p: Pass, cursor: nat, v: nat, o: Oracle, iface: Interface, b: nat, e: nat)
    requires cursor < |p.table| && b < |p.table| && v <= |p.table| && Distinct(p.table)
    requires e in p.table[b] && e < |p.state| == |p.uses| && e !in p.shadow
    ensures var r, st := Visits(p, cursor, v, o), p.state[e];
            var seen := Offset(cursor, b, |p.table|) < v && b !in o.busy;
            var leaves := seen && st != Idle && (o.force || (st == Active && e in o.ready));
            var kept, detached := if seen then Housekept(e, st, o) else st, r.shadow[|p.shadow|..];
            && (e in r.table[b] <==> !leaves)
            && (e in r.shadow <==> leaves)
            && |r.state| == |r.uses| == |p.state|
            && Marked(r.state, detached, iface)[e] == (if leaves then SetState(kept, Idle, iface) else kept)
            && LastHeld(r.uses, detached, o)[e] == p.uses[e] + (if seen then Hold(e, st, o) else 0)
               + (if leaves then Times(o.lastHeld, e) else 0)
  {
    hide Visits, Marked, LastHeld, Times, Occurs, NoRepeat, Staying, Leaving, SetState, Housekept, Hold, Offset;
    var r := Visits(p, cursor, v, o);
    VisitsEntry(p, cursor, v, o, b, e);
    var detached := r.shadow[|p.shadow|..];
    MarkedExact(r.state, r.uses, detached, iface, o, e);
    InIffOccurs(detached, e);
    assert r.shadow == p.shadow + detached;
    assert ChainsDisjoint(p.table);
    hide Distinct, ChainsDisjoint;
    BucketAfterVisits(p, cursor, v, o, b);
    StayingExact(p.table[b], p.state, o, e);
  }

  // ----- purgeQueuedIdleEntries -----

  lemma {:induction false} SplitByUse(v: seq<nat>, uses: seq<int>, e: nat)
    ensures Occurs(Unused(v, uses), e) == if e < |uses| && uses[e] == 0 then Occurs(v, e) else 0
    ensures Occurs(Used(v, uses), e) == if e < |uses| && uses[e] == 0 then 0 else Occurs(v, e)
  {
    if v == [] {
      OccursNone(e);
    } else {
      SplitByUse(v[1..], uses, e);
      OccursFront(v[0], v[1..], e);
      OccursFront(v[0], Unused(v[1..], uses), e);
      OccursFront(v[0], Used(v[1..], uses), e);
      assert [v[0]] + v[1..] == v;
      hide Occurs;
    }
  }

  lemma OccursFront(x: nat, v: seq<nat>, e: nat)
    ensures Occurs([x] + v, e) == Occurs(v, e) + if x == e then 1 else 0
  {
  }

  lemma OccursSum(a: seq<nat>, b: seq<nat>, e: nat)
    ensures Occurs(a + b, e) == Occurs(a, e) + Occurs(b, e)
  {
  }

  /** What a call of `purgeQueuedIdleEntries` does to an entry: queued or parked, it is
      deleted, as often as it is listed, if it has no uses, and otherwise parked. The
      queued vector has been taken, the purge counter counts the deletions, and nothing
      else changes. */
  lemma PurgedQueuedExact(f: Fields, e: nat)
    ensures var g, listed := PurgedQueued(f), Occurs(Vec(f.idle), e) + Occurs(f.inUse, e);
            && Occurs(g.deleted, e) == Occurs(f.deleted, e) + (if e < |f.uses| && f.uses[e] == 0 then listed else 0)
            && Occurs(g.inUse, e) == (if e < |f.uses| && f.uses[e] == 0 then 0 else listed)
            && g.numPurged - f.numPurged == |g.deleted| - |f.deleted|
            && g == f.(idle := None, deleted := g.deleted, inUse := g.inUse, numPurged := g.numPurged)
            && f.deleted <= g.deleted
  {
    hide Occurs, Unused, Used;
    var g, queued := PurgedQueued(f), Vec(f.idle);
    SplitByUse(queued, f.uses, e);
    SplitByUse(f.inUse, f.uses, e);
    OccursSum(f.deleted + Unused(queued, f.uses), Unused(f.inUse, f.uses), e);
    OccursSum(f.deleted, Unused(queued, f.uses), e);
    OccursSum(Used(f.inUse, f.uses), Used(queued, f.uses), e);
  }

  // ----- the pace of a scan -----

  /** The entries in the first `j` buckets after the cursor whose locks are free. */
  function Walked(table: seq<seq<nat>>, cursor: nat, j: nat, o: Oracle): nat
    requires |table| > 0
  {
    if j == 0 then 0
    else
      var b := Bucket(cursor, j - 1, |table|);
      Walked(table, cursor, j - 1, o) + if b in o.busy then 0 else |table[b]|
  }

  lemma {:induction false} CheckedExact(p: Pass, cursor: nat, j: nat, o: Oracle)
    requires cursor < |p.table| && j <= |p.table| && ChainsDisjoint(p.table)
    ensures Visits(p, cursor, j, o).checked == p.checked + Walked(p.table, cursor, j, o)
  {
    hide ChainsDisjoint, Staying, Leaving, Touched, Held, Offset, Bucket;
    if j > 0 {
      CheckedExact(p, cursor, j - 1, o);
      var c := Bucket(cursor, j - 1, |p.table|);
      OffsetExact(cursor, c, j - 1, |p.table|);
      BucketAfterVisits(p, cursor, j - 1, o, c);
    }
  }

  predicate WalkedEnough(p: Pass, cursor: nat, j: nat, o: Oracle, pace: Pace)
    requires |p.table| > 0
  {
    var walked := Walked(p.table, cursor, j, o);
    walked > pace.upper || (j > pace.fraction && walked > 1024)
  }

  /** How many buckets a scan visits: all of them in a full scan, otherwise the least
      number after which enough entries have been walked, counted on the table as it
      was when the scan began. */
  lemma PaceExact(p: Pass, cursor: nat, o: Oracle, pace: Pace)
    requires cursor < |p.table| && ChainsDisjoint(p.table) && p.checked == 0
    ensures var v, n := NumVisited(p, cursor, o, pace, 0), |p.table|;
            && v <= n
            && (v < n ==> !pace.fullScan && WalkedEnough(p, cursor, v, o, pace))
            && (forall j: nat | j < v :: pace.fullScan || !WalkedEnough(p, cursor, j, o, pace))
  {
    PaceFrom(p, cursor, o, pace, 0);
  }

  lemma {:induction false} PaceFrom(p: Pass, cursor: nat, o: Oracle, pace: Pace, from: nat)
    requires cursor < |p.table| && ChainsDisjoint(p.table) && p.checked == 0 && from <= |p.table|
    ensures var v, n := NumVisited(p, cursor, o, pace, from), |p.table|;
            && v <= n
            && (v < n ==> !pace.fullScan && WalkedEnough(p, cursor, v, o, pace))
            && (forall j: nat | from <= j < v :: pace.fullScan || !WalkedEnough(p, cursor, j, o, pace))
    decreases |p.table| - from
  {
    hide ChainsDisjoint, Visits, Walked;
    CheckedExact(p, cursor, from, o);
    if from < |p.table| && !StopsAt(p, cursor, from, o, pace) {
      PaceFrom(p, cursor, o, pace, from + 1);
    }
  }
}
