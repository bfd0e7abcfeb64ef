/**
 The GenericHash object: bucket chains, the two purge calls and the size check,
 each loop as in the source, proved against functions of the table. The lifecycle
 module shows what the same steps keep when threads interleave.
 */
module GenericHash {
  import opened Basics
  import opened HashLifecycle
  import opened HashTables

  const MIN_NUM_VISITED_ENTRIES: nat := 1024
  const PURGE_FRACTION: nat := 60

  /** What `purgeIdle` learns from outside: which entries answer that they are
      ready for the idle transition, which bucket locks are taken, for which entries
      housekeeping ends the protocol detection, and how many uses it takes of an
      entry in the table and of an entry that has just become idle. */
  datatype Oracle = Oracle(force: bool, ready: set<nat>, busy: set<nat>,
                           detected: set<nat>, held: map<nat, nat>, lastHeld: map<nat, nat>)

  function Times(m: map<nat, nat>, e: nat): nat {
    if e in m then m[e] else 0
  }

  /** Whether a visit detaches an entry in state `st`. */
  predicate Leaves(e: nat, st: EntryState, o: Oracle) {
    st != Idle && (o.force || (st == Active && e in o.ready))
  }

  predicate Goes(e: nat, state: seq<EntryState>, o: Oracle) {
    e < |state| && Leaves(e, state[e], o)
  }

  function Leaving(chain: seq<nat>, state: seq<EntryState>, o: Oracle): seq<nat> {
    if chain == [] then []
    else if Goes(chain[0], state, o) then [chain[0]] + Leaving(chain[1..], state, o)
    else Leaving(chain[1..], state, o)
  }

  function Staying(chain: seq<nat>, state: seq<EntryState>, o: Oracle): seq<nat> {
    if chain == [] then []
    else if Goes(chain[0], state, o) then Staying(chain[1..], state, o)
    else [chain[0]] + Staying(chain[1..], state, o)
  }

  /** What a visit does to an entry's state: housekeeping may end the detection, and
      an entry whose protocol is detected then becomes active. */
  function Housekept(e: nat, st: EntryState, o: Oracle): EntryState {
    if (st == Allocated || st == NotYetDetected) && e in o.detected then Active else Settled(st)
  }

  /** The uses a visit takes: housekeeping is left out for an active entry that leaves. */
  function Hold(e: nat, st: EntryState, o: Oracle): nat {
    if st == Idle || (st == Active && Leaves(e, st, o)) then 0 else Times(o.held, e)
  }

  function Touched(state: seq<EntryState>, chain: seq<nat>, o: Oracle): (r: seq<EntryState>)
    ensures |r| == |state|
  {
    if chain == [] then state
    else
      var rest := Touched(state, chain[..|chain| - 1], o);
      var e := chain[|chain| - 1];
      if e < |rest| then rest[e := Housekept(e, rest[e], o)] else rest
  }

  function Held(uses: seq<int>, state: seq<EntryState>, chain: seq<nat>, o: Oracle): (r: seq<int>)
    ensures |r| == |uses|
  {
    if chain == [] then uses
    else
      var rest := Held(uses, state, chain[..|chain| - 1], o);
      var e := chain[|chain| - 1];
      if e < |rest| && e < |state| then rest[e := rest[e] + Hold(e, state[e], o)] else rest
  }

  /** What a scan has changed so far. */
  datatype Pass = Pass(table: seq<seq<nat>>, shadow: seq<nat>, state: seq<EntryState>, uses: seq<int>, checked: nat)

  /** The visit of bucket `b`. */
  function Visit(p: Pass, b: nat, o: Oracle): (r: Pass)
    requires b < |p.table|
    ensures |r.table| == |p.table| && |r.shadow| >= |p.shadow|
  {
    if b in o.busy then p
    else Pass(p.table[b := Staying(p.table[b], p.state, o)],
              p.shadow + Leaving(p.table[b], p.state, o),
              Touched(p.state, p.table[b], o),
              Held(p.uses, p.state, p.table[b], o),
              p.checked + |p.table[b]|)
  }

  /** The first `j` visits. */
  function Visits(p: Pass, cursor: nat, j: nat, o: Oracle): (r: Pass)
    requires |p.table| > 0
    ensures |r.table| == |p.table| && |r.shadow| >= |p.shadow|
  {
    if j == 0 then p
    else Visit(Visits(p, cursor, j - 1, o), Bucket(cursor, j - 1, |p.table|), o)
  }

  /** How a scan is paced. */
  datatype Pace = Pace(fullScan: bool, upper: nat, fraction: nat)

  predicate StopsAt(p: Pass, cursor: nat, j: nat, o: Oracle, pace: Pace)
    requires |p.table| > 0
  {
    var checked := Visits(p, cursor, j, o).checked;
    !pace.fullScan && (checked > pace.upper || (j > pace.fraction && checked > MIN_NUM_VISITED_ENTRIES))
  }

  /** The number of buckets a scan visits. */
  function NumVisited(p: Pass, cursor: nat, o: Oracle, pace: Pace, j: nat): (v: nat)
    requires 0 < |p.table| && j <= |p.table|
    ensures j <= v <= |p.table|
    ensures j < v ==> !StopsAt(p, cursor, j, o, pace)
    decreases |p.table| - j
  {
    if j == |p.table| || StopsAt(p, cursor, j, o, pace) then j
    else NumVisited(p, cursor, o, pace, j + 1)
  }

  /** The fields of the hash that its calls change. */
  datatype Fields = Fields(
    table: seq<seq<nat>>, cursor: nat,
    shadow: Option<seq<nat>>, idle: Option<seq<nat>>, inUse: seq<nat>, deleted: seq<nat>,
    state: seq<EntryState>, uses: seq<int>, numIdle: nat, numPurged: nat)

  function Added(f: Fields, key: nat, initial: EntryState): Fields
    requires |f.table| > 0
  {
    var b := key % |f.table|;
    f.(table := f.table[b := [|f.state|] + f.table[b]], state := f.state + [initial], uses := f.uses + [0])
  }

  /** `hasEmptyRoom`, on the counters. */
  predicate RoomIn(f: Fields, maxSize: nat) {
    var size, waiting := Population(f.table), f.numIdle - f.numPurged;
    if waiting > MIN_NUM_IDLE_ENTRIES_IF && waiting > size then false
    else size + waiting <= maxSize
  }

  /** The pass a call of `purgeIdle` starts with: the shadow vector has been handed
      over if the last one was taken. */
  function FirstPass(f: Fields): Pass {
    Pass(f.table, if f.idle.None? then [] else Vec(f.shadow), f.state, f.uses, 0)
  }

  function PurgedIdle(f: Fields, o: Oracle, pace: Pace, iface: Interface): Fields
    requires |f.table| > 0
  {
    var p := FirstPass(f);
    var v := NumVisited(p, f.cursor, o, pace, 0);
    var r := Visits(p, f.cursor, v, o);
    f.(table := r.table, cursor := (f.cursor + v) % |f.table|,
       idle := if f.idle.None? then f.shadow else f.idle, shadow := Some(r.shadow),
       state := Marked(r.state, r.shadow[|p.shadow|..], iface),
       uses := LastHeld(r.uses, r.shadow[|p.shadow|..], o),
       numIdle := f.numIdle + |r.shadow| - |p.shadow|)
  }

  function PurgedQueued(f: Fields): Fields {
    var queued := Vec(f.idle);
    f.(idle := None,
       deleted := f.deleted + Unused(queued, f.uses) + Unused(f.inUse, f.uses),
       inUse := Used(f.inUse, f.uses) + Used(queued, f.uses),
       numPurged := f.numPurged + |Unused(queued, f.uses)| + |Unused(f.inUse, f.uses)|)
  }

  class GenericHash {
    const numHashes: nat
    const maxHashSize: nat
    const upperNumVisited: nat
    const purgeStep: nat
    var table: seq<seq<nat>>
    var currentSize: nat
    var lastPurgedHash: nat
    var idleEntries: Option<seq<nat>>
    var idleEntriesShadow: Option<seq<nat>>
    var idleEntriesInUse: seq<nat>
    var numIdleTransitions: nat
    var numPurged: nat
    var state: seq<EntryState> // by entry, in the order of `add`
    var uses: seq<int>
    ghost var deleted: seq<nat>

    ghost predicate Valid()
      reads this
    {
      && numHashes > 0 && |table| == numHashes && lastPurgedHash < numHashes
      && |state| == |uses|
      && (idleEntries.Some? ==> idleEntriesShadow.Some?)
      && (forall b | 0 <= b < |table| :: KnownChain(table[b], |state|))
      && KnownChain(Vec(idleEntries), |uses|) && KnownChain(Vec(idleEntriesShadow), |uses|)
      && KnownChain(idleEntriesInUse, |uses|)
      && currentSize == Population(table)
    }

    constructor (numHashes: nat, maxHashSize: nat)
      requires numHashes > 0
      ensures Valid() && table == seq(numHashes, _ => []) && state == [] && deleted == []
      ensures idleEntries == None && idleEntriesShadow == None && idleEntriesInUse == []
      ensures numIdleTransitions == 0 && numPurged == 0
      ensures this.numHashes == numHashes && lastPurgedHash == numHashes - 1
      // 30% more than asked for, computed in floating point and truncated
      ensures this.maxHashSize == maxHashSize * 13 / 10
      // at most 200000 entries, and at most a tenth of the limit, per scan
      ensures upperNumVisited == Min(200000, this.maxHashSize / 10)
      // a scan covers a sixtieth of the buckets, but at least one
      ensures purgeStep == if numHashes < 60 then 1 else numHashes / 60
    {
      this.numHashes := numHashes;
      this.maxHashSize := maxHashSize * 13 / 10;
      upperNumVisited := if maxHashSize * 13 / 10 / 10 < 200000 then maxHashSize * 13 / 10 / 10 else 200000;
      purgeStep := if numHashes / PURGE_FRACTION < 1 then 1 else numHashes / PURGE_FRACTION;
      table := seq(numHashes, _ => []);
      currentSize, lastPurgedHash := 0, numHashes - 1;
      idleEntries, idleEntriesShadow, idleEntriesInUse := None, None, [];
      numIdleTransitions, numPurged := 0, 0;
      state, uses, deleted := [], [], [];
      new;
      EmptyPopulation(table);
    }

    ghost function View(): Fields
      reads this
    {
      Fields(table, lastPurgedHash, idleEntriesShadow, idleEntries, idleEntriesInUse, deleted,
             state, uses, numIdleTransitions, numPurged)
    }

    predicate EmptyRoom()
      reads this
    {
      var waiting := numIdleTransitions - numPurged;
      if waiting > MIN_NUM_IDLE_ENTRIES_IF && waiting > currentSize then false
      else currentSize + waiting <= maxHashSize
    }

    /** Push a new entry at the head of its bucket, if there is room. */
    method AddEntry(key: nat, initial: EntryState) returns (ok: bool)
      requires Valid()
      modifies this`table, this`currentSize, this`state, this`uses
      ensures Valid() && ok == RoomIn(old(View()), maxHashSize)
      ensures if ok then View() == Added(old(View()), key, initial) else unchanged(this)
    {
      ok := EmptyRoom();
      if ok {
        var hash := key % numHashes;
        PopulationUpdate(table, hash, [|state|] + table[hash]);
        table := table[hash := [|state|] + table[hash]];
        state, uses := state + [initial], uses + [0];
        currentSize := currentSize + 1;
      }
    }

    /** The scan as a value. */
    ghost function Scanned(): Pass
      reads this
    {
      Pass(table, Vec(idleEntriesShadow), state, uses, 0)
    }

    /** `purgeIdle` up to the point where all buckets have been released. */
    method ScanBuckets(o: Oracle, pace: Pace) returns (numDetached: nat)
      requires Valid() && idleEntriesShadow.Some?
      modifies this`table, this`currentSize, this`lastPurgedHash, this`idleEntriesShadow, this`state, this`uses
      ensures Valid() && idleEntriesShadow.Some?
      ensures var v := NumVisited(old(Scanned()), old(lastPurgedHash), o, pace, 0);
              && Scanned() == Visits(old(Scanned()), old(lastPurgedHash), v, o).(checked := 0)
              && lastPurgedHash == (old(lastPurgedHash) + v) % numHashes
      ensures numDetached == |Vec(idleEntriesShadow)| - |old(Vec(idleEntriesShadow))|
      ensures currentSize == old(currentSize) - numDetached
    {
      hide Visits;
      hide NumVisited;
      var r, v := Scan(Pass(table, idleEntriesShadow.value, state, uses, 0), lastPurgedHash, o, pace);
      numDetached := |r.shadow| - |idleEntriesShadow.value|;
      lastPurgedHash := (lastPurgedHash + v) % numHashes;
      table, state, uses := r.table, r.state, r.uses;
      idleEntriesShadow := Some(r.shadow);
      currentSize := currentSize - numDetached;
    }

    /** The shadow vector is handed over only when the last one has been taken. */
    method HandOver()
      requires Valid()
      modifies this`idleEntries, this`idleEntriesShadow
      ensures Valid() && idleEntriesShadow == Some(FirstPass(old(View())).shadow)
      ensures idleEntries == if old(idleEntries).None? then old(idleEntriesShadow) else old(idleEntries)
    {
      if idleEntries.None? {
        idleEntries := idleEntriesShadow;
        idleEntriesShadow := Some([]);
      }
    }

    /** `purgeIdle`: hand the shadow vector over if the last one has been taken,
        scan, then mark the entries detached by this call. */
    method PurgeIdle(o: Oracle, fullScan: bool, disabled: bool, iface: Interface) returns (numDetached: nat)
      requires Valid()
      modifies this`table, this`currentSize, this`lastPurgedHash, this`idleEntries, this`idleEntriesShadow,
               this`state, this`uses, this`numIdleTransitions
      ensures Valid()
      ensures disabled ==> unchanged(this) && numDetached == 0
      ensures !disabled ==>
                var pace := Pace(fullScan, upperNumVisited, if !o.force && !fullScan then purgeStep else numHashes);
                && View() == PurgedIdle(old(View()), o, pace, iface)
                && numDetached == numIdleTransitions - old(numIdleTransitions)
                && numDetached == old(currentSize) - currentSize
    {
      hide Visits, NumVisited, Marked, LastHeld, Population;
      if disabled {
        return 0;
      }
      HandOver();
      var oldSize := |idleEntriesShadow.value|;
      numDetached := ScanBuckets(o, Pace(fullScan, upperNumVisited, if !o.force && !fullScan then purgeStep else numHashes));
      MarkDetached(oldSize, iface, o);
    }

    /** The entries detached by this call, the ones after position `oldSize`, become
        idle and are counted. */
    method MarkDetached(oldSize: nat, iface: Interface, o: Oracle)
      requires Valid() && idleEntriesShadow.Some? && oldSize <= |idleEntriesShadow.value|
      modifies this`state, this`uses, this`numIdleTransitions
      ensures Valid()
      ensures var detached := idleEntriesShadow.value[oldSize..];
              && state == Marked(old(state), detached, iface) && uses == LastHeld(old(uses), detached, o)
              && numIdleTransitions == old(numIdleTransitions) + |detached|
    {
      hide Marked, LastHeld;
      var detached := idleEntriesShadow.value[oldSize..];
      var marked, held := MarkAll(state, uses, detached, iface, o);
      state, uses := marked, held;
      numIdleTransitions := numIdleTransitions + |detached|;
    }

    /** `purgeQueuedIdleEntries`: delete what is unused of the queued entries,
        park the rest, then retry the parked ones. */
    method PurgeQueuedIdleEntries() returns (purged: nat)
      requires Valid()
      modifies this`idleEntries, this`idleEntriesInUse, this`numPurged, this`deleted
      ensures Valid() && View() == PurgedQueued(old(View()))
      ensures purged == |deleted| - |old(deleted)| == numPurged - old(numPurged)
    {
      var gone, parked := Sweep(Vec(idleEntries), uses);
      SplitQueued(idleEntriesInUse, Vec(idleEntries), uses);
      UsedKnown(idleEntriesInUse, uses);
      UsedKnown(Vec(idleEntries), uses);
      var late, kept := Sweep(idleEntriesInUse + parked, uses);
      idleEntries, idleEntriesInUse := None, kept;
      deleted := deleted + gone + late;
      purged := |gone| + |late|;
      numPurged := numPurged + purged;
    }
  }

  /** Both loops of `purgeQueuedIdleEntries` walk a vector of idle entries, delete
      those without uses and keep the others: the first moves the others to the
      in-use vector, the second leaves them in it. */
  method Sweep(v: seq<nat>, uses: seq<int>) returns (gone: seq<nat>, kept: seq<nat>)
    requires KnownChain(v, |uses|)
    ensures gone == Unused(v, uses) && kept == Used(v, uses)
  {
    gone, kept := [], [];
    var it := 0;
    assert v[0..] == v;
    while it < |v|
      invariant it <= |v|
      invariant gone + Unused(v[it..], uses) == Unused(v, uses)
      invariant kept + Used(v[it..], uses) == Used(v, uses)
    {
      SplitHead(v, it, uses);
      if uses[v[it]] == 0 {
        gone := gone + [v[it]];
      } else {
        kept := kept + [v[it]];
      }
      it := it + 1;
    }
  }

  /** The states after the listed entries have been told to become idle. */
  function Marked(state: seq<EntryState>, v: seq<nat>, iface: Interface): (r: seq<EntryState>)
    ensures |r| == |state|
    decreases v
  {
    if v == [] then state
    else if v[0] < |state| then Marked(state[v[0] := SetState(state[v[0]], Idle, iface)], v[1..], iface)
    else Marked(state, v[1..], iface)
  }

  /** The uses after the last housekeeping of the listed entries. */
  function LastHeld(uses: seq<int>, v: seq<nat>, o: Oracle): (r: seq<int>)
    ensures |r| == |uses|
    decreases v
  {
    if v == [] then uses
    else if v[0] < |uses| then LastHeld(uses[v[0] := uses[v[0]] + Times(o.lastHeld, v[0])], v[1..], o)
    else LastHeld(uses, v[1..], o)
  }

  /** The last loop of `purgeIdle`. */
  method MarkAll(state: seq<EntryState>, uses: seq<int>, v: seq<nat>, iface: Interface, o: Oracle)
    returns (st: seq<EntryState>, us: seq<int>)
    requires KnownChain(v, |state|) && |uses| == |state|
    ensures st == Marked(state, v, iface) && us == LastHeld(uses, v, o)
  {
    st, us := state, uses;
    var it := 0;
    assert v[0..] == v;
    while it < |v|
      invariant it <= |v| && |st| == |us| == |state|
      invariant Marked(st, v[it..], iface) == Marked(state, v, iface)
      invariant LastHeld(us, v[it..], o) == LastHeld(uses, v, o)
    {
      assert v[it..][1..] == v[it + 1..];
      var e := v[it];
      st := st[e := SetState(st[e], Idle, iface)];
      us := us[e := us[e] + Times(o.lastHeld, e)]; // housekeeping, one last time
      it := it + 1;
    }
  }

  ghost predicate KnownPass(p: Pass) {
    |p.uses| == |p.state| && KnownChain(p.shadow, |p.state|) && forall b | 0 <= b < |p.table| :: KnownChain(p.table[b], |p.state|)
  }

  /** The bucket loop of `purgeIdle`. */
  method Scan(p: Pass, cursor: nat, o: Oracle, pace: Pace) returns (r: Pass, v: nat)
    requires cursor < |p.table| && p.checked == 0 && KnownPass(p)
    ensures v == NumVisited(p, cursor, o, pace, 0) && r == Visits(p, cursor, v, o)
    ensures KnownPass(r) && |r.state| == |p.state| && |r.shadow| >= |p.shadow|
    ensures Population(r.table) + |r.shadow| == Population(p.table) + |p.shadow|
  {
    hide Visit, NumVisited, Visits, KnownPass, Population, Bucket;
    var numHashes, lastPurgedHash, j := |p.table|, cursor, 0;
    r := p;
    FirstVisit(p, cursor, o);
    while j < numHashes && !(!pace.fullScan && (r.checked > pace.upper || (j > pace.fraction && r.checked > MIN_NUM_VISITED_ENTRIES)))
      invariant j <= numHashes == |r.table|
      invariant r == Visits(p, cursor, j, o)
      invariant lastPurgedHash == (cursor + j) % numHashes
      invariant NumVisited(p, cursor, o, pace, 0) == NumVisited(p, cursor, o, pace, j)
      invariant KnownPass(r) && |r.state| == |p.state| && |r.shadow| >= |p.shadow|
      invariant Population(r.table) + |r.shadow| == Population(p.table) + |p.shadow|
    {
      CursorStep(cursor, j, numHashes);
      NextVisit(p, cursor, j, o, pace);
      lastPurgedHash := lastPurgedHash + 1;
      if lastPurgedHash == numHashes {
        lastPurgedHash := 0;
      }
      r := VisitBucket(r, lastPurgedHash, o);
      j := j + 1;
    }
    v := j;
  }

  lemma FirstVisit(p: Pass, cursor: nat, o: Oracle)
    requires cursor < |p.table|
    ensures Visits(p, cursor, 0, o) == p && (cursor + 0) % |p.table| == cursor
  {
  }

  lemma NextVisit(p: Pass, cursor: nat, j: nat, o: Oracle, pace: Pace)
    requires 0 < |p.table| && j < |p.table|
    ensures Visits(p, cursor, j + 1, o) == Visit(Visits(p, cursor, j, o), Bucket(cursor, j, |p.table|), o)
    ensures !StopsAt(p, cursor, j, o, pace) ==> NumVisited(p, cursor, o, pace, j) == NumVisited(p, cursor, o, pace, j + 1)
  {
  }

  method VisitBucket(p: Pass, b: nat, o: Oracle) returns (r: Pass)
    requires b < |p.table| && KnownPass(p)
    ensures r == Visit(p, b, o)
    ensures KnownPass(r) && |r.state| == |p.state| && |r.shadow| >= |p.shadow|
    ensures Population(r.table) + |r.shadow| == Population(p.table) + |p.shadow|
  {
    SplitKnown(p.table[b], p.state, o);
    var stay, leave, st, us := VisitChain(p.table[b], p.state, p.uses, o, b in o.busy);
    PopulationUpdate(p.table, b, stay);
    var checked := if b in o.busy then p.checked else p.checked + |p.table[b]|;
    r := Pass(p.table[b := stay], p.shadow + leave, st, us, checked);
    assert b in o.busy ==> r == p;
  }

  /** The walk of one bucket chain: unlink the entries that leave. */
  method VisitChain(chain: seq<nat>, state: seq<EntryState>, uses: seq<int>, o: Oracle, busy: bool)
    returns (stay: seq<nat>, leave: seq<nat>, st: seq<EntryState>, us: seq<int>)
    requires KnownChain(chain, |state|) && |uses| == |state|
    ensures busy ==> stay == chain && leave == [] && st == state && us == uses
    ensures !busy ==> stay == Staying(chain, state, o) && leave == Leaving(chain, state, o)
    ensures !busy ==> st == Touched(state, chain, o) && us == Held(uses, state, chain, o)
    ensures |stay| + |leave| == |chain|
  {
    hide Leaves, Housekept, Hold, Staying, Leaving, Touched, Held;
    stay, leave, st, us := chain, [], state, uses;
    EmptyChain(state, uses, o);
    if busy {
      return;
    }
    stay := []; // the list is `stay` followed by what has not been walked yet
    var head := 0;
    assert chain[0..] == chain && chain[..0] == [];
    while head < |chain|
      invariant head <= |chain|
      invariant stay + Staying(chain[head..], state, o) == Staying(chain, state, o)
      invariant leave + Leaving(chain[head..], state, o) == Leaving(chain, state, o)
      invariant st == Touched(state, chain[..head], o) && us == Held(uses, state, chain[..head], o)
    {
      var e := chain[head];
      ChainHead(chain, head, state, o);
      TouchNext(state, uses, chain, head, o);
      if Leaves(e, state[e], o) {
        leave := leave + [e];
      } else {
        stay := stay + [e];
      }
      st := st[e := Housekept(e, st[e], o)];
      us := us[e := us[e] + Hold(e, state[e], o)];
      head := head + 1;
    }
    assert chain[..head] == chain && chain[head..] == [];
    SplitLengths(chain, state, o);
  }

  lemma {:induction false} SplitLengths(chain: seq<nat>, state: seq<EntryState>, o: Oracle)
    ensures |Staying(chain, state, o)| + |Leaving(chain, state, o)| == |chain|
  {
    if chain != [] {
      SplitLengths(chain[1..], state, o);
    }
  }

  lemma EmptyChain(state: seq<EntryState>, uses: seq<int>, o: Oracle)
    ensures Staying([], state, o) == [] && Leaving([], state, o) == []
    ensures Touched(state, [], o) == state && Held(uses, state, [], o) == uses
  {
  }

  lemma ChainHead(chain: seq<nat>, i: nat, state: seq<EntryState>, o: Oracle)
    requires i < |chain| && chain[i] < |state|
    ensures var rest := chain[i + 1..];
            if Leaves(chain[i], state[chain[i]], o)
            then Leaving(chain[i..], state, o) == [chain[i]] + Leaving(rest, state, o)
                 && Staying(chain[i..], state, o) == Staying(rest, state, o)
            else Leaving(chain[i..], state, o) == Leaving(rest, state, o)
                 && Staying(chain[i..], state, o) == [chain[i]] + Staying(rest, state, o)
  {
    assert chain[i..][1..] == chain[i + 1..];
  }

  lemma TouchNext(state: seq<EntryState>, uses: seq<int>, chain: seq<nat>, i: nat, o: Oracle)
    requires i < |chain| && chain[i] < |state| == |uses|
    ensures var st, e := Touched(state, chain[..i], o), chain[i];
            Touched(state, chain[..i + 1], o) == st[e := Housekept(e, st[e], o)]
    ensures var us, e := Held(uses, state, chain[..i], o), chain[i];
            Held(uses, state, chain[..i + 1], o) == us[e := us[e] + Hold(e, state[e], o)]
  {
    assert chain[..i + 1][..i] == chain[..i];
  }

  lemma {:induction false} SplitKnown(chain: seq<nat>, state: seq<EntryState>, o: Oracle)
    requires KnownChain(chain, |state|)
    ensures KnownChain(Staying(chain, state, o), |state|) && KnownChain(Leaving(chain, state, o), |state|)
  {
    if chain != [] {
      SplitKnown(chain[1..], state, o);
    }
  }

  // ----- what a scan does to each bucket -----

  lemma {:induction false} TouchedElsewhere(state: seq<EntryState>, chain: seq<nat>, e: nat, o: Oracle)
    requires e < |state| && e !in chain
    ensures Touched(state, chain, o)[e] == state[e]
  {
    if chain != [] {
      TouchedElsewhere(state, chain[..|chain| - 1], e, o);
    }
  }

  lemma {:induction false} SplitDependsOnChain(chain: seq<nat>, s: seq<EntryState>, t: seq<EntryState>, o: Oracle)
    requires |s| == |t| && forall e | e in chain && e < |s| :: s[e] == t[e]
    ensures Staying(chain, s, o) == Staying(chain, t, o) && Leaving(chain, s, o) == Leaving(chain, t, o)
  {
    if chain != [] {
      SplitDependsOnChain(chain[1..], s, t, o);
    }
  }

  /** After `j` visits, a bucket whose turn has come and whose lock was free holds
      exactly its staying entries; any other is untouched, with its states. */
  lemma {:induction false} BucketAfterVisits(p: Pass, cursor: nat, j: nat, o: Oracle, b: nat)
    requires cursor < |p.table| && b < |p.table| && j <= |p.table| && ChainsDisjoint(p.table)
    ensures var r := Visits(p, cursor, j, o);
            && |r.state| == |p.state|
            && r.table[b] == (if Offset(cursor, b, |p.table|) < j && b !in o.busy
                              then Staying(p.table[b], p.state, o) else p.table[b])
            && (Offset(cursor, b, |p.table|) >= j ==> forall e | e in p.table[b] && e < |p.state| :: r.state[e] == p.state[e])
  {
    hide Staying;
    hide Touched;
    hide Bucket;
    hide Offset;
    if j > 0 {
      BucketAfterVisits(p, cursor, j - 1, o, b);
      var c := Bucket(cursor, j - 1, |p.table|);
      OffsetExact(cursor, b, j - 1, |p.table|);
      OffsetExact(cursor, c, j - 1, |p.table|);
      var r := Visits(p, cursor, j - 1, o);
      if c == b {
        SplitDependsOnChain(p.table[b], r.state, p.state, o);
      } else {
        BucketAfterVisits(p, cursor, j - 1, o, c);
        OtherBucket(p, r, c, b, o);
      }
    }
  }

  lemma OtherBucket(p: Pass, r: Pass, c: nat, b: nat, o: Oracle)
    requires c < |p.table| == |r.table| && b < |p.table| && c != b && ChainsDisjoint(p.table)
    requires |r.state| == |p.state| && r.table[c] == p.table[c]
    ensures var r' := Visit(r, c, o);
            && r'.table[b] == r.table[b] && |r'.state| == |r.state|
            && forall e | e in p.table[b] && e < |p.state| :: r'.state[e] == r.state[e]
  {
    forall e | e in p.table[b] && e < |p.state| ensures Visit(r, c, o).state[e] == r.state[e] {
      assert e !in p.table[c];
      TouchedElsewhere(r.state, p.table[c], e, o);
    }
  }

  /** Who leaves a chain: every entry that is not idle if the purge is forced, and
      otherwise the active ones that are ready. */
  lemma {:induction false} StayingExact(chain: seq<nat>, state: seq<EntryState>, o: Oracle, e: nat)
    ensures e in Leaving(chain, state, o) <==>
              e in chain && e < |state| && state[e] != Idle && (o.force || (state[e] == Active && e in o.ready))
    ensures e in Staying(chain, state, o) <==> e in chain && e !in Leaving(chain, state, o)
  {
    if chain != [] {
      StayingExact(chain[1..], state, o, e);
    }
  }

  /** Among the entries of a bucket that is visited while its lock is free, exactly
      those leave that a forced purge finds not idle, or any purge finds active and
      ready; the rest of the bucket stays. */
  lemma VisitedBucketExact(p: Pass, cursor: nat, j: nat, o: Oracle, b: nat, e: nat)
    requires cursor < |p.table| && b < |p.table| && j <= |p.table| && ChainsDisjoint(p.table)
    requires Offset(cursor, b, |p.table|) < j && b !in o.busy && e in p.table[b] && e < |p.state|
    ensures e !in Visits(p, cursor, j, o).table[b] <==>
              p.state[e] != Idle && (o.force || (p.state[e] == Active && e in o.ready))
  {
    BucketAfterVisits(p, cursor, j, o, b);
    StayingExact(p.table[b], p.state, o, e);
  }

  /** A full scan with every lock free leaves in the table exactly the idle entries
      and, unless it is forced, those that are not both active and ready, whatever
      bucket the cursor starts from. */
  lemma FullScanExact(p: Pass, cursor: nat, o: Oracle, pace: Pace, b: nat, e: nat)
    requires cursor < |p.table| && b < |p.table| && ChainsDisjoint(p.table)
    requires pace.fullScan && o.busy == {} && e < |p.state|
    ensures var r := Visits(p, cursor, NumVisited(p, cursor, o, pace, 0), o);
            e in r.table[b] <==>
              e in p.table[b] && (p.state[e] == Idle || (!o.force && (p.state[e] != Active || e !in o.ready)))
  {
    FullScanVisitsAll(p, cursor, o, pace, 0);
    BucketAfterVisits(p, cursor, |p.table|, o, b);
    StayingExact(p.table[b], p.state, o, e);
  }

  lemma {:induction false} FullScanVisitsAll(p: Pass, cursor: nat, o: Oracle, pace: Pace, j: nat)
    requires 0 < |p.table| && j <= |p.table| && pace.fullScan
    ensures NumVisited(p, cursor, o, pace, j) == |p.table|
    decreases |p.table| - j
  {
    if j < |p.table| {
      FullScanVisitsAll(p, cursor, o, pace, j + 1);
    }
  }

  /** Every scan visits at least one bucket. */
  lemma ScanProgress(p: Pass, cursor: nat, o: Oracle, pace: Pace)
    requires 0 < |p.table| && p.checked == 0
    ensures NumVisited(p, cursor, o, pace, 0) >= 1
  {
    assert !StopsAt(p, cursor, 0, o, pace);
  }

}
