/**
 The calls of the GenericHash object are runs of the lifecycle state machine: each
 call, alone on its thread, is a sequence of the machine's steps, so what every
 step keeps holds of the object after every call.
 */
module HashRefinement {
  import opened Basics
  import opened HashLifecycle
  import opened GenericHash
  import opened HashTables

  /** The state after the actions, if each is possible in its turn. */
  function After(s: Hash, acts: seq<Action>): Option<Hash>
    decreases |acts|
  {
    if acts == [] then Some(s)
    else if Enabled(s, acts[0]) then After(Next(s, acts[0]), acts[1..])
    else None
  }

  ghost predicate Leads(s: Hash, acts: seq<Action>, t: Hash) {
    After(s, acts) == Some(t)
  }

  lemma Step(s: Hash, a: Action)
    requires Enabled(s, a)
    ensures Leads(s, [a], Next(s, a))
  {
    hide Enabled, Next;
    assert [a][1..] == [];
    assert After(Next(s, a), []) == Some(Next(s, a));
  }

  lemma {:induction false} Then(s: Hash, a: seq<Action>, t: Hash, b: seq<Action>, u: Hash)
    requires Leads(s, a, t) && Leads(t, b, u)
    ensures Leads(s, a + b, u)
    decreases |a|
  {
    hide Enabled, Next;
    if a == [] {
      assert a + b == b;
    } else {
      Then(Next(s, a[0]), a[1..], t, b, u);
      assert (a + b)[0] == a[0] && (a + b)[1..] == a[1..] + b;
    }
  }

  lemma {:induction false} LeadsKeepsInv(s: Hash, acts: seq<Action>, t: Hash)
    requires Inv(s) && Leads(s, acts, t)
    ensures Inv(t)
    decreases |acts|
  {
    hide Enabled, Next, Inv;
    if acts != [] {
      KeepsInv(s, acts[0]);
      LeadsKeepsInv(Next(s, acts[0]), acts[1..], t);
    }
  }

  // ----- the object and the state machine -----

  /** The object between calls as a state of the machine. */
  function Abs(f: Fields, iface: Interface, maxSize: nat, early: set<nat>, refused: set<nat>): Hash {
    Hash(Entries(f.table), f.shadow, f.idle, f.inUse, f.deleted, f.state, f.uses, f.numIdle, f.numPurged, maxSize,
         Ready, Resting, iface, early, refused)
  }

  ghost predicate Matches(f: Fields, s: Hash) {
    Distinct(f.table) && s == Abs(f, s.iface, s.maxSize, s.early, s.refused)
  }

  /** Every entry mentioned anywhere has been added. */
  lemma AllKnown(s: Hash)
    requires Inv(s)
    ensures |s.state| == |s.uses|
    ensures KnownChain(Vec(s.shadow), |s.state|) && KnownChain(Vec(s.idle), |s.state|) && KnownChain(s.inUse, |s.state|)
    ensures forall e | e in s.table :: Known(s, e) && s.state[e] != Idle
  {
    hide Shaped, Counted, Bounded, UseOk;
    SizesAgree(s);
    forall e: nat ensures e in s.table || e in Vec(s.shadow) || e in Vec(s.idle) || e in s.inUse ==> e < |s.state|
      ensures e in s.table && e < |s.state| ==> s.state[e] != Idle
    {
      assert EntryOk(s, e);
    }
    MembersKnown(Vec(s.shadow), |s.state|);
    MembersKnown(Vec(s.idle), |s.state|);
    MembersKnown(s.inUse, |s.state|);
  }

  lemma SizesAgree(s: Hash)
    requires Inv(s)
    ensures |s.state| == |s.uses|
    ensures s.inline.Scanning? || s.inline.Marking? ==> s.shadow.Some?
    ensures s.inline.Ready? && s.idle.Some? ==> s.shadow.Some?
  {
    hide EntryOk, Counted, Bounded;
  }

  // ----- purgeQueuedIdleEntries -----

  /** One entry of the queued vector. */
  lemma SweepOne(s: Hash, cur: seq<nat>, i: nat) returns (acts: seq<Action>)
    requires s.offline == Sweeping(cur, i) && i < |cur| && Known(s, cur[i])
    ensures Leads(s, acts, Swept(s, cur, [cur[i]]).(offline := Sweeping(cur, i + 1)))
  {
    hide Leads;
    var e := cur[i];
    assert s.deleted + [] == s.deleted && s.inUse + [] == s.inUse;
    Step(s, Check);
    var s1 := Next(s, Check);
    assert [e][1..] == [];
    if s.uses[e] == 0 {
      Step(s1, Delete);
      var s2 := Next(s1, Delete);
      Step(s2, CountPurged);
      Then(s, [Check], s1, [Delete], s2);
      Then(s, [Check] + [Delete], s2, [CountPurged], Next(s2, CountPurged));
      acts := [Check] + [Delete] + [CountPurged];
      assert Unused([e], s.uses) == [e] && Used([e], s.uses) == [];
    } else {
      acts := [Check];
      assert Unused([e], s.uses) == [] && Used([e], s.uses) == [e];
    }
  }

  /** The state after the entries `v` of the queued vector have been dealt with. */
  function Swept(s: Hash, cur: seq<nat>, v: seq<nat>): Hash {
    s.(deleted := s.deleted + Unused(v, s.uses), inUse := s.inUse + Used(v, s.uses),
       numPurged := s.numPurged + |Unused(v, s.uses)|, offline := Sweeping(cur, |cur|))
  }

  lemma {:induction false} SweepAll(s: Hash, cur: seq<nat>, i: nat) returns (acts: seq<Action>)
    requires s.offline == Sweeping(cur, i) && i <= |cur| && KnownChain(cur, |s.uses|) && |s.state| == |s.uses|
    ensures Leads(s, acts, Swept(s, cur, cur[i..]))
    decreases |cur| - i
  {
    hide Leads;
    if i == |cur| {
      acts := [];
      Stay(s);
      assert Swept(s, cur, cur[i..]) == s;
    } else {
      var first := SweepOne(s, cur, i);
      var t := Swept(s, cur, [cur[i]]).(offline := Sweeping(cur, i + 1));
      var rest := SweepAll(t, cur, i + 1);
      SweptTwice(s, cur, i);
      acts := first + rest;
      Then(s, first, t, rest, Swept(t, cur, cur[i + 1..]));
    }
  }

  lemma Stay(s: Hash)
    ensures Leads(s, [], s)
  {
  }

  lemma SweptTwice(s: Hash, cur: seq<nat>, i: nat)
    requires i < |cur|
    ensures Swept(Swept(s, cur, [cur[i]]).(offline := Sweeping(cur, i + 1)), cur, cur[i + 1..]) == Swept(s, cur, cur[i..])
  {
    hide Unused, Used;
    var a, b := [cur[i]], cur[i + 1..];
    assert cur[i..] == a + b;
    ConcatUnused(a, b, s.uses);
    ConcatUsed(a, b, s.uses);
    Associate(s.deleted, Unused(a, s.uses), Unused(b, s.uses));
    Associate(s.inUse, Used(a, s.uses), Used(b, s.uses));
  }

  lemma Associate(a: seq<nat>, b: seq<nat>, c: seq<nat>)
    ensures a + (b + c) == a + b + c
  {
  }

  /** The state after the in-use vector has been walked from position `j`. */
  function Retried(s: Hash, j: nat): Hash
    requires j <= |s.inUse|
  {
    var v := s.inUse[j..];
    s.(deleted := s.deleted + Unused(v, s.uses), inUse := s.inUse[..j] + Used(v, s.uses),
       numPurged := s.numPurged + |Unused(v, s.uses)|, offline := InUse(j + |Used(v, s.uses)|))
  }

  /** An entry of the in-use vector that is no longer used. */
  lemma RetryDelete(s: Hash, j: nat) returns (acts: seq<Action>)
    requires s.offline == InUse(j) && j < |s.inUse| && Known(s, s.inUse[j]) && s.uses[s.inUse[j]] == 0
    ensures Leads(s, acts, s.(deleted := s.deleted + [s.inUse[j]], inUse := s.inUse[..j] + s.inUse[j + 1..],
                              numPurged := s.numPurged + 1))
  {
    hide Leads;
    Step(s, CheckInUse);
    var s1 := Next(s, CheckInUse);
    Step(s1, DeleteInUse);
    var s2 := Next(s1, DeleteInUse);
    Step(s2, CountInUse);
    Then(s, [CheckInUse], s1, [DeleteInUse], s2);
    Then(s, [CheckInUse] + [DeleteInUse], s2, [CountInUse], Next(s2, CountInUse));
    acts := [CheckInUse] + [DeleteInUse] + [CountInUse];
  }

  lemma RetryKeep(s: Hash, j: nat)
    requires s.offline == InUse(j) && j < |s.inUse| && Known(s, s.inUse[j]) && s.uses[s.inUse[j]] != 0
    ensures Leads(s, [CheckInUse], s.(offline := InUse(j + 1)))
  {
    Step(s, CheckInUse);
  }

  lemma {:induction false} RetryAll(s: Hash, j: nat) returns (acts: seq<Action>)
    requires s.offline == InUse(j) && j <= |s.inUse| && KnownChain(s.inUse, |s.uses|) && |s.state| == |s.uses|
    ensures Leads(s, acts, Retried(s, j))
    decreases |s.inUse| - j
  {
    if j == |s.inUse| {
      hide Leads;
      acts := [];
      Stay(s);
      assert s.inUse[..j] + [] == s.inUse && s.deleted + [] == s.deleted;
      assert Retried(s, j) == s;
    } else {
      hide Leads, Retried;
      var e := s.inUse[j];
      if s.uses[e] == 0 {
        var first := RetryDelete(s, j);
        var t := s.(deleted := s.deleted + [e], inUse := s.inUse[..j] + s.inUse[j + 1..], numPurged := s.numPurged + 1);
        var rest := RetryAll(t, j);
        RetriedDeleted(s, t, j);
        Then(s, first, t, rest, Retried(t, j));
        acts := first + rest;
      } else {
        RetryKeep(s, j);
        var t := s.(offline := InUse(j + 1));
        var rest := RetryAll(t, j + 1);
        RetriedKept(s, t, j);
        Then(s, [CheckInUse], t, rest, Retried(t, j + 1));
        acts := [CheckInUse] + rest;
      }
    }
  }

  lemma RetriedDeleted(s: Hash, s3: Hash, j: nat)
    requires s.offline == InUse(j) && j < |s.inUse| && IsUnused(s.inUse[j], s.uses)
    requires s3 == s.(deleted := s.deleted + [s.inUse[j]], inUse := s.inUse[..j] + s.inUse[j + 1..],
                      numPurged := s.numPurged + 1)
    ensures Retried(s3, j) == Retried(s, j)
  {
    SplitHead(s.inUse, j, s.uses);
    assert s3.inUse[j..] == s.inUse[j + 1..] && s3.inUse[..j] == s.inUse[..j];
    hide Unused, Used;
  }

  lemma RetriedKept(s: Hash, s1: Hash, j: nat)
    requires s.offline == InUse(j) && j < |s.inUse| && !IsUnused(s.inUse[j], s.uses)
    requires s1 == s.(offline := InUse(j + 1))
    ensures Retried(s1, j + 1) == Retried(s, j)
  {
    SplitHead(s.inUse, j, s.uses);
    assert s.inUse[..j + 1] == s.inUse[..j] + [s.inUse[j]];
    hide Unused, Used;
  }

  /** A call of `purgeQueuedIdleEntries` is a run of the purging thread. */
  lemma PurgeQueuedRefines(f: Fields, s: Hash) returns (acts: seq<Action>, t: Hash)
    requires Matches(f, s) && Inv(s)
    ensures Leads(s, acts, t) && Matches(PurgedQueued(f), t)
    ensures t.iface == s.iface && t.maxSize == s.maxSize
  {
    AllKnown(s);
    hide Leads, Inv, Entries, Distinct, Unused, Used;
    SplitQueued(f.inUse, Vec(f.idle), f.uses);
    var sweep, s1 := StartQueued(s);
    var retry, s2 := FinishQueued(s1);
    Then(s, sweep, s1, retry, s2);
    acts, t := sweep + retry, s2;
  }

  lemma StartQueued(s: Hash) returns (acts: seq<Action>, t: Hash)
    requires s.offline == Resting && KnownChain(Vec(s.idle), |s.uses|) && |s.state| == |s.uses|
    ensures Leads(s, acts, t)
    ensures var queued := Vec(s.idle);
            t == s.(idle := None, deleted := s.deleted + Unused(queued, s.uses), inUse := s.inUse + Used(queued, s.uses),
                    numPurged := s.numPurged + |Unused(queued, s.uses)|, offline := InUse(0))
  {
    hide Leads, Unused, Used;
    Step(s, Load);
    acts, t := [Load], Next(s, Load);
    if s.idle.None? {
      NothingQueued(s.uses);
    } else {
      var queued := s.idle.value;
      Step(t, Clear);
      var s1 := Next(t, Clear);
      Then(s, acts, t, [Clear], s1);
      var sweep := SweepAll(s1, queued, 0);
      assert queued[0..] == queued;
      var s2 := Swept(s1, queued, queued);
      Then(s, acts + [Clear], s1, sweep, s2);
      Step(s2, EndSweep);
      t := Next(s2, EndSweep);
      Then(s, acts + [Clear] + sweep, s2, [EndSweep], t);
      acts := acts + [Clear] + sweep + [EndSweep];
    }
  }

  lemma FinishQueued(s: Hash) returns (acts: seq<Action>, t: Hash)
    requires s.offline == InUse(0) && KnownChain(s.inUse, |s.uses|) && |s.state| == |s.uses|
    ensures Leads(s, acts, t)
    ensures t == s.(deleted := s.deleted + Unused(s.inUse, s.uses), inUse := Used(s.inUse, s.uses),
                    numPurged := s.numPurged + |Unused(s.inUse, s.uses)|, offline := Resting)
  {
    hide Leads, Unused, Used;
    var retry := RetryAll(s, 0);
    var s1 := Retried(s, 0);
    assert s.inUse[0..] == s.inUse && s.inUse[..0] == [];
    Step(s1, EndInUse);
    t := Next(s1, EndInUse);
    Then(s, retry, s1, [EndInUse], t);
    acts := retry + [EndInUse];
  }

  // ----- add -----

  lemma AddRefines(f: Fields, s: Hash, key: nat, initial: EntryState)
    requires Matches(f, s) && Inv(s) && |f.table| > 0 && initial != Idle && HasEmptyRoom(s)
    ensures Leads(s, [AddEntry(initial)], Next(s, AddEntry(initial)))
    ensures Matches(Added(f, key, initial), Next(s, AddEntry(initial)))
  {
    hide Leads, Inv;
    Step(s, AddEntry(initial));
    NextEntryIsNew(s);
    var b, e := key % |f.table|, |f.state|;
    var table := f.table[b := [e] + f.table[b]];
    AddedEntries(f.table, b, e);
  }

  // ----- purgeIdle -----

  /** Housekeeping takes `n` uses of an entry in the table. */
  lemma {:induction false} TakeUses(s: Hash, e: nat, n: nat) returns (acts: seq<Action>)
    requires e in s.table && Known(s, e) && s.state[e] != Idle
    ensures Leads(s, acts, s.(uses := s.uses[e := s.uses[e] + n]))
    decreases n
  {
    hide Leads;
    if n == 0 {
      acts := [];
      Stay(s);
      assert s.uses[e := s.uses[e]] == s.uses;
    } else {
      Step(s, IncUses(e));
      var t := Next(s, IncUses(e));
      var rest := TakeUses(t, e, n - 1);
      acts := [IncUses(e)] + rest;
      assert t.uses[e := t.uses[e] + (n - 1)] == s.uses[e := s.uses[e] + n];
      Then(s, [IncUses(e)], t, rest, s.(uses := s.uses[e := s.uses[e] + n]));
    }
  }

  /** Housekeeping may end the protocol detection. */
  lemma Detect(s: Hash, e: nat, o: Oracle) returns (acts: seq<Action>, t: Hash)
    requires e in s.table && Known(s, e) && s.state[e] != Idle
    ensures Leads(s, acts, t)
    ensures var st := s.state[e];
            var detected := if (st == Allocated || st == NotYetDetected) && e in o.detected then ProtocolDetected else st;
            t == s.(state := s.state[e := detected])
  {
    var st := s.state[e];
    if (st == Allocated || st == NotYetDetected) && e in o.detected {
      Step(s, Promote(e, ProtocolDetected));
      acts, t := [Promote(e, ProtocolDetected)], Next(s, Promote(e, ProtocolDetected));
    } else {
      Stay(s);
      acts, t := [], s;
      assert s.state[e := st] == s.state;
    }
  }

  /** The scan then detaches the entry, makes it active, or leaves it. */
  lemma Decide(s: Hash, e: nat, goes: bool) returns (acts: seq<Action>, t: Hash)
    requires s.inline.Scanning? && s.shadow.Some? && e in s.table && Known(s, e) && s.state[e] != Idle
    requires goes ==> s.inline.force || s.state[e] == Active
    ensures Leads(s, acts, t)
    ensures t == s.(table := if goes then s.table - {e} else s.table,
                    shadow := if goes then Some(s.shadow.value + [e]) else s.shadow,
                    state := s.state[e := Settled(s.state[e])], early := t.early)
  {
    if goes {
      Step(s, Detach(e));
      acts, t := [Detach(e)], Next(s, Detach(e));
    } else if s.state[e] == ProtocolDetected {
      Step(s, Promote(e, Active));
      acts, t := [Promote(e, Active)], Next(s, Promote(e, Active));
    } else {
      Stay(s);
      acts, t := [], s;
      assert s.state[e := s.state[e]] == s.state;
    }
  }

  /** The state after a visit of entry `e`. */
  function Visited(s: Hash, e: nat, o: Oracle, early: set<nat>): Hash
    requires s.shadow.Some? && Known(s, e)
  {
    s.(table := if Goes(e, s.state, o) then s.table - {e} else s.table,
       shadow := if Goes(e, s.state, o) then Some(s.shadow.value + [e]) else s.shadow,
       state := s.state[e := Housekept(e, s.state[e], o)],
       uses := s.uses[e := s.uses[e] + Hold(e, s.state[e], o)], early := early)
  }

  /** The state after a visit of a whole chain. */
  function ChainVisited(s: Hash, chain: seq<nat>, o: Oracle, early: set<nat>): Hash
    requires s.shadow.Some?
  {
    s.(table := s.table - Elements(Leaving(chain, s.state, o)),
       shadow := Some(s.shadow.value + Leaving(chain, s.state, o)),
       state := Touched(s.state, chain, o), uses := Held(s.uses, s.state, chain, o), early := early)
  }

  /** The entries a scan can meet. */
  ghost predicate Scannable(s: Hash, chain: seq<nat>) {
    forall e | e in chain :: e in s.table && Known(s, e) && s.state[e] != Idle
  }

  /** One entry met by the scan. */
  lemma VisitOne(s: Hash, e: nat, o: Oracle) returns (acts: seq<Action>, t: Hash)
    requires s.inline.Scanning? && s.inline.force == o.force && s.shadow.Some?
    requires e in s.table && Known(s, e) && s.state[e] != Idle
    ensures Leads(s, acts, t) && t == Visited(s, e, o, t.early)
  {
    hide Leads, Hold;
    var n, goes := Hold(e, s.state[e], o), Goes(e, s.state, o);
    var take := TakeUses(s, e, n);
    var s1 := s.(uses := s.uses[e := s.uses[e] + n]);
    var detect, s2 := Detect(s1, e, o);
    var decide, s3 := Decide(s2, e, goes);
    Then(s, take, s1, detect, s2);
    Then(s, take + detect, s2, decide, s3);
    acts, t := take + detect + decide, s3;
    assert s3.state == s.state[e := Housekept(e, s.state[e], o)];
  }

  lemma {:induction false} TouchedFront(state: seq<EntryState>, chain: seq<nat>, o: Oracle)
    requires chain != [] && chain[0] < |state|
    ensures Touched(state, chain, o) == Touched(state[chain[0] := Housekept(chain[0], state[chain[0]], o)], chain[1..], o)
  {
    hide Housekept;
    if |chain| == 1 {
      assert chain[..0] == [] && chain[1..] == [];
      assert Touched(state, [], o) == state;
    } else {
      var front := chain[..|chain| - 1];
      TouchedFront(state, front, o);
      assert chain[1..][..|chain| - 2] == front[1..] && chain[1..][|chain| - 2] == chain[|chain| - 1];
    }
  }

  lemma {:induction false} HeldFront(uses: seq<int>, state: seq<EntryState>, next: seq<EntryState>, chain: seq<nat>, o: Oracle)
    requires chain != [] && chain[0] < |uses| == |state| == |next|
    requires forall e | e in chain[1..] && e < |state| :: next[e] == state[e]
    ensures var e := chain[0];
            Held(uses, state, chain, o) == Held(uses[e := uses[e] + Hold(e, state[e], o)], next, chain[1..], o)
  {
    hide Hold;
    if |chain| == 1 {
      assert chain[..0] == [] && chain[1..] == [];
      assert Held(uses, state, [], o) == uses;
    } else {
      var front, last := chain[..|chain| - 1], chain[|chain| - 1];
      assert chain[1..][..|chain| - 2] == front[1..] && chain[1..][|chain| - 2] == last && last in chain[1..];
      forall e | e in front[1..] ensures e in chain[1..] {
      }
      HeldFront(uses, state, next, front, o);
    }
  }

  /** The scan of one chain. */
  lemma {:induction false} ChainRefines(s: Hash, chain: seq<nat>, o: Oracle) returns (acts: seq<Action>, t: Hash)
    requires s.inline.Scanning? && s.inline.force == o.force && s.shadow.Some? && |s.state| == |s.uses|
    requires NoRepeat(chain) && Scannable(s, chain)
    ensures Leads(s, acts, t) && t == ChainVisited(s, chain, o, t.early)
    decreases |chain|
  {
    hide Leads;
    if chain == [] {
      Stay(s);
      acts, t := [], s;
      assert s.shadow.value + [] == s.shadow.value;
    } else {
      hide Visited, ChainVisited, NoRepeat;
      var first, s1 := VisitOne(s, chain[0], o);
      RestScannable(s, chain, o, s1.early);
      var more, s2 := ChainRefines(s1, chain[1..], o);
      Then(s, first, s1, more, s2);
      acts, t := first + more, s2;
      VisitedThenRest(s, chain, o, s1.early, s2.early);
    }
  }

  lemma RestScannable(s: Hash, chain: seq<nat>, o: Oracle, early: set<nat>)
    requires chain != [] && s.shadow.Some? && NoRepeat(chain) && Scannable(s, chain)
    ensures var s1 := Visited(s, chain[0], o, early);
            && s1.inline == s.inline && s1.shadow.Some? && |s1.state| == |s.state| && |s1.uses| == |s.uses|
            && NoRepeat(chain[1..]) && Scannable(s1, chain[1..])
            && forall e | e in chain[1..] :: s1.state[e] == s.state[e]
  {
    hide Goes, Housekept, Hold;
    forall x | x in chain[1..] ensures x != chain[0] && x in chain {
    }
  }

  /** Visiting the first entry and then the others is visiting the chain. */
  lemma VisitedThenRest(s: Hash, chain: seq<nat>, o: Oracle, early1: set<nat>, early2: set<nat>)
    requires chain != [] && s.shadow.Some? && |s.state| == |s.uses| && NoRepeat(chain) && Scannable(s, chain)
    ensures var s1 := Visited(s, chain[0], o, early1);
            s1.shadow.Some? && ChainVisited(s1, chain[1..], o, early2) == ChainVisited(s, chain, o, early2)
  {
    var s1 := Visited(s, chain[0], o, early1);
    RestScannable(s, chain, o, early1);
    TouchedFront(s.state, chain, o);
    HeldFront(s.uses, s.state, s1.state, chain, o);
    SplitDependsOnChain(chain[1..], s1.state, s.state, o);
    hide Touched, Held, Housekept, Hold, Scannable, NoRepeat;
    ChainResult(s, s1, chain, o);
    hide Leaving, Goes;
  }

  lemma ChainResult(s: Hash, s1: Hash, chain: seq<nat>, o: Oracle)
    requires chain != [] && s.shadow.Some? && s1.shadow.Some?
    requires var e := chain[0];
             && s1.table == (if Goes(e, s.state, o) then s.table - {e} else s.table)
             && s1.shadow == (if Goes(e, s.state, o) then Some(s.shadow.value + [e]) else s.shadow)
    requires Leaving(chain[1..], s1.state, o) == Leaving(chain[1..], s.state, o)
    ensures s1.table - Elements(Leaving(chain[1..], s1.state, o)) == s.table - Elements(Leaving(chain, s.state, o))
    ensures s1.shadow.value + Leaving(chain[1..], s1.state, o) == s.shadow.value + Leaving(chain, s.state, o)
  {
    hide Goes;
  }

  lemma {:induction false} SplitNoRepeat(chain: seq<nat>, state: seq<EntryState>, o: Oracle)
    requires NoRepeat(chain)
    ensures NoRepeat(Staying(chain, state, o))
  {
    hide Goes;
    if chain != [] {
      SplitNoRepeat(chain[1..], state, o);
      forall x | x in Staying(chain[1..], state, o) ensures x != chain[0] {
        StayingExact(chain[1..], state, o, x);
      }
      ConsNoRepeat(chain[0], Staying(chain[1..], state, o));
    }
  }

  lemma VisitedEntries(table: seq<seq<nat>>, b: nat, state: seq<EntryState>, o: Oracle)
    requires b < |table| && Distinct(table)
    ensures var t := table[b := Staying(table[b], state, o)];
            Entries(t) == Entries(table) - Elements(Leaving(table[b], state, o)) && Distinct(t)
  {
    hide Staying, Leaving, Goes;
    var t := table[b := Staying(table[b], state, o)];
    SplitNoRepeat(table[b], state, o);
    forall x: nat ensures x in t[b] ==> x in table[b] {
      StayingExact(table[b], state, o, x);
    }
    forall x: nat ensures x in Entries(t) <==> x in Entries(table) - Elements(Leaving(table[b], state, o)) {
      StayingExact(table[b], state, o, x);
      VisitedEntry(table, b, t, x);
    }
  }

  /** The bucket loop. */
  lemma {:induction false} VisitsRefine(s: Hash, p: Pass, cursor: nat, j: nat, o: Oracle) returns (acts: seq<Action>, t: Hash)
    requires |p.table| > 0 && Inv(s) && s.inline.Scanning? && s.inline.force == o.force
    requires s.table == Entries(p.table) && Distinct(p.table) && s.shadow == Some(p.shadow)
    requires s.state == p.state && s.uses == p.uses
    ensures Leads(s, acts, t) && Inv(t)
    ensures var r := Visits(p, cursor, j, o);
            && Distinct(r.table)
            && t == s.(table := Entries(r.table), shadow := Some(r.shadow), state := r.state, uses := r.uses, early := t.early)
    decreases j
  {
    hide Leads, Inv, Entries, Staying, Leaving, Touched, Held, Distinct;
    if j == 0 {
      Stay(s);
      acts, t := [], s;
    } else {
      var before, s1 := VisitsRefine(s, p, cursor, j - 1, o);
      var r, b := Visits(p, cursor, j - 1, o), Bucket(cursor, j - 1, |p.table|);
      acts, t := before, s1;
      if b !in o.busy {
        AllKnown(s1);
        ChainInTable(s1, r.table, b);
        var visit, s2 := ChainRefines(s1, r.table[b], o);
        VisitedEntries(r.table, b, r.state, o);
        Then(s, before, s1, visit, s2);
        LeadsKeepsInv(s1, visit, s2);
        acts, t := before + visit, s2;
      }
    }
  }

  lemma ChainInTable(s: Hash, table: seq<seq<nat>>, b: nat)
    requires b < |table| && s.table == Entries(table) && Distinct(table)
    ensures NoRepeat(table[b]) && forall e | e in table[b] :: e in s.table
  {
  }

  /** Marking one detached entry. */
  lemma MarkOne(s: Hash, pos: nat, n: nat) returns (acts: seq<Action>, t: Hash)
    requires s.inline == Marking(pos) && s.shadow.Some? && pos < |s.shadow.value| && Known(s, s.shadow.value[pos])
    ensures Leads(s, acts, t)
    ensures var e := s.shadow.value[pos];
            t == s.(state := s.state[e := SetState(s.state[e], Idle, s.iface)], uses := s.uses[e := s.uses[e] + n],
                    numIdle := s.numIdle + 1, inline := Marking(pos + 1), refused := t.refused)
  {
    hide SetState, Leads;
    Step(s, MarkIdle);
    var s1 := Next(s, MarkIdle);
    Step(s1, Housekeep(n));
    var s2 := Next(s1, Housekeep(n));
    Step(s2, CountIdle);
    t := Next(s2, CountIdle);
    Then(s, [MarkIdle], s1, [Housekeep(n)], s2);
    Then(s, [MarkIdle] + [Housekeep(n)], s2, [CountIdle], t);
    acts := [MarkIdle] + [Housekeep(n)] + [CountIdle];
  }

  lemma {:induction false} MarkRefines(s: Hash, pos: nat, o: Oracle) returns (acts: seq<Action>, t: Hash)
    requires s.inline == Marking(pos) && s.shadow.Some? && pos <= |s.shadow.value|
    requires |s.state| == |s.uses| && KnownChain(s.shadow.value, |s.state|)
    ensures Leads(s, acts, t)
    ensures var v := s.shadow.value[pos..];
            t == s.(state := Marked(s.state, v, s.iface), uses := LastHeld(s.uses, v, o), numIdle := s.numIdle + |v|,
                    inline := Ready, refused := t.refused)
    decreases |s.shadow.value| - pos
  {
    hide SetState, Leads;
    var v := s.shadow.value[pos..];
    if v == [] {
      Step(s, EndPurge);
      acts, t := [EndPurge], Next(s, EndPurge);
    } else {
      var first, s1 := MarkOne(s, pos, Times(o.lastHeld, v[0]));
      var rest, s2 := MarkRefines(s1, pos + 1, o);
      assert s1.shadow.value[pos + 1..] == v[1..];
      Then(s, first, s1, rest, s2);
      acts, t := first + rest, s2;
    }
  }

  /** A call of `purgeIdle` is a run of the inline thread. */
  lemma PurgeIdleRefines(f: Fields, s: Hash, o: Oracle, pace: Pace) returns (acts: seq<Action>, t: Hash)
    requires Matches(f, s) && Inv(s) && |f.table| > 0
    ensures Leads(s, acts, t) && Matches(PurgedIdle(f, o, pace, s.iface), t)
    ensures t.iface == s.iface && t.maxSize == s.maxSize
  {
    hide Leads, Inv, Distinct, Entries, Marked, LastHeld, Visits, NumVisited;
    var p := FirstPass(f);
    var begin, s1 := BeginRefines(f, s, o);
    LeadsKeepsInv(s, begin, s1);
    var v := NumVisited(p, f.cursor, o, pace, 0);
    var scan, s2 := VisitsRefine(s1, p, f.cursor, v, o);
    Step(s2, EndScan);
    var s3 := Next(s2, EndScan);
    AllKnown(s2);
    var mark, s4 := MarkRefines(s3, |p.shadow|, o);
    Then(s, begin, s1, scan, s2);
    Then(s, begin + scan, s2, [EndScan], s3);
    Then(s, begin + scan + [EndScan], s3, mark, s4);
    acts, t := begin + scan + [EndScan] + mark, s4;
  }

  lemma BeginRefines(f: Fields, s: Hash, o: Oracle) returns (acts: seq<Action>, t: Hash)
    requires Matches(f, s) && Inv(s)
    ensures Leads(s, acts, t)
    ensures t == s.(idle := if f.idle.None? then f.shadow else f.idle, shadow := Some(FirstPass(f).shadow),
                    inline := Scanning(o.force, |FirstPass(f).shadow|))
  {
    SizesAgree(s);
    hide Leads, Inv;
    Step(s, BeginPurge(o.force));
    acts, t := [BeginPurge(o.force)], Next(s, BeginPurge(o.force));
    if s.idle.None? {
      Step(t, NewShadow);
      Then(s, acts, t, [NewShadow], Next(t, NewShadow));
      acts, t := acts + [NewShadow], Next(t, NewShadow);
    }
  }

  // ----- every sequence of calls -----

  /** A call on the object, or a change made to its entries from outside between
      calls: a use taken or returned, a state change, the interface stopping. */
  datatype Call =
    | Add(key: nat, initial: EntryState)
    | PurgeIdle(o: Oracle, pace: Pace)
    | PurgeQueued
    | Outside(a: Action)

  datatype Snapshot = Snapshot(fields: Fields, iface: Interface)

  predicate FromOutside(a: Action) {
    a.Promote? || a.StepBack? || a.StopInterface? || a.IncUses? || a.DecUses?
  }

  predicate Possible(x: Snapshot, maxSize: nat, call: Call) {
    && |x.fields.table| > 0
    && match call
       case Add(_, initial) => initial != Idle
       case PurgeIdle(_, _) => true
       case PurgeQueued => true
       case Outside(a) => FromOutside(a) && Enabled(Abs(x.fields, x.iface, maxSize, {}, {}), a)
  }

  function Effect(x: Snapshot, maxSize: nat, call: Call): Snapshot
    requires Possible(x, maxSize, call)
  {
    match call
    case Add(key, initial) => if RoomIn(x.fields, maxSize) then x.(fields := Added(x.fields, key, initial)) else x
    case PurgeIdle(o, pace) => x.(fields := PurgedIdle(x.fields, o, pace, x.iface))
    case PurgeQueued => x.(fields := PurgedQueued(x.fields))
    case Outside(a) =>
      var n := Next(Abs(x.fields, x.iface, maxSize, {}, {}), a);
      Snapshot(x.fields.(state := n.state, uses := n.uses), n.iface)
  }

  /** The snapshots along a sequence of calls on a new object. */
  ghost predicate IsCallRun(xs: seq<Snapshot>, calls: seq<Call>, numHashes: nat, maxSize: nat) {
    && |xs| == |calls| + 1
    && numHashes > 0 && xs[0].fields == Fields(seq(numHashes, _ => []), numHashes - 1, None, None, [], [], [], [], 0, 0)
    && forall k | 0 <= k < |calls| :: Possible(xs[k], maxSize, calls[k]) && xs[k + 1] == Effect(xs[k], maxSize, calls[k])
  }

  /** One call: the machine follows by possible steps. */
  lemma CallRefines(x: Snapshot, s: Hash, call: Call) returns (acts: seq<Action>, t: Hash)
    requires Inv(s) && Matches(x.fields, s) && s.iface == x.iface && Possible(x, s.maxSize, call)
    ensures var y := Effect(x, s.maxSize, call);
            Leads(s, acts, t) && Matches(y.fields, t) && t.iface == y.iface && t.maxSize == s.maxSize
  {
    hide Inv, Leads, Distinct, Entries, PurgedIdle, PurgedQueued, Added;
    match call
    case Add(key, initial) =>
      if RoomIn(x.fields, s.maxSize) {
        SizeIsPopulation(x.fields.table);
        AddRefines(x.fields, s, key, initial);
        acts, t := [AddEntry(initial)], Next(s, AddEntry(initial));
      } else {
        Stay(s);
        acts, t := [], s;
      }
    case PurgeIdle(o, pace) => acts, t := PurgeIdleRefines(x.fields, s, o, pace);
    case PurgeQueued => acts, t := PurgeQueuedRefines(x.fields, s);
    case Outside(a) =>
      Step(s, a);
      acts, t := [a], Next(s, a);
  }

  /** Whatever calls are made on a new object, and whatever happens to its entries
      in between, the object is in a state the machine can reach: every entry is in
      one place, entries in use are never deleted, the counters and the size bound
      hold. */
  lemma {:induction false} EveryCallSequence(xs: seq<Snapshot>, calls: seq<Call>, numHashes: nat, maxSize: nat, k: nat)
    returns (acts: seq<Action>, s: Hash)
    requires IsCallRun(xs, calls, numHashes, maxSize) && k < |xs|
    ensures Leads(Initial(maxSize, xs[0].iface), acts, s) && Inv(s)
    ensures Matches(xs[k].fields, s) && s.iface == xs[k].iface && s.maxSize == maxSize
  {
    hide Inv, Leads;
    if k == 0 {
      s := Initial(maxSize, xs[0].iface);
      InitialInv(maxSize, xs[0].iface);
      Stay(s);
      acts := [];
      assert Entries(xs[0].fields.table) == {};
    } else {
      hide Matches, Effect;
      var before, s0 := EveryCallSequence(xs, calls, numHashes, maxSize, k - 1);
      assert xs[k - 1 + 1] == Effect(xs[k - 1], maxSize, calls[k - 1]);
      var more, s1 := CallRefines(xs[k - 1], s0, calls[k - 1]);
      Then(Initial(maxSize, xs[0].iface), before, s0, more, s1);
      LeadsKeepsInv(s0, more, s1);
      acts, s := before + more, s1;
    }
  }
}
