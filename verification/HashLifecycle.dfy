/**
 The lifecycle of hash entries in GenericHash, as the interleaving of three kinds
 of threads: the inline thread that adds entries and runs `purgeIdle`, the thread
 that runs `purgeQueuedIdleEntries`, and any number of threads that hold uses of
 an entry (table walkers, the flow dumper). Each assignment to shared data is a
 step of its own.
 */
module HashLifecycle {
  import opened Basics
  import opened HashTables

  /** The states of an entry, in the order of the enumeration. */
  datatype EntryState = Allocated | NotYetDetected | ProtocolDetected | Active | Idle

  function Rank(s: EntryState): nat {
    match s
    case Allocated => 0
    case NotYetDetected => 1
    case ProtocolDetected => 2
    case Active => 3
    case Idle => 4
  }

  /** What `set_state` looks at besides the entry. */
  datatype Interface = Interface(running: bool, isPacket: bool, skipDpi: bool)

  /** `set_state`: forward, one state at a time, with two exceptions; a refused
      transition leaves the state alone, but only while the interface runs. */
  function SetState(current: EntryState, target: EntryState, iface: Interface): EntryState {
    if (Rank(target) < Rank(current)
        || (Rank(target) != Rank(current) + 1
            && !(current == Allocated && target == ProtocolDetected)
            && !(!iface.isPacket && iface.skipDpi && current == Allocated && target == Active)))
       && iface.running
    then current else target
  }

  /** Where the inline thread is inside `purgeIdle`. A position is an index into
      the shadow vector. */
  datatype Inline =
    | Ready
    | Swapping(force: bool)             // idle_entries = idle_entries_shadow done
    | Scanning(force: bool, from: nat)  // walking the buckets
    | Marking(pos: nat)                 // about to mark entry `pos`
    | Housekeeping(pos: nat)            // entry `pos` has been marked
    | Counting(pos: nat)                // about to count its transition

  /** Where the purging thread is inside `purgeQueuedIdleEntries`. */
  datatype Offline =
    | Resting
    | Loaded                           // cur_idle = idle_entries done
    | Sweeping(cur: seq<nat>, i: nat)  // about to look at cur[i]
    | Deleting(cur: seq<nat>, i: nat)  // found cur[i] unused
    | Purging(cur: seq<nat>, i: nat)   // cur[i] deleted, not yet counted
    | InUse(j: nat)                    // about to look at idle_entries_in_use[j]
    | InUseDeleting(j: nat)
    | InUsePurging(j: nat)

  /** Entries are numbered in the order they are added; `state` and `uses` are
      indexed by that number. `deleted` lists the deleted entries in order. The
      history `early` holds entries detached before they were active and
      `refused` those whose transition to idle was refused. */
  datatype Hash = Hash(
    table: set<nat>,
    shadow: Option<seq<nat>>, idle: Option<seq<nat>>, inUse: seq<nat>, deleted: seq<nat>,
    state: seq<EntryState>, uses: seq<int>,
    numIdle: nat, numPurged: nat, maxSize: nat,
    inline: Inline, offline: Offline, iface: Interface,
    early: set<nat>, refused: set<nat>)

  datatype Action =
    // inline thread
    | AddEntry(initial: EntryState)
    | BeginPurge(force: bool)
    | NewShadow
    | Detach(entry: nat)
    | EndScan
    | MarkIdle
    | Housekeep(dumps: nat)
    | CountIdle
    | EndPurge
    // inline thread or the threads that update flows
    | Promote(entry: nat, target: EntryState)
    | StepBack(entry: nat)
    | StopInterface
    // holders of uses
    | IncUses(entry: nat)
    | DecUses(entry: nat)
    // purging thread
    | Load
    | Clear
    | Check
    | Delete
    | CountPurged
    | EndSweep
    | CheckInUse
    | DeleteInUse
    | CountInUse
    | EndInUse

  const MIN_NUM_IDLE_ENTRIES_IF: nat := 5000

  function Vec(v: Option<seq<nat>>): seq<nat> {
    if v.Some? then v.value else []
  }

  /** The entries the purging thread has taken and not yet dealt with. */
  function Taken(o: Offline): seq<nat> {
    match o
    case Sweeping(cur, i) => if i <= |cur| then cur[i..] else []
    case Deleting(cur, i) => if i <= |cur| then cur[i..] else []
    case Purging(cur, i) => if i < |cur| then cur[i + 1..] else []
    case _ => []
  }

  /** Entries that left the table and are not deleted. */
  function Waiting(s: Hash): nat {
    |Vec(s.shadow)| + |Vec(s.idle)| + |Taken(s.offline)| + |s.inUse|
  }

  /** First position of the shadow vector whose transition is not yet counted. */
  function Uncounted(s: Hash): nat {
    match s.inline
    case Ready => |Vec(s.shadow)|
    case Swapping(_) => |Vec(s.shadow)|
    case Scanning(_, from) => from
    case Marking(pos) => pos
    case Housekeeping(pos) => pos
    case Counting(pos) => pos
  }

  /** First position of the shadow vector that has not been marked idle. */
  function Unmarked(s: Hash): nat {
    match s.inline
    case Housekeeping(pos) => pos + 1
    case Counting(pos) => pos + 1
    case _ => Uncounted(s)
  }

  predicate Known(s: Hash, e: nat) {
    e < |s.state| && e < |s.uses|
  }

  /** `hasEmptyRoom`, on the counters as the source reads them. */
  predicate HasEmptyRoom(s: Hash) {
    var waiting := s.numIdle - s.numPurged;
    if waiting > MIN_NUM_IDLE_ENTRIES_IF && waiting > |s.table| then false
    else |s.table| + waiting <= s.maxSize
  }

  predicate Enabled(s: Hash, a: Action) {
    match a
    case AddEntry(initial) => s.inline.Ready? && initial != Idle && HasEmptyRoom(s)
    case BeginPurge(_) => s.inline.Ready?
    case NewShadow => s.inline.Swapping?
    case Detach(e) => s.inline.Scanning? && e in s.table && Known(s, e) && s.state[e] != Idle
                      && (s.inline.force || s.state[e] == Active)
    case EndScan => s.inline.Scanning?
    case MarkIdle => s.inline.Marking? && s.inline.pos < |Vec(s.shadow)| && Known(s, Vec(s.shadow)[s.inline.pos])
    case Housekeep(_) => s.inline.Housekeeping? && s.inline.pos < |Vec(s.shadow)| && Known(s, Vec(s.shadow)[s.inline.pos])
    case CountIdle => s.inline.Counting?
    case EndPurge => s.inline.Marking? && s.inline.pos >= |Vec(s.shadow)|
    case Promote(e, target) => e in s.table && Known(s, e) && target != Idle
    case StepBack(e) => e in s.table && Known(s, e)
    case StopInterface => true
    case IncUses(e) => e in s.table && Known(s, e) && s.state[e] != Idle
    case DecUses(e) => Known(s, e) && s.uses[e] > 0
    case Load => s.offline.Resting?
    case Clear => s.offline.Loaded?
    case Check => s.offline.Sweeping? && s.offline.i < |s.offline.cur| && Known(s, s.offline.cur[s.offline.i])
    case Delete => s.offline.Deleting? && s.offline.i < |s.offline.cur|
    case CountPurged => s.offline.Purging?
    case EndSweep => s.offline.Sweeping? && s.offline.i >= |s.offline.cur|
    case CheckInUse => s.offline.InUse? && s.offline.j < |s.inUse| && Known(s, s.inUse[s.offline.j])
    case DeleteInUse => s.offline.InUseDeleting? && s.offline.j < |s.inUse|
    case CountInUse => s.offline.InUsePurging?
    case EndInUse => s.offline.InUse? && s.offline.j >= |s.inUse|
  }

  /** A forced scan first moves an entry with a detected protocol to active. */
  function Settled(st: EntryState): EntryState {
    if st == ProtocolDetected then Active else st
  }

  function NextInline(s: Hash, a: Action): Hash
    requires Enabled(s, a)
  {
    match a
    case AddEntry(initial) =>
      s.(table := s.table + {|s.state|}, state := s.state + [initial], uses := s.uses + [0])
    case BeginPurge(force) =>
      if s.idle.None? then s.(idle := s.shadow, shadow := None, inline := Swapping(force))
      else s.(inline := Scanning(force, |Vec(s.shadow)|))
    case NewShadow => s.(shadow := Some([]), inline := Scanning(s.inline.force, 0))
    case Detach(e) =>
      s.(table := s.table - {e}, shadow := Some(Vec(s.shadow) + [e]), state := s.state[e := Settled(s.state[e])],
         early := if Settled(s.state[e]) == Active then s.early else s.early + {e})
    case EndScan => s.(inline := Marking(s.inline.from))
    case MarkIdle =>
      var e := Vec(s.shadow)[s.inline.pos];
      var marked := SetState(s.state[e], Idle, s.iface);
      s.(state := s.state[e := marked], inline := Housekeeping(s.inline.pos),
         refused := if marked == Idle then s.refused else s.refused + {e})
    case Housekeep(dumps) =>
      var e := Vec(s.shadow)[s.inline.pos];
      s.(uses := s.uses[e := s.uses[e] + dumps], inline := Counting(s.inline.pos))
    case CountIdle => s.(numIdle := s.numIdle + 1, inline := Marking(s.inline.pos + 1))
    case EndPurge => s.(inline := Ready)
    case Promote(e, target) => s.(state := s.state[e := SetState(s.state[e], target, s.iface)])
    case StepBack(e) => s.(state := s.state[e := Allocated])
    case StopInterface => s.(iface := s.iface.(running := false))
    case IncUses(e) => s.(uses := s.uses[e := s.uses[e] + 1])
    case DecUses(e) => s.(uses := s.uses[e := s.uses[e] - 1])
    case _ => s
  }

  function NextOffline(s: Hash, a: Action): Hash
    requires Enabled(s, a)
  {
    var o := s.offline;
    match a
    case Load => s.(offline := if s.idle.Some? then Loaded else InUse(0))
    case Clear => s.(offline := Sweeping(Vec(s.idle), 0), idle := None)
    case Check =>
      if s.uses[o.cur[o.i]] == 0 then s.(offline := Deleting(o.cur, o.i))
      else s.(inUse := s.inUse + [o.cur[o.i]], offline := Sweeping(o.cur, o.i + 1))
    case Delete => s.(deleted := s.deleted + [o.cur[o.i]], offline := Purging(o.cur, o.i))
    case CountPurged => s.(numPurged := s.numPurged + 1, offline := Sweeping(o.cur, o.i + 1))
    case EndSweep => s.(offline := InUse(0))
    case CheckInUse =>
      if s.uses[s.inUse[o.j]] == 0 then s.(offline := InUseDeleting(o.j)) else s.(offline := InUse(o.j + 1))
    case DeleteInUse =>
      s.(deleted := s.deleted + [s.inUse[o.j]], inUse := s.inUse[..o.j] + s.inUse[o.j + 1..],
         offline := InUsePurging(o.j))
    case CountInUse => s.(numPurged := s.numPurged + 1, offline := InUse(o.j))
    case EndInUse => s.(offline := Resting)
    case _ => s
  }

  predicate IsOffline(a: Action) {
    match a
    case Load | Clear | Check | Delete | CountPurged | EndSweep | CheckInUse | DeleteInUse | CountInUse | EndInUse => true
    case _ => false
  }

  function Next(s: Hash, a: Action): Hash
    requires Enabled(s, a)
  {
    if IsOffline(a) then NextOffline(s, a) else NextInline(s, a)
  }

  function Initial(maxSize: nat, iface: Interface): Hash {
    Hash({}, None, None, [], [], [], [], 0, 0, maxSize, Ready, Resting, iface, {}, {})
  }

  /** The states along a run: `trace[0]` is initial and each action leads to the
      next state. */
  ghost predicate IsRun(trace: seq<Hash>, acts: seq<Action>) {
    && |trace| == |acts| + 1
    && (exists m, iface :: trace[0] == Initial(m, iface))
    && forall i | 0 <= i < |acts| :: Enabled(trace[i], acts[i]) && trace[i + 1] == Next(trace[i], acts[i])
  }

  // ----- the invariant -----

  /** In how many places entry `e` is. */
  function Places(s: Hash, e: nat): nat {
    (if e in s.table then 1 else 0) + Occurs(Vec(s.shadow), e) + Occurs(Vec(s.idle), e)
    + Occurs(Taken(s.offline), e) + Occurs(s.inUse, e) + Occurs(s.deleted, e)
  }

  /** Positions and pointers are as the code relies on. */
  ghost predicate Shaped(s: Hash) {
    && |s.state| == |s.uses|
    && (s.inline.Scanning? || s.inline.Marking? || s.inline.Housekeeping? || s.inline.Counting? ==> s.shadow.Some?)
    && (s.inline.Swapping? ==> s.shadow.None?)
    && (s.inline.Ready? && s.idle.Some? ==> s.shadow.Some?)
    && Uncounted(s) <= Unmarked(s) <= |Vec(s.shadow)|
    && (s.offline.Loaded? ==> s.idle.Some?)
    && (s.offline.Sweeping? ==> s.offline.i <= |s.offline.cur|)
    && (s.offline.Deleting? || s.offline.Purging? ==> s.offline.i < |s.offline.cur|)
    && (s.offline.InUse? || s.offline.InUsePurging? ==> s.offline.j <= |s.inUse|)
    && (s.offline.InUseDeleting? ==> s.offline.j < |s.inUse|)
  }

  /** Deleted, or found unused and about to be deleted. */
  predicate Doomed(s: Hash, e: nat) {
    || e in s.deleted
    || (s.offline.Deleting? && s.offline.i < |s.offline.cur| && s.offline.cur[s.offline.i] == e)
    || (s.offline.InUseDeleting? && s.offline.j < |s.inUse| && s.inUse[s.offline.j] == e)
  }

  /** No entry in use is deleted or about to be. */
  ghost predicate UseOk(s: Hash, e: nat)
    requires e < |s.uses|
  {
    s.uses[e] >= 0 && (Doomed(s, e) ==> s.uses[e] == 0)
  }

  /** The detached entries that are not yet marked idle. */
  function UnmarkedEntries(s: Hash): seq<nat> {
    if Unmarked(s) <= |Vec(s.shadow)| then Vec(s.shadow)[Unmarked(s)..] else []
  }

  /** No entry of the table is idle. An entry that left the table is active until
      it is marked, unless it was detached early; once marked it is idle, unless
      the transition was refused. */
  ghost predicate StateOk(s: Hash, e: nat)
    requires e < |s.state|
  {
    if e in s.table then s.state[e] != Idle && e !in s.early && e !in s.refused
    else if e in UnmarkedEntries(s) then
      s.state[e] != Idle && (s.state[e] == Active <==> e !in s.early) && e !in s.refused
    else (s.state[e] == Idle <==> e !in s.refused) && (e in s.refused ==> e in s.early)
  }

  /** What holds of each number: an added entry is in exactly one place, its uses
      are respected and its state fits its place; any other is nowhere. */
  ghost predicate EntryOk(s: Hash, e: nat)
    requires |s.state| == |s.uses|
  {
    if e < |s.state| then Places(s, e) == 1 && UseOk(s, e) && StateOk(s, e)
    else Places(s, e) == 0 && e !in s.early && e !in s.refused
  }

  function PurgePending(s: Hash): nat {
    if s.offline.Purging? || s.offline.InUsePurging? then 1 else 0
  }

  /** Transitions counted, plus those still to count, are the entries purged and
      the entries waiting. */
  ghost predicate Counted(s: Hash)
    requires Shaped(s)
  {
    s.numIdle + (|Vec(s.shadow)| - Uncounted(s)) == s.numPurged + PurgePending(s) + Waiting(s)
  }

  /** The population the size limit is meant to bound. */
  ghost predicate Bounded(s: Hash) {
    |s.table| + Waiting(s) <= s.maxSize + 1
  }

  ghost predicate Inv(s: Hash) {
    Shaped(s) && Counted(s) && Bounded(s) && forall e: nat :: EntryOk(s, e)
  }

  // ----- one place per entry -----

  lemma InlineKeepsPlaces(s: Hash, a: Action, e: nat)
    requires Shaped(s) && Enabled(s, a) && !IsOffline(a) && |s.state| !in s.table
    ensures Places(NextInline(s, a), e) == Places(s, e) + if a.AddEntry? && e == |s.state| then 1 else 0
  {
    hide Occurs;
    if a.Detach? {
      OccursAppend(Vec(s.shadow), a.entry, e);
    }
    assert Occurs([], e) == 0 by { OccursNone(e); }
  }

  lemma OfflineKeepsPlaces(s: Hash, a: Action, e: nat)
    requires Shaped(s) && Enabled(s, a) && IsOffline(a)
    ensures Places(NextOffline(s, a), e) == Places(s, e)
  {
    hide Occurs;
    OccursNone(e);
    if a.Check? || a.Delete? || a.DeleteInUse? {
      MovesKeepPlaces(s, a, e);
    } else if a.Clear? {
      assert Vec(s.idle)[0..] == Vec(s.idle);
    } else if a.EndSweep? {
      assert Taken(s.offline) == [];
    }
  }

  lemma MovesKeepPlaces(s: Hash, a: Action, e: nat)
    requires Shaped(s) && Enabled(s, a) && (a.Check? || a.Delete? || a.DeleteInUse?)
    ensures Places(NextOffline(s, a), e) == Places(s, e)
  {
    hide Occurs;
    var o := s.offline;
    if a.DeleteInUse? {
      OccursRemoval(s.inUse, o.j, e);
      OccursAppend(s.deleted, s.inUse[o.j], e);
    } else {
      OccursHead(o.cur, o.i, e);
      OccursAppend(s.inUse, o.cur[o.i], e);
      OccursAppend(s.deleted, o.cur[o.i], e);
    }
  }

  /** An entry in one place is in no other. */
  lemma OnePlace(s: Hash, e: nat)
    requires Places(s, e) <= 1
    ensures e in s.table ==> e !in Vec(s.shadow) && e !in Taken(s.offline) && e !in s.inUse && e !in s.deleted
    ensures e in Vec(s.shadow) ==> e !in s.table && e !in Taken(s.offline) && e !in s.inUse && e !in s.deleted
    ensures e in Taken(s.offline) ==> e !in s.inUse && e !in s.deleted
    ensures e in s.inUse ==> e !in s.deleted
    ensures forall i, j | 0 <= i < j < |Vec(s.shadow)| :: !(Vec(s.shadow)[i] == e == Vec(s.shadow)[j])
  {
    InIffOccurs(Vec(s.shadow), e);
    InIffOccurs(Taken(s.offline), e);
    InIffOccurs(s.inUse, e);
    InIffOccurs(s.deleted, e);
    hide Occurs;
    forall i, j | 0 <= i < j < |Vec(s.shadow)| ensures !(Vec(s.shadow)[i] == e == Vec(s.shadow)[j]) {
      if Vec(s.shadow)[i] == e == Vec(s.shadow)[j] {
        TwiceOccurs(Vec(s.shadow), i, j);
      }
    }
  }

  // ----- shape, counters and size -----

  lemma KeepsShaped(s: Hash, a: Action)
    requires Shaped(s) && Enabled(s, a)
    ensures Shaped(Next(s, a))
  {
    if IsOffline(a) {
      OfflineKeepsShaped(s, a);
    } else {
      InlineKeepsShaped(s, a);
    }
  }

  lemma InlineKeepsShaped(s: Hash, a: Action)
    requires Shaped(s) && Enabled(s, a) && !IsOffline(a)
    ensures Shaped(NextInline(s, a))
  {
    hide Taken;
    hide SetState;
    hide HasEmptyRoom;
  }

  lemma OfflineKeepsShaped(s: Hash, a: Action)
    requires Shaped(s) && Enabled(s, a) && IsOffline(a)
    ensures Shaped(NextOffline(s, a))
  {
    hide Taken, HasEmptyRoom, SetState;
  }

  lemma InlineKeepsCounted(s: Hash, a: Action)
    requires Shaped(s) && Counted(s) && Enabled(s, a) && !IsOffline(a) && Shaped(NextInline(s, a))
    ensures Counted(NextInline(s, a))
  {
    hide Taken;
    hide SetState;
    hide HasEmptyRoom;
  }

  lemma OfflineKeepsCounted(s: Hash, a: Action)
    requires Shaped(s) && Counted(s) && Enabled(s, a) && IsOffline(a) && Shaped(NextOffline(s, a))
    ensures Counted(NextOffline(s, a))
  {
    hide HasEmptyRoom, SetState;
  }

  lemma KeepsBounded(s: Hash, a: Action)
    requires Shaped(s) && Counted(s) && Bounded(s) && Enabled(s, a) && |s.state| !in s.table
    ensures Bounded(Next(s, a))
  {
    if IsOffline(a) {
      OfflineKeepsBounded(s, a);
    } else {
      hide SetState;
      hide Taken;
    }
  }

  lemma OfflineKeepsBounded(s: Hash, a: Action)
    requires Shaped(s) && Bounded(s) && Enabled(s, a) && IsOffline(a)
    ensures Bounded(NextOffline(s, a))
  {
    hide HasEmptyRoom, SetState;
  }

  // ----- uses and states -----

  lemma InlineKeepsUses(s: Hash, a: Action, e: nat)
    requires Shaped(s) && Enabled(s, a) && !IsOffline(a) && e < |s.uses|
    requires Places(s, e) <= 1 && UseOk(s, e)
    ensures UseOk(NextInline(s, a), e)
  {
    OnePlace(s, e);
    hide Places, NextInline, Enabled;
    InlineKeepsDoomed(s, a, e);
    InlineUses(s, a, e);
    if Doomed(s, e) {
      DoomedIsTaken(s, e);
    }
    hide Doomed;
  }

  lemma InlineKeepsDoomed(s: Hash, a: Action, e: nat)
    requires Enabled(s, a) && !IsOffline(a)
    ensures Doomed(NextInline(s, a), e) == Doomed(s, e)
  {
    hide HasEmptyRoom, SetState;
  }

  /** The inline thread and the holders of uses take a use only of an entry in the
      table or in the shadow vector, and never return more than there are. */
  lemma InlineUses(s: Hash, a: Action, e: nat)
    requires Enabled(s, a) && !IsOffline(a) && e < |s.uses| && s.uses[e] >= 0
    ensures var t := NextInline(s, a);
            && e < |t.uses| && t.uses[e] >= 0
            && (t.uses[e] > s.uses[e] ==> e in s.table || e in Vec(s.shadow))
  {
    hide HasEmptyRoom, SetState;
  }

  lemma DoomedIsTaken(s: Hash, e: nat)
    requires Doomed(s, e)
    ensures e in s.deleted || e in Taken(s.offline) || e in s.inUse
  {
    if s.offline.Deleting? && s.offline.i < |s.offline.cur| {
      assert s.offline.cur[s.offline.i] == Taken(s.offline)[0];
    }
  }

  lemma OfflineKeepsUses(s: Hash, a: Action, e: nat)
    requires Shaped(s) && Enabled(s, a) && IsOffline(a) && e < |s.uses|
    requires UseOk(s, e)
    ensures UseOk(NextOffline(s, a), e)
  {
    hide Taken;
  }

  /** How the inline thread changes the set of detached, unmarked entries. */
  lemma UnmarkedChange(s: Hash, a: Action)
    requires Shaped(s) && Enabled(s, a) && !IsOffline(a)
    ensures var region, region' := UnmarkedEntries(s), UnmarkedEntries(NextInline(s, a));
            match a
            case Detach(x) => region' == region + [x]
            case MarkIdle => region == [Vec(s.shadow)[s.inline.pos]] + region'
            case _ => region' == region
  {
    hide SetState;
    hide HasEmptyRoom;
    hide Taken;
  }

  lemma UnmarkedAreShadowed(s: Hash, e: nat)
    ensures e in UnmarkedEntries(s) ==> e in Vec(s.shadow)
  {
  }

  /** The entry being marked is not among those left to mark. */
  lemma MarkedOnce(s: Hash)
    requires Shaped(s) && Enabled(s, MarkIdle)
    requires Places(s, Vec(s.shadow)[s.inline.pos]) <= 1
    ensures Vec(s.shadow)[s.inline.pos] !in UnmarkedEntries(NextInline(s, MarkIdle))
  {
    OnePlace(s, Vec(s.shadow)[s.inline.pos]);
    hide Places;
  }

  lemma InlineKeepsStates(s: Hash, a: Action, e: nat)
    requires Shaped(s) && Enabled(s, a) && !IsOffline(a)
    requires e < |s.state| && Places(s, e) == 1 && StateOk(s, e)
    ensures StateOk(NextInline(s, a), e)
  {
    hide StateOk;
    hide UnmarkedEntries;
    hide Places;
    hide NextInline;
    UnmarkedChange(s, a);
    if a.MarkIdle? {
      MarkKeepsState(s, e);
    } else if a.Detach? {
      DetachKeepsState(s, a, e);
    } else {
      OtherKeepsState(s, a, e);
    }
  }

  lemma OtherKeepsState(s: Hash, a: Action, e: nat)
    requires Enabled(s, a) && !IsOffline(a) && !a.MarkIdle? && !a.Detach?
    requires e < |s.state| && StateOk(s, e)
    requires UnmarkedEntries(NextInline(s, a)) == UnmarkedEntries(s)
    ensures StateOk(NextInline(s, a), e)
  {
    hide UnmarkedEntries;
    hide HasEmptyRoom;
  }

  lemma MarkKeepsState(s: Hash, e: nat)
    requires Shaped(s) && Enabled(s, MarkIdle)
    requires e < |s.state| && Places(s, e) == 1 && StateOk(s, e)
    ensures StateOk(NextInline(s, MarkIdle), e)
  {
    hide Places, UnmarkedEntries, Unmarked, SetState;
    UnmarkedChange(s, MarkIdle);
    if Vec(s.shadow)[s.inline.pos] == e {
      hide StateOk;
      MarkedOnce(s);
      NotInTable(s, e);
      MarkedState(s);
    }
  }

  lemma NotInTable(s: Hash, e: nat)
    requires Places(s, e) == 1 && e in Vec(s.shadow)
    ensures e !in s.table
  {
    OnePlace(s, e);
  }

  lemma MarkedState(s: Hash)
    requires Enabled(s, MarkIdle)
    requires var e := Vec(s.shadow)[s.inline.pos];
             e !in s.table && e in UnmarkedEntries(s) && StateOk(s, e) && e !in UnmarkedEntries(NextInline(s, MarkIdle))
    ensures StateOk(NextInline(s, MarkIdle), Vec(s.shadow)[s.inline.pos])
  {
    hide UnmarkedEntries;
  }

  lemma DetachKeepsState(s: Hash, a: Action, e: nat)
    requires Shaped(s) && Enabled(s, a) && a.Detach?
    requires e < |s.state| && StateOk(s, e)
    ensures StateOk(NextInline(s, a), e)
  {
    UnmarkedChange(s, a);
    hide UnmarkedEntries;
    hide Taken;
  }

  lemma OfflineKeepsStates(s: Hash, a: Action, e: nat)
    requires Shaped(s) && Enabled(s, a) && IsOffline(a)
    requires e < |s.state| && StateOk(s, e)
    ensures StateOk(NextOffline(s, a), e)
  {
    hide UnmarkedEntries, NextOffline, Enabled;
    OfflineKeepsUnmarked(s, a);
    OfflineKeepsShadow(s, a);
  }

  lemma OfflineKeepsUnmarked(s: Hash, a: Action)
    requires Enabled(s, a) && IsOffline(a)
    ensures UnmarkedEntries(NextOffline(s, a)) == UnmarkedEntries(s)
  {
    OfflineKeepsShadow(s, a);
    hide NextOffline, Enabled;
  }

  lemma OfflineKeepsShadow(s: Hash, a: Action)
    requires Enabled(s, a) && IsOffline(a)
    ensures var t := NextOffline(s, a);
            && t.shadow == s.shadow && t.inline == s.inline && t.table == s.table && t.state == s.state
            && t.early == s.early && t.refused == s.refused
  {
    hide HasEmptyRoom;
  }

  // ----- whole runs -----

  lemma KeepsEntryOk(s: Hash, a: Action, e: nat)
    requires Shaped(s) && Enabled(s, a) && |s.state| !in s.table && EntryOk(s, e)
    ensures Shaped(Next(s, a)) && EntryOk(Next(s, a), e)
  {
    KeepsShaped(s, a);
    if IsOffline(a) {
      OfflineKeepsEntryOk(s, a, e);
    } else {
      InlineKeepsEntryOk(s, a, e);
    }
  }

  lemma OfflineKeepsEntryOk(s: Hash, a: Action, e: nat)
    requires Shaped(s) && Enabled(s, a) && IsOffline(a) && EntryOk(s, e)
    ensures Shaped(NextOffline(s, a)) && EntryOk(NextOffline(s, a), e)
  {
    hide Places;
    hide UseOk;
    hide StateOk;
    hide Taken;
    OfflineKeepsShaped(s, a);
    OfflineKeepsPlaces(s, a, e);
    if e < |s.state| {
      OfflineKeepsUses(s, a, e);
      OfflineKeepsStates(s, a, e);
    }
  }

  lemma InlineKeepsEntryOk(s: Hash, a: Action, e: nat)
    requires Shaped(s) && Enabled(s, a) && !IsOffline(a) && |s.state| !in s.table && EntryOk(s, e)
    ensures Shaped(NextInline(s, a)) && EntryOk(NextInline(s, a), e)
  {
    hide Places, UseOk, StateOk, NextInline, Enabled;
    InlineKeepsShaped(s, a);
    InlineSizes(s, a);
    InlineKeepsPlaces(s, a, e);
    if e < |s.state| {
      InlineKeepsUses(s, a, e);
      InlineKeepsStates(s, a, e);
    } else if a.AddEntry? && e == |s.state| {
      NewEntryOk(s, a);
    } else {
      AbsentStaysAbsent(s, a, e);
    }
  }

  lemma InlineSizes(s: Hash, a: Action)
    requires Enabled(s, a) && !IsOffline(a)
    ensures var t := NextInline(s, a);
            && |t.state| == |s.state| + (if a.AddEntry? then 1 else 0)
            && |t.uses| == |s.uses| + (if a.AddEntry? then 1 else 0)
  {
    hide HasEmptyRoom, SetState;
  }

  lemma NewEntryOk(s: Hash, a: Action)
    requires Shaped(s) && Enabled(s, a) && a.AddEntry? && EntryOk(s, |s.state|)
    ensures EntryOk(NextInline(s, a), |s.state|)
  {
    var e := |s.state|;
    InlineKeepsPlaces(s, a, e) by {
      InTableHasPlace(s, e);
    }
    InIffOccurs(s.deleted, e);
    InIffOccurs(Taken(s.offline), e);
    InIffOccurs(s.inUse, e);
    hide Occurs;
    hide HasEmptyRoom;
    if s.offline.Deleting? {
      assert s.offline.cur[s.offline.i] == Taken(s.offline)[0];
    }
  }

  lemma InTableHasPlace(s: Hash, e: nat)
    ensures e in s.table ==> Places(s, e) > 0
  {
    hide Occurs;
  }

  lemma AbsentStaysAbsent(s: Hash, a: Action, e: nat)
    requires Shaped(s) && Enabled(s, a) && !IsOffline(a)
    requires e >= |s.state| && Places(s, e) == 0 && e !in s.early && e !in s.refused
    ensures e !in NextInline(s, a).early && e !in NextInline(s, a).refused
  {
    hide Places;
    hide SetState;
    hide HasEmptyRoom;
  }

  lemma InitialInv(maxSize: nat, iface: Interface)
    ensures Inv(Initial(maxSize, iface))
  {
    var s := Initial(maxSize, iface);
    forall e: nat ensures EntryOk(s, e) {
      OccursNone(e);
    }
  }

  lemma KeepsInv(s: Hash, a: Action)
    requires Inv(s) && Enabled(s, a)
    ensures Inv(Next(s, a))
  {
    hide EntryOk;
    NextEntryIsNew(s);
    KeepsShaped(s, a);
    forall e: nat ensures EntryOk(Next(s, a), e) {
      assert EntryOk(s, e);
      KeepsEntryOk(s, a, e);
    }
    KeepsBounded(s, a);
    hide Next;
    hide Counted;
    hide Bounded;
    hide Shaped;
    KeepsCounted(s, a);
  }

  lemma NextEntryIsNew(s: Hash)
    requires Inv(s)
    ensures |s.state| !in s.table
  {
    assert EntryOk(s, |s.state|);
    InTableHasPlace(s, |s.state|);
  }

  lemma KeepsCounted(s: Hash, a: Action)
    requires Shaped(s) && Counted(s) && Enabled(s, a) && Shaped(Next(s, a))
    ensures Counted(Next(s, a))
  {
    if IsOffline(a) {
      OfflineKeepsCounted(s, a);
    } else {
      InlineKeepsCounted(s, a);
    }
  }

  /** Every state of every run satisfies the invariant. */
  lemma {:induction false} EveryStateInv(trace: seq<Hash>, acts: seq<Action>, n: nat)
    requires IsRun(trace, acts) && n < |trace|
    ensures Inv(trace[n])
  {
    if n == 0 {
      var m, iface :| trace[0] == Initial(m, iface);
      InitialInv(m, iface);
    } else {
      EveryStateInv(trace, acts, n - 1);
      hide Inv;
      hide Next;
      KeepsInv(trace[n - 1], acts[n - 1]);
    }
  }

  // ----- what holds along every run -----

  /** Every entry ever added is, at each moment, in exactly one of the table, the
      shadow vector, the idle vector, the vector being swept, the in-use vector
      and the deleted entries. */
  lemma OneOwner(trace: seq<Hash>, acts: seq<Action>, n: nat, e: nat)
    requires IsRun(trace, acts) && n < |trace|
    ensures Places(trace[n], e) == if e < |trace[n].state| then 1 else 0
  {
    EveryStateInv(trace, acts, n);
    assert EntryOk(trace[n], e);
  }

  /** `num_idle_transitions - num_purged` never goes negative, and is exactly the
      number of waiting entries whenever neither thread is between moving an
      entry and counting it. */
  lemma IdleCounters(trace: seq<Hash>, acts: seq<Action>, n: nat)
    requires IsRun(trace, acts) && n < |trace|
    ensures trace[n].numPurged <= trace[n].numIdle
    ensures trace[n].inline.Ready? && PurgePending(trace[n]) == 0 ==>
              trace[n].numIdle - trace[n].numPurged == Waiting(trace[n])
  {
    EveryStateInv(trace, acts, n);
  }

  /** The table and the waiting entries together never exceed the configured
      size by more than one entry. */
  lemma PopulationBound(trace: seq<Hash>, acts: seq<Action>, n: nat)
    requires IsRun(trace, acts) && n < |trace|
    ensures |trace[n].table| + Waiting(trace[n]) <= trace[n].maxSize + 1
  {
    EveryStateInv(trace, acts, n);
  }

  /** And the one entry too many is reached, for every configured size. */
  lemma PopulationExceeds(maxSize: nat, iface: Interface) returns (trace: seq<Hash>, acts: seq<Action>)
    ensures IsRun(trace, acts)
    ensures var s := trace[|acts|];
            s.maxSize == maxSize && |s.table| + Waiting(s) == maxSize + 1
  {
    hide IsRun;
    trace, acts := FilledUp(maxSize, iface, maxSize + 1);
  }

  lemma {:induction false} FilledUp(maxSize: nat, iface: Interface, n: nat) returns (trace: seq<Hash>, acts: seq<Action>)
    requires n <= maxSize + 1
    ensures IsRun(trace, acts) && |acts| == n
    ensures var s := trace[n];
            && s.maxSize == maxSize && |s.table| == n && s.inline == Ready && s.numIdle == s.numPurged == 0
            && s.shadow == s.idle == None && s.inUse == [] && s.offline == Resting
  {
    if n == 0 {
      trace, acts := [Initial(maxSize, iface)], [];
    } else {
      trace, acts := FilledUp(maxSize, iface, n - 1);
      var s, a := trace[n - 1], AddEntry(Allocated);
      EveryStateInv(trace, acts, n - 1);
      NextEntryIsNew(s);
      hide Inv;
      OneMoreStep(trace, acts, a);
      trace, acts := trace + [Next(s, a)], acts + [a];
    }
  }

  lemma OneMoreStep(trace: seq<Hash>, acts: seq<Action>, a: Action)
    requires IsRun(trace, acts) && Enabled(trace[|acts|], a)
    ensures IsRun(trace + [Next(trace[|acts|], a)], acts + [a])
  {
    hide Next, Enabled;
    var t, b := trace + [Next(trace[|acts|], a)], acts + [a];
    forall i | 0 <= i < |b| ensures Enabled(t[i], b[i]) && t[i + 1] == Next(t[i], b[i]) {
      if i < |acts| {
        assert t[i] == trace[i] && t[i + 1] == trace[i + 1] && b[i] == acts[i];
      }
    }
    assert t[0] == trace[0];
  }

  /** Once deleted, an entry is never in use and never back in any list. */
  lemma {:induction false} DeletedStaysUnused(trace: seq<Hash>, acts: seq<Action>, n: nat, m: nat, e: nat)
    requires IsRun(trace, acts) && n <= m < |trace|
    requires e in trace[n].deleted
    ensures e in trace[m].deleted && e < |trace[m].uses| && trace[m].uses[e] == 0
    ensures e !in trace[m].table && e !in Vec(trace[m].shadow) && e !in Taken(trace[m].offline) && e !in trace[m].inUse
    decreases m
  {
    hide Inv, Enabled, Next;
    if n < m {
      DeletedStaysUnused(trace, acts, n, m - 1, e);
      assert trace[m - 1 + 1] == Next(trace[m - 1], acts[m - 1]);
      DeletedGrows(trace[m - 1], acts[m - 1], e);
    }
    EveryStateInv(trace, acts, m);
    hide IsRun;
    DeletedEntry(trace[m], e);
  }

  lemma DeletedGrows(s: Hash, a: Action, e: nat)
    requires Enabled(s, a) && e in s.deleted
    ensures e in Next(s, a).deleted
  {
    hide SetState;
    hide HasEmptyRoom;
  }

  lemma DeletedEntry(s: Hash, e: nat)
    requires Inv(s) && e in s.deleted
    ensures e < |s.uses| && s.uses[e] == 0
    ensures e !in s.table && e !in Vec(s.shadow) && e !in Taken(s.offline) && e !in s.inUse
    ensures s.state[e] == Idle <==> e !in s.refused
  {
    assert EntryOk(s, e);
    InIffOccurs(s.deleted, e);
    OnePlace(s, e);
    UnmarkedAreShadowed(s, e);
    hide Occurs;
  }

  /** The idle transition is refused exactly for an entry that was detached
      before it was active, on an interface that still runs. */
  lemma RefusalExact(trace: seq<Hash>, acts: seq<Action>, n: nat)
    requires IsRun(trace, acts) && n < |acts| && acts[n].MarkIdle?
    ensures var s, e := trace[n], Vec(trace[n].shadow)[trace[n].inline.pos];
            e in trace[n + 1].refused <==> s.iface.running && e in s.early
  {
    EveryStateInv(trace, acts, n);
    MarkExact(trace[n]);
    hide Inv;
  }

  // ----- the order of the states -----

  /** `set_state`, transition by transition. */
  lemma SetStateExact(current: EntryState, target: EntryState, iface: Interface)
    ensures var taken :=
              || !iface.running
              || (current == Allocated && target == NotYetDetected)
              || (current == Allocated && target == ProtocolDetected)
              || (current == NotYetDetected && target == ProtocolDetected)
              || (current == ProtocolDetected && target == Active)
              || (current == Active && target == Idle)
              || (current == Allocated && target == Active && !iface.isPacket && iface.skipDpi);
            SetState(current, target, iface) == if taken then target else current
  {
  }

  /** Along every run, while the interface runs: an update never takes an entry back,
      and skips a state only from allocated, to detected, or to active for collected
      flows. Each single step ahead is taken on every interface. */
  lemma PromoteExact(trace: seq<Hash>, acts: seq<Action>, n: nat)
    requires IsRun(trace, acts) && n < |acts| && acts[n].Promote? && trace[n].iface.running
    ensures var e, target := acts[n].entry, acts[n].target;
            && e < |trace[n].state| == |trace[n + 1].state|
            && var was, now := trace[n].state[e], trace[n + 1].state[e];
            && Rank(was) <= Rank(now)
            && (Rank(now) > Rank(was) + 1 ==>
                  && was == Allocated
                  && (now == ProtocolDetected || (now == Active && !trace[n].iface.isPacket && trace[n].iface.skipDpi)))
            && (Rank(target) == Rank(was) + 1 ==> now == target)
            && (now == was || now == target)
            && forall x | 0 <= x < |trace[n].state| && x != e :: trace[n + 1].state[x] == trace[n].state[x]
  {
    SetStateExact(trace[n].state[acts[n].entry], acts[n].target, trace[n].iface);
    hide SetState;
  }

  /** The two changes that are not checked: an entry put back is allocated, whatever it
      was, and a stopped interface stays stopped. */
  lemma {:induction false} UncheckedChanges(trace: seq<Hash>, acts: seq<Action>, n: nat, m: nat)
    requires IsRun(trace, acts) && n < |acts| && n < m < |trace|
    ensures acts[n].StepBack? ==>
              var e := acts[n].entry;
              e < |trace[n].state| && trace[n + 1].state == trace[n].state[e := Allocated]
    ensures acts[n].StopInterface? ==> !trace[m].iface.running
    decreases m
  {
    hide HasEmptyRoom, SetState;
    if n + 1 < m {
      UncheckedChanges(trace, acts, n, m - 1);
      assert trace[m - 1 + 1] == Next(trace[m - 1], acts[m - 1]);
    }
  }

  /** What one step does to an entry's state. */
  lemma StepState(s: Hash, a: Action, e: nat)
    requires Enabled(s, a) && e < |s.state|
    ensures var t := Next(s, a);
            && e < |t.state| && (t.iface.running ==> s.iface.running)
            && (s.iface.running && a != StepBack(e) ==> Rank(s.state[e]) <= Rank(t.state[e]))
            && (s.iface.running && t.state[e] == Idle ==> s.state[e] == Active || s.state[e] == Idle)
  {
    hide HasEmptyRoom, SetState;
    if a.Promote? {
      SetStateExact(s.state[a.entry], a.target, s.iface);
    } else if a.MarkIdle? {
      var x := Vec(s.shadow)[s.inline.pos];
      SetStateExact(s.state[x], Idle, s.iface);
    }
  }

  /** While the interface runs an entry that is not put back to allocated only moves
      ahead. */
  lemma {:induction false} StatesAdvance(trace: seq<Hash>, acts: seq<Action>, n: nat, m: nat, e: nat)
    requires IsRun(trace, acts) && n <= m < |trace| && e < |trace[n].state| && trace[m].iface.running
    requires forall i | n <= i < m :: acts[i] != StepBack(e)
    ensures e < |trace[m].state| && Rank(trace[n].state[e]) <= Rank(trace[m].state[e])
    decreases m
  {
    hide Enabled, Next;
    if n < m {
      assert trace[m - 1 + 1] == Next(trace[m - 1], acts[m - 1]);
      EntryStays(trace, acts, n, m - 1, e);
      StepState(trace[m - 1], acts[m - 1], e);
      StatesAdvance(trace, acts, n, m - 1, e);
    }
  }

  lemma {:induction false} EntryStays(trace: seq<Hash>, acts: seq<Action>, n: nat, m: nat, e: nat)
    requires IsRun(trace, acts) && n <= m < |trace| && e < |trace[n].state|
    ensures e < |trace[m].state|
    decreases m
  {
    hide Enabled, Next;
    if n < m {
      EntryStays(trace, acts, n, m - 1, e);
      assert trace[m - 1 + 1] == Next(trace[m - 1], acts[m - 1]);
      StepState(trace[m - 1], acts[m - 1], e);
    }
  }

  /** While the interface runs an entry is idle only if it was active before. */
  lemma {:induction false} IdleWasActive(trace: seq<Hash>, acts: seq<Action>, n: nat, e: nat)
    requires IsRun(trace, acts) && n < |trace| && e < |trace[n].state|
    requires trace[n].iface.running && trace[n].state[e] == Idle
    ensures exists i: nat :: i < n && e < |trace[i].state| && trace[i].state[e] == Active
  {
    hide Enabled, Next;
    if n > 0 {
      var s, a := trace[n - 1], acts[n - 1];
      assert trace[n - 1 + 1] == Next(s, a);
      if e < |s.state| {
        StepState(s, a, e);
        if s.state[e] == Idle {
          IdleWasActive(trace, acts, n - 1, e);
        }
      } else {
        NewState(s, a, e);
      }
    }
  }

  lemma NewState(s: Hash, a: Action, e: nat)
    requires Enabled(s, a) && e >= |s.state|
    ensures e < |Next(s, a).state| ==> Next(s, a).state[e] != Idle
  {
    hide HasEmptyRoom, SetState;
  }

  // ----- uses -----

  /** The uses of entry `e` that an action takes, less those it returns. */
  function UsesTaken(s: Hash, a: Action, e: nat): int {
    match a
    case IncUses(x) => if x == e then 1 else 0
    case DecUses(x) => if x == e then -1 else 0
    case Housekeep(dumps) =>
      if s.inline.Housekeeping? && s.inline.pos < |Vec(s.shadow)| && Vec(s.shadow)[s.inline.pos] == e then dumps else 0
    case _ => 0
  }

  /** The same for the first `n` actions of a run. */
  function NetUses(trace: seq<Hash>, acts: seq<Action>, n: nat, e: nat): int
    requires n <= |acts| <= |trace|
  {
    if n == 0 then 0 else NetUses(trace, acts, n - 1, e) + UsesTaken(trace[n - 1], acts[n - 1], e)
  }

  lemma StepUses(s: Hash, a: Action, e: nat)
    requires Enabled(s, a) && |s.state| == |s.uses|
    ensures var t := Next(s, a);
            && |t.state| == |t.uses| >= |s.uses|
            && (if e < |t.uses| then t.uses[e] else 0) == (if e < |s.uses| then s.uses[e] else 0) + UsesTaken(s, a, e)
  {
    hide HasEmptyRoom, SetState;
  }

  /** The use count is what was taken of the entry less what was returned, and an entry
      is deleted only when everything has been returned. */
  lemma {:induction false} UsesExact(trace: seq<Hash>, acts: seq<Action>, n: nat, e: nat)
    requires IsRun(trace, acts) && n < |trace|
    ensures |trace[n].state| == |trace[n].uses|
    ensures NetUses(trace, acts, n, e) == if e < |trace[n].uses| then trace[n].uses[e] else 0
    ensures e in trace[n].deleted ==> NetUses(trace, acts, n, e) == 0
  {
    if n > 0 {
      UsesExact(trace, acts, n - 1, e);
      assert trace[n - 1 + 1] == Next(trace[n - 1], acts[n - 1]);
      StepUses(trace[n - 1], acts[n - 1], e);
    }
    hide Enabled, Next, Inv;
    if e in trace[n].deleted {
      EveryStateInv(trace, acts, n);
      DeletedEntry(trace[n], e);
    }
  }

  /** If forced purges begin only once the interface has stopped, every deleted entry
      has gone through the idle state. */
  lemma DeletedWereIdle(trace: seq<Hash>, acts: seq<Action>, n: nat, e: nat)
    requires IsRun(trace, acts) && n < |trace|
    requires forall i | 0 <= i < n && acts[i] == BeginPurge(true) :: !trace[i].iface.running
    requires e in trace[n].deleted
    ensures e < |trace[n].state| && trace[n].state[e] == Idle
  {
    EveryStateInv(trace, acts, n);
    NothingRefused(trace, acts, n);
    DeletedEntry(trace[n], e);
    assert EntryOk(trace[n], e);
  }

  /** While the interface runs no forced scan is under way and nothing was detached
      early; nothing is ever refused. */
  predicate Orderly(s: Hash) {
    && s.refused == {}
    && (s.iface.running ==> s.early == {} && (s.inline.Swapping? || s.inline.Scanning? ==> !s.inline.force))
  }

  lemma {:induction false} NothingRefused(trace: seq<Hash>, acts: seq<Action>, n: nat)
    requires IsRun(trace, acts) && n < |trace|
    requires forall i | 0 <= i < n && acts[i] == BeginPurge(true) :: !trace[i].iface.running
    ensures Orderly(trace[n])
  {
    hide Orderly, Next, Enabled, Inv;
    if n == 0 {
      StartsOrderly(trace[0]);
    } else {
      NothingRefused(trace, acts, n - 1);
      EveryStateInv(trace, acts, n - 1);
      assert trace[n - 1 + 1] == Next(trace[n - 1], acts[n - 1]);
      OrderlyStep(trace[n - 1], acts[n - 1]);
    }
  }

  lemma StartsOrderly(s: Hash)
    requires exists m, iface :: s == Initial(m, iface)
    ensures Orderly(s)
  {
  }

  lemma OrderlyStep(s: Hash, a: Action)
    requires Inv(s) && Enabled(s, a) && Orderly(s) && (a == BeginPurge(true) ==> !s.iface.running)
    ensures Orderly(Next(s, a))
  {
    if a.MarkIdle? {
      MarkExact(s);
    } else {
      hide HasEmptyRoom, SetState, Inv;
    }
  }

  /** Marking refuses exactly an entry detached early on a running interface, and
      changes no other entry's record. */
  lemma MarkExact(s: Hash)
    requires Inv(s) && Enabled(s, MarkIdle)
    ensures var e, t := Vec(s.shadow)[s.inline.pos], Next(s, MarkIdle);
            && t.early == s.early && t.iface == s.iface && t.inline == Housekeeping(s.inline.pos)
            && t.refused == s.refused + (if s.iface.running && e in s.early then {e} else {})
            && e !in s.refused
  {
    MarkedEntry(s);
    hide Inv;
  }

  /** The entry about to be marked. */
  lemma MarkedEntry(s: Hash)
    requires Inv(s) && Enabled(s, MarkIdle)
    ensures var e := Vec(s.shadow)[s.inline.pos];
            s.state[e] != Idle && (s.state[e] == Active <==> e !in s.early) && e !in s.refused
  {
    var e := Vec(s.shadow)[s.inline.pos];
    assert EntryOk(s, e);
    assert e in UnmarkedEntries(s) by {
      assert UnmarkedEntries(s)[0] == e;
    }
    hide Inv, Shaped, Counted, Bounded, UnmarkedEntries;
    OnePlace(s, e);
    hide Places;
  }

  // ----- which deleted entries were never idle -----

  /** Action `i` detached entry `e` before it was active. */
  ghost predicate DetachedEarly(trace: seq<Hash>, acts: seq<Action>, i: nat, e: nat) {
    && i < |acts| && i < |trace| && acts[i] == Detach(e) && e < |trace[i].state|
    && Settled(trace[i].state[e]) != Active
  }

  /** Action `i` told entry `e` to become idle while the interface ran. */
  ghost predicate MarkedRunning(trace: seq<Hash>, acts: seq<Action>, i: nat, e: nat) {
    && i < |acts| && i < |trace| && acts[i].MarkIdle? && trace[i].iface.running && trace[i].inline.Marking?
    && trace[i].inline.pos < |Vec(trace[i].shadow)| && Vec(trace[i].shadow)[trace[i].inline.pos] == e
  }

  /** What the histories record. */
  lemma {:induction false} EarlyExact(trace: seq<Hash>, acts: seq<Action>, n: nat, e: nat)
    requires IsRun(trace, acts) && n < |trace|
    ensures e in trace[n].early <==> exists i: nat :: i < n && DetachedEarly(trace, acts, i, e)
  {
    if n > 0 {
      EarlyExact(trace, acts, n - 1, e);
      var s, a := trace[n - 1], acts[n - 1];
      assert trace[n - 1 + 1] == Next(s, a);
      EarlyStep(s, a, e);
      hide Next, Enabled;
      if a == Detach(e) && e < |s.state| && Settled(s.state[e]) != Active {
        assert DetachedEarly(trace, acts, n - 1, e);
      }
    }
  }

  lemma EarlyStep(s: Hash, a: Action, e: nat)
    requires Enabled(s, a)
    ensures e in Next(s, a).early <==> e in s.early || (a == Detach(e) && e < |s.state| && Settled(s.state[e]) != Active)
  {
    hide HasEmptyRoom, SetState;
  }

  /** Action `i` was refused for entry `e`. */
  ghost predicate RefusedAt(trace: seq<Hash>, acts: seq<Action>, i: nat, e: nat) {
    MarkedRunning(trace, acts, i, e) && e in trace[i].early
  }

  lemma {:induction false} RefusedExact(trace: seq<Hash>, acts: seq<Action>, n: nat, e: nat)
    requires IsRun(trace, acts) && n < |trace|
    ensures e in trace[n].refused <==> exists i: nat :: i < n && RefusedAt(trace, acts, i, e)
  {
    RunLengths(trace, acts);
    hide IsRun, RefusedAt;
    if n > 0 {
      RefusedExact(trace, acts, n - 1, e);
      RefusedStep(trace, acts, n - 1, e);
    }
  }

  lemma RunLengths(trace: seq<Hash>, acts: seq<Action>)
    requires IsRun(trace, acts)
    ensures |trace| == |acts| + 1 && trace[0].refused == {}
  {
    hide Next, Enabled;
  }

  lemma RefusedStep(trace: seq<Hash>, acts: seq<Action>, n: nat, e: nat)
    requires IsRun(trace, acts) && n < |acts|
    ensures e in trace[n + 1].refused <==> e in trace[n].refused || RefusedAt(trace, acts, n, e)
  {
    EveryStateInv(trace, acts, n);
    var s, a := trace[n], acts[n];
    assert trace[n + 1] == Next(s, a);
    hide IsRun;
    if a.MarkIdle? {
      MarkExact(s);
      hide Next, Inv;
    } else {
      hide HasEmptyRoom, SetState, Inv;
    }
  }

  /** Exactly which deleted entries were never idle: those detached before they were
      active, which only a forced purge does, and marked while the interface ran. */
  lemma DeletedIdleExact(trace: seq<Hash>, acts: seq<Action>, n: nat, e: nat)
    requires IsRun(trace, acts) && n < |trace| && e in trace[n].deleted
    ensures e < |trace[n].state|
    ensures trace[n].state[e] != Idle <==>
              exists i: nat, j: nat :: i < j < n && DetachedEarly(trace, acts, i, e) && MarkedRunning(trace, acts, j, e)
  {
    EveryStateInv(trace, acts, n);
    DeletedEntry(trace[n], e);
    RefusedExact(trace, acts, n, e);
    assert EntryOk(trace[n], e);
    hide Inv, EntryOk, Next, Enabled;
    if trace[n].state[e] != Idle {
      var j: nat :| j < n && RefusedAt(trace, acts, j, e);
      EarlyExact(trace, acts, j, e);
      var i: nat :| i < j && DetachedEarly(trace, acts, i, e);
    }
    if i: nat, j: nat :| i < j < n && DetachedEarly(trace, acts, i, e) && MarkedRunning(trace, acts, j, e) {
      EarlyExact(trace, acts, j, e);
      assert RefusedAt(trace, acts, j, e);
    }
  }

  /** One added entry in state `Allocated`, a forced purge, the next hand-over and the
      purging thread, with the interface running throughout. */
  const ForcedActions := [
    AddEntry(Allocated), BeginPurge(true), NewShadow, Detach(0), EndScan, MarkIdle, Housekeep(0), CountIdle, EndPurge,
    BeginPurge(false), Load, Clear, Check, Delete]

  function ForcedScan(iface: Interface): seq<Hash> {
    var s0 := Initial(10, iface);
    var s1 := s0.(table := {0}, state := [Allocated], uses := [0]);
    var s2 := s1.(inline := Swapping(true));
    var s3 := s2.(shadow := Some([]), inline := Scanning(true, 0));
    var s4 := s3.(table := {}, shadow := Some([0]), early := {0});
    [s0, s1, s2, s3, s4, s4.(inline := Marking(0))]
  }

  function ForcedMark(iface: Interface): seq<Hash> {
    var s6 := ForcedScan(iface)[5].(inline := Housekeeping(0), refused := {0});
    var s7 := s6.(inline := Counting(0));
    var s8 := s7.(numIdle := 1, inline := Marking(1));
    [s6, s7, s8, s8.(inline := Ready)]
  }

  function ForcedDelete(iface: Interface): seq<Hash> {
    var s10 := ForcedMark(iface)[3].(idle := Some([0]), shadow := None, inline := Swapping(false));
    var s11 := s10.(offline := Loaded);
    var s12 := s11.(offline := Sweeping([0], 0), idle := None);
    var s13 := s12.(offline := Deleting([0], 0));
    [s10, s11, s12, s13, s13.(deleted := [0], offline := Purging([0], 0))]
  }

  ghost predicate Follows(s: Hash, a: Action, t: Hash) {
    Enabled(s, a) && t == Next(s, a)
  }

  lemma ForcedAdd(iface: Interface)
    ensures Follows(ForcedScan(iface)[0], ForcedActions[0], ForcedScan(iface)[1])
  {
    assert {} + {0} == {0};
  }

  lemma ForcedScanFollows(iface: Interface, i: nat)
    requires i < 5
    ensures Follows(ForcedScan(iface)[i], ForcedActions[i], ForcedScan(iface)[i + 1])
  {
    if i == 0 {
      ForcedAdd(iface);
    } else if i == 3 {
      hide HasEmptyRoom, SetState;
      var s := ForcedScan(iface)[3];
      assert s.table - {0} == {} && s.early + {0} == {0};
      assert s.state[0 := Allocated] == s.state && Vec(s.shadow) + [0] == [0];
    }
  }

  lemma ForcedMarkFollows(iface: Interface, i: nat)
    requires i < 3
    ensures Follows(ForcedMark(iface)[i], ForcedActions[6 + i], ForcedMark(iface)[i + 1])
  {
    hide HasEmptyRoom, SetState;
  }

  lemma ForcedRefusal(iface: Interface)
    requires iface.running
    ensures Follows(ForcedScan(iface)[5], ForcedActions[5], ForcedMark(iface)[0])
  {
    hide HasEmptyRoom;
    assert {} + {0} == {0};
  }

  lemma ForcedDeleteFollows(iface: Interface, i: nat)
    requires i < 4
    ensures Follows(ForcedMark(iface)[3], ForcedActions[9], ForcedDelete(iface)[0])
    ensures Follows(ForcedDelete(iface)[i], ForcedActions[10 + i], ForcedDelete(iface)[i + 1])
  {
  }

  function ForcedTrace(iface: Interface): seq<Hash> {
    ForcedScan(iface) + ForcedMark(iface) + ForcedDelete(iface)
  }

  lemma ForcedStep(iface: Interface, i: nat)
    requires iface.running && i < 14
    ensures Follows(ForcedTrace(iface)[i], ForcedActions[i], ForcedTrace(iface)[i + 1])
  {
    hide ForcedActions, Follows;
    if i < 5 {
      ForcedScanFollows(iface, i);
    } else if i == 5 {
      ForcedRefusal(iface);
    } else if i < 9 {
      ForcedMarkFollows(iface, i - 6);
    } else {
      ForcedDeleteFollows(iface, if i == 9 then 0 else i - 10);
    }
  }

  /** A forced purge on a running interface does get an entry deleted that is still
      only allocated. */
  lemma ForcedPurgeSkipsIdle(iface: Interface)
    requires iface.running
    ensures IsRun(ForcedTrace(iface), ForcedActions)
    ensures var s := ForcedTrace(iface)[14];
            s.deleted == [0] && s.state == [Allocated] && s.iface.running
  {
    var t := ForcedTrace(iface);
    assert t[0] == Initial(10, iface) && |t| == 15;
    forall i | 0 <= i < 14 ensures Enabled(t[i], ForcedActions[i]) && t[i + 1] == Next(t[i], ForcedActions[i]) {
      hide Next, Enabled;
      ForcedStep(iface, i);
    }
    hide Next, Enabled;
  }
}
