/**
 Publication of a host's listening ports (Host::setListeningPorts): one writer
 replaces the published object by an atomic exchange, keeps the displaced object
 in a shadow slot, and deletes it at the next accepted update; readers load the
 published pointer without any lock. The writer's call is split into its separate
 assignments, and a clock runs between all steps.
 */
module ListeningPorts {
  import opened Basics

  const MIN_UPDATE_INTERVAL: nat := 10 // seconds

  /** The life of one ListeningPorts object: `now` values are those passed to the
      call that displaced or freed it, `at` values are clock readings. */
  datatype Status =
    | Fresh
    | Published
    | Displaced(now: nat, at: nat)
    | Freed(now: nat, at: nat, freeNow: nat, freeAt: nat)

  /** Where the writer is inside `setListeningPorts`. */
  datatype Writer =
    | Outside
    | Accepted(now: nat)                 // the interval test passed
    | Allocated(now: nat, obj: nat)   // new object built
    | ShadowGone(now: nat, obj: nat)  // old shadow deleted
    | Exchanged(now: nat)                // new object published

  /** A reader between loading the pointer and its last use of the object. */
  datatype Reader = Reader(obj: nat, loadedAt: nat)

  /** `freed` lists every deletion, in order, whatever was deleted. */
  datatype State = State(
    current: Option<nat>, shadow: Option<nat>, lastUpdate: nat,
    objects: seq<Status>, freed: seq<nat>, writer: Writer, readers: seq<Reader>, clock: nat, lastNow: nat)

  datatype Action =
    | Tick(secs: nat)        // seconds pass
    | Call(now: nat)       // the writer calls with a time it read earlier
    | Allocate(ok: bool)
    | DeleteShadow
    | Exchange
    | Stamp
    | Load                 // some reader loads the pointer
    | Finish(reader: nat)

  function Initial(): State {
    State(None, None, 0, [], [], Outside, [], 0, 0)
  }

  predicate Enabled(s: State, a: Action) {
    match a
    case Tick(_) => true
    case Call(now) => s.writer.Outside? && s.lastNow <= now <= s.clock
    case Allocate(_) => s.writer.Accepted?
    case DeleteShadow => s.writer.Allocated?
    case Exchange => s.writer.ShadowGone?
    case Stamp => s.writer.Exchanged?
    case Load => s.current.Some?
    case Finish(r) => r < |s.readers|
  }

  function SetStatus(objects: seq<Status>, i: nat, st: Status): seq<Status> {
    if i < |objects| then objects[i := st] else objects
  }

  /** `delete`, on any object whatever its status. */
  function Delete(objects: seq<Status>, i: nat, now: nat, at: nat): seq<Status> {
    if i >= |objects| then objects
    else match objects[i]
      case Displaced(n, t) => objects[i := Freed(n, t, now, at)]
      case Freed(n, t, _, _) => objects[i := Freed(n, t, now, at)]
      case _ => objects[i := Freed(now, at, now, at)]
  }

  function Next(s: State, a: Action): State
    requires Enabled(s, a)
  {
    match a
    case Tick(secs) => s.(clock := s.clock + secs)
    case Call(now) =>
      if now < s.lastUpdate + MIN_UPDATE_INTERVAL then s.(lastNow := now)
      else s.(writer := Accepted(now), lastNow := now)
    case Allocate(ok) =>
      if ok then s.(objects := s.objects + [Fresh], writer := Allocated(s.writer.now, |s.objects|))
      else s.(writer := Outside)
    case DeleteShadow =>
      var w := ShadowGone(s.writer.now, s.writer.obj);
      if s.shadow.None? then s.(writer := w)
      else s.(objects := Delete(s.objects, s.shadow.value, s.writer.now, s.clock),
              freed := s.freed + [s.shadow.value], writer := w)
    case Exchange =>
      var displaced := match s.current
        case Some(i) => SetStatus(s.objects, i, Displaced(s.writer.now, s.clock))
        case None => s.objects;
      s.(objects := SetStatus(displaced, s.writer.obj, Published),
         shadow := s.current, current := Some(s.writer.obj), writer := Exchanged(s.writer.now))
    case Stamp => s.(lastUpdate := s.writer.now, writer := Outside)
    case Load => s.(readers := s.readers + [Reader(s.current.value, s.clock)])
    case Finish(r) => s.(readers := s.readers[..r] + s.readers[r + 1..])
  }

  ghost predicate IsRun(trace: seq<State>, acts: seq<Action>) {
    && |trace| == |acts| + 1 && trace[0] == Initial()
    && forall i | 0 <= i < |acts| :: Enabled(trace[i], acts[i]) && trace[i + 1] == Next(trace[i], acts[i])
  }

  // ----- the invariant -----

  /** The time base the next accepted call will be compared with. */
  function Base(s: State): nat {
    if s.writer.Exchanged? then s.writer.now else s.lastUpdate
  }

  /** Each object's status agrees with the pointers that name it. */
  ghost predicate ObjectOk(s: State, i: nat)
    requires i < |s.objects|
  {
    match s.objects[i]
    case Fresh => (s.writer.Allocated? || s.writer.ShadowGone?) && s.writer.obj == i
                  && s.current != Some(i) && s.shadow != Some(i)
    case Published => s.current == Some(i) && s.shadow != Some(i)
    case Displaced(now, at) => s.shadow == Some(i) && s.current != Some(i) && now == Base(s) && now <= at <= s.clock
                               && !s.writer.ShadowGone?
    case Freed(now, at, freeNow, freeAt) =>
      && s.current != Some(i) && (s.shadow == Some(i) ==> s.writer.ShadowGone?)
      && now + MIN_UPDATE_INTERVAL <= freeNow <= freeAt <= s.clock && now <= at
  }

  ghost predicate PointersOk(s: State) {
    && (s.current.Some? ==> s.current.value < |s.objects| && s.objects[s.current.value].Published?)
    && (s.shadow.Some? ==> s.shadow.value < |s.objects| && s.shadow != s.current
                           && (s.writer.ShadowGone? ==> s.objects[s.shadow.value].Freed?)
                           && (!s.writer.ShadowGone? ==> s.objects[s.shadow.value].Displaced?))
    && (s.writer.Allocated? || s.writer.ShadowGone? ==> s.writer.obj < |s.objects| && s.objects[s.writer.obj].Fresh?)
  }

  ghost predicate TimesOk(s: State) {
    && s.lastNow <= s.clock && Base(s) <= s.lastNow
    && (!s.writer.Outside? ==> s.writer.now == s.lastNow)
    && (s.writer.Accepted? || s.writer.Allocated? || s.writer.ShadowGone? ==> s.lastUpdate + MIN_UPDATE_INTERVAL <= s.writer.now)
  }

  /** A reader's object was the published one when it was loaded: it is still
      published, or it was displaced no earlier than that. */
  ghost predicate ReaderOk(s: State, r: Reader) {
    && r.obj < |s.objects| && r.loadedAt <= s.clock
    && match s.objects[r.obj]
       case Fresh => false
       case Published => true
       case Displaced(_, at) => r.loadedAt <= at
       case Freed(_, at, _, _) => r.loadedAt <= at
  }

  /** The deletions so far are one for each freed object and none for any other. */
  ghost predicate FreedOk(s: State) {
    && (forall i, j | 0 <= i < j < |s.freed| :: s.freed[i] != s.freed[j])
    && (forall i | 0 <= i < |s.freed| :: s.freed[i] < |s.objects| && s.objects[s.freed[i]].Freed?)
    && (forall i | 0 <= i < |s.objects| && s.objects[i].Freed? :: i in s.freed)
  }

  ghost predicate Inv(s: State) {
    && PointersOk(s) && TimesOk(s) && FreedOk(s)
    && (forall i | 0 <= i < |s.objects| :: ObjectOk(s, i))
    && (forall r | 0 <= r < |s.readers| :: ReaderOk(s, s.readers[r]))
  }

  lemma KeepsPointers(s: State, a: Action)
    requires Inv(s) && Enabled(s, a)
    ensures PointersOk(Next(s, a)) && TimesOk(Next(s, a))
  {
    if s.current.Some? {
      assert ObjectOk(s, s.current.value);
    }
  }

  lemma KeepsFreed(s: State, a: Action)
    requires Inv(s) && Enabled(s, a)
    ensures FreedOk(Next(s, a))
  {
    hide ReaderOk, TimesOk, ObjectOk;
    var t := Next(s, a);
    FreedLog(s, a);
    forall i: nat ensures (i < |t.objects| && t.objects[i].Freed?) <==> (i < |s.objects| && s.objects[i].Freed?) || Deletes(s, a, i) {
      FreedChange(s, a, i);
    }
    hide Next, Enabled;
    forall i, j | 0 <= i < j < |t.freed| ensures t.freed[i] != t.freed[j] {
      if j == |s.freed| {
        FreedChange(s, a, t.freed[j]);
      }
    }
  }

  predicate Deletes(s: State, a: Action, i: nat) {
    a.DeleteShadow? && s.shadow == Some(i)
  }

  lemma FreedLog(s: State, a: Action)
    requires Enabled(s, a)
    ensures Next(s, a).freed == s.freed + (if a.DeleteShadow? && s.shadow.Some? then [s.shadow.value] else [])
  {
  }

  /** Which objects a step frees: only the shadow, which was not freed before. */
  lemma FreedChange(s: State, a: Action, i: nat)
    requires PointersOk(s) && Enabled(s, a)
    ensures var t := Next(s, a);
            && ((i < |t.objects| && t.objects[i].Freed?) <==> (i < |s.objects| && s.objects[i].Freed?) || Deletes(s, a, i))
            && (Deletes(s, a, i) ==> i < |s.objects| && !s.objects[i].Freed?)
  {
  }

  lemma KeepsObject(s: State, a: Action, i: nat)
    requires Inv(s) && Enabled(s, a) && i < |Next(s, a).objects|
    ensures ObjectOk(Next(s, a), i)
  {
    assert i < |s.objects| ==> ObjectOk(s, i);
  }

  lemma KeepsReader(s: State, a: Action, r: Reader)
    requires Inv(s) && Enabled(s, a) && ReaderOk(s, r)
    ensures ReaderOk(Next(s, a), r)
  {
    assert ObjectOk(s, r.obj);
  }

  lemma KeepsInv(s: State, a: Action)
    requires Inv(s) && Enabled(s, a)
    ensures Inv(Next(s, a))
  {
    hide ReaderOk;
    var t := Next(s, a);
    KeepsPointers(s, a);
    KeepsFreed(s, a);
    forall i | 0 <= i < |t.objects| ensures ObjectOk(t, i) {
      KeepsObject(s, a, i);
    }
    forall r | 0 <= r < |t.readers| ensures ReaderOk(t, t.readers[r]) {
      ReaderOrigin(s, a, r);
      if a.Load? && r == |s.readers| {
        LoadedReader(s);
      } else {
        KeepsReader(s, a, t.readers[r]);
      }
    }
  }

  lemma ReaderOrigin(s: State, a: Action, r: nat)
    requires Enabled(s, a) && r < |Next(s, a).readers|
    ensures (a.Load? && r == |s.readers|) || exists q :: 0 <= q < |s.readers| && s.readers[q] == Next(s, a).readers[r]
  {
    if a.Finish? && r >= a.reader {
      assert s.readers[r + 1] == Next(s, a).readers[r];
    } else if r < |s.readers| {
      assert s.readers[r] == Next(s, a).readers[r];
    }
  }

  lemma LoadedReader(s: State)
    requires Inv(s) && Enabled(s, Load)
    ensures ReaderOk(Next(s, Load), Reader(s.current.value, s.clock))
  {
  }

  lemma {:induction false} EveryStateInv(trace: seq<State>, acts: seq<Action>, n: nat)
    requires IsRun(trace, acts) && n < |trace|
    ensures Inv(trace[n])
  {
    if n > 0 {
      EveryStateInv(trace, acts, n - 1);
      KeepsInv(trace[n - 1], acts[n - 1]);
    }
  }

  // ----- reclamation is late enough -----

  /** The call that frees an object carries a time at least 10 s after the time
      of the call that displaced it; on the clock the gap is 10 s less however
      long the displacing call waited between reading the time and exchanging. */
  lemma FreedTenSecondsLater(trace: seq<State>, acts: seq<Action>, n: nat, i: nat)
    requires IsRun(trace, acts) && n < |trace| && i < |trace[n].objects| && trace[n].objects[i].Freed?
    ensures var f := trace[n].objects[i];
            && f.freeNow >= f.now + MIN_UPDATE_INTERVAL
            && f.freeAt - f.at >= MIN_UPDATE_INTERVAL - (f.at - f.now)
  {
    EveryStateInv(trace, acts, n);
    assert ObjectOk(trace[n], i);
  }

  /** A reader can find its object freed only when 10 s, less the displacing
      call's delay, have passed since it loaded the pointer. */
  lemma ReaderHasTime(trace: seq<State>, acts: seq<Action>, n: nat, r: nat)
    requires IsRun(trace, acts) && n < |trace| && r < |trace[n].readers|
    ensures var s, o := trace[n], trace[n].readers[r].obj;
            && o < |s.objects| && !s.objects[o].Fresh?
            && (s.objects[o].Freed? ==>
                  s.clock >= s.readers[r].loadedAt + MIN_UPDATE_INTERVAL - (s.objects[o].at - s.objects[o].now))
  {
    EveryStateInv(trace, acts, n);
    var s := trace[n];
    assert ReaderOk(s, s.readers[r]);
    assert ObjectOk(s, s.readers[r].obj);
  }

  // ----- the same, in terms of the actions alone -----

  /** The time passed to the latest call. */
  function LatestCall(acts: seq<Action>): nat {
    if acts == [] then 0
    else if acts[|acts| - 1].Call? then acts[|acts| - 1].now
    else LatestCall(acts[..|acts| - 1])
  }

  /** Action `j` exchanges object `i` for a new one. */
  ghost predicate DisplacedAt(trace: seq<State>, acts: seq<Action>, j: nat, i: nat) {
    j < |acts| && j < |trace| && acts[j].Exchange? && trace[j].current == Some(i)
  }

  /** Action `k` deletes object `i`. */
  ghost predicate DeletedAt(trace: seq<State>, acts: seq<Action>, k: nat, i: nat) {
    k < |acts| && k < |trace| && acts[k].DeleteShadow? && trace[k].shadow == Some(i)
  }

  lemma {:induction false} LatestCallExact(trace: seq<State>, acts: seq<Action>, n: nat)
    requires IsRun(trace, acts) && n < |trace|
    ensures trace[n].lastNow == LatestCall(acts[..n])
  {
    if n > 0 {
      LatestCallExact(trace, acts, n - 1);
      assert trace[n - 1 + 1] == Next(trace[n - 1], acts[n - 1]);
      assert acts[..n][..n - 1] == acts[..n - 1];
    }
  }

  /** How a step changes an object's status. */
  lemma StatusStep(s: State, a: Action, i: nat)
    requires Inv(s) && Enabled(s, a) && i < |Next(s, a).objects|
    ensures var st := Next(s, a).objects[i];
            || (i < |s.objects| && st == s.objects[i])
            || st.Fresh? || st.Published?
            || (a.Exchange? && s.current == Some(i) && st == Displaced(s.lastNow, s.clock))
            || (a.DeleteShadow? && s.shadow == Some(i) && i < |s.objects| && s.objects[i].Displaced?
                && st == Freed(s.objects[i].now, s.objects[i].at, s.lastNow, s.clock))
  {
    hide ReaderOk, FreedOk, ObjectOk;
  }

  /** What the status records: the displacing exchange and the deletion, with the time
      of the call that made them and the clock. */
  lemma {:induction false} RecordsExact(trace: seq<State>, acts: seq<Action>, n: nat, i: nat)
    requires IsRun(trace, acts) && n < |trace| && i < |trace[n].objects|
    ensures match trace[n].objects[i]
            case Displaced(now, at) =>
              exists j: nat :: j < n && DisplacedAt(trace, acts, j, i) && now == LatestCall(acts[..j]) && at == trace[j].clock
            case Freed(now, at, freeNow, freeAt) =>
              exists j: nat, k: nat ::
                j < k < n && DisplacedAt(trace, acts, j, i) && now == LatestCall(acts[..j]) && at == trace[j].clock
                && DeletedAt(trace, acts, k, i) && freeNow == LatestCall(acts[..k]) && freeAt == trace[k].clock
            case _ => true
  {
    if n > 0 {
      var s, a := trace[n - 1], acts[n - 1];
      assert trace[n - 1 + 1] == Next(s, a);
      EveryStateInv(trace, acts, n - 1);
      LatestCallExact(trace, acts, n - 1);
      StatusStep(s, a, i);
      hide Inv, Next, Enabled, LatestCall;
      if i < |s.objects| {
        RecordsExact(trace, acts, n - 1, i);
      }
      assert a.Exchange? && s.current == Some(i) ==> DisplacedAt(trace, acts, n - 1, i);
      assert a.DeleteShadow? && s.shadow == Some(i) ==> DeletedAt(trace, acts, n - 1, i);
    }
  }

  /** Every deletion follows the exchange that displaced the object, and the times of
      the two calls are ten seconds apart or more; on the clock it is ten seconds less
      however long the displacing call waited before its exchange. */
  lemma DeletionFollowsExchange(trace: seq<State>, acts: seq<Action>, k: nat, i: nat)
    requires IsRun(trace, acts) && DeletedAt(trace, acts, k, i)
    ensures exists j: nat :: j < k && DisplacedAt(trace, acts, j, i)
              && LatestCall(acts[..k]) >= LatestCall(acts[..j]) + 10
              && trace[k].clock >= trace[j].clock + 10 - (trace[j].clock - LatestCall(acts[..j]))
  {
    EveryStateInv(trace, acts, k);
    OnlyDisplacedIsDeleted(trace, acts, k);
    LatestCallExact(trace, acts, k);
    RecordsExact(trace, acts, k, i);
    DueForDeletion(trace[k]);
    hide Inv, Next, Enabled, LatestCall, IsRun;
    var j: nat :| j < k && DisplacedAt(trace, acts, j, i)
                  && trace[k].objects[i].now == LatestCall(acts[..j]) && trace[k].objects[i].at == trace[j].clock;
  }

  lemma DueForDeletion(s: State)
    requires Inv(s) && Enabled(s, DeleteShadow) && s.shadow.Some?
    ensures s.shadow.value < |s.objects| && s.objects[s.shadow.value].Displaced?
    ensures s.clock >= s.lastNow >= s.objects[s.shadow.value].now + 10
  {
    assert ObjectOk(s, s.shadow.value);
    hide ReaderOk, FreedOk;
  }

  // ----- objects are freed once -----

  /** Over every run no object is deleted twice, and the deleted objects are exactly
      the ones recorded as freed. */
  lemma FreedOnce(trace: seq<State>, acts: seq<Action>, n: nat, i: nat)
    requires IsRun(trace, acts) && n < |trace|
    ensures var s := trace[n];
            && (forall j, k | 0 <= j < k < |s.freed| :: s.freed[j] != s.freed[k])
            && (i in s.freed <==> i < |s.objects| && s.objects[i].Freed?)
  {
    EveryStateInv(trace, acts, n);
    hide ObjectOk, ReaderOk;
  }

  /** What is deleted was displaced before: never the published object, a new one or
      one already deleted. */
  lemma OnlyDisplacedIsDeleted(trace: seq<State>, acts: seq<Action>, n: nat)
    requires IsRun(trace, acts) && n < |acts| && acts[n].DeleteShadow? && trace[n].shadow.Some?
    ensures var i := trace[n].shadow.value;
            i < |trace[n].objects| && trace[n].objects[i].Displaced? && i !in trace[n].freed
  {
    EveryStateInv(trace, acts, n);
    FreedOnce(trace, acts, n, trace[n].shadow.value);
  }

  /** A freed object stays freed with the same record. */
  lemma {:induction false} FreedForGood(trace: seq<State>, acts: seq<Action>, n: nat, m: nat, i: nat)
    requires IsRun(trace, acts) && n <= m < |trace|
    requires i < |trace[n].objects| && trace[n].objects[i].Freed?
    ensures i < |trace[m].objects| && trace[m].objects[i] == trace[n].objects[i]
    decreases m
  {
    hide Inv;
    hide Next;
    hide Enabled;
    if n < m {
      FreedForGood(trace, acts, n, m - 1, i);
      EveryStateInv(trace, acts, m - 1);
      var s, a := trace[m - 1], acts[m - 1];
      assert trace[m - 1 + 1] == Next(s, a);
      FreedStays(s, a, i);
    }
  }

  lemma FreedStays(s: State, a: Action, i: nat)
    requires Inv(s) && Enabled(s, a) && i < |s.objects| && s.objects[i].Freed?
    ensures i < |Next(s, a).objects| && Next(s, a).objects[i] == s.objects[i]
  {
    assert ObjectOk(s, i);
  }

  // ----- how many objects are alive -----

  function Live(objects: seq<Status>): set<nat> {
    set i | 0 <= i < |objects| && !objects[i].Freed?
  }

  function Named(o: Option<nat>): set<nat> {
    if o.Some? then {o.value} else {}
  }

  function Pending(w: Writer): set<nat> {
    if w.Allocated? || w.ShadowGone? then {w.obj} else {}
  }

  /** The objects alive are exactly the published one, the shadow until it is deleted
      and the one being built. There are more than two, and then three, exactly when
      an update has built its object, has not yet deleted the shadow, and both the
      shadow and the published object exist. */
  lemma LiveObjects(trace: seq<State>, acts: seq<Action>, n: nat)
    requires IsRun(trace, acts) && n < |trace|
    ensures var s := trace[n];
            && Live(s.objects) == Named(s.current) + (if s.writer.ShadowGone? then {} else Named(s.shadow)) + Pending(s.writer)
            && |Live(s.objects)| <= 3
            && (|Live(s.objects)| > 2 <==> s.writer.Allocated? && s.current.Some? && s.shadow.Some?)
  {
    EveryStateInv(trace, acts, n);
    LiveAreNamed(trace[n]);
  }

  lemma LiveAreNamed(s: State)
    requires Inv(s)
    ensures var shadow := if s.writer.ShadowGone? then {} else Named(s.shadow);
            && Live(s.objects) == Named(s.current) + shadow + Pending(s.writer)
            && |Live(s.objects)| == |Named(s.current)| + |shadow| + |Pending(s.writer)|
  {
    hide ReaderOk;
    var shadow := if s.writer.ShadowGone? then {} else Named(s.shadow);
    var named := Named(s.current) + shadow + Pending(s.writer);
    forall i: nat ensures i in Live(s.objects) <==> i in named {
      if i < |s.objects| {
        assert ObjectOk(s, i);
      }
    }
    assert Live(s.objects) == named;
    assert Named(s.current) !! shadow && Named(s.current) + shadow !! Pending(s.writer);
  }

  /** Three objects are reached: by the third update, for one. */
  lemma ThreeObjectsReachable() returns (trace: seq<State>)
    ensures IsRun(trace, DelayedActions(0))
    ensures trace[17].writer.Allocated? && |Live(trace[17].objects)| == 3
  {
    trace := BoundIsTight(0);
    assert trace[17] == ThirdUpdate(0)[2];
    LiveObjects(trace, DelayedActions(0), 17);
  }

  // ----- the bound is tight -----

  /** Two updates ten seconds apart, the second waiting `d` seconds before its
      exchange, and a third ten seconds after the second was called; a reader
      loads the pointer just before the delayed exchange. */
  function DelayedActions(d: nat): seq<Action>
    requires d <= MIN_UPDATE_INTERVAL
  {
    [Tick(10), Call(10), Allocate(true), DeleteShadow, Exchange, Stamp,
     Tick(10), Call(20), Allocate(true), DeleteShadow, Tick(d), Load, Exchange, Stamp,
     Tick(10 - d), Call(30), Allocate(true), DeleteShadow]
  }

  function FirstUpdate(): seq<State> {
    var s0 := Initial();
    var s1 := s0.(clock := 10);
    var s2 := s1.(writer := Accepted(10), lastNow := 10);
    var s3 := s2.(objects := [Fresh], writer := Allocated(10, 0));
    var s4 := s3.(writer := ShadowGone(10, 0));
    var s5 := s4.(objects := [Published], current := Some(0), writer := Exchanged(10));
    [s0, s1, s2, s3, s4, s5, s5.(lastUpdate := 10, writer := Outside)]
  }

  function SecondUpdate(d: nat): seq<State> {
    var s7 := FirstUpdate()[6].(clock := 20);
    var s8 := s7.(writer := Accepted(20), lastNow := 20);
    var s9 := s8.(objects := [Published, Fresh], writer := Allocated(20, 1));
    var s10 := s9.(writer := ShadowGone(20, 1));
    var s11 := s10.(clock := 20 + d);
    var s12 := s11.(readers := [Reader(0, 20 + d)]);
    var s13 := s12.(objects := [Displaced(20, 20 + d), Published], shadow := Some(0), current := Some(1), writer := Exchanged(20));
    [s7, s8, s9, s10, s11, s12, s13, s13.(lastUpdate := 20, writer := Outside)]
  }

  function ThirdUpdate(d: nat): seq<State> {
    var s15 := SecondUpdate(d)[7].(clock := 30);
    var s16 := s15.(writer := Accepted(30), lastNow := 30);
    var s17 := s16.(objects := [Displaced(20, 20 + d), Published, Fresh], writer := Allocated(30, 2));
    [s15, s16, s17,
     s17.(objects := [Freed(20, 20 + d, 30, 30), Published, Fresh], freed := [0], writer := ShadowGone(30, 2))]
  }

  ghost predicate StepsFollow(trace: seq<State>, acts: seq<Action>, from: nat) {
    from + |trace| <= |acts| + 1
    && forall i | 0 <= i < |trace| - 1 ::
         Enabled(trace[i], acts[from + i]) && trace[i + 1] == Next(trace[i], acts[from + i])
  }

  function DelayedTrace(d: nat): seq<State> {
    FirstUpdate() + SecondUpdate(d) + ThirdUpdate(d)
  }

  /** For every delay up to ten seconds some run frees the object a reader holds
      exactly `10 - d` seconds after it was loaded; with a delay of ten seconds
      that is at once. */
  lemma BoundIsTight(d: nat) returns (trace: seq<State>)
    requires d <= MIN_UPDATE_INTERVAL
    ensures IsRun(trace, DelayedActions(d))
    ensures trace == DelayedTrace(d)
    ensures var s := trace[18];
            && s.freed == [0] && s.readers == [Reader(0, 20 + d)] && |s.objects| == 3 && s.objects[0] == Freed(20, 20 + d, 30, 30)
            && s.clock == s.readers[0].loadedAt + MIN_UPDATE_INTERVAL - d
  {
    FirstUpdateFollows(d);
    SecondUpdateFollows(d);
    ThirdUpdateFollows(d);
    var a, b, c := FirstUpdate(), SecondUpdate(d), ThirdUpdate(d);
    trace := a + b + c;
    JoinRuns(a, b, c, DelayedActions(d));
  }

  // ----- lag against safety -----

  /** Every exchange comes at most `d` seconds after the time its call was given. */
  ghost predicate LagsAtMost(trace: seq<State>, acts: seq<Action>, d: nat) {
    forall i | 0 <= i < |acts| && i < |trace| && acts[i].Exchange? && trace[i].writer.ShadowGone? ::
      trace[i].clock <= trace[i].writer.now + d
  }

  /** Every object is freed at least `g` seconds after it was displaced. */
  ghost predicate FreesAfter(trace: seq<State>, g: nat) {
    forall n, i | 0 <= n < |trace| && 0 <= i < |trace[n].objects| && trace[n].objects[i].Freed? ::
      trace[n].objects[i].freeAt >= trace[n].objects[i].at + g
  }

  ghost predicate DisplacedInTime(s: State, d: nat) {
    forall i | 0 <= i < |s.objects| ::
      match s.objects[i]
      case Displaced(now, at) => at <= now + d
      case Freed(now, at, _, _) => at <= now + d
      case _ => true
  }

  lemma {:induction false} LagBoundsDisplacing(trace: seq<State>, acts: seq<Action>, d: nat, n: nat)
    requires IsRun(trace, acts) && LagsAtMost(trace, acts, d) && n < |trace|
    ensures DisplacedInTime(trace[n], d)
  {
    if n > 0 {
      LagBoundsDisplacing(trace, acts, d, n - 1);
      EveryStateInv(trace, acts, n - 1);
      var s, a := trace[n - 1], acts[n - 1];
      assert trace[n - 1 + 1] == Next(s, a);
      assert a.Exchange? ==> s.clock <= s.writer.now + d;
      hide IsRun, LagsAtMost;
      DisplacingStep(s, a, d);
    }
  }

  lemma DisplacingStep(s: State, a: Action, d: nat)
    requires Inv(s) && Enabled(s, a) && DisplacedInTime(s, d) && (a.Exchange? ==> s.clock <= s.writer.now + d)
    ensures DisplacedInTime(Next(s, a), d)
  {
    hide ObjectOk, ReaderOk, TimesOk, FreedOk;
  }

  /** Whatever else happens, exchanges that lag by at most `d` seconds leave at least
      `g` seconds between displacing and freeing if and only if `d + g` is at most
      the update interval. */
  lemma LagExact(d: nat, g: nat)
    requires d <= MIN_UPDATE_INTERVAL
    ensures (forall trace, acts | IsRun(trace, acts) && LagsAtMost(trace, acts, d) :: FreesAfter(trace, g))
       <==> d + g <= MIN_UPDATE_INTERVAL
  {
    hide IsRun, LagsAtMost;
    if d + g <= MIN_UPDATE_INTERVAL {
      forall trace, acts | IsRun(trace, acts) && LagsAtMost(trace, acts, d) ensures FreesAfter(trace, g) {
        LagLeavesTime(trace, acts, d, g);
      }
    } else {
      var trace := BoundIsTight(d);
      DelayedLag(d);
      assert trace[18].objects[0] == Freed(20, 20 + d, 30, 30);
      assert !FreesAfter(trace, g);
    }
  }

  lemma LagLeavesTime(trace: seq<State>, acts: seq<Action>, d: nat, g: nat)
    requires IsRun(trace, acts) && LagsAtMost(trace, acts, d) && d + g <= MIN_UPDATE_INTERVAL
    ensures FreesAfter(trace, g)
  {
    hide IsRun, LagsAtMost;
    forall n, i | 0 <= n < |trace| && 0 <= i < |trace[n].objects| && trace[n].objects[i].Freed?
      ensures trace[n].objects[i].freeAt >= trace[n].objects[i].at + g {
      FreedTenSecondsLater(trace, acts, n, i);
      LagBoundsDisplacing(trace, acts, d, n);
    }
  }

  // ----- the call as one method -----

  /** An accepted call that nothing interrupts: five steps that do to the machine
      what `Host.SetListeningPorts` does to the object. */
  lemma UndisturbedCall(s: State, now: nat) returns (t: State)
    requires Inv(s) && Enabled(s, Call(now)) && now >= s.lastUpdate + MIN_UPDATE_INTERVAL
    ensures var s1 := Next(s, Call(now));
            && Enabled(s1, Allocate(true))
            && var s2 := Next(s1, Allocate(true));
            && Enabled(s2, DeleteShadow)
            && var s3 := Next(s2, DeleteShadow);
            && Enabled(s3, Exchange)
            && var s4 := Next(s3, Exchange);
            && Enabled(s4, Stamp) && t == Next(s4, Stamp)
    ensures t.current == Some(|s.objects|) && t.shadow == s.current && t.lastUpdate == now && t.writer.Outside?
    ensures |t.objects| == |s.objects| + 1 && t.freed == s.freed + (if s.shadow.Some? then [s.shadow.value] else [])
    ensures forall i | 0 <= i < |s.objects| :: t.objects[i].Freed? <==> s.objects[i].Freed? || s.shadow == Some(i)
  {
    var s1 := Next(s, Call(now));
    var s2 := Next(s1, Allocate(true));
    var s3 := Next(s2, DeleteShadow);
    t := Next(Next(s3, Exchange), Stamp);
    forall i | 0 <= i < |s.objects| ensures t.objects[i].Freed? <==> s.objects[i].Freed? || s.shadow == Some(i) {
      assert ObjectOk(s, i);
    }
  }

  /** A call that comes too early, and one whose allocation fails, leave everything as
      it was but the time of the latest call. */
  lemma RefusedCall(s: State, now: nat)
    requires Enabled(s, Call(now))
    ensures now < s.lastUpdate + 10 ==> Next(s, Call(now)) == s.(lastNow := now)
    ensures now >= s.lastUpdate + 10 ==>
              var s1 := Next(s, Call(now));
              Enabled(s1, Allocate(false)) && Next(s1, Allocate(false)) == s.(lastNow := now)
  {
  }

  class Host {
    var listeningPorts: Option<nat>
    var listeningPortsShadow: Option<nat>
    var listeningPortsLastUpdate: nat
    var nextObject: nat
    ghost var freed: seq<nat>

    /** Nothing was deleted twice and neither pointer names a deleted object. */
    ghost predicate Valid()
      reads this
    {
      && (forall i, j | 0 <= i < j < |freed| :: freed[i] != freed[j])
      && (forall i | i in freed :: i < nextObject && listeningPorts != Some(i) && listeningPortsShadow != Some(i))
      && (listeningPorts.Some? ==> listeningPorts.value < nextObject && listeningPorts != listeningPortsShadow)
      && (listeningPortsShadow.Some? ==> listeningPortsShadow.value < nextObject)
    }

    constructor ()
      ensures Valid() && listeningPorts == None && listeningPortsShadow == None && listeningPortsLastUpdate == 0
      ensures nextObject == 0 && freed == []
    {
      listeningPorts, listeningPortsShadow, listeningPortsLastUpdate := None, None, 0;
      nextObject, freed := 0, [];
    }

    /** `setListeningPorts`, with the outcome of the allocation as a parameter. */
    method SetListeningPorts(now: nat, gotMemory: bool)
      requires Valid()
      modifies this
      ensures Valid()
      ensures if now < old(listeningPortsLastUpdate) + MIN_UPDATE_INTERVAL || !gotMemory
              then unchanged(this)
              else && listeningPorts == Some(old(nextObject)) && nextObject == old(nextObject) + 1
                   && listeningPortsShadow == old(listeningPorts) && listeningPortsLastUpdate == now
                   && freed == old(freed) + (if old(listeningPortsShadow).Some? then [old(listeningPortsShadow).value] else [])
    {
      if now < listeningPortsLastUpdate + MIN_UPDATE_INTERVAL {
        return;
      }
      if !gotMemory {
        return;
      }
      var newPorts := nextObject;
      nextObject := nextObject + 1;
      if listeningPortsShadow.Some? {
        freed := freed + [listeningPortsShadow.value];
      }
      listeningPortsShadow := listeningPorts;
      listeningPorts := Some(newPorts);
      listeningPortsLastUpdate := now;
    }
  }

  // ----- the delayed run, step by step -----

  lemma FirstUpdateFollows(d: nat)
    requires d <= MIN_UPDATE_INTERVAL
    ensures StepsFollow(FirstUpdate(), DelayedActions(d), 0)
  {
    var t, acts := FirstUpdate(), DelayedActions(d);
    hide FirstUpdate, DelayedActions;
    assert t[3].objects == t[2].objects + [Fresh];
    forall i | 0 <= i < |t| - 1 ensures Enabled(t[i], acts[0 + i]) && t[i + 1] == Next(t[i], acts[0 + i]) {
      if i == 0 || i == 1 {
      } else if i == 2 || i == 3 {
      } else {
        assert t[5].objects == t[4].objects[0 := Published];
      }
    }
  }

  lemma SecondUpdateFollows(d: nat)
    requires d <= MIN_UPDATE_INTERVAL
    ensures StepsFollow(SecondUpdate(d), DelayedActions(d), 7)
    ensures FirstUpdate()[6].(clock := 20) == Next(FirstUpdate()[6], Tick(10))
  {
    var t, acts := SecondUpdate(d), DelayedActions(d);
    assert t[2].objects == t[1].objects + [Fresh];
    assert t[5].readers == t[4].readers + [Reader(0, 20 + d)];
    assert t[6].objects == t[5].objects[0 := Displaced(20, 20 + d)][1 := Published];
    hide SecondUpdate, DelayedActions;
    forall i | 0 <= i < |t| - 1 ensures Enabled(t[i], acts[7 + i]) && t[i + 1] == Next(t[i], acts[7 + i]) {
      if i <= 2 {
      } else if i <= 4 {
      } else {
      }
    }
  }

  lemma ThirdUpdateFollows(d: nat)
    requires d <= MIN_UPDATE_INTERVAL
    ensures StepsFollow(ThirdUpdate(d), DelayedActions(d), 15)
    ensures ThirdUpdate(d)[0] == Next(SecondUpdate(d)[7], Tick(10 - d))
  {
    var t := ThirdUpdate(d);
    assert t[2].objects == t[1].objects + [Fresh];
    assert t[3].objects == t[2].objects[0 := Freed(20, 20 + d, 30, 30)];
  }

  lemma JoinRuns(a: seq<State>, b: seq<State>, c: seq<State>, acts: seq<Action>)
    requires |a| == 7 && |b| == 8 && |c| == 4 && |acts| == 18 && a[0] == Initial()
    requires StepsFollow(a, acts, 0) && StepsFollow(b, acts, 7) && StepsFollow(c, acts, 15)
    requires Enabled(a[6], acts[6]) && b[0] == Next(a[6], acts[6])
    requires Enabled(b[7], acts[14]) && c[0] == Next(b[7], acts[14])
    ensures IsRun(a + b + c, acts)
  {
    hide Next;
    hide Enabled;
    var t := a + b + c;
    forall i | 0 <= i < 18 ensures Enabled(t[i], acts[i]) && t[i + 1] == Next(t[i], acts[i]) {
      if i < 6 {
        assert t[i] == a[i] && t[i + 1] == a[i + 1];
      } else if 6 < i < 14 {
        assert t[i] == b[i - 7] && t[i + 1] == b[i - 6];
        assert acts[i] == acts[7 + (i - 7)];
      } else if 14 < i {
        assert t[i] == c[i - 15] && t[i + 1] == c[i - 14];
        assert acts[i] == acts[15 + (i - 15)];
      }
    }
  }

  lemma DelayedLag(d: nat)
    requires d <= MIN_UPDATE_INTERVAL
    ensures LagsAtMost(DelayedTrace(d), DelayedActions(d), d)
  {
    var t := DelayedTrace(d);
    assert t[4] == FirstUpdate()[4] && t[12] == SecondUpdate(d)[5];
  }
}
