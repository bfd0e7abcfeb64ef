/**
 HostPools: the members of a pool are counted in two plain integer arrays, one
 written by inline calls and one by offline calls. An increment is a load and a
 later store, with other threads' steps in between.
 */
module HostPools {
  import opened Basics

  datatype Kind = Hosts | L2Devices

  /** One counter: which array (inline or offline), what is counted, which pool. */
  datatype Cell = Cell(isInline: bool, kind: Kind, pool: nat)

  type Memory = map<Cell, int>

  const NO_HOST_POOL_ID: int := 0

  /** Two's complement 32-bit arithmetic. */
  function Wrap(x: int): int {
    (x + TWO_TO_THE_31) % TWO_TO_THE_32 - TWO_TO_THE_31
  }

  function Lookup(m: Memory, c: Cell): int {
    if c in m then m[c] else 0
  }

  /** A join (+1) or a leave (-1). */
  datatype Delta = Join | Leave

  function Value(d: Delta): int {
    if d == Join then 1 else -1
  }

  datatype Update = Update(cell: Cell, delta: Delta)

  /** A thread between its load and its store. */
  datatype Pending = Pending(update: Update, loaded: int)

  /** `done` lists the completed updates in order. */
  datatype State = State(memory: Memory, busy: map<nat, Pending>, done: seq<Update>)

  datatype Action = Load(thread: nat, update: Update) | Store(thread: nat)

  /** Updates of pools beyond the table have no effect; they touch no memory. */
  function Next(maxPools: nat, s: State, a: Action): State {
    match a
    case Load(t, u) =>
      if u.cell.pool >= maxPools then s
      else s.(busy := s.busy[t := Pending(u, Lookup(s.memory, u.cell))])
    case Store(t) =>
      if t !in s.busy then s
      else
        var p := s.busy[t];
        State(s.memory[p.update.cell := Wrap(p.loaded + Value(p.update.delta))], s.busy - {t}, s.done + [p.update])
  }

  function Run(maxPools: nat, run: seq<Action>): State {
    if run == [] then State(map[], map[], [])
    else Next(maxPools, Run(maxPools, run[..|run| - 1]), run[|run| - 1])
  }

  /** The read of both counters of a pool: the inline one in state `a`, the offline
      one in state `b`. Either may be loaded first. */
  function GetNum(maxPools: nat, a: State, b: State, kind: Kind, pool: nat): int {
    if pool >= maxPools then NO_HOST_POOL_ID
    else Wrap(Lookup(a.memory, Cell(true, kind, pool)) + Lookup(b.memory, Cell(false, kind, pool)))
  }

  /** A thread loads only when it is not itself in the middle of an update. */
  ghost predicate Sequential(maxPools: nat, run: seq<Action>) {
    forall i | 0 <= i < |run| && run[i].Load? :: run[i].thread !in Run(maxPools, run[..i]).busy
  }

  /** No two updates of one counter are in flight together. */
  ghost predicate Exclusive(maxPools: nat, run: seq<Action>) {
    forall i | 0 <= i < |run| && run[i].Load? :: NotBusy(Run(maxPools, run[..i]), run[i].update.cell)
  }

  ghost predicate NotBusy(s: State, c: Cell) {
    forall t | t in s.busy :: s.busy[t].update.cell != c
  }

  // ----- what should be counted -----

  /** Joins minus leaves of a pool, whichever array they went to. */
  function Members(done: seq<Update>, kind: Kind, pool: nat): int {
    if done == [] then 0
    else
      var u := done[|done| - 1];
      Members(done[..|done| - 1], kind, pool)
      + if u.cell.kind == kind && u.cell.pool == pool then Value(u.delta) else 0
  }

  function Net(done: seq<Update>, c: Cell): int {
    if done == [] then 0
    else
      var u := done[|done| - 1];
      Net(done[..|done| - 1], c) + if u.cell == c then Value(u.delta) else 0
  }

  lemma {:induction false} NetsAddUp(done: seq<Update>, kind: Kind, pool: nat)
    ensures Members(done, kind, pool) == Net(done, Cell(true, kind, pool)) + Net(done, Cell(false, kind, pool))
  {
    if done != [] {
      NetsAddUp(done[..|done| - 1], kind, pool);
    }
  }

  lemma WrapSum(a: int, b: int)
    ensures Wrap(Wrap(a) + b) == Wrap(a + b)
  {
    var q := (a + TWO_TO_THE_31) / TWO_TO_THE_32;
    assert Wrap(a) == a - q * TWO_TO_THE_32;
    WrapPeriodic(a + b, -q);
  }

  lemma WrapPeriodic(a: int, k: int)
    ensures Wrap(a + k * TWO_TO_THE_32) == Wrap(a)
  {
  }

  // ----- invariant -----

  ghost predicate Inv(s: State) {
    && (forall c :: Lookup(s.memory, c) == Wrap(Net(s.done, c)))
    && (forall t | t in s.busy :: s.busy[t].loaded == Lookup(s.memory, s.busy[t].update.cell))
    && (forall t, u | t in s.busy && u in s.busy && t != u :: s.busy[t].update.cell != s.busy[u].update.cell)
  }

  lemma NetGrows(done: seq<Update>, u: Update, c: Cell)
    ensures Net(done + [u], c) == Net(done, c) + if u.cell == c then Value(u.delta) else 0
  {
    assert (done + [u])[..|done + [u]| - 1] == done;
  }

  lemma NetWraps(done: seq<Update>, u: Update, c: Cell)
    ensures Wrap(Net(done + [u], c))
            == if c == u.cell then Wrap(Wrap(Net(done, c)) + Value(u.delta)) else Wrap(Net(done, c))
  {
    hide Wrap;
    NetGrows(done, u, c);
    WrapSum(Net(done, c), Value(u.delta));
  }

  lemma StoreKeepsInv(maxPools: nat, s: State, t: nat)
    requires Inv(s)
    ensures Inv(Next(maxPools, s, Store(t)))
  {
    hide Wrap, Net, Value;
    if t in s.busy {
      var p, n := s.busy[t], Next(maxPools, s, Store(t));
      forall c ensures Lookup(n.memory, c) == Wrap(Net(n.done, c)) {
        assert Lookup(s.memory, c) == Wrap(Net(s.done, c));
        NetWraps(s.done, p.update, c);
      }
    }
  }

  lemma StepKeepsInv(maxPools: nat, s: State, a: Action)
    requires Inv(s) && (a.Load? ==> NotBusy(s, a.update.cell))
    ensures Inv(Next(maxPools, s, a))
  {
    if a.Store? {
      StoreKeepsInv(maxPools, s, a.thread);
    }
  }

  lemma {:induction false} EveryRunKeepsInv(maxPools: nat, run: seq<Action>)
    requires Exclusive(maxPools, run)
    ensures Inv(Run(maxPools, run))
  {
    if run != [] {
      var front := run[..|run| - 1];
      ExclusivePrefix(maxPools, run);
      EveryRunKeepsInv(maxPools, front);
      StepKeepsInv(maxPools, Run(maxPools, front), run[|run| - 1]);
    }
  }

  lemma ExclusivePrefix(maxPools: nat, run: seq<Action>)
    requires run != [] && Exclusive(maxPools, run)
    ensures Exclusive(maxPools, run[..|run| - 1])
  {
    var front := run[..|run| - 1];
    forall i | 0 <= i < |front| && front[i].Load? ensures NotBusy(Run(maxPools, front[..i]), front[i].update.cell) {
      assert front[..i] == run[..i] && front[i] == run[i];
    }
  }

  // ----- main results -----

  /** Whatever the interleaving, and even if single counters go negative or wrap,
      an undisturbed read gives the joins minus the leaves completed so far, as a
      32-bit number; it is exact when the membership fits one. */
  lemma CountExact(maxPools: nat, run: seq<Action>, kind: Kind, pool: nat)
    requires Exclusive(maxPools, run) && pool < maxPools
    ensures var s := Run(maxPools, run);
            var members := Members(s.done, kind, pool);
            && GetNum(maxPools, s, s, kind, pool) == Wrap(members)
            && (-TWO_TO_THE_31 <= members < TWO_TO_THE_31 <==> GetNum(maxPools, s, s, kind, pool) == members)
  {
    hide Run, Exclusive, Inv, Net, Members, GetNum, Wrap;
    EveryRunKeepsInv(maxPools, run);
    var s := Run(maxPools, run);
    ReadIs(maxPools, s, s, kind, pool);
    NetsAddUp(s.done, kind, pool);
    WrapRange(Members(s.done, kind, pool));
  }

  lemma WrapRange(x: int)
    ensures Wrap(x) == x <==> -TWO_TO_THE_31 <= x < TWO_TO_THE_31
  {
  }

  lemma ReadIs(maxPools: nat, early: State, late: State, kind: Kind, pool: nat)
    requires Inv(early) && Inv(late) && pool < maxPools
    ensures GetNum(maxPools, early, late, kind, pool)
            == Wrap(Net(early.done, Cell(true, kind, pool)) + Net(late.done, Cell(false, kind, pool)))
  {
    var a, b := Net(early.done, Cell(true, kind, pool)), Net(late.done, Cell(false, kind, pool));
    assert Lookup(early.memory, Cell(true, kind, pool)) == Wrap(a);
    assert Lookup(late.memory, Cell(false, kind, pool)) == Wrap(b);
    hide Wrap;
    WrapSum(a, Wrap(b));
    WrapSum(b, a);
  }

  // ----- what the callers asked for -----

  /** The updates that calls have begun, of pools in the table. */
  function Asked(maxPools: nat, run: seq<Action>): seq<Update> {
    if run == [] then []
    else
      var a := run[|run| - 1];
      Asked(maxPools, run[..|run| - 1]) + if a.Load? && a.update.cell.pool < maxPools then [a.update] else []
  }

  /** What the updates in flight on the given threads will add to a counter. */
  ghost function InFlight(busy: map<nat, Pending>, threads: set<nat>, c: Cell): int
    requires threads <= busy.Keys
  {
    if threads == {} then 0
    else
      var t :| t in threads;
      InFlight(busy, threads - {t}, c) + if busy[t].update.cell == c then Value(busy[t].update.delta) else 0
  }

  lemma {:induction false} InFlightRemove(busy: map<nat, Pending>, threads: set<nat>, c: Cell, t: nat)
    requires threads <= busy.Keys && t in threads
    ensures InFlight(busy, threads, c)
            == InFlight(busy, threads - {t}, c) + if busy[t].update.cell == c then Value(busy[t].update.delta) else 0
    decreases threads
  {
    hide Value;
    var u :| u in threads && InFlight(busy, threads, c)
               == InFlight(busy, threads - {u}, c) + if busy[u].update.cell == c then Value(busy[u].update.delta) else 0;
    if u != t {
      hide InFlight;
      assert threads - {u} - {t} == threads - {t} - {u};
      InFlightRemove(busy, threads - {u}, c, t);
      InFlightRemove(busy, threads - {t}, c, u);
    }
  }

  lemma {:induction false} InFlightAgrees(a: map<nat, Pending>, b: map<nat, Pending>, threads: set<nat>, c: Cell)
    requires threads <= a.Keys && threads <= b.Keys && forall t | t in threads :: a[t].update == b[t].update
    ensures InFlight(a, threads, c) == InFlight(b, threads, c)
    decreases threads
  {
    if t :| t in threads {
      InFlightRemove(a, threads, c, t);
      InFlightRemove(b, threads, c, t);
      InFlightAgrees(a, b, threads - {t}, c);
    }
  }

  lemma FlightStarts(busy: map<nat, Pending>, t: nat, p: Pending, c: Cell)
    requires t !in busy
    ensures var n := busy[t := p];
            InFlight(n, n.Keys, c) == InFlight(busy, busy.Keys, c) + if p.update.cell == c then Value(p.update.delta) else 0
  {
    hide InFlight, Value;
    var n := busy[t := p];
    assert n.Keys - {t} == busy.Keys;
    InFlightRemove(n, n.Keys, c, t);
    InFlightAgrees(n, busy, busy.Keys, c);
  }

  lemma FlightEnds(busy: map<nat, Pending>, t: nat, c: Cell)
    requires t in busy
    ensures var n, u := busy - {t}, busy[t].update;
            InFlight(busy, busy.Keys, c) == InFlight(n, n.Keys, c) + if u.cell == c then Value(u.delta) else 0
  {
    hide InFlight, Value;
    var n := busy - {t};
    assert n.Keys == busy.Keys - {t};
    InFlightRemove(busy, busy.Keys, c, t);
    InFlightAgrees(n, busy, n.Keys, c);
  }

  /** In every interleaving nothing is lost: for each counter, what has been completed
      and what is in flight is what was asked for. */
  lemma {:induction false} NothingLost(maxPools: nat, run: seq<Action>, c: Cell)
    requires Sequential(maxPools, run)
    ensures var s := Run(maxPools, run);
            Net(s.done, c) + InFlight(s.busy, s.busy.Keys, c) == Net(Asked(maxPools, run), c)
  {
    if run == [] {
    } else {
      hide InFlight, Wrap, Value;
      var front, a := run[..|run| - 1], run[|run| - 1];
      SequentialPrefix(maxPools, run);
      NothingLost(maxPools, front, c);
      var s := Run(maxPools, front);
      match a
      case Load(t, u) =>
        assert Asked(maxPools, front) + [] == Asked(maxPools, front);
        if u.cell.pool < maxPools {
          FlightStarts(s.busy, t, Pending(u, Lookup(s.memory, u.cell)), c);
          NetGrows(Asked(maxPools, front), u, c);
        }
      case Store(t) =>
        assert Asked(maxPools, front) + [] == Asked(maxPools, front);
        if t in s.busy {
          FlightEnds(s.busy, t, c);
          NetGrows(s.done, s.busy[t].update, c);
        }
    }
  }

  lemma SequentialPrefix(maxPools: nat, run: seq<Action>)
    requires run != [] && Sequential(maxPools, run)
    ensures Sequential(maxPools, run[..|run| - 1])
    ensures run[|run| - 1].Load? ==> run[|run| - 1].thread !in Run(maxPools, run[..|run| - 1]).busy
  {
    var front := run[..|run| - 1];
    hide Run;
    forall i | 0 <= i < |front| && front[i].Load? ensures front[i].thread !in Run(maxPools, front[..i]).busy {
      assert front[..i] == run[..i] && front[i] == run[i];
    }
  }

  /** Whenever no update is in flight, the count is the joins minus the leaves of all
      calls made, whichever thread made them. */
  lemma QuietCountExact(maxPools: nat, run: seq<Action>, kind: Kind, pool: nat)
    requires Exclusive(maxPools, run) && Sequential(maxPools, run) && pool < maxPools
    requires Run(maxPools, run).busy == map[]
    ensures var s, members := Run(maxPools, run), Members(Asked(maxPools, run), kind, pool);
            && GetNum(maxPools, s, s, kind, pool) == Wrap(members)
            && (-TWO_TO_THE_31 <= members < TWO_TO_THE_31 <==> GetNum(maxPools, s, s, kind, pool) == members)
  {
    hide Run, Asked, Net, Members, GetNum, Exclusive, Sequential;
    var s := Run(maxPools, run);
    CountExact(maxPools, run, kind, pool);
    QuietNet(maxPools, run, Cell(true, kind, pool));
    QuietNet(maxPools, run, Cell(false, kind, pool));
    NetsAddUp(s.done, kind, pool);
    NetsAddUp(Asked(maxPools, run), kind, pool);
  }

  lemma QuietNet(maxPools: nat, run: seq<Action>, c: Cell)
    requires Sequential(maxPools, run) && Run(maxPools, run).busy == map[]
    ensures Net(Run(maxPools, run).done, c) == Net(Asked(maxPools, run), c)
  {
    hide Run, Asked, Net, Sequential;
    NothingLost(maxPools, run, c);
    assert Run(maxPools, run).busy.Keys == {};
  }

  /** A read spread over two moments is off from the membership at the first by
      exactly what was done in between to the counter loaded second. */
  lemma SplitRead(maxPools: nat, before: seq<Action>, between: seq<Action>, kind: Kind, pool: nat)
    requires Exclusive(maxPools, before) && Exclusive(maxPools, before + between) && pool < maxPools
    ensures var s, n := Run(maxPools, before), Run(maxPools, before + between);
            var inline := Net(n.done, Cell(true, kind, pool)) - Net(s.done, Cell(true, kind, pool));
            var offline := Net(n.done, Cell(false, kind, pool)) - Net(s.done, Cell(false, kind, pool));
            && GetNum(maxPools, s, n, kind, pool) == Wrap(Members(s.done, kind, pool) + offline)
            && GetNum(maxPools, n, s, kind, pool) == Wrap(Members(s.done, kind, pool) + inline)
  {
    hide Run, Exclusive, Inv, Net, Members, GetNum, Wrap;
    EveryRunKeepsInv(maxPools, before);
    EveryRunKeepsInv(maxPools, before + between);
    var s, n := Run(maxPools, before), Run(maxPools, before + between);
    ReadIs(maxPools, s, n, kind, pool);
    ReadIs(maxPools, n, s, kind, pool);
    NetsAddUp(s.done, kind, pool);
  }

  // ----- why two arrays -----

  /** Each array has one writing thread: thread 0 makes all inline calls and thread
      1 all offline calls. */
  ghost predicate OwnArray(run: seq<Action>) {
    forall i | 0 <= i < |run| && run[i].Load? ::
      run[i].thread <= 1 && run[i].update.cell.isInline == (run[i].thread == 0)
  }

  ghost predicate Owned(s: State) {
    forall t | t in s.busy :: t <= 1 && s.busy[t].update.cell.isInline == (t == 0)
  }

  lemma {:induction false} BusyIsOwned(maxPools: nat, run: seq<Action>)
    requires OwnArray(run)
    ensures Owned(Run(maxPools, run))
  {
    if run != [] {
      var front := run[..|run| - 1];
      assert OwnArray(front);
      BusyIsOwned(maxPools, front);
    }
  }

  /** With one inline and one offline thread, updates of one counter never overlap,
      so `CountExact` applies to every interleaving of the two. */
  lemma OwnArraysAreExclusive(maxPools: nat, run: seq<Action>)
    requires OwnArray(run) && Sequential(maxPools, run)
    ensures Exclusive(maxPools, run)
  {
    forall i | 0 <= i < |run| && run[i].Load? ensures NotBusy(Run(maxPools, run[..i]), run[i].update.cell) {
      assert OwnArray(run[..i]);
      BusyIsOwned(maxPools, run[..i]);
      hide Run;
    }
  }

  /** With one array for both threads a join is lost: two joins, one counted. */
  lemma SharedArrayLosesJoin(maxPools: nat, kind: Kind, pool: nat, isInline: bool)
    requires pool < maxPools
    ensures var join := Update(Cell(isInline, kind, pool), Join);
            var s := Run(maxPools, [Load(0, join), Load(1, join), Store(0), Store(1)]);
            s.busy == map[] && Members(s.done, kind, pool) == 2 && GetNum(maxPools, s, s, kind, pool) == 1
  {
    var join := Update(Cell(isInline, kind, pool), Join);
    SharedRun(maxPools, join);
    TwoJoins(join);
    hide Run, Members;
  }

  lemma SharedRun(maxPools: nat, join: Update)
    requires join.cell.pool < maxPools && join.delta == Join
    ensures Run(maxPools, [Load(0, join), Load(1, join), Store(0), Store(1)])
            == State(map[join.cell := 1], map[], [join] + [join])
  {
    var c := join.cell;
    RunFour(maxPools, Load(0, join), Load(1, join), Store(0), Store(1));
    hide Run;
    var s1 := State(map[], map[0 := Pending(join, 0)], []);
    var s2 := State(map[], map[0 := Pending(join, 0), 1 := Pending(join, 0)], []);
    assert Next(maxPools, s1, Load(1, join)) == s2;
    var s3 := State(map[c := 1], map[1 := Pending(join, 0)], [join]);
    assert Next(maxPools, s2, Store(0)) == s3 by {
      assert s2.busy - {0} == s3.busy && map[][c := 1] == map[c := 1] && [] + [join] == [join];
    }
    assert Next(maxPools, s3, Store(1)) == State(map[c := 1], map[], [join] + [join]) by {
      assert s3.busy - {1} == map[] && map[c := 1][c := 1] == map[c := 1];
    }
  }

  lemma TwoJoins(join: Update)
    requires join.delta == Join
    ensures Members([join] + [join], join.cell.kind, join.cell.pool) == 2
  {
    assert ([join] + [join])[..1] == [join] && [join][..0] == [];
    assert Members([join], join.cell.kind, join.cell.pool) == 1;
  }

  lemma RunFour(maxPools: nat, a: Action, b: Action, c: Action, d: Action)
    ensures Run(maxPools, [a, b, c, d])
            == Next(maxPools, Next(maxPools, Next(maxPools, Next(maxPools, State(map[], map[], []), a), b), c), d)
  {
    hide Next;
    assert [a, b, c, d][..3] == [a, b, c] && [a, b, c][..2] == [a, b] && [a, b][..1] == [a] && [a][..0] == [];
    assert Run(maxPools, [a, b, c, d]) == Next(maxPools, Run(maxPools, [a, b, c]), d);
    assert Run(maxPools, [a, b, c]) == Next(maxPools, Run(maxPools, [a, b]), c);
    assert Run(maxPools, [a, b]) == Next(maxPools, Run(maxPools, [a]), b);
  }

  /** One member joins by one thread's call and leaves by the other's. */
  function JoinThenLeave(kind: Kind, pool: nat, isInline: bool): seq<Action> {
    [Load(0, Update(Cell(isInline, kind, pool), Join)), Store(0),
     Load(1, Update(Cell(!isInline, kind, pool), Leave)), Store(1)]
  }

  /** A split read can report -1 for a pool that has zero or one member all along,
      whichever counter is loaded first: the member joins in that one after the first
      load and leaves in the other before the second. */
  lemma SplitReadNegative(maxPools: nat, kind: Kind, pool: nat, isInline: bool)
    requires pool < maxPools
    ensures var between := JoinThenLeave(kind, pool, isInline);
            var s, n := Run(maxPools, []), Run(maxPools, between);
            && (if isInline then GetNum(maxPools, s, n, kind, pool) else GetNum(maxPools, n, s, kind, pool)) == -1
            && forall i | 0 <= i <= 4 :: 0 <= Members(Run(maxPools, between[..i]).done, kind, pool) <= 1
  {
    var between := JoinThenLeave(kind, pool, isInline);
    NegativeRead(maxPools, kind, pool, isInline);
    hide Run, Members, GetNum;
    forall i | 0 <= i <= 4 ensures 0 <= Members(Run(maxPools, between[..i]).done, kind, pool) <= 1 {
      JoinThenLeaveMembers(maxPools, kind, pool, isInline, i);
    }
  }

  lemma NegativeRead(maxPools: nat, kind: Kind, pool: nat, isInline: bool)
    requires pool < maxPools
    ensures var s, n := Run(maxPools, []), Run(maxPools, JoinThenLeave(kind, pool, isInline));
            (if isInline then GetNum(maxPools, s, n, kind, pool) else GetNum(maxPools, n, s, kind, pool)) == -1
  {
    var between := JoinThenLeave(kind, pool, isInline);
    RunFour(maxPools, between[0], between[1], between[2], between[3]);
    assert between == [between[0], between[1], between[2], between[3]];
  }

  lemma JoinThenLeaveMembers(maxPools: nat, kind: Kind, pool: nat, isInline: bool, i: nat)
    requires pool < maxPools && i <= 4
    ensures Members(Run(maxPools, JoinThenLeave(kind, pool, isInline)[..i]).done, kind, pool)
            == if i == 2 || i == 3 then 1 else 0
  {
    var run := JoinThenLeave(kind, pool, isInline);
    var join, leave := run[0].update, run[2].update;
    RunPrefixes(maxPools, run);
    JoinLeaveCounts(join, leave);
    hide Run, Members;
    var s1, s2 := Run(maxPools, run[..0 + 1]), Run(maxPools, run[..1 + 1]);
    var s3, s4 := Run(maxPools, run[..2 + 1]), Run(maxPools, run[..3 + 1]);
    assert s1.done == [] && 0 in s1.busy && s1.busy[0].update == join;
    assert s2.done == [] + [join] == [join];
    assert s3.done == [join] && 1 in s3.busy && s3.busy[1].update == leave;
    assert s4.done == [join] + [leave];
  }

  lemma RunPrefixes(maxPools: nat, run: seq<Action>)
    ensures Run(maxPools, run[..0]) == State(map[], map[], [])
    ensures forall i | 0 <= i < |run| :: Run(maxPools, run[..i + 1]) == Next(maxPools, Run(maxPools, run[..i]), run[i])
  {
    hide Next;
    forall i | 0 <= i < |run| ensures Run(maxPools, run[..i + 1]) == Next(maxPools, Run(maxPools, run[..i]), run[i]) {
      assert run[..i + 1][..i] == run[..i];
    }
  }

  lemma JoinLeaveCounts(join: Update, leave: Update)
    requires join.delta == Join && leave.delta == Leave
    requires join.cell.kind == leave.cell.kind && join.cell.pool == leave.cell.pool
    ensures var kind, pool := join.cell.kind, join.cell.pool;
            Members([], kind, pool) == 0 && Members([join], kind, pool) == 1 && Members([join] + [leave], kind, pool) == 0
  {
    assert ([join] + [leave])[..1] == [join] && [join][..0] == [];
  }

  // ----- the class -----

  class HostPools {
    const maxPools: nat
    const hostsInline: array<int>
    const hostsOffline: array<int>
    const devicesInline: array<int>
    const devicesOffline: array<int>
    ghost var done: seq<Update>

    ghost predicate Shape()
      reads this
    {
      && hostsInline.Length == hostsOffline.Length == devicesInline.Length == devicesOffline.Length == maxPools
      && hostsInline != hostsOffline && devicesInline != devicesOffline
      && hostsInline != devicesInline && hostsInline != devicesOffline
      && hostsOffline != devicesInline && hostsOffline != devicesOffline
    }

    function Counters(isInline: bool, kind: Kind): array<int>
      reads this
    {
      match kind
      case Hosts => if isInline then hostsInline else hostsOffline
      case L2Devices => if isInline then devicesInline else devicesOffline
    }

    ghost predicate Valid()
      reads this, hostsInline, hostsOffline, devicesInline, devicesOffline
    {
      && Shape()
      && forall c: Cell | c.pool < maxPools :: Counters(c.isInline, c.kind)[c.pool] == Wrap(Net(done, c))
    }

    constructor (max: nat)
      ensures Valid() && maxPools == max && done == []
      ensures fresh(hostsInline) && fresh(hostsOffline) && fresh(devicesInline) && fresh(devicesOffline)
    {
      maxPools := max;
      hostsInline, hostsOffline := new int[max](_ => 0), new int[max](_ => 0);
      devicesInline, devicesOffline := new int[max](_ => 0), new int[max](_ => 0);
      done := [];
    }

    method IncNumMembers(pool: nat, kind: Kind, isInline: bool)
      requires Valid()
      modifies Counters(isInline, kind), this`done
      ensures Valid()
      ensures done == old(done) + if pool < maxPools then [Update(Cell(isInline, kind, pool), Join)] else []
    {
      if pool < maxPools {
        var ctr := Counters(isInline, kind);
        ctr[pool] := Wrap(ctr[pool] + 1);
        Record(Update(Cell(isInline, kind, pool), Join));
      }
    }

    method DecNumMembers(pool: nat, kind: Kind, isInline: bool)
      requires Valid()
      modifies Counters(isInline, kind), this`done
      ensures Valid()
      ensures done == old(done) + if pool < maxPools then [Update(Cell(isInline, kind, pool), Leave)] else []
    {
      if pool < maxPools {
        var ctr := Counters(isInline, kind);
        ctr[pool] := Wrap(ctr[pool] - 1);
        Record(Update(Cell(isInline, kind, pool), Leave));
      }
    }

    /** Bookkeeping of the specification after a counter was changed. */
    ghost method Record(u: Update)
      requires Shape() && u.cell.pool < maxPools
      requires forall c: Cell | c.pool < maxPools ::
        Counters(c.isInline, c.kind)[c.pool]
        == if c == u.cell then Wrap(Wrap(Net(done, c)) + Value(u.delta)) else Wrap(Net(done, c))
      modifies this`done
      ensures Valid() && done == old(done) + [u]
    {
      hide Wrap, Net, Value;
      forall c: Cell {
        NetWraps(done, u, c);
      }
      done := done + [u];
    }

    /** `getNumPoolHosts` and `getNumPoolL2Devices`. */
    method GetNumMembers(pool: nat, kind: Kind) returns (n: int)
      requires Valid()
      ensures pool >= maxPools ==> n == NO_HOST_POOL_ID
      ensures pool < maxPools ==> n == Wrap(Members(done, kind, pool))
    {
      if pool >= maxPools {
        return NO_HOST_POOL_ID;
      }
      ghost var a, b := Net(done, Cell(true, kind, pool)), Net(done, Cell(false, kind, pool));
      var x, y := Counters(true, kind)[pool], Counters(false, kind)[pool];
      assert x == Wrap(a) && y == Wrap(b);
      n := Wrap(x + y);
      NetsAddUp(done, kind, pool);
      WrapSum(a, y);
      WrapSum(b, a);
    }
  }
}
