/**
 HostPoolStats: per-pool traffic counters whose reset is requested by any thread
 through a flag and carried out by the counting thread.
 */
module PoolStats {
  import opened Basics

  /** Packets and bytes in both directions. */
  datatype Volume = Volume(sentPackets: nat, sentBytes: nat, rcvdPackets: nat, rcvdBytes: nat)

  const NOTHING := Volume(0, 0, 0, 0)

  function Plus(a: Volume, b: Volume): Volume {
    Volume(a.sentPackets + b.sentPackets, a.sentBytes + b.sentBytes,
           a.rcvdPackets + b.rcvdPackets, a.rcvdBytes + b.rcvdBytes)
  }

  /** One call of `incStats`. */
  datatype Traffic = Traffic(when: nat, proto: nat, volume: Volume)

  /** A ProtoCounter; times are 32-bit seconds. */
  datatype Counter = Counter(volume: Volume, duration: nat, lastUpdate: nat)

  type Counters = map<nat, Counter>

  const ZERO := Counter(NOTHING, 0, 0)
  const NDPI_PROTOCOL_UNKNOWN: nat := 0

  /** ProtoCounter::incStats; `step` is the housekeeping period. The elapsed time
      is an unsigned 32-bit difference. */
  function IncCounter(step: nat, c: Counter, t: Traffic): Counter {
    var sum := Plus(c.volume, t.volume);
    if t.when != 0 && (t.when - c.lastUpdate) % TWO_TO_THE_32 >= step
    then Counter(sum, c.duration + step, t.when)
    else Counter(sum, c.duration, c.lastUpdate)
  }

  function Lookup(m: Counters, p: nat): Counter {
    if p in m then m[p] else ZERO
  }

  /** nDPIStats::incStats. */
  function IncProtocol(step: nat, m: Counters, p: nat, t: Traffic): Counters {
    m[p := IncCounter(step, Lookup(m, p), t)]
  }

  /** nDPIStats::resetStats: the counters are zeroed, not removed. */
  function ResetProtocols(m: Counters): Counters {
    map p | p in m :: ZERO
  }

  /** The counters of a pool. Either statistics object may be missing. */
  datatype Stats = Stats(traffic: Volume, ndpi: Option<Counters>, total: Option<Counters>)

  predicate Counted(t: Traffic) {
    t.volume.sentPackets > 0 || t.volume.rcvdPackets > 0
  }

  function Count(step: nat, s: Stats, t: Traffic): Stats {
    if !Counted(t) then s
    else Stats(Plus(s.traffic, t.volume), IncOption(step, s.ndpi, t.proto, t),
               IncOption(step, s.total, NDPI_PROTOCOL_UNKNOWN, t))
  }

  function IncOption(step: nat, o: Option<Counters>, p: nat, t: Traffic): Option<Counters> {
    match o
    case None => None
    case Some(m) => Some(IncProtocol(step, m, p, t))
  }

  function ResetOption(o: Option<Counters>): Option<Counters> {
    match o
    case None => None
    case Some(m) => Some(ResetProtocols(m))
  }

  function Blank(ndpi: bool, total: bool): Stats {
    Stats(NOTHING, if ndpi then Some(map[]) else None, if total then Some(map[]) else None)
  }

  // ----- the protocol -----

  /** Where the counting thread is inside `checkStatsReset`. */
  datatype Place = Outside | BeforeNdpi | BeforeTotal | BeforeTraffic | BeforeClear

  /** `log` is all traffic ever counted, `start` how much of it had been counted
      when the last reset was completed, `requested` how much of it when the last
      request was made. */
  datatype State = State(stats: Stats, mustReset: bool, place: Place,
                         log: seq<Traffic>, start: nat, requested: nat)

  /** Traffic counted, a reset requested, or the next step of the check. */
  datatype Action = Inc(t: Traffic) | Request | Check

  function Next(step: nat, s: State, a: Action): State {
    match a
    case Inc(t) => s.(stats := Count(step, s.stats, t), log := s.log + [t])
    case Request => s.(mustReset := true, requested := |s.log|)
    case Check => CheckStep(s)
  }

  function CheckStep(s: State): State {
    match s.place
    case Outside => if s.mustReset then s.(place := BeforeNdpi) else s
    case BeforeNdpi => s.(stats := s.stats.(ndpi := ResetOption(s.stats.ndpi)), place := BeforeTotal)
    case BeforeTotal => s.(stats := s.stats.(total := ResetOption(s.stats.total)), place := BeforeTraffic)
    case BeforeTraffic => s.(stats := s.stats.(traffic := NOTHING), place := BeforeClear)
    case BeforeClear => s.(mustReset := false, place := Outside, start := |s.log|)
  }

  function Run(step: nat, s: State, run: seq<Action>): State {
    if run == [] then s else Next(step, Run(step, s, run[..|run| - 1]), run[|run| - 1])
  }

  /** Counting and checking happen on one thread: nothing is counted inside a check. */
  ghost predicate OneThread(step: nat, s: State, run: seq<Action>) {
    forall i | 0 <= i < |run| && run[i].Inc? :: Run(step, s, run[..i]).place == Outside
  }

  function Init(ndpi: bool, total: bool): State {
    State(Blank(ndpi, total), false, Outside, [], 0, 0)
  }

  // ----- what the counters should be -----

  /** The counters of a new pool that saw only `log`. */
  function Replay(step: nat, blank: Stats, log: seq<Traffic>): Stats {
    if log == [] then blank else Count(step, Replay(step, blank, log[..|log| - 1]), log[|log| - 1])
  }

  /** The volume that the traffic of protocol `p` adds up to; traffic without packets
      does not count. */
  function VolumeOf(log: seq<Traffic>, p: nat): Volume {
    if log == [] then NOTHING
    else
      var sum, t := VolumeOf(log[..|log| - 1], p), log[|log| - 1];
      if t.proto == p && t.volume.sentPackets + t.volume.rcvdPackets > 0
      then Volume(sum.sentPackets + t.volume.sentPackets, sum.sentBytes + t.volume.sentBytes,
                  sum.rcvdPackets + t.volume.rcvdPackets, sum.rcvdBytes + t.volume.rcvdBytes)
      else sum
  }

  /** The same for all protocols. */
  function TotalVolume(log: seq<Traffic>): Volume {
    if log == [] then NOTHING
    else
      var sum, t := TotalVolume(log[..|log| - 1]), log[|log| - 1];
      if t.volume.sentPackets + t.volume.rcvdPackets > 0
      then Volume(sum.sentPackets + t.volume.sentPackets, sum.sentBytes + t.volume.sentBytes,
                  sum.rcvdPackets + t.volume.rcvdPackets, sum.rcvdBytes + t.volume.rcvdBytes)
      else sum
  }

  /** The times of the traffic of one protocol, or of all traffic. */
  function TimesOf(log: seq<Traffic>, p: Option<nat>): seq<nat> {
    if log == [] then []
    else
      var times, t := TimesOf(log[..|log| - 1], p), log[|log| - 1];
      if (p.None? || p.value == t.proto) && t.volume.sentPackets + t.volume.rcvdPackets > 0
      then times + [t.when] else times
  }

  /** The times that start a new period of `step` seconds: at least that long after the
      last one, as a 32-bit difference; an unknown time starts none. */
  function Ticks(step: nat, times: seq<nat>, last: nat): seq<nat> {
    if times == [] then []
    else if times[0] != 0 && (times[0] - last) % TWO_TO_THE_32 >= step
    then [times[0]] + Ticks(step, times[1..], times[0])
    else Ticks(step, times[1..], last)
  }

  function Latest(ticks: seq<nat>, first: nat): nat {
    if ticks == [] then first else ticks[|ticks| - 1]
  }

  /** The counter that traffic at these times leaves: a duration of one step for each
      period begun, and the time of the latest one. */
  predicate Timed(step: nat, c: Counter, times: seq<nat>) {
    var ticks := Ticks(step, times, 0);
    c.duration == step * |ticks| && c.lastUpdate == Latest(ticks, 0)
  }

  ghost predicate SameCounters(a: Option<Counters>, b: Option<Counters>) {
    && a.Some? == b.Some?
    && (a.Some? ==> forall p: nat :: Lookup(a.value, p) == Lookup(b.value, p))
  }

  ghost predicate SameStats(a: Stats, b: Stats) {
    a.traffic == b.traffic && SameCounters(a.ndpi, b.ndpi) && SameCounters(a.total, b.total)
  }

  ghost function SumOver(m: Counters, ps: set<nat>): Volume
    requires ps <= m.Keys
  {
    if ps == {} then NOTHING
    else var p :| p in ps; Plus(m[p].volume, SumOver(m, ps - {p}))
  }

  /** The volume over all protocols. */
  ghost function Sum(m: Counters): Volume {
    SumOver(m, m.Keys)
  }

  /** Cross-protocol total, sum over protocols and directional traffic agree. */
  ghost predicate Balanced(s: Stats) {
    && (s.total.Some? ==> Lookup(s.total.value, NDPI_PROTOCOL_UNKNOWN).volume == s.traffic)
    && (s.ndpi.Some? ==> Sum(s.ndpi.value) == s.traffic)
  }

  ghost predicate Inv(step: nat, blank: Stats, s: State) {
    && s.start <= |s.log| && s.requested <= |s.log|
    && (s.mustReset || s.requested <= s.start)
    && (s.place != Outside ==> s.mustReset)
    && StatsInv(step, blank, s)
  }

  /** The parts still to be reset hold the traffic since the last reset; the parts
      already reset hold nothing. */
  ghost predicate StatsInv(step: nat, blank: Stats, s: State)
    requires s.start <= |s.log|
  {
    var want := Replay(step, blank, s.log[s.start..]);
    match s.place
    case Outside => SameStats(s.stats, want) && Balanced(s.stats)
    case BeforeNdpi => SameStats(s.stats, want)
    case BeforeTotal => SameCounters(s.stats.ndpi, blank.ndpi) && SameCounters(s.stats.total, want.total)
    case BeforeTraffic => SameCounters(s.stats.ndpi, blank.ndpi) && SameCounters(s.stats.total, blank.total)
    case BeforeClear => SameStats(s.stats, blank) && Balanced(s.stats)
  }

  // ----- sums over protocols -----

  lemma PlusNothing(v: Volume)
    ensures Plus(NOTHING, v) == v
  {
  }

  lemma PlusSwaps(a: Volume, b: Volume, c: Volume)
    ensures Plus(a, Plus(b, c)) == Plus(b, Plus(a, c))
  {
  }

  lemma {:induction false} SumRemove(m: Counters, ps: set<nat>, p: nat)
    requires ps <= m.Keys && p in ps
    ensures SumOver(m, ps) == Plus(m[p].volume, SumOver(m, ps - {p}))
    decreases ps
  {
    var q :| q in ps && SumOver(m, ps) == Plus(m[q].volume, SumOver(m, ps - {q}));
    if q != p {
      hide SumOver;
      var without := ps - {q} - {p};
      assert ps - {p} - {q} == without;
      SumRemove(m, ps - {q}, p);
      SumRemove(m, ps - {p}, q);
      PlusSwaps(m[q].volume, m[p].volume, SumOver(m, without));
    }
  }

  lemma {:induction false} SumAgrees(m: Counters, n: Counters, ps: set<nat>)
    requires ps <= m.Keys && ps <= n.Keys && forall p | p in ps :: m[p] == n[p]
    ensures SumOver(m, ps) == SumOver(n, ps)
    decreases ps
  {
    if p :| p in ps {
      SumRemove(m, ps, p);
      SumRemove(n, ps, p);
      SumAgrees(m, n, ps - {p});
    }
  }

  lemma SumUpdate(m: Counters, p: nat, c: Counter, v: Volume)
    requires c.volume == Plus(Lookup(m, p).volume, v)
    ensures Sum(m[p := c]) == Plus(Sum(m), v)
  {
    hide SumOver;
    var n := m[p := c];
    var others := m.Keys - {p};
    assert n.Keys - {p} == others;
    SumRemove(n, n.Keys, p);
    SumAgrees(m, n, others);
    if p in m {
      SumRemove(m, m.Keys, p);
    } else {
      assert others == m.Keys;
    }
  }

  lemma {:induction false} SumOfZeros(m: Counters, ps: set<nat>)
    requires ps <= m.Keys && forall p | p in ps :: m[p].volume == NOTHING
    ensures SumOver(m, ps) == NOTHING
    decreases ps
  {
    if p :| p in ps {
      hide SumOver, Plus;
      SumRemove(m, ps, p);
      SumOfZeros(m, ps - {p});
      PlusNothing(NOTHING);
    }
  }

  // ----- every step keeps the invariant -----

  lemma CountAlike(step: nat, a: Stats, b: Stats, t: Traffic)
    requires SameStats(a, b)
    ensures SameStats(Count(step, a, t), Count(step, b, t))
  {
    IncAlike(step, a.ndpi, b.ndpi, t.proto, t);
    IncAlike(step, a.total, b.total, NDPI_PROTOCOL_UNKNOWN, t);
  }

  lemma IncAlike(step: nat, a: Option<Counters>, b: Option<Counters>, p: nat, t: Traffic)
    requires SameCounters(a, b)
    ensures SameCounters(IncOption(step, a, p, t), IncOption(step, b, p, t))
  {
    if a.Some? {
      assert Lookup(a.value, p) == Lookup(b.value, p);
      hide IncCounter;
      forall q: nat ensures Lookup(IncProtocol(step, a.value, p, t), q) == Lookup(IncProtocol(step, b.value, p, t), q) {
        assert Lookup(a.value, q) == Lookup(b.value, q);
      }
    }
  }

  lemma CountBalanced(step: nat, s: Stats, t: Traffic)
    requires Balanced(s)
    ensures Balanced(Count(step, s, t))
  {
    if Counted(t) && s.ndpi.Some? {
      var m := s.ndpi.value;
      SumUpdate(m, t.proto, IncCounter(step, Lookup(m, t.proto), t), t.volume);
    }
  }

  lemma {:induction false} ReplayShape(step: nat, blank: Stats, log: seq<Traffic>)
    ensures Replay(step, blank, log).ndpi.Some? == blank.ndpi.Some?
    ensures Replay(step, blank, log).total.Some? == blank.total.Some?
  {
    if log != [] {
      ReplayShape(step, blank, log[..|log| - 1]);
    }
  }

  lemma ZeroesAreBalanced(s: Stats, ndpi: bool, total: bool)
    requires SameStats(s, Blank(ndpi, total))
    ensures Balanced(s)
  {
    if s.ndpi.Some? {
      forall p | p in s.ndpi.value ensures s.ndpi.value[p].volume == NOTHING {
        assert Lookup(s.ndpi.value, p) == ZERO;
      }
      SumOfZeros(s.ndpi.value, s.ndpi.value.Keys);
    }
  }

  lemma ResetIsBlank(o: Option<Counters>)
    ensures SameCounters(ResetOption(o), if o.Some? then Some(map[]) else None)
  {
  }

  lemma StepKeepsInv(step: nat, ndpi: bool, total: bool, s: State, a: Action)
    requires Inv(step, Blank(ndpi, total), s) && (a.Inc? ==> s.place == Outside)
    ensures Inv(step, Blank(ndpi, total), Next(step, s, a))
  {
    hide Balanced;
    var blank, since, n := Blank(ndpi, total), s.log[s.start..], Next(step, s, a);
    match a
    case Inc(t) =>
      assert n.log[n.start..] == since + [t];
      assert (since + [t])[..|since + [t]| - 1] == since;
      assert Replay(step, blank, since + [t]) == Count(step, Replay(step, blank, since), t);
      hide Count, SameStats, Replay;
      CountAlike(step, s.stats, Replay(step, blank, since), t);
      CountBalanced(step, s.stats, t);
    case Request =>
    case Check =>
      ReplayShape(step, blank, since);
      match s.place {
        case Outside =>
        case BeforeNdpi => ResetIsBlank(s.stats.ndpi);
        case BeforeTotal => ResetIsBlank(s.stats.total);
        case BeforeTraffic => ZeroesAreBalanced(n.stats, ndpi, total);
        case BeforeClear => assert n.log[n.start..] == [];
      }
  }

  lemma {:induction false} EveryRunKeepsInv(step: nat, ndpi: bool, total: bool, run: seq<Action>)
    requires OneThread(step, Init(ndpi, total), run)
    ensures Inv(step, Blank(ndpi, total), Run(step, Init(ndpi, total), run))
  {
    var init := Init(ndpi, total);
    if run == [] {
      ZeroesAreBalanced(init.stats, ndpi, total);
    } else {
      hide Inv, Next;
      var front, last := run[..|run| - 1], run[|run| - 1];
      assert last.Inc? ==> Run(step, init, run[..|run| - 1]).place == Outside;
      assert front + [last] == run;
      PrefixRun(step, init, front, [last]);
      hide OneThread;
      EveryRunKeepsInv(step, ndpi, total, front);
      StepKeepsInv(step, ndpi, total, Run(step, init, front), last);
    }
  }

  lemma {:induction false} PrefixRun(step: nat, s: State, a: seq<Action>, b: seq<Action>)
    ensures Run(step, s, a + b) == Run(step, Run(step, s, a), b)
    ensures OneThread(step, s, a + b) ==> OneThread(step, s, a)
  {
    forall i | 0 <= i < |a| ensures (a + b)[..i] == a[..i] && (a + b)[i] == a[i] {
    }
    if b == [] {
      assert a + b == a;
    } else {
      var front := b[..|b| - 1];
      PrefixRun(step, s, a, front);
      assert (a + b)[..|a + b| - 1] == a + front;
    }
  }

  // ----- what the counters mean -----

  lemma {:induction false} TicksSnoc(step: nat, times: seq<nat>, t: nat, last: nat)
    ensures var ticks := Ticks(step, times, last);
            Ticks(step, times + [t], last)
            == ticks + (if t != 0 && (t - Latest(ticks, last)) % TWO_TO_THE_32 >= step then [t] else [])
  {
    if times == [] {
      assert [] + [t] == [t] && [t][1..] == [];
    } else {
      assert (times + [t])[0] == times[0] && (times + [t])[1..] == times[1..] + [t];
      TicksSnoc(step, times[1..], t, if times[0] != 0 && (times[0] - last) % TWO_TO_THE_32 >= step then times[0] else last);
    }
  }

  lemma IncTimed(step: nat, c: Counter, times: seq<nat>, t: Traffic)
    requires Timed(step, c, times)
    ensures Timed(step, IncCounter(step, c, t), times + [t.when])
  {
    TicksSnoc(step, times, t.when, 0);
    var ticks := Ticks(step, times, 0);
    hide Ticks;
    assert step * (|ticks| + 1) == step * |ticks| + step;
  }

  /** The counters stand for this traffic, one by one and together. */
  ghost predicate Means(step: nat, s: Stats, log: seq<Traffic>) {
    && s.traffic == TotalVolume(log)
    && (s.ndpi.Some? ==> forall p: nat :: ProtocolMeans(step, s.ndpi.value, log, p))
    && (s.total.Some? ==>
          Lookup(s.total.value, 0).volume == TotalVolume(log) && Timed(step, Lookup(s.total.value, 0), TimesOf(log, None)))
  }

  ghost predicate ProtocolMeans(step: nat, m: Counters, log: seq<Traffic>, p: nat) {
    Lookup(m, p).volume == VolumeOf(log, p) && Timed(step, Lookup(m, p), TimesOf(log, Some(p)))
  }

  lemma LogGrows(log: seq<Traffic>, t: Traffic, p: nat)
    ensures VolumeOf(log + [t], p) == if Counted(t) && t.proto == p then Plus(VolumeOf(log, p), t.volume) else VolumeOf(log, p)
    ensures TotalVolume(log + [t]) == if Counted(t) then Plus(TotalVolume(log), t.volume) else TotalVolume(log)
    ensures TimesOf(log + [t], Some(p)) == TimesOf(log, Some(p)) + (if Counted(t) && t.proto == p then [t.when] else [])
    ensures TimesOf(log + [t], None) == TimesOf(log, None) + (if Counted(t) then [t.when] else [])
  {
    assert (log + [t])[..|log + [t]| - 1] == log;
  }

  lemma CountMeans(step: nat, s: Stats, log: seq<Traffic>, t: Traffic)
    requires Means(step, s, log)
    ensures Means(step, Count(step, s, t), log + [t])
  {
    var n := Count(step, s, t);
    LogGrows(log, t, 0);
    hide VolumeOf, TotalVolume, TimesOf, Timed;
    if s.ndpi.Some? {
      forall p: nat ensures ProtocolMeans(step, n.ndpi.value, log + [t], p) {
        assert ProtocolMeans(step, s.ndpi.value, log, p);
        LogGrows(log, t, p);
        if Counted(t) && t.proto == p {
          IncTimed(step, Lookup(s.ndpi.value, p), TimesOf(log, Some(p)), t);
        }
      }
    }
    if s.total.Some? && Counted(t) {
      IncTimed(step, Lookup(s.total.value, 0), TimesOf(log, None), t);
    }
  }

  lemma BlankMeans(step: nat, ndpi: bool, total: bool)
    ensures Means(step, Blank(ndpi, total), [])
  {
    forall p: nat ensures ProtocolMeans(step, map[], [], p) {
      assert Ticks(step, [], 0) == [];
    }
  }

  lemma {:induction false} ReplayMeans(step: nat, ndpi: bool, total: bool, log: seq<Traffic>)
    ensures Means(step, Replay(step, Blank(ndpi, total), log), log)
  {
    if log == [] {
      BlankMeans(step, ndpi, total);
    } else {
      hide Means, Count;
      var front := log[..|log| - 1];
      ReplayMeans(step, ndpi, total, front);
      CountMeans(step, Replay(step, Blank(ndpi, total), front), front, log[|log| - 1]);
      assert front + [log[|log| - 1]] == log;
    }
  }

  lemma SameMeans(step: nat, a: Stats, b: Stats, log: seq<Traffic>)
    requires SameStats(a, b) && Means(step, b, log)
    ensures Means(step, a, log)
  {
    hide Timed;
    if a.ndpi.Some? {
      forall p: nat ensures ProtocolMeans(step, a.ndpi.value, log, p) {
        assert Lookup(a.ndpi.value, p) == Lookup(b.ndpi.value, p) && ProtocolMeans(step, b.ndpi.value, log, p);
      }
    }
    if a.total.Some? {
      assert Lookup(a.total.value, 0) == Lookup(b.total.value, 0);
    }
  }

  ghost predicate Rising(times: seq<nat>) {
    && (forall i | 0 <= i < |times| :: 0 < times[i] < TWO_TO_THE_32)
    && (forall i, j | 0 <= i < j < |times| :: times[i] <= times[j])
  }

  /** For traffic in order of time the ticks are at least a step apart, so the duration
      never exceeds the time that passed by more than one step; and the latest tick is
      less than a step behind the latest traffic. */
  lemma {:induction false} DurationExact(step: nat, times: seq<nat>, last: nat)
    requires step > 0 && Rising(times) && (times != [] ==> last <= times[0])
    ensures var ticks := Ticks(step, times, last);
            times != [] ==>
              && step * |ticks| <= times[|times| - 1] - last
              && Latest(ticks, last) <= times[|times| - 1] < Latest(ticks, last) + step
  {
    if times != [] {
      var rest, from := times[1..], if times[0] - last >= step then times[0] else last;
      FirstTick(step, times, last);
      RestRises(times);
      hide Rising, Ticks;
      DurationExact(step, rest, from);
      OneMoreTick(step, |Ticks(step, rest, from)|);
      if rest == [] {
        NoTicks(step, from);
      }
    }
  }

  lemma FirstTick(step: nat, times: seq<nat>, last: nat)
    requires times != [] && 0 < times[0] < TWO_TO_THE_32 && last <= times[0]
    ensures Ticks(step, times, last)
            == if times[0] - last >= step then [times[0]] + Ticks(step, times[1..], times[0]) else Ticks(step, times[1..], last)
  {
  }

  lemma RestRises(times: seq<nat>)
    requires times != [] && Rising(times)
    ensures Rising(times[1..]) && times[0] <= times[|times| - 1]
    ensures times[1..] != [] ==> times[1..][0] >= times[0] && times[1..][|times| - 2] == times[|times| - 1]
  {
  }

  lemma OneMoreTick(step: nat, n: nat)
    ensures step * (n + 1) == step * n + step && step * 0 == 0
  {
  }

  lemma NoTicks(step: nat, last: nat)
    ensures Ticks(step, [], last) == []
  {
  }

  // ----- main results -----

  /** The traffic a run counts, in order. */
  function TrafficIn(run: seq<Action>): seq<Traffic> {
    if run == [] then []
    else TrafficIn(run[..|run| - 1]) + if run[|run| - 1].Inc? then [run[|run| - 1].t] else []
  }

  lemma StartsEmpty(step: nat, ndpi: bool, total: bool)
    ensures Run(step, Init(ndpi, total), []).log == []
  {
  }

  /** The history is that of the run, and a reset is completed when, and only when, the
      last step of a check is. */
  lemma {:induction false} HistoryExact(step: nat, ndpi: bool, total: bool, run: seq<Action>)
    ensures Run(step, Init(ndpi, total), run).log == TrafficIn(run)
    ensures run != [] ==>
              var s, n := Run(step, Init(ndpi, total), run[..|run| - 1]), Run(step, Init(ndpi, total), run);
              n.start == if run[|run| - 1].Check? && s.place != Outside && n.place == Outside then |TrafficIn(run)| else s.start
  {
    hide Count, ResetOption, Init, Run;
    StartsEmpty(step, ndpi, total);
    if run != [] {
      var front, a := run[..|run| - 1], run[|run| - 1];
      HistoryExact(step, ndpi, total, front);
      PrefixRun(step, Init(ndpi, total), front, [a]);
      OneStep(step, Run(step, Init(ndpi, total), front), a);
      assert front + [a] == run;
      hide OneThread;
    }
  }

  /** Outside a check the counters are those of a new pool that saw exactly the
      traffic since the last reset: each protocol has the volume of its own traffic,
      the total that of all traffic, and the three totals agree. */
  lemma CountersExact(step: nat, ndpi: bool, total: bool, run: seq<Action>)
    requires OneThread(step, Init(ndpi, total), run)
    requires Run(step, Init(ndpi, total), run).place == Outside
    ensures var s := Run(step, Init(ndpi, total), run);
            && s.start <= |s.log|
            && SameStats(s.stats, Replay(step, Blank(ndpi, total), s.log[s.start..]))
            && (ndpi ==> s.stats.ndpi.Some? && Sum(s.stats.ndpi.value) == s.stats.traffic)
            && (total ==> s.stats.total.Some? && Lookup(s.stats.total.value, NDPI_PROTOCOL_UNKNOWN).volume == s.stats.traffic)
            && s.stats.traffic == TotalVolume(s.log[s.start..])
            && (ndpi ==> forall p: nat :: Lookup(s.stats.ndpi.value, p).volume == VolumeOf(s.log[s.start..], p))
  {
    EveryRunKeepsInv(step, ndpi, total, run);
    var s := Run(step, Init(ndpi, total), run);
    var since := s.log[s.start..];
    ReplayShape(step, Blank(ndpi, total), since);
    ReplayMeans(step, ndpi, total, since);
    hide Run, Replay, Timed, VolumeOf, TotalVolume, Sum;
    SameMeans(step, s.stats, Replay(step, Blank(ndpi, total), since), since);
    if ndpi {
      forall p: nat ensures Lookup(s.stats.ndpi.value, p).volume == VolumeOf(since, p) {
        assert ProtocolMeans(step, s.stats.ndpi.value, since, p);
      }
    }
  }

  /** And so are their times: the duration is one housekeeping period for each period
      begun by the counter's own traffic since the last reset. */
  lemma TimesExact(step: nat, ndpi: bool, total: bool, run: seq<Action>)
    requires OneThread(step, Init(ndpi, total), run)
    requires Run(step, Init(ndpi, total), run).place == Outside
    ensures var s := Run(step, Init(ndpi, total), run);
            && s.start <= |s.log|
            && (ndpi ==> s.stats.ndpi.Some?) && (total ==> s.stats.total.Some?)
            && (ndpi ==> forall p: nat :: Timed(step, Lookup(s.stats.ndpi.value, p), TimesOf(s.log[s.start..], Some(p))))
            && (total ==> Timed(step, Lookup(s.stats.total.value, NDPI_PROTOCOL_UNKNOWN), TimesOf(s.log[s.start..], None)))
  {
    CountersExact(step, ndpi, total, run);
    var s := Run(step, Init(ndpi, total), run);
    var since := s.log[s.start..];
    ReplayMeans(step, ndpi, total, since);
    hide Run, Replay, Timed, VolumeOf, TotalVolume, Sum;
    SameMeans(step, s.stats, Replay(step, Blank(ndpi, total), since), since);
    if ndpi {
      forall p: nat ensures Timed(step, Lookup(s.stats.ndpi.value, p), TimesOf(since, Some(p))) {
        assert ProtocolMeans(step, s.stats.ndpi.value, since, p);
      }
    }
  }

  /** History only grows, and resets only move forward. */
  lemma {:induction false} Forward(step: nat, s: State, run: seq<Action>)
    requires s.start <= |s.log| && s.requested <= |s.log|
    ensures var n := Run(step, s, run);
            && |s.log| <= |n.log| && n.log[..|s.log|] == s.log
            && s.start <= n.start <= |n.log| && s.requested <= n.requested <= |n.log|
  {
    if run != [] {
      Forward(step, s, run[..|run| - 1]);
    }
  }

  /** A request, wherever it lands between the steps of a check, is honoured by
      the next check to complete: everything counted before the request is gone
      from then on. */
  lemma ResetTakesEffect(step: nat, ndpi: bool, total: bool, before: seq<Action>, during: seq<Action>, after: seq<Action>)
    requires OneThread(step, Init(ndpi, total), before + [Request] + during + [Check] + after)
    requires Run(step, Init(ndpi, total), before + [Request] + during + [Check]).place == Outside
    ensures var counted := |Run(step, Init(ndpi, total), before).log|;
            var s := Run(step, Init(ndpi, total), before + [Request] + during + [Check] + after);
            && counted <= s.start <= |s.log|
            && (s.place == Outside ==> SameStats(s.stats, Replay(step, Blank(ndpi, total), s.log[s.start..])))
  {
    hide Next, Inv, OneThread;
    var init := Init(ndpi, total);
    var r1, r2 := before + [Request], before + [Request] + during;
    var r3 := r2 + [Check];
    PrefixRun(step, init, r3, after);
    PrefixRun(step, init, r2, [Check]);
    PrefixRun(step, init, r1, during);
    PrefixRun(step, init, before, [Request]);
    Forward(step, init, before);
    EveryRunKeepsInv(step, ndpi, total, r2);
    Honoured(step, ndpi, total, Run(step, init, before), during, after);
    if Run(step, init, r3 + after).place == Outside {
      CountersExact(step, ndpi, total, r3 + after);
    }
  }

  lemma OneStep(step: nat, s: State, a: Action)
    ensures Run(step, s, [a]) == Next(step, s, a)
  {
    assert [a][..0] == [];
  }

  lemma Honoured(step: nat, ndpi: bool, total: bool, s: State, during: seq<Action>, after: seq<Action>)
    requires s.start <= |s.log| && s.requested <= |s.log|
    requires var d := Run(step, Run(step, s, [Request]), during);
             Inv(step, Blank(ndpi, total), d) && Run(step, d, [Check]).place == Outside
    ensures var d := Run(step, Run(step, Run(step, s, [Request]), during), [Check]);
            |s.log| <= Run(step, d, after).start <= |Run(step, d, after).log|
  {
    var r := Run(step, s, [Request]);
    OneStep(step, s, Request);
    Forward(step, r, during);
    var d := Run(step, r, during);
    OneStep(step, d, Check);
    hide Run;
    StepKeepsInv(step, ndpi, total, d, Check);
    var c := CheckStep(d);
    assert c.requested <= c.start;
    Forward(step, c, after);
  }

  /** Nothing is erased unasked: without a pending or new request no later check
      removes anything. */
  lemma {:induction false} NothingErasedUnasked(step: nat, s: State, run: seq<Action>)
    requires s.place == Outside && !s.mustReset && Request !in run
    ensures var n := Run(step, s, run);
            n.start == s.start && n.place == Outside && !n.mustReset
    ensures |Run(step, s, run).log| >= |s.log|
    ensures Run(step, s, run).stats == Replay(step, s.stats, Run(step, s, run).log[|s.log|..])
  {
    if run == [] {
      assert s.log[|s.log|..] == [];
    } else {
      var front, last := run[..|run| - 1], run[|run| - 1];
      NothingErasedUnasked(step, s, front);
      var f := Run(step, s, front);
      if last.Inc? {
        var since := f.log[|s.log|..];
        assert (f.log + [last.t])[|s.log|..] == since + [last.t];
        assert (since + [last.t])[..|since + [last.t]| - 1] == since;
      } else {
        assert last in run;
      }
    }
  }

  /** An undisturbed check is an immediate reset when a request is pending. */
  lemma UndisturbedCheck(step: nat, s: State)
    requires s.place == Outside && s.mustReset
    ensures var n := Run(step, s, [Check, Check, Check, Check, Check]);
            && n.place == Outside && !n.mustReset && n.log == s.log && n.start == |s.log|
            && n.stats == Stats(NOTHING, ResetOption(s.stats.ndpi), ResetOption(s.stats.total))
  {
    FirstStep(step, s, [Check, Check, Check, Check, Check]);
    FirstStep(step, CheckStep(s), [Check, Check, Check, Check]);
    ThreeChecks(step, CheckStep(CheckStep(s)));
    hide Run;
  }

  /** Why counting must stay on the checking thread: traffic counted by another
      thread inside a check survives in part, or outlives a request made after it. */
  lemma OtherThreadBreaksReset(step: nat, t: Traffic)
    requires Counted(t)
    ensures var torn := Run(step, Init(true, true), [Request, Check, Check, Inc(t), Check, Check, Check]);
            torn.place == Outside && !Balanced(torn.stats)
    ensures var lost := Run(step, Init(true, true), [Request, Check, Check, Check, Check, Inc(t), Request, Check]);
            && lost.place == Outside && !lost.mustReset
            && lost.requested == 1 && lost.stats.traffic == t.volume
  {
    var s0 := Init(true, true);
    var s2 := CheckStep(CheckStep(Next(step, s0, Request)));
    var m := map[t.proto := IncCounter(step, ZERO, t)];
    var i2 := Next(step, s2, Inc(t));
    assert ResetProtocols(map[]) == map[];
    SumUpdate(map[], t.proto, IncCounter(step, ZERO, t), t.volume);
    TornRun(step, t);
    LostRun(step, t);
    var torn := CheckStep(CheckStep(CheckStep(i2)));
    assert torn.stats.ndpi == Some(m) && torn.stats.traffic == NOTHING;
    assert Sum(m) == t.volume;
  }

  /** A run given as a list, one action at a time from the front. */
  lemma {:induction false} FirstStep(step: nat, s: State, run: seq<Action>)
    requires run != []
    ensures Run(step, s, run) == Run(step, Next(step, s, run[0]), run[1..])
  {
    PrefixRun(step, s, [run[0]], run[1..]);
    OneStep(step, s, run[0]);
    assert [run[0]] + run[1..] == run;
  }

  lemma ThreeChecks(step: nat, s: State)
    ensures Run(step, s, [Check, Check, Check]) == CheckStep(CheckStep(CheckStep(s)))
  {
    hide Run, CheckStep;
    FirstStep(step, s, [Check, Check, Check]);
    FirstStep(step, CheckStep(s), [Check, Check]);
    OneStep(step, CheckStep(CheckStep(s)), Check);
  }

  lemma TornRun(step: nat, t: Traffic)
    ensures var s2 := CheckStep(CheckStep(Next(step, Init(true, true), Request)));
            Run(step, Init(true, true), [Request, Check, Check, Inc(t), Check, Check, Check])
            == CheckStep(CheckStep(CheckStep(Next(step, s2, Inc(t)))))
  {
    hide Run, CheckStep, Init, Count;
    var s0 := Init(true, true);
    var s1 := Next(step, s0, Request);
    FirstStep(step, s0, [Request, Check, Check, Inc(t), Check, Check, Check]);
    FirstStep(step, s1, [Check, Check, Inc(t), Check, Check, Check]);
    FirstStep(step, CheckStep(s1), [Check, Inc(t), Check, Check, Check]);
    FirstStep(step, CheckStep(CheckStep(s1)), [Inc(t), Check, Check, Check]);
    ThreeChecks(step, Next(step, CheckStep(CheckStep(s1)), Inc(t)));
  }

  lemma LostRun(step: nat, t: Traffic)
    ensures var s4 := CheckStep(CheckStep(CheckStep(CheckStep(Next(step, Init(true, true), Request)))));
            Run(step, Init(true, true), [Request, Check, Check, Check, Check, Inc(t), Request, Check])
            == CheckStep(Next(step, Next(step, s4, Inc(t)), Request))
  {
    hide Run, CheckStep, Init, Count;
    var s0 := Init(true, true);
    var s1 := Next(step, s0, Request);
    var s4 := CheckStep(CheckStep(CheckStep(CheckStep(s1))));
    FirstStep(step, s0, [Request, Check, Check, Check, Check, Inc(t), Request, Check]);
    FirstStep(step, s1, [Check, Check, Check, Check, Inc(t), Request, Check]);
    FirstStep(step, CheckStep(s1), [Check, Check, Check, Inc(t), Request, Check]);
    FirstStep(step, CheckStep(CheckStep(s1)), [Check, Check, Inc(t), Request, Check]);
    FirstStep(step, CheckStep(CheckStep(CheckStep(s1))), [Check, Inc(t), Request, Check]);
    FirstStep(step, s4, [Inc(t), Request, Check]);
    FirstStep(step, Next(step, s4, Inc(t)), [Request, Check]);
    OneStep(step, Next(step, Next(step, s4, Inc(t)), Request), Check);
  }

  // ----- the class -----

  datatype Direction = Direction(packets: nat, bytes: nat)

  function Bytes(c: Counter): nat {
    c.volume.sentBytes + c.volume.rcvdBytes
  }

  lemma ProtocolBytes(step: nat, s: Stats, log: seq<Traffic>, p: nat)
    requires s.ndpi.Some? && Balanced(s) && Means(step, s, log)
    ensures var c := Lookup(s.ndpi.value, p);
            && Bytes(c) == VolumeOf(log, p).sentBytes + VolumeOf(log, p).rcvdBytes <= s.traffic.sentBytes + s.traffic.rcvdBytes
            && c.duration == step * |Ticks(step, TimesOf(log, Some(p)), 0)|
  {
    assert ProtocolMeans(step, s.ndpi.value, log, p);
    hide Ticks, VolumeOf, TimesOf, TotalVolume;
    if p in s.ndpi.value {
      SumRemove(s.ndpi.value, s.ndpi.value.Keys, p);
    }
    hide SumOver;
  }

  class HostPoolStats {
    var sent: Direction
    var rcvd: Direction
    var ndpi: Option<Counters>
    var total: Option<Counters>
    var firstSeen: nat
    var lastSeen: nat
    var mustReset: bool
    const step: nat
    ghost var log: seq<Traffic> // the traffic since the last reset

    ghost function View(): Stats
      reads this
    {
      Stats(Volume(sent.packets, sent.bytes, rcvd.packets, rcvd.bytes), ndpi, total)
    }

    ghost predicate Valid()
      reads this
    {
      firstSeen <= lastSeen && Balanced(View()) && Means(step, View(), log)
    }

    constructor (when: nat, housekeeping: nat, hasNdpi: bool, hasTotal: bool)
      ensures Valid() && View() == Init(hasNdpi, hasTotal).stats && !mustReset
      ensures firstSeen == lastSeen == when && step == housekeeping && log == []
    {
      sent, rcvd := Direction(0, 0), Direction(0, 0);
      ndpi := if hasNdpi then Some(map[]) else None;
      total := if hasTotal then Some(map[]) else None;
      firstSeen, lastSeen, mustReset := when, when, false;
      step, log := housekeeping, [];
      new;
      ZeroesAreBalanced(View(), hasNdpi, hasTotal);
      BlankMeans(step, hasNdpi, hasTotal);
    }

    /** A first time of zero is unset: any later time replaces it. */
    method UpdateSeen(when: nat)
      modifies this`firstSeen, this`lastSeen
      ensures lastSeen == when && firstSeen <= lastSeen
      ensures firstSeen == if 0 < old(firstSeen) <= when then old(firstSeen) else when
    {
      lastSeen := when;
      if firstSeen == 0 || firstSeen > lastSeen {
        firstSeen := lastSeen;
      }
    }

    method IncStats(t: Traffic)
      requires Valid()
      modifies this
      ensures Valid() && View() == Count(step, old(View()), t)
      ensures mustReset == old(mustReset) && lastSeen == t.when && log == old(log) + [t]
      ensures firstSeen == if 0 < old(firstSeen) <= t.when then old(firstSeen) else t.when
    {
      hide Means, Balanced, IncProtocol;
      CountBalanced(step, View(), t);
      CountMeans(step, View(), log, t);
      log := log + [t];
      if t.volume.sentPackets > 0 || t.volume.rcvdPackets > 0 {
        sent := Direction(sent.packets + t.volume.sentPackets, sent.bytes + t.volume.sentBytes);
        rcvd := Direction(rcvd.packets + t.volume.rcvdPackets, rcvd.bytes + t.volume.rcvdBytes);
        if ndpi.Some? {
          ndpi := Some(IncProtocol(step, ndpi.value, t.proto, t));
        }
        if total.Some? {
          total := Some(IncProtocol(step, total.value, NDPI_PROTOCOL_UNKNOWN, t));
        }
      }
      UpdateSeen(t.when);
    }

    method ResetStats()
      modifies this`mustReset
      ensures mustReset
    {
      mustReset := true;
    }

    /** Alone on its thread, the check applies a pending request at once. */
    method CheckStatsReset()
      requires Valid()
      modifies this`sent, this`rcvd, this`ndpi, this`total, this`mustReset, this`log
      ensures Valid() && !mustReset
      ensures log == if old(mustReset) then [] else old(log)
      ensures !old(mustReset) ==> View() == old(View())
      ensures old(mustReset) ==>
        View() == Run(step, State(old(View()), true, Outside, [], 0, 0), [Check, Check, Check, Check, Check]).stats
      ensures old(mustReset) ==> SameStats(View(), Blank(ndpi.Some?, total.Some?))
      // the counters are zeroed, not removed
      ensures ndpi.Some? == old(ndpi.Some?) && (ndpi.Some? ==> ndpi.value.Keys == old(ndpi.value.Keys))
    {
      if mustReset {
        UndisturbedCheck(step, State(View(), true, Outside, [], 0, 0));
        ResetIsBlank(ndpi);
        ResetIsBlank(total);
        if ndpi.Some? {
          ndpi := Some(ResetProtocols(ndpi.value));
        }
        if total.Some? {
          total := Some(ResetProtocols(total.value));
        }
        sent, rcvd := Direction(0, 0), Direction(0, 0);
        mustReset, log := false, [];
        ZeroesAreBalanced(View(), ndpi.Some?, total.Some?);
        BlankMeans(step, ndpi.Some?, total.Some?);
        SameMeans(step, View(), Blank(ndpi.Some?, total.Some?), []);
      }
    }

    /** The overall bytes of the pool are the bytes of all traffic since the last reset,
        in both directions. Without the cross-protocol object the caller's variables
        stay as they were. */
    method GetStats(bytes0: nat, duration0: nat) returns (bytes: nat, duration: nat)
      requires Valid()
      ensures total.Some? ==> bytes == sent.bytes + rcvd.bytes == TotalVolume(log).sentBytes + TotalVolume(log).rcvdBytes
      ensures total.Some? ==> duration == step * |Ticks(step, TimesOf(log, None), 0)|
      ensures total.None? ==> bytes == bytes0 && duration == duration0
    {
      bytes, duration := bytes0, duration0;
      if total.Some? {
        var c := Lookup(total.value, NDPI_PROTOCOL_UNKNOWN);
        bytes, duration := Bytes(c), c.duration;
      }
    }

    /** The bytes of the protocol's own traffic since the last reset; no protocol holds
        more than the pool. The per-protocol object must exist: it is not tested for. */
    method GetProtoStats(proto: nat) returns (bytes: nat, duration: nat)
      requires Valid() && ndpi.Some?
      ensures bytes == VolumeOf(log, proto).sentBytes + VolumeOf(log, proto).rcvdBytes <= sent.bytes + rcvd.bytes
      ensures duration == step * |Ticks(step, TimesOf(log, Some(proto)), 0)|
    {
      ProtocolBytes(step, View(), log, proto);
      hide Balanced, Means, Ticks, VolumeOf;
      var c := Lookup(ndpi.value, proto);
      bytes, duration := Bytes(c), c.duration;
    }
  }
}
