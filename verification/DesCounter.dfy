/**
 DESCounter: anomalies of a series against an external forecaster, with the
 lengths of the current excursions above and below the expected range. Whatever
 the forecaster answers is an input of each observation.
 */
module DesCounter {
  import opened Basics

  type Word64 = x: int | 0 <= x < TWO_TO_THE_64

  /** The forecaster's answer to one value; `trained` is false while it learns. */
  datatype Forecast = Forecast(trained: bool, center: real, band: real)

  datatype Event = Observe(value: Word64, forecast: Forecast) | Reset

  /** `round`: halves away from zero. */
  function Round(x: real): int {
    if x >= 0.0 then (x + 0.5).Floor else -(0.5 - x).Floor
  }

  function ToWord64(x: int): Word64 {
    x % TWO_TO_THE_64
  }

  function Lower(f: Forecast): Word64 {
    var low := f.center - f.band;
    ToWord64((if low < 0.0 then 0.0 else low).Floor)
  }

  function Upper(f: Forecast): Word64 {
    ToWord64(Round(f.center + f.band + 0.5))
  }

  datatype Verdict = Above | Below | Within

  /** How an event ends: out of range on one side, or anything else. */
  function Judge(e: Event): Verdict {
    match e
    case Reset => Within
    case Observe(value, f) =>
      if f.trained && value > Upper(f) then Above
      else if f.trained && value < Lower(f) then Below
      else Within
  }

  /** A value is reported above only when it exceeds the band by more than one, and
      below only when it is at least one under it. */
  lemma RangeExact(value: Word64, f: Forecast)
    requires f.trained && f.band >= 0.0 && -0.5 <= f.center + f.band < TWO_TO_THE_64 as real - 2.0
    ensures Judge(Observe(value, f)) == Above <==> value as real > f.center + f.band + 1.0
    ensures Judge(Observe(value, f)) == Below <==> value as real + 1.0 <= f.center - f.band
    ensures Judge(Observe(value, f)) != Within ==> value as real > f.center + f.band || value as real < f.center - f.band
  {
    var high := f.center + f.band;
    assert Round(high + 0.5) == (high + 1.0).Floor;
    assert 0 <= (high + 1.0).Floor < TWO_TO_THE_64;
    var low := if f.center - f.band < 0.0 then 0.0 else f.center - f.band;
    assert 0 <= low.Floor < TWO_TO_THE_64;
  }

  // ----- the counters as a function of the history -----

  datatype State = State(isAnomaly: bool, totNumAnomalies: nat, lastLower: Word64, lastUpper: Word64, lastValue: Word64,
                         consecutiveAbove: nat, consecutiveBelow: nat)

  const INITIAL := State(false, 0, 0, 0, 0, 0, 0)

  function Next(s: State, e: Event): State {
    match e
    case Reset => s.(consecutiveAbove := 0, consecutiveBelow := 0)
    case Observe(value, f) =>
      var lower, upper := Lower(f), Upper(f);
      var n := s.(lastValue := value, lastLower := lower, lastUpper := upper);
      if !f.trained then n.(isAnomaly := false, consecutiveAbove := 0, consecutiveBelow := 0)
      else
        var anomaly := value < lower || value > upper;
        var total := if anomaly then s.totNumAnomalies + 1 else s.totNumAnomalies;
        var m := n.(isAnomaly := anomaly, totNumAnomalies := total);
        if value > upper then m.(consecutiveAbove := (s.consecutiveAbove + 1) % TWO_TO_THE_32, consecutiveBelow := 0)
        else if value < lower then m.(consecutiveBelow := (s.consecutiveBelow + 1) % TWO_TO_THE_32, consecutiveAbove := 0)
        else m.(consecutiveAbove := 0, consecutiveBelow := 0)
  }

  /** The return value of `addObservation`. */
  function Returns(s: State, value: Word64, f: Forecast): bool {
    f.trained && Next(s, Observe(value, f)).isAnomaly
  }

  function Run(log: seq<Event>): State {
    if log == [] then INITIAL else Next(Run(log[..|log| - 1]), log[|log| - 1])
  }

  /** How many calls returned true. */
  function TrueReturns(log: seq<Event>): nat {
    if log == [] then 0
    else
      var front, last := log[..|log| - 1], log[|log| - 1];
      TrueReturns(front) + if last.Observe? && Returns(Run(front), last.value, last.forecast) then 1 else 0
  }

  /** The last `n` events, and no more, ended with verdict `v`. */
  ghost predicate MaximalTrailingRun(log: seq<Event>, v: Verdict, n: nat) {
    && n <= |log|
    && (forall i | |log| - n <= i < |log| :: Judge(log[i]) == v)
    && (n < |log| ==> Judge(log[|log| - n - 1]) != v)
  }

  function Trailing(log: seq<Event>, v: Verdict): nat {
    if log == [] || Judge(log[|log| - 1]) != v then 0 else 1 + Trailing(log[..|log| - 1], v)
  }

  lemma {:induction false} TrailingIsMaximal(log: seq<Event>, v: Verdict, n: nat)
    ensures MaximalTrailingRun(log, v, n) <==> n == Trailing(log, v)
  {
    hide Judge;
    if log != [] && Judge(log[|log| - 1]) == v && n > 0 {
      TrailingIsMaximal(log[..|log| - 1], v, n - 1);
      OneLonger(log, v, n);
    }
  }

  lemma OneLonger(log: seq<Event>, v: Verdict, n: nat)
    requires log != [] && Judge(log[|log| - 1]) == v && n > 0
    ensures MaximalTrailingRun(log, v, n) <==> MaximalTrailingRun(log[..|log| - 1], v, n - 1)
  {
    hide Judge;
    var front := log[..|log| - 1];
    if MaximalTrailingRun(log, v, n) {
      forall i | |front| - (n - 1) <= i < |front| ensures Judge(front[i]) == v {
        assert front[i] == log[i];
      }
    }
    if MaximalTrailingRun(front, v, n - 1) {
      forall i | |log| - n <= i < |log| ensures Judge(log[i]) == v {
        assert i < |front| ==> front[i] == log[i];
      }
    }
  }

  /** The verdict on the latest observation, whatever resets followed it. */
  function LastVerdict(log: seq<Event>): Verdict {
    if log == [] then Within
    else if log[|log| - 1].Observe? then Judge(log[|log| - 1])
    else LastVerdict(log[..|log| - 1])
  }

  lemma StepExact(s: State, e: Event)
    ensures var n := Next(s, e);
            && n.consecutiveAbove == (if Judge(e) == Above then (s.consecutiveAbove + 1) % TWO_TO_THE_32 else 0)
            && n.consecutiveBelow == (if Judge(e) == Below then (s.consecutiveBelow + 1) % TWO_TO_THE_32 else 0)
            && n.totNumAnomalies == s.totNumAnomalies + (if Judge(e) != Within then 1 else 0)
            && n.isAnomaly == (if e.Observe? then Judge(e) != Within else s.isAnomaly)
            && (e.Observe? ==> Returns(s, e.value, e.forecast) == (Judge(e) != Within))
  {
  }

  /** For every forecaster and every run of observations and resets: each excursion
      counter is the length of the maximal trailing run on its side, they are never
      both positive, and the total is the number of calls that returned true. */
  lemma {:induction false} RunExact(log: seq<Event>)
    ensures var s := Run(log);
            && s.consecutiveAbove == Trailing(log, Above) % TWO_TO_THE_32
            && s.consecutiveBelow == Trailing(log, Below) % TWO_TO_THE_32
            && (s.consecutiveAbove == 0 || s.consecutiveBelow == 0)
            && s.totNumAnomalies == TrueReturns(log)
            && s.isAnomaly == (LastVerdict(log) != Within)
  {
    if log != [] {
      var front, last := log[..|log| - 1], log[|log| - 1];
      RunExact(front);
      StepExact(Run(front), last);
      hide Next, Judge, Returns;
      IncRemainder(Trailing(front, Above));
      IncRemainder(Trailing(front, Below));
    }
  }

  /** A reset ends the excursions and nothing else: the anomaly flag and the total
      keep the values they had before it. */
  lemma ResetKeepsVerdict(log: seq<Event>)
    ensures var s, n := Run(log), Run(log + [Reset]);
            && n.consecutiveAbove == n.consecutiveBelow == 0
            && n.isAnomaly == s.isAnomaly == (LastVerdict(log) != Within)
            && n.totNumAnomalies == s.totNumAnomalies == TrueReturns(log)
  {
    assert (log + [Reset])[..|log + [Reset]| - 1] == log;
    RunExact(log);
  }

  lemma Extended(log: seq<Event>, e: Event)
    ensures Run(log + [e]) == Next(Run(log), e)
    ensures TrueReturns(log + [e]) == TrueReturns(log) + if Judge(e) != Within then 1 else 0
  {
    assert (log + [e])[..|log + [e]| - 1] == log;
    StepExact(Run(log), e);
  }

  /** The latest observation, whatever resets followed it. */
  function LastObservation(log: seq<Event>): Option<Event> {
    if log == [] then None
    else if log[|log| - 1].Observe? then Some(log[|log| - 1])
    else LastObservation(log[..|log| - 1])
  }

  /** The stored value and bounds are those of the latest observation, also while the
      forecaster learns: the lower bound is the band's lower end, or zero, rounded
      down; the upper one is the first whole number above its upper end. */
  lemma {:induction false} LastExact(log: seq<Event>)
    ensures var s := Run(log);
            match LastObservation(log)
            case None => s.lastValue == s.lastLower == s.lastUpper == 0
            case Some(e) =>
              && e.Observe? && s.lastValue == e.value
              && var low, high := e.forecast.center - e.forecast.band, e.forecast.center + e.forecast.band;
              (e.forecast.band >= 0.0 && -0.5 <= high < TWO_TO_THE_64 as real - 2.0 ==>
                 && (if low < 0.0 then s.lastLower == 0 else s.lastLower as real <= low < s.lastLower as real + 1.0)
                 && high < s.lastUpper as real <= high + 1.0)
  {
    if log != [] {
      var front, last := log[..|log| - 1], log[|log| - 1];
      if last.Observe? {
        BoundsExact(last.forecast);
        hide Lower, Upper, Run;
        assert Run(log).lastValue == last.value && Run(log).lastLower == Lower(last.forecast)
               && Run(log).lastUpper == Upper(last.forecast) by {
          LastStep(log);
        }
      } else {
        LastExact(front);
        assert Run(log) == Next(Run(front), Reset);
      }
    }
  }

  lemma LastStep(log: seq<Event>)
    requires log != [] && log[|log| - 1].Observe?
    ensures var s, e := Run(log), log[|log| - 1];
            s.lastValue == e.value && s.lastLower == Lower(e.forecast) && s.lastUpper == Upper(e.forecast)
  {
    hide Lower, Upper;
  }

  lemma BoundsExact(f: Forecast)
    ensures var low, high := f.center - f.band, f.center + f.band;
            f.band >= 0.0 && -0.5 <= high < TWO_TO_THE_64 as real - 2.0 ==>
              && (if low < 0.0 then Lower(f) == 0 else Lower(f) as real <= low < Lower(f) as real + 1.0)
              && high < Upper(f) as real <= high + 1.0
  {
    var low, high := f.center - f.band, f.center + f.band;
    if f.band >= 0.0 && -0.5 <= high < TWO_TO_THE_64 as real - 2.0 {
      assert Round(high + 0.5) == (high + 1.0).Floor;
      assert 0 <= (high + 1.0).Floor < TWO_TO_THE_64;
      assert 0 <= (if low < 0.0 then 0.0 else low).Floor < TWO_TO_THE_64;
    }
  }

  // ----- the class -----

  class DESCounter {
    var isAnomaly: bool
    var totNumAnomalies: nat
    var lastLower: Word64
    var lastUpper: Word64
    var lastValue: Word64
    var consecutiveAbove: nat
    var consecutiveBelow: nat
    ghost var log: seq<Event>

    ghost function View(): State
      reads this
    {
      State(isAnomaly, totNumAnomalies, lastLower, lastUpper, lastValue, consecutiveAbove, consecutiveBelow)
    }

    ghost predicate Valid()
      reads this
    {
      View() == Run(log)
    }

    constructor ()
      ensures Valid() && log == []
    {
      isAnomaly := false;
      totNumAnomalies, lastLower, lastUpper, lastValue := 0, 0, 0, 0;
      consecutiveAbove, consecutiveBelow := 0, 0;
      log := [];
    }

    method AddObservation(value: Word64, f: Forecast) returns (anomaly: bool)
      requires Valid()
      modifies this
      ensures Valid() && log == old(log) + [Observe(value, f)]
      ensures anomaly <==> Judge(Observe(value, f)) != Within
      ensures anomaly <==> TrueReturns(log) == TrueReturns(old(log)) + 1
    {
      var e := Observe(value, f);
      hide Run, TrueReturns, Lower, Upper, Judge, Returns;
      Extended(log, e);
      StepExact(View(), e);
      ghost var n := Next(View(), e);
      log := log + [e];
      lastValue, lastLower, lastUpper := value, Lower(f), Upper(f);
      if f.trained {
        isAnomaly := value < lastLower || value > lastUpper;
        if isAnomaly {
          totNumAnomalies := totNumAnomalies + 1;
        }
        if value > lastUpper {
          consecutiveAbove, consecutiveBelow := (consecutiveAbove + 1) % TWO_TO_THE_32, 0;
        } else if value < lastLower {
          consecutiveBelow, consecutiveAbove := (consecutiveBelow + 1) % TWO_TO_THE_32, 0;
        } else {
          consecutiveAbove, consecutiveBelow := 0, 0;
        }
        assert View() == n;
        return isAnomaly;
      }
      isAnomaly, consecutiveAbove, consecutiveBelow := false, 0, 0;
      assert View() == n;
      return false;
    }

    method ResetStats()
      requires Valid()
      modifies this
      ensures Valid() && log == old(log) + [Reset]
    {
      assert (log + [Reset])[..|log + [Reset]| - 1] == log;
      consecutiveAbove, consecutiveBelow := 0, 0;
      log := log + [Reset];
    }
  }
}
