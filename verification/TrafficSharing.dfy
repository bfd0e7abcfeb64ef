/**
 How one writer and many readers share the two tables of FrequentTrafficItems.
 The writer runs `add*` and `reset`; only the first part of `reset` is under the
 mutex that the readers' queries take, so its remaining assignments are separate
 steps that queries may fall between.
 */
module TrafficSharing {
  import opened Basics
  import opened UtHashSort
  import opened TopItems

  /** How far the writer is inside `reset`. */
  datatype Phase =
    | Quiet     // not inside `reset`
    | Published // `q_committed = q` done and mutex released; `q` still set
    | Emptied   // `q = NULL` done
    | SumSaved  // `last_values_sum = values_sum` done

  datatype Step<+K> =
    | Observe(o: Observation<K>) // one whole add, by the writer
    | Publish                    // the part of `reset` under the mutex
    | Empty                      // q = NULL
    | SaveSum                    // last_values_sum = values_sum
    | ZeroSum                    // values_sum = 0
    | Query                      // one lua* call, under the mutex

  /** The fields of the object, the identities of freed nodes in order, and the
      history that the fields should reflect: the observations of the current
      interval and of the interval behind the committed table, with the first
      node identity of each, and the sum of the interval before that. */
  datatype State<K> = State(
    work: Table<K>, committed: seq<Node<K>>, lastValuesSum: nat, freed: seq<nat>, phase: Phase,
    interval: seq<Observation<K>>, first: nat,
    shown: seq<Observation<K>>, shownFirst: nat, previousSum: nat)

  function Ids<K>(s: seq<Node<K>>): (r: seq<nat>)
    ensures |r| == |s|
  {
    if s == [] then [] else [s[0].id] + Ids(s[1..])
  }

  function Upto(n: nat): (r: seq<nat>)
    ensures |r| == n
  {
    if n == 0 then [] else Upto(n - 1) + [n - 1]
  }

  function Initial<K>(): State<K> {
    State(Table([], 0, 0), [], 0, [], Quiet, [], 0, [], 0, 0)
  }

  predicate Enabled<K>(s: State<K>, a: Step<K>) {
    match a
    case Observe(_) => s.phase.Quiet?
    case Publish => s.phase.Quiet?
    case Empty => s.phase.Published?
    case SaveSum => s.phase.Emptied?
    case ZeroSum => s.phase.SumSaved?
    case Query => true
  }

  /** The nodes an add frees. */
  function FreedBy<K(==)>(t: Table<K>, maxItems: nat, o: Observation<K>): seq<Node<K>> {
    if Prunes(t, maxItems, o.key) then Dropped(t.nodes, maxItems) else []
  }

  function Next<K(==)>(maxItems: nat, s: State<K>, a: Step<K>): State<K> {
    match a
    case Observe(o) =>
      s.(work := Add(s.work, maxItems, o), freed := s.freed + Ids(FreedBy(s.work, maxItems, o)),
         interval := s.interval + [o])
    case Publish =>
      s.(committed := s.work.nodes, freed := s.freed + Ids(s.committed), phase := Published,
         shown := s.interval, shownFirst := s.first, previousSum := s.lastValuesSum)
    case Empty => s.(work := s.work.(nodes := []), phase := Emptied)
    case SaveSum => s.(lastValuesSum := s.work.valuesSum, phase := SumSaved)
    case ZeroSum =>
      s.(work := s.work.(valuesSum := 0), phase := Quiet, interval := [], first := s.work.nextId)
    case Query => s.(committed := HashSort(s.committed))
  }

  /** The state after a run of steps. */
  function After<K(==)>(maxItems: nat, run: seq<Step<K>>): State<K> {
    if run == [] then Initial() else Next(maxItems, After(maxItems, run[..|run| - 1]), run[|run| - 1])
  }

  ghost predicate Possible<K>(maxItems: nat, run: seq<Step<K>>) {
    forall i | 0 <= i < |run| :: Enabled(After(maxItems, run[..i]), run[i])
  }

  // ----- the invariant -----

  /** Every node ever allocated is in the working table, in the committed table
      or freed, once. While `reset` is between publishing and clearing, `q` is a
      second name for the committed table. */
  ghost predicate OwnedOnce<K>(s: State<K>) {
    var working := if s.phase.Published? then [] else Ids(s.work.nodes);
    multiset(working) + multiset(Ids(s.committed)) + multiset(s.freed) == multiset(Upto(s.work.nextId))
  }

  /** The committed table is the outcome of one whole interval. */
  ghost predicate ShowsInterval<K>(maxItems: nat, s: State<K>) {
    multiset(s.committed) == multiset(Run(s.shownFirst, maxItems, s.shown).nodes)
  }

  ghost predicate SumsAgree<K>(maxItems: nat, s: State<K>) {
    var shownSum := Run(s.shownFirst, maxItems, s.shown).valuesSum;
    match s.phase
    case Quiet => s.work == Run(s.first, maxItems, s.interval) && s.lastValuesSum == shownSum
    case Published => multiset(s.work.nodes) == multiset(s.committed)
                      && s.work.valuesSum == shownSum && s.lastValuesSum == s.previousSum
    case Emptied => s.work.nodes == [] && s.work.valuesSum == shownSum && s.lastValuesSum == s.previousSum
    case SumSaved => s.work.nodes == [] && s.lastValuesSum == shownSum
  }

  ghost predicate Inv<K>(maxItems: nat, s: State<K>) {
    OwnedOnce(s) && ShowsInterval(maxItems, s) && SumsAgree(maxItems, s)
  }

  // ----- identities -----

  lemma {:induction false} IdsOfConcat<K>(a: seq<Node<K>>, b: seq<Node<K>>)
    ensures Ids(a + b) == Ids(a) + Ids(b)
  {
    if a == [] {
      assert a + b == b;
    } else {
      assert (a + b)[0] == a[0] && (a + b)[1..] == a[1..] + b;
      assert Ids(a) == [a[0].id] + Ids(a[1..]);
      assert Ids(a + b) == [a[0].id] + Ids(a[1..] + b);
      hide Ids;
      IdsOfConcat(a[1..], b);
    }
  }

  lemma {:induction false} IdsOfUpdate<K>(s: seq<Node<K>>, i: nat, n: Node<K>)
    requires i < |s| && n.id == s[i].id
    ensures Ids(s[i := n]) == Ids(s)
  {
    if i > 0 {
      IdsOfUpdate(s[1..], i - 1, n);
      assert s[i := n][1..] == s[1..][i - 1 := n];
    } else {
      assert s[i := n][1..] == s[1..];
    }
  }

  lemma {:induction false} IdsOfPermutation<K>(s: seq<Node<K>>, t: seq<Node<K>>)
    requires multiset(s) == multiset(t)
    ensures multiset(Ids(s)) == multiset(Ids(t))
  {
    if s == [] {
      SameNodes(s, t);
    } else {
      var i := PermutationTail(s, t);
      IdsOfPermutation(s[1..], t[..i] + t[i + 1..]);
      IdsOfRemoval(t, i);
    }
  }

  lemma IdsOfRemoval<K>(t: seq<Node<K>>, i: nat)
    requires i < |t|
    ensures multiset(Ids(t)) == multiset{t[i].id} + multiset(Ids(t[..i] + t[i + 1..]))
  {
    IdsAround(t[..i], t[i], t[i + 1..]);
    SplitAt(t, i);
    hide Ids;
  }

  lemma SplitAt<K>(t: seq<Node<K>>, i: nat)
    requires i < |t|
    ensures t == t[..i] + ([t[i]] + t[i + 1..])
  {
  }

  lemma IdsAround<K>(a: seq<Node<K>>, n: Node<K>, b: seq<Node<K>>)
    ensures multiset(Ids(a + ([n] + b))) == multiset{n.id} + multiset(Ids(a + b))
  {
    IdsOfCons(n, b);
    hide Ids;
    IdsOfConcat(a, [n] + b);
    IdsOfConcat(a, b);
    MoveToFront(Ids(a), n.id, Ids(b));
  }

  lemma MoveToFront(a: seq<nat>, x: nat, b: seq<nat>)
    ensures multiset(a + ([x] + b)) == multiset{x} + multiset(a + b)
  {
  }

  lemma IdsOfCons<K>(n: Node<K>, s: seq<Node<K>>)
    ensures Ids([n] + s) == [n.id] + Ids(s)
  {
    assert ([n] + s)[1..] == s;
  }

  lemma {:induction false} UptoOnce(n: nat, i: nat)
    ensures multiset(Upto(n))[i] == if i < n then 1 else 0
  {
    if n > 0 {
      UptoOnce(n - 1, i);
    }
  }

  lemma IdsOfPrune<K>(s: seq<Node<K>>, maxItems: nat)
    ensures multiset(Ids(Prune(s, maxItems))) + multiset(Ids(Dropped(s, maxItems))) == multiset(Ids(s))
  {
    HashSortPermutes(s);
    var t, k := HashSort(s), Min(maxItems, |s|);
    IdsOfConcat(t[..k], t[k..]);
    assert t == t[..k] + t[k..];
    IdsOfPermutation(t, s);
  }

  lemma IdsOfKept<K>(t: Table<K>, maxItems: nat, o: Observation<K>)
    requires !Has(t, o.key)
    ensures multiset(Ids(Kept(t, maxItems, o.key))) + multiset(Ids(FreedBy(t, maxItems, o))) == multiset(Ids(t.nodes))
  {
    hide Prune;
    hide Dropped;
    hide IndexOf;
    IdsOfPrune(t.nodes, maxItems);
  }

  /** The identities after an add: one more if the key is new, none otherwise. */
  lemma IdsOfAdd<K>(t: Table<K>, maxItems: nat, o: Observation<K>)
    ensures var t' := Add(t, maxItems, o);
            && multiset(Ids(t'.nodes)) + multiset(Ids(FreedBy(t, maxItems, o)))
               == multiset(Ids(t.nodes)) + (if Has(t, o.key) then multiset{} else multiset{t.nextId})
            && t'.nextId == if Has(t, o.key) then t.nextId else t.nextId + 1
  {
    hide Prune;
    hide Dropped;
    hide Ids;
    if Has(t, o.key) {
      var i := IndexOf(t.nodes, o.key);
      IdsOfUpdate(t.nodes, i, t.nodes[i].(value := (t.nodes[i].value + o.value) % TWO_TO_THE_32));
      assert FreedBy(t, maxItems, o) == [] && |Ids<K>([])| == 0;
    } else {
      IdsOfKept(t, maxItems, o);
      IdsOfNew(t, maxItems, o);
    }
  }

  lemma IdsOfNew<K>(t: Table<K>, maxItems: nat, o: Observation<K>)
    requires !Has(t, o.key)
    ensures Ids(Add(t, maxItems, o).nodes) == Ids(Kept(t, maxItems, o.key)) + [t.nextId]
  {
    hide Prune;
    hide IndexOf;
    var n := Node(t.nextId, o.key, o.value % TWO_TO_THE_32);
    IdsOfConcat(Kept(t, maxItems, o.key), [n]);
    assert Ids([n]) == [t.nextId];
  }

  // ----- every step keeps the invariant -----

  lemma ObserveKeepsInv<K>(maxItems: nat, s: State<K>, o: Observation<K>)
    requires Inv(maxItems, s) && s.phase.Quiet?
    ensures Inv(maxItems, Next(maxItems, s, Observe(o)))
  {
    hide Add;
    hide FreedBy;
    hide Ids;
    var obs := s.interval + [o];
    assert obs[..|obs| - 1] == s.interval;
    assert Run(s.first, maxItems, obs) == Add(s.work, maxItems, o);
    ObserveKeepsOwners(maxItems, s, o);
  }

  lemma ObserveKeepsOwners<K>(maxItems: nat, s: State<K>, o: Observation<K>)
    requires OwnedOnce(s) && s.phase.Quiet?
    ensures OwnedOnce(Next(maxItems, s, Observe(o)))
  {
    hide Add;
    hide FreedBy;
    hide Ids;
    hide Has;
    IdsOfAdd(s.work, maxItems, o);
    var t' := Add(s.work, maxItems, o);
    var gone := Ids(FreedBy(s.work, maxItems, o));
    assert multiset(s.freed + gone) == multiset(s.freed) + multiset(gone);
    assert multiset(Upto(s.work.nextId + 1)) == multiset(Upto(s.work.nextId)) + multiset{s.work.nextId};
    MoveOwners(multiset(Ids(s.work.nodes)), multiset(Ids(t'.nodes)), multiset(gone), multiset(Ids(s.committed)),
               multiset(s.freed), if Has(s.work, o.key) then multiset{} else multiset{s.work.nextId});
  }

  lemma MoveOwners(w: multiset<nat>, w': multiset<nat>, gone: multiset<nat>, c: multiset<nat>, f: multiset<nat>, added: multiset<nat>)
    requires w' + gone == w + added
    ensures w' + c + (f + gone) == w + c + f + added
  {
    assert w' + c + (f + gone) == (w' + gone) + c + f;
  }

  lemma WriterKeepsInv<K>(maxItems: nat, s: State<K>, a: Step<K>)
    requires Inv(maxItems, s) && Enabled(s, a)
    requires !a.Observe? && !a.Query?
    ensures Inv(maxItems, Next(maxItems, s, a))
  {
  }

  lemma QueryKeepsInv<K>(maxItems: nat, s: State<K>)
    requires Inv(maxItems, s)
    ensures Inv(maxItems, Next(maxItems, s, Query))
  {
    hide HashSort;
    HashSortPermutes(s.committed);
    IdsOfPermutation(HashSort(s.committed), s.committed);
  }

  /** Every reachable state: no node is owned twice or freed twice, the committed
      table is the outcome of a whole interval, and the sums follow the phase. */
  lemma {:induction false} EveryRunKeepsInv<K>(maxItems: nat, run: seq<Step<K>>)
    requires Possible(maxItems, run)
    ensures Inv(maxItems, After(maxItems, run))
  {
    if run == [] {
    } else {
      var before, a := run[..|run| - 1], run[|run| - 1];
      var s := After(maxItems, before);
      assert run[..|before|] == before;
      assert Enabled(s, a);
      PossiblePrefix(maxItems, run);
      EveryRunKeepsInv(maxItems, before);
      match a
      case Observe(o) => ObserveKeepsInv(maxItems, s, o);
      case Query => QueryKeepsInv(maxItems, s);
      case _ => WriterKeepsInv(maxItems, s, a);
    }
  }

  lemma PossiblePrefix<K>(maxItems: nat, run: seq<Step<K>>)
    requires run != [] && Possible(maxItems, run)
    ensures Possible(maxItems, run[..|run| - 1])
  {
    var before := run[..|run| - 1];
    forall i | 0 <= i < |before| ensures Enabled(After(maxItems, before[..i]), before[i]) {
      assert before[..i] == run[..i];
    }
  }

  // ----- what callers get -----

  /** No double free, no freed node in either table, and outside the window the
      tables share no node. */
  lemma NodesHaveOneOwner<K>(maxItems: nat, run: seq<Step<K>>, id: nat)
    requires Possible(maxItems, run)
    ensures var s := After(maxItems, run);
            && multiset(s.freed)[id] <= 1
            && (id in s.freed ==> id !in Ids(s.work.nodes) && id !in Ids(s.committed))
            && (!s.phase.Published? ==> id in Ids(s.work.nodes) ==> id !in Ids(s.committed))
            && (s.phase.Published? ==> (id in Ids(s.work.nodes) <==> id in Ids(s.committed)))
            && (id < s.work.nextId <==> id in s.freed || id in Ids(s.committed) || id in Ids(s.work.nodes))
  {
    hide After;
    EveryRunKeepsInv(maxItems, run);
    var s := After(maxItems, run);
    UptoOnce(s.work.nextId, id);
    if s.phase.Published? {
      IdsOfPermutation(s.work.nodes, s.committed);
    }
    OwnerCounts(Ids(s.work.nodes), Ids(s.committed), s.freed, s.work.nextId, s.phase.Published?, id);
  }

  lemma OwnerCounts(working: seq<nat>, committed: seq<nat>, freed: seq<nat>, n: nat, aliased: bool, id: nat)
    requires multiset(Upto(n))[id] == if id < n then 1 else 0
    requires (if aliased then multiset{} else multiset(working)) + multiset(committed) + multiset(freed) == multiset(Upto(n))
    requires aliased ==> multiset(working) == multiset(committed)
    ensures multiset(freed)[id] <= 1
    ensures id in freed ==> id !in working && id !in committed
    ensures !aliased ==> id in working ==> id !in committed
    ensures aliased ==> (id in working <==> id in committed)
    ensures id < n <==> id in freed || id in committed || id in working
  {
    assert id in freed <==> multiset(freed)[id] > 0;
    assert id in working <==> multiset(working)[id] > 0;
    assert id in committed <==> multiset(committed)[id] > 0;
    var w := if aliased then multiset{} else multiset(working);
    assert multiset(Upto(n))[id] == w[id] + multiset(committed)[id] + multiset(freed)[id];
  }

  lemma StepIsolation<K>(maxItems: nat, s: State<K>, a: Step<K>)
    ensures if a.Publish? then Next(maxItems, s, a).committed == s.work.nodes
            else multiset(Next(maxItems, s, a).committed) == multiset(s.committed)
  {
    hide HashSort;
    HashSortPermutes(s.committed);
  }

  /** Snapshot isolation: from one publishing to the next the committed table is, as
      a set of key and value pairs, the working table that was published, whatever
      is added and queried in between. */
  lemma SnapshotIsolation<K>(maxItems: nat, before: seq<Step<K>>, between: seq<Step<K>>)
    requires Publish !in between
    ensures multiset(After(maxItems, before + [Publish] + between).committed) == multiset(After(maxItems, before).work.nodes)
  {
    var published := before + [Publish];
    assert published[..|published| - 1] == before;
    assert After(maxItems, published) == Next(maxItems, After(maxItems, before), Publish);
    CommittedStays(maxItems, published, between);
  }

  lemma {:induction false} CommittedStays<K>(maxItems: nat, before: seq<Step<K>>, between: seq<Step<K>>)
    requires Publish !in between
    ensures multiset(After(maxItems, before + between).committed) == multiset(After(maxItems, before).committed)
  {
    if between == [] {
      assert before + between == before;
    } else {
      var front, last := between[..|between| - 1], between[|between| - 1];
      assert (before + between)[..|before + between| - 1] == before + front && last in between;
      CommittedStays(maxItems, before, front);
      StepIsolation(maxItems, After(maxItems, before + front), last);
      hide Next;
    }
  }

  /** The observations since the last completed `reset`, read off the run. */
  function CurrentInterval<K>(run: seq<Step<K>>): seq<Observation<K>> {
    if run == [] then []
    else
      var front := CurrentInterval(run[..|run| - 1]);
      match run[|run| - 1]
      case Observe(o) => front + [o]
      case ZeroSum => []
      case _ => front
  }

  /** The interval that the last publishing put on show. */
  function PublishedInterval<K>(run: seq<Step<K>>): seq<Observation<K>> {
    if run == [] then []
    else if run[|run| - 1].Publish? then CurrentInterval(run[..|run| - 1])
    else PublishedInterval(run[..|run| - 1])
  }

  /** The histories are those of the run. */
  lemma {:induction false} HistoryExact<K>(maxItems: nat, run: seq<Step<K>>)
    ensures After(maxItems, run).interval == CurrentInterval(run)
    ensures After(maxItems, run).shown == PublishedInterval(run)
  {
    if run != [] {
      HistoryExact(maxItems, run[..|run| - 1]);
      hide Add, FreedBy, HashSort;
    }
  }

  /** A query leaves the nodes as they were published, in decreasing order of value,
      whatever the interleaving, as long as the interval's total is below 2^31. */
  lemma QueriedIsSorted<K(!new)>(maxItems: nat, run: seq<Step<K>>)
    requires Possible(maxItems, run) && TruthTotal(PublishedInterval(run)) < TWO_TO_THE_31
    ensures var s, n := After(maxItems, run), After(maxItems, run + [Query]);
            && multiset(n.committed) == multiset(s.committed)
            && forall i, j | 0 <= i < j < |n.committed| :: n.committed[i].value >= n.committed[j].value
  {
    var s := After(maxItems, run);
    assert (run + [Query])[..|run + [Query]| - 1] == run;
    assert After(maxItems, run + [Query]) == Next(maxItems, s, Query);
    HistoryExact(maxItems, run);
    EveryRunKeepsInv(maxItems, run);
    hide After, HashSort, PublishedInterval;
    Conservation(s.shownFirst, maxItems, s.shown);
    SumOfPermutation(s.committed, Run(s.shownFirst, maxItems, s.shown).nodes, Total);
    SmallSumIsWindowed(s.committed);
    HashSortPermutes(s.committed);
    HashSortDescends(s.committed, 0);
  }

  /** End to end: whatever the interleaving, every table a reader can see counts
      the heavy hitters of its interval exactly. */
  lemma PublishedHeavyHittersExact<K(!new)>(maxItems: nat, run: seq<Step<K>>, k: K)
    requires Possible(maxItems, run)
    ensures var s, shown := After(maxItems, run), PublishedInterval(run);
            TruthTotal(shown) < TWO_TO_THE_31 && HeavyAtEveryPrune(s.shownFirst, maxItems, shown, k)
            ==> Sum(s.committed, OfKey(k)) == Truth(shown, k)
  {
    HistoryExact(maxItems, run);
    hide After, PublishedInterval;
    EveryRunKeepsInv(maxItems, run);
    var s := After(maxItems, run);
    if TruthTotal(s.shown) < TWO_TO_THE_31 && HeavyAtEveryPrune(s.shownFirst, maxItems, s.shown, k) {
      HeavyHittersExact(s.shownFirst, maxItems, s.shown, k);
      SumOfPermutation(s.committed, Run(s.shownFirst, maxItems, s.shown).nodes, OfKey(k));
    }
  }

  /** And every other key of it is undercounted by no more than its stream allows. */
  lemma PublishedUndercount<K(!new)>(maxItems: nat, run: seq<Step<K>>, k: K)
    requires Possible(maxItems, run)
    ensures var s, shown := After(maxItems, run), PublishedInterval(run);
            TruthTotal(shown) < TWO_TO_THE_31 ==>
              && Sum(s.committed, OfKey(k)) <= Truth(shown, k)
              && (Truth(shown, k) - Sum(s.committed, OfKey(k))) * (maxItems + 1) * (maxItems + 1)
                 <= |shown| * TruthTotal(shown)
  {
    hide After, Sum, PublishedInterval, Truth, TruthTotal, HashSort, Run, Lost;
    HistoryExact(maxItems, run);
    EveryRunKeepsInv(maxItems, run);
    var s := After(maxItems, run);
    hide OwnedOnce, SumsAgree;
    SumOfPermutation(s.committed, Run(s.shownFirst, maxItems, s.shown).nodes, OfKey(k));
    if TruthTotal(s.shown) < TWO_TO_THE_31 {
      NeverOverestimates(s.shownFirst, maxItems, s.shown, k);
      UndercountInStream(s.shownFirst, maxItems, s.shown, k);
      assert Lost(s.shownFirst, maxItems, s.shown, k) == Truth(s.shown, k) - Sum(s.committed, OfKey(k)) by {
        LostIs(s.shownFirst, maxItems, s.shown, k);
      }
    }
  }

  lemma LostIs<K>(first: nat, maxItems: nat, obs: seq<Observation<K>>, k: K)
    ensures Lost(first, maxItems, obs, k) == Truth(obs, k) - Sum(Run(first, maxItems, obs).nodes, OfKey(k))
  {
  }

  /** The ratio a reader computes divides by the sum of the table's own interval
      exactly when the writer is not between publishing and saving the sum, or
      the two intervals happen to have the same sum. */
  lemma RatioDenominator<K>(maxItems: nat, run: seq<Step<K>>)
    requires Possible(maxItems, run)
    ensures var s := After(maxItems, run);
            s.lastValuesSum == Run(s.shownFirst, maxItems, s.shown).valuesSum
            <==> !(s.phase.Published? || s.phase.Emptied?)
                 || s.previousSum == Run(s.shownFirst, maxItems, s.shown).valuesSum
  {
    hide After;
    EveryRunKeepsInv(maxItems, run);
  }

  /** The stale window is reachable: after the first interval a reader can divide
      by zero. */
  lemma StaleDenominatorReachable()
    ensures var run := [Observe(Observation(7, 5)), Publish];
            var s := After(1, run);
            Possible(1, run) && s.lastValuesSum == 0
            && s.committed == [Node(0, 7, 5)] && Run(s.shownFirst, 1, s.shown).valuesSum == 5
  {
    var run: seq<Step<int>> := [Observe(Observation(7, 5)), Publish];
    var start: seq<Step<int>> := run[..1];
    assert run[..0] == [] && start == [run[0]] && start[..0] == [];
    var o := [Observation(7, 5)];
    assert o[..0] == [];
    assert [] + o == o;
    assert After(1, start).work == Table([] + [Node(0, 7, 5)], 5, 1);
  }
}
