/**
 The pruned frequency table shared by FrequentTrafficItems and
 FrequentNumericItems, as a function of the stream of observations of one
 interval, and the guarantees it gives about that stream.
 */
module TopItems {
  import opened Basics
  import opened UtHashSort

  datatype Observation<+K> = Observation(key: K, value: nat)

  /** The working table: nodes in hash order, the sum of all values seen in the
      interval, and the identity the next allocation will get. */
  datatype Table<+K> = Table(nodes: seq<Node<K>>, valuesSum: nat, nextId: nat)

  /** What is being added up over a list of nodes. */
  datatype Measure<+K> = Total | OfKey(key: K) | Occurrences(key: K)

  function Amount<K(==)>(n: Node<K>, m: Measure<K>): nat {
    match m
    case Total => n.value
    case OfKey(k) => if n.key == k then n.value else 0
    case Occurrences(k) => if n.key == k then 1 else 0
  }

  function Sum<K(==)>(s: seq<Node<K>>, m: Measure<K>): nat {
    if s == [] then 0 else Amount(s[0], m) + Sum(s[1..], m)
  }

  function IndexOf<K(==)>(s: seq<Node<K>>, k: K): (i: nat)
    ensures i <= |s|
    ensures i < |s| ==> s[i].key == k
    ensures forall j | 0 <= j < i :: s[j].key != k
  {
    if s == [] || s[0].key == k then 0 else 1 + IndexOf(s[1..], k)
  }

  // ----- the operations -----

  /** `max_items_threshold`, an unsigned 32-bit product. */
  function Threshold(maxItems: nat): nat {
    (2 * maxItems) % TWO_TO_THE_32
  }

  /** `prune`: sort, then keep the first `maxItems` nodes. */
  function Prune<K>(s: seq<Node<K>>, maxItems: nat): (kept: seq<Node<K>>)
    ensures |kept| == Min(maxItems, |s|)
  {
    HashSortPermutes(s);
    HashSort(s)[..Min(maxItems, |s|)]
  }

  /** The nodes `prune` frees. */
  function Dropped<K>(s: seq<Node<K>>, maxItems: nat): seq<Node<K>> {
    HashSortPermutes(s);
    HashSort(s)[Min(maxItems, |s|)..]
  }

  predicate Prunes<K(==)>(t: Table<K>, maxItems: nat, k: K) {
    IndexOf(t.nodes, k) == |t.nodes| && |t.nodes| > Threshold(maxItems)
  }

  /** One `add`, with the 32-bit additions of the source. */
  function Add<K(==)>(t: Table<K>, maxItems: nat, o: Observation<K>): Table<K> {
    var i := IndexOf(t.nodes, o.key);
    var sum := (t.valuesSum + o.value) % TWO_TO_THE_32;
    if i < |t.nodes| then
      var n := t.nodes[i];
      Table(t.nodes[i := n.(value := (n.value + o.value) % TWO_TO_THE_32)], sum, t.nextId)
    else
      var kept := if Prunes(t, maxItems, o.key) then Prune(t.nodes, maxItems) else t.nodes;
      Table(kept + [Node(t.nextId, o.key, o.value % TWO_TO_THE_32)], sum, t.nextId + 1)
  }

  /** The table after a whole interval; `first` is the identity of its first
      allocation. */
  function Run<K(==)>(first: nat, maxItems: nat, obs: seq<Observation<K>>): Table<K> {
    if obs == [] then Table([], 0, first)
    else Add(Run(first, maxItems, obs[..|obs| - 1]), maxItems, obs[|obs| - 1])
  }

  // ----- the exact counts the table approximates -----

  function Truth<K(==)>(obs: seq<Observation<K>>, k: K): nat {
    if obs == [] then 0
    else
      var o := obs[|obs| - 1];
      Truth(obs[..|obs| - 1], k) + (if o.key == k then o.value else 0)
  }

  function TruthTotal<K>(obs: seq<Observation<K>>): nat {
    if obs == [] then 0 else TruthTotal(obs[..|obs| - 1]) + obs[|obs| - 1].value
  }

  /** The value thrown away by prunes so far. */
  function Evicted<K(==)>(first: nat, maxItems: nat, obs: seq<Observation<K>>): nat {
    if obs == [] then 0
    else
      var before, o := Run(first, maxItems, obs[..|obs| - 1]), obs[|obs| - 1];
      Evicted(first, maxItems, obs[..|obs| - 1])
      + (if Prunes(before, maxItems, o.key) then Sum(Dropped(before.nodes, maxItems), Total) else 0)
  }

  /** By how much the table undercounts key `k`. */
  function Lost<K(==)>(first: nat, maxItems: nat, obs: seq<Observation<K>>, k: K): int {
    Truth(obs, k) - Sum(Run(first, maxItems, obs).nodes, OfKey(k))
  }

  predicate Has<K(==)>(t: Table<K>, k: K) {
    IndexOf(t.nodes, k) < |t.nodes|
  }

  /** How often the table has forgotten key `k`. */
  function Evictions<K(==)>(first: nat, maxItems: nat, obs: seq<Observation<K>>, k: K): nat {
    if obs == [] then 0
    else
      var before := obs[..|obs| - 1];
      Evictions(first, maxItems, before, k)
      + (if Has(Run(first, maxItems, before), k) && !Has(Run(first, maxItems, obs), k) then 1 else 0)
  }

  // ----- sums over lists of nodes -----

  lemma {:induction false} SumOfConcat<K>(a: seq<Node<K>>, b: seq<Node<K>>, m: Measure<K>)
    ensures Sum(a + b, m) == Sum(a, m) + Sum(b, m)
  {
    if a == [] {
      assert a + b == b;
    } else {
      SumOfConcat(a[1..], b, m);
      assert (a + b)[1..] == a[1..] + b;
    }
  }

  lemma SumOfSplit<K>(s: seq<Node<K>>, i: nat, m: Measure<K>)
    requires i < |s|
    ensures Sum(s, m) == Sum(s[..i], m) + Amount(s[i], m) + Sum(s[i + 1..], m)
  {
    assert s == s[..i] + s[i..];
    SumOfConcat(s[..i], s[i..], m);
  }

  lemma SumOfUpdate<K>(s: seq<Node<K>>, i: nat, n: Node<K>, m: Measure<K>)
    requires i < |s|
    ensures Sum(s[i := n], m) + Amount(s[i], m) == Sum(s, m) + Amount(n, m)
  {
    var t := s[i := n];
    SumOfSplit(s, i, m);
    SumOfSplit(t, i, m);
    assert t[..i] == s[..i] && t[i + 1..] == s[i + 1..];
  }

  lemma SumOfAppend<K>(s: seq<Node<K>>, n: Node<K>, m: Measure<K>)
    ensures Sum(s + [n], m) == Sum(s, m) + Amount(n, m)
  {
    SumOfConcat(s, [n], m);
  }

  lemma {:induction false} SumOfPermutation<K>(s: seq<Node<K>>, t: seq<Node<K>>, m: Measure<K>)
    requires multiset(s) == multiset(t)
    ensures Sum(s, m) == Sum(t, m)
  {
    if s == [] {
      SameNodes(s, t);
    } else {
      var i := PermutationTail(s, t);
      SumOfSplit(t, i, m);
      SumOfConcat(t[..i], t[i + 1..], m);
      SumOfPermutation(s[1..], t[..i] + t[i + 1..], m);
    }
  }

  lemma {:induction false} AbsentHasNoOccurrence<K>(s: seq<Node<K>>, k: K)
    ensures IndexOf(s, k) == |s| <==> Sum(s, Occurrences(k)) == 0
    ensures IndexOf(s, k) == |s| ==> Sum(s, OfKey(k)) == 0
  {
    if s != [] {
      AbsentHasNoOccurrence(s[1..], k);
    }
  }

  /** Every key names at most one node. */
  ghost predicate Distinct<K(!new)>(s: seq<Node<K>>) {
    forall k :: Sum(s, Occurrences(k)) <= 1
  }

  // ----- pruning -----

  lemma PruneSplits<K>(s: seq<Node<K>>, maxItems: nat, m: Measure<K>)
    ensures Sum(Prune(s, maxItems), m) + Sum(Dropped(s, maxItems), m) == Sum(s, m)
  {
    HashSortPermutes(s);
    var t := HashSort(s);
    assert t == t[..Min(maxItems, |s|)] + t[Min(maxItems, |s|)..];
    SumOfConcat(t[..Min(maxItems, |s|)], t[Min(maxItems, |s|)..], m);
    SumOfPermutation(t, s, m);
  }

  lemma {:induction false} SumOfLargeValues<K>(s: seq<Node<K>>, v: nat, n: nat)
    requires |s| == n && forall x | x in s :: x.value >= v
    ensures v * n <= Sum(s, Total)
  {
    if s != [] {
      SumOfLargeValues(s[1..], v, n - 1);
    }
  }

  /** Pigeonhole: in descending order, a value is at most the average of the
      values up to it. */
  lemma DescendingPigeonhole<K>(t: seq<Node<K>>, j: nat)
    requires Descending(t) && j < |t|
    ensures t[j].value * (j + 1) <= Sum(t, Total)
  {
    hide Sum;
    var front := t[..j + 1];
    SumOfLargeValues(front, t[j].value, j + 1);
    assert t == front + t[j + 1..];
    SumOfConcat(front, t[j + 1..], Total);
  }

  /** A node that a prune drops is at most its share of the table. */
  lemma DroppedIsSmall<K>(s: seq<Node<K>>, maxItems: nat, i: nat, low: nat)
    requires Windowed(s, low)
    requires i < |Dropped(s, maxItems)|
    ensures Dropped(s, maxItems)[i].value * (maxItems + 1) <= Sum(s, Total)
  {
    hide HashSort;
    hide Sum;
    HashSortPermutes(s);
    HashSortDescends(s, low);
    var t, j := HashSort(s), maxItems + i;
    assert t[j] == Dropped(s, maxItems)[i];
    DescendingPigeonhole(t, j);
    SumOfPermutation(t, s, Total);
    MulGrows(t[j].value, maxItems + 1, j + 1);
  }

  lemma MulGrows(v: nat, a: nat, b: nat)
    requires a <= b
    ensures v * a <= v * b
  {
  }

  /** The amount under a key with a single occurrence is that node's value. */
  lemma SingleOccurrence<K>(s: seq<Node<K>>, k: K)
    requires Sum(s, Occurrences(k)) == 1
    ensures IndexOf(s, k) < |s| && Sum(s, OfKey(k)) == s[IndexOf(s, k)].value
  {
    AbsentHasNoOccurrence(s, k);
    var i := IndexOf(s, k);
    SumOfSplit(s, i, OfKey(k));
    SumOfSplit(s, i, Occurrences(k));
    AbsentHasNoOccurrence(s[..i], k);
    AbsentHasNoOccurrence(s[i + 1..], k);
  }

  /** Heavy-hitter survival at one prune, and what a forgotten key can lose. */
  lemma HeavyKeySurvivesPrune<K(!new)>(s: seq<Node<K>>, maxItems: nat, k: K, low: nat)
    requires Distinct(s) && Windowed(s, low)
    ensures Sum(Prune(s, maxItems), Occurrences(k)) == 0 ==>
              Sum(s, OfKey(k)) * (maxItems + 1) <= Sum(s, Total)
    ensures Sum(Prune(s, maxItems), Occurrences(k)) > 0 ==>
              Sum(Prune(s, maxItems), OfKey(k)) == Sum(s, OfKey(k))
  {
    hide Prune;
    hide Dropped;
    var kept, gone := Prune(s, maxItems), Dropped(s, maxItems);
    PruneSplits(s, maxItems, Occurrences(k));
    PruneSplits(s, maxItems, OfKey(k));
    assert Sum(s, Occurrences(k)) <= 1;
    AbsentHasNoOccurrence(kept, k);
    AbsentHasNoOccurrence(gone, k);
    if Sum(kept, Occurrences(k)) == 0 && Sum(gone, Occurrences(k)) > 0 {
      SingleOccurrence(gone, k);
      DroppedIsSmall(s, maxItems, IndexOf(gone, k), low);
    }
  }

  // ----- one add -----

  /** The nodes left just before a new key is appended. */
  function Kept<K(==)>(t: Table<K>, maxItems: nat, k: K): seq<Node<K>> {
    if Prunes(t, maxItems, k) then Prune(t.nodes, maxItems) else t.nodes
  }

  lemma KeptSplits<K>(t: Table<K>, maxItems: nat, k: K, m: Measure<K>)
    ensures Sum(t.nodes, m) == Sum(Kept(t, maxItems, k), m)
                               + (if Prunes(t, maxItems, k) then Sum(Dropped(t.nodes, maxItems), m) else 0)
  {
    PruneSplits(t.nodes, maxItems, m);
  }

  /** What an observation contributes to a sum over the table. */
  function Gain<K(==)>(t: Table<K>, o: Observation<K>, m: Measure<K>): nat {
    match m
    case Total => o.value
    case OfKey(k) => if k == o.key then o.value else 0
    case Occurrences(k) => if k == o.key && !Has(t, k) then 1 else 0
  }

  /** What one add does to any sum that does not overflow 32 bits. */
  lemma AddSum<K>(t: Table<K>, maxItems: nat, o: Observation<K>, m: Measure<K>)
    requires Sum(t.nodes, Total) + o.value < TWO_TO_THE_32
    ensures Sum(Add(t, maxItems, o).nodes, m) == Sum(Kept(t, maxItems, o.key), m) + Gain(t, o, m)
  {
    hide Prune;
    if Has(t, o.key) {
      AddToPresent(t, maxItems, o, m);
    } else {
      SumOfAppend(Kept(t, maxItems, o.key), Node(t.nextId, o.key, o.value), m);
    }
  }

  lemma AddToPresent<K>(t: Table<K>, maxItems: nat, o: Observation<K>, m: Measure<K>)
    requires Sum(t.nodes, Total) + o.value < TWO_TO_THE_32
    requires Has(t, o.key)
    ensures Sum(Add(t, maxItems, o).nodes, m) == Sum(t.nodes, m) + Gain(t, o, m)
  {
    hide Sum;
    var i := IndexOf(t.nodes, o.key);
    var n := t.nodes[i];
    SumOfSplit(t.nodes, i, Total);
    SumOfUpdate(t.nodes, i, n.(value := n.value + o.value), m);
  }

  /** What one add does to the node of one key. */
  lemma AddToKey<K(!new)>(t: Table<K>, maxItems: nat, o: Observation<K>, k: K)
    requires Distinct(t.nodes) && Sum(t.nodes, Total) + o.value < TWO_TO_THE_32
    ensures var t' := Add(t, maxItems, o);
            && (Has(t', k) && !Has(t, k) ==> o.key == k)
            && (Has(t, k) && !Has(t', k) ==> Prunes(t, maxItems, o.key) && o.key != k
                                             && Sum(Prune(t.nodes, maxItems), Occurrences(k)) == 0)
            && (Has(t', k) ==> Sum(t'.nodes, OfKey(k)) == Sum(t.nodes, OfKey(k)) + Gain(t, o, OfKey(k)))
            && (!Has(t', k) ==> Sum(t'.nodes, OfKey(k)) == 0 && o.key != k)
            && (!Has(t, k) ==> Sum(t.nodes, OfKey(k)) == 0)
  {
    hide Add;
    hide Prune;
    hide Dropped;
    var t' := Add(t, maxItems, o);
    AddSum(t, maxItems, o, OfKey(k));
    AddSum(t, maxItems, o, Occurrences(k));
    KeptSplits(t, maxItems, o.key, OfKey(k));
    KeptSplits(t, maxItems, o.key, Occurrences(k));
    AbsentHasNoOccurrence(t.nodes, k);
    AbsentHasNoOccurrence(t'.nodes, k);
    assert Sum(t.nodes, Occurrences(k)) <= 1;
    AbsentHasNoOccurrence(Dropped(t.nodes, maxItems), k);
  }

  lemma AddKeepsDistinct<K(!new)>(t: Table<K>, maxItems: nat, o: Observation<K>)
    requires Distinct(t.nodes) && Sum(t.nodes, Total) + o.value < TWO_TO_THE_32
    ensures Distinct(Add(t, maxItems, o).nodes)
  {
    forall k ensures Sum(Add(t, maxItems, o).nodes, Occurrences(k)) <= 1 {
      AddSum(t, maxItems, o, Occurrences(k));
      KeptSplits(t, maxItems, o.key, Occurrences(k));
      AbsentHasNoOccurrence(t.nodes, k);
      assert Sum(t.nodes, Occurrences(k)) <= 1;
    }
  }

  lemma {:induction false} ValuesBoundedBySum<K>(s: seq<Node<K>>)
    ensures forall x | x in s :: x.value <= Sum(s, Total)
  {
    if s != [] {
      ValuesBoundedBySum(s[1..]);
    }
  }

  lemma SmallSumIsWindowed<K>(s: seq<Node<K>>)
    requires Sum(s, Total) < TWO_TO_THE_31
    ensures Windowed(s, 0)
  {
    ValuesBoundedBySum(s);
  }

  // ----- whole intervals -----

  /** Size bound, for every stream and every `maxItems`: one more node than the
      larger of `max_items` and the 32-bit threshold. */
  lemma {:induction false} TableSizeBound<K>(first: nat, maxItems: nat, obs: seq<Observation<K>>)
    ensures |Run(first, maxItems, obs).nodes| <= (if maxItems <= Threshold(maxItems) then Threshold(maxItems) else maxItems) + 1
    ensures maxItems < TWO_TO_THE_31 ==> |Run(first, maxItems, obs).nodes| <= 2 * maxItems + 1
  {
    if maxItems < TWO_TO_THE_31 {
      assert Threshold(maxItems) == 2 * maxItems;
    }
    if obs != [] {
      TableSizeBound(first, maxItems, obs[..|obs| - 1]);
    }
  }

  /** Conservation: what was added is what is stored plus what was evicted. */
  lemma {:induction false} Conservation<K(!new)>(first: nat, maxItems: nat, obs: seq<Observation<K>>)
    requires TruthTotal(obs) < TWO_TO_THE_32
    ensures var t := Run(first, maxItems, obs);
            && Distinct(t.nodes)
            && t.valuesSum == TruthTotal(obs)
            && Sum(t.nodes, Total) + Evicted(first, maxItems, obs) == t.valuesSum
  {
    if obs != [] {
      var before, o := obs[..|obs| - 1], obs[|obs| - 1];
      Conservation(first, maxItems, before);
      hide Add;
      AddConserves(Run(first, maxItems, before), maxItems, o);
    }
  }

  lemma AddConserves<K(!new)>(t: Table<K>, maxItems: nat, o: Observation<K>)
    requires Distinct(t.nodes) && Sum(t.nodes, Total) <= t.valuesSum
    requires t.valuesSum + o.value < TWO_TO_THE_32
    ensures var t' := Add(t, maxItems, o);
            && Distinct(t'.nodes)
            && t'.valuesSum == t.valuesSum + o.value
            && Sum(t'.nodes, Total) + (if Prunes(t, maxItems, o.key) then Sum(Dropped(t.nodes, maxItems), Total) else 0)
               == Sum(t.nodes, Total) + o.value
  {
    hide Prune;
    hide Dropped;
    AddSum(t, maxItems, o, Total);
    KeptSplits(t, maxItems, o.key, Total);
    AddKeepsDistinct(t, maxItems, o);
  }

  /** A stored value is exactly the sum added since the key's latest insertion. */
  lemma {:induction false} StoredSinceInsertion<K(!new)>(first: nat, maxItems: nat, obs: seq<Observation<K>>, k: K)
    returns (start: nat)
    requires TruthTotal(obs) < TWO_TO_THE_32
    requires Has(Run(first, maxItems, obs), k)
    ensures start < |obs| && obs[start].key == k
    ensures !Has(Run(first, maxItems, obs[..start]), k)
    ensures forall n | start < n <= |obs| :: Has(Run(first, maxItems, obs[..n]), k)
    ensures Sum(Run(first, maxItems, obs).nodes, OfKey(k)) == Truth(obs, k) - Truth(obs[..start], k)
  {
    hide Add;
    var before, o := obs[..|obs| - 1], obs[|obs| - 1];
    var t := Run(first, maxItems, before);
    Conservation(first, maxItems, before);
    AddToKey(t, maxItems, o, k);
    assert obs[..|obs|] == obs;
    if Has(t, k) {
      start := StoredSinceInsertion(first, maxItems, before, k);
      assert forall n | 0 <= n <= |before| :: before[..n] == obs[..n];
    } else {
      start := |before|;
    }
  }

  /** So no count is ever overestimated. */
  lemma NeverOverestimates<K(!new)>(first: nat, maxItems: nat, obs: seq<Observation<K>>, k: K)
    requires TruthTotal(obs) < TWO_TO_THE_32
    ensures Sum(Run(first, maxItems, obs).nodes, OfKey(k)) <= Truth(obs, k)
  {
    if Has(Run(first, maxItems, obs), k) {
      var start := StoredSinceInsertion(first, maxItems, obs, k);
    } else {
      AbsentHasNoOccurrence(Run(first, maxItems, obs).nodes, k);
    }
  }

  // ----- every stream, with 32-bit values that wrap around -----

  lemma AddOccurrences<K>(t: Table<K>, maxItems: nat, o: Observation<K>, k: K)
    ensures Sum(Add(t, maxItems, o).nodes, Occurrences(k))
            == Sum(Kept(t, maxItems, o.key), Occurrences(k)) + Gain(t, o, Occurrences(k))
  {
    hide Prune, Sum, IndexOf;
    if Has(t, o.key) {
      var i := IndexOf(t.nodes, o.key);
      var n := t.nodes[i].(value := (t.nodes[i].value + o.value) % TWO_TO_THE_32);
      SumOfUpdate(t.nodes, i, n, Occurrences(k));
    } else {
      SumOfAppend(Kept(t, maxItems, o.key), Node(t.nextId, o.key, o.value % TWO_TO_THE_32), Occurrences(k));
    }
  }

  lemma {:induction false} AlwaysDistinct<K(!new)>(first: nat, maxItems: nat, obs: seq<Observation<K>>)
    ensures Distinct(Run(first, maxItems, obs).nodes)
  {
    hide Add, Kept, Prunes, Dropped;
    if obs != [] {
      var before, o := obs[..|obs| - 1], obs[|obs| - 1];
      var t := Run(first, maxItems, before);
      AlwaysDistinct(first, maxItems, before);
      forall k ensures Sum(Add(t, maxItems, o).nodes, Occurrences(k)) <= 1 {
        AddOccurrences(t, maxItems, o, k);
        KeptSplits(t, maxItems, o.key, Occurrences(k));
        AbsentHasNoOccurrence(t.nodes, k);
        assert Sum(t.nodes, Occurrences(k)) <= 1;
      }
    }
  }

  /** A key's node is the only one with that key. */
  lemma OnlyNode<K(!new)>(s: seq<Node<K>>, x: Node<K>)
    requires Distinct(s) && x in s
    ensures IndexOf(s, x.key) < |s| && s[IndexOf(s, x.key)] == x
  {
    var i, m := IndexOf(s, x.key), Occurrences(x.key);
    assert Sum(s, m) <= 1;
    var j :| 0 <= j < |s| && s[j] == x;
    if i < j {
      SumOfSplit(s, i, m);
      var rest := s[i + 1..];
      assert rest[j - i - 1] == x;
      AbsentHasNoOccurrence(rest, x.key);
      assert false;
    }
  }

  lemma KeptMembers<K>(t: Table<K>, maxItems: nat, k: K, x: Node<K>)
    requires x in Kept(t, maxItems, k)
    ensures x in t.nodes
  {
    if Prunes(t, maxItems, k) {
      HashSortPermutes(t.nodes);
      var sorted := HashSort(t.nodes);
      assert x in sorted;
      assert x in multiset(sorted);
    }
  }

  /** What the table holds under a key. */
  function Stored<K(==)>(t: Table<K>, k: K): nat
    requires Has(t, k)
  {
    t.nodes[IndexOf(t.nodes, k)].value
  }

  /** What one add does to a key's value: the observed key gains the value, modulo
      2^32, from nothing if it is new; any other key that is still there is as it was. */
  lemma AddToStored<K(!new)>(t: Table<K>, maxItems: nat, o: Observation<K>, k: K)
    requires Distinct(t.nodes) && Distinct(Add(t, maxItems, o).nodes)
    ensures Has(Add(t, maxItems, o), o.key)
    ensures var t' := Add(t, maxItems, o);
            Has(t', k) ==>
              if k != o.key then Has(t, k) && Stored(t', k) == Stored(t, k)
              else Stored(t', k) == ((if Has(t, k) then Stored(t, k) else 0) + o.value) % TWO_TO_THE_32
  {
    var t' := Add(t, maxItems, o);
    AddedNode(t, maxItems, o);
    hide Distinct, Prune, Kept, Prunes;
    if Has(t', k) && k != o.key {
      var x := t'.nodes[IndexOf(t'.nodes, k)];
      OtherNode(t, maxItems, o, x);
      OnlyNode(t.nodes, x);
    }
  }

  lemma AddedNode<K(!new)>(t: Table<K>, maxItems: nat, o: Observation<K>)
    requires Distinct(t.nodes) && Distinct(Add(t, maxItems, o).nodes)
    ensures var t' := Add(t, maxItems, o);
            Has(t', o.key)
            && Stored(t', o.key) == ((if Has(t, o.key) then Stored(t, o.key) else 0) + o.value) % TWO_TO_THE_32
  {
    hide Distinct, Prune;
    var t' := Add(t, maxItems, o);
    if Has(t, o.key) {
      var i := IndexOf(t.nodes, o.key);
      OnlyNode(t'.nodes, t'.nodes[i]);
    } else {
      OnlyNode(t'.nodes, t'.nodes[|t'.nodes| - 1]);
    }
  }

  lemma OtherNode<K>(t: Table<K>, maxItems: nat, o: Observation<K>, x: Node<K>)
    requires x in Add(t, maxItems, o).nodes && x.key != o.key
    ensures x in t.nodes
  {
    if !Has(t, o.key) {
      hide Prune;
      assert x in Kept(t, maxItems, o.key);
      KeptMembers(t, maxItems, o.key, x);
    }
  }

  lemma AddModulo(a: nat, b: nat)
    ensures (a % TWO_TO_THE_32 + b) % TWO_TO_THE_32 == (a + b) % TWO_TO_THE_32
  {
  }

  /** For every stream, however large its total, the sum is what was added in all,
      modulo 2^32, and the latest observation's key is in the table. */
  lemma {:induction false} SumModulo<K(!new)>(first: nat, maxItems: nat, obs: seq<Observation<K>>)
    ensures Run(first, maxItems, obs).valuesSum == TruthTotal(obs) % TWO_TO_THE_32
    ensures obs != [] ==> Has(Run(first, maxItems, obs), obs[|obs| - 1].key)
  {
    hide Add, Has, Distinct;
    if obs != [] {
      var before, o := obs[..|obs| - 1], obs[|obs| - 1];
      var t := Run(first, maxItems, before);
      SumModulo(first, maxItems, before);
      AlwaysDistinct(first, maxItems, before);
      AlwaysDistinct(first, maxItems, obs);
      AddToStored(t, maxItems, o, o.key);
      SumStep(t, maxItems, o, TruthTotal(before));
    }
  }

  lemma StoredStep<K(!new)>(first: nat, maxItems: nat, before: seq<Observation<K>>, o: Observation<K>, k: K, d: nat)
    requires Has(Run(first, maxItems, before), k) ==> Stored(Run(first, maxItems, before), k) == d % TWO_TO_THE_32
    ensures var t, t' := Run(first, maxItems, before), Run(first, maxItems, before + [o]);
            Has(t', k) ==>
              && (k != o.key ==> Has(t, k))
              && Stored(t', k) == ((if Has(t, k) then d else 0) + (if o.key == k then o.value else 0)) % TWO_TO_THE_32
  {
    hide Add, Has, Stored, Distinct, Run;
    var t := Run(first, maxItems, before);
    RunAppend(first, maxItems, before, o);
    AlwaysDistinct(first, maxItems, before);
    AlwaysDistinct(first, maxItems, before + [o]);
    AddToStored(t, maxItems, o, k);
    AddModulo(d, o.value);
  }

  /** And a stored value is, modulo 2^32, what was added since the key's latest
      insertion, which is named. */
  lemma {:induction false} StoredModulo<K(!new)>(first: nat, maxItems: nat, obs: seq<Observation<K>>, k: K) returns (start: nat)
    ensures Has(Run(first, maxItems, obs), k) ==>
              && start < |obs| && obs[start].key == k && !Has(Run(first, maxItems, obs[..start]), k)
              && (forall n | start < n <= |obs| :: Has(Run(first, maxItems, obs[..n]), k))
              && Truth(obs[..start], k) <= Truth(obs, k)
              && Stored(Run(first, maxItems, obs), k) == (Truth(obs, k) - Truth(obs[..start], k)) % TWO_TO_THE_32
  {
    hide Has, Stored, Run;
    start := 0;
    if obs == [] {
      NothingStored(first, maxItems, k);
    } else {
      var before, o := obs[..|obs| - 1], obs[|obs| - 1];
      assert obs == before + [o] && obs[..|obs|] == obs;
      start := StoredModulo(first, maxItems, before, k);
      if Has(Run(first, maxItems, before), k) {
        StoredStep(first, maxItems, before, o, k, Truth(before, k) - Truth(before[..start], k));
        assert forall n | 0 <= n <= |before| :: before[..n] == obs[..n];
      } else {
        StoredStep(first, maxItems, before, o, k, 0);
        start := |before|;
      }
    }
  }

  lemma NothingStored<K>(first: nat, maxItems: nat, k: K)
    ensures !Has(Run(first, maxItems, []), k)
  {
  }

  lemma SumStep<K>(t: Table<K>, maxItems: nat, o: Observation<K>, total: nat)
    requires t.valuesSum == total % TWO_TO_THE_32
    ensures Add(t, maxItems, o).valuesSum == (total + o.value) % TWO_TO_THE_32
  {
    AddModulo(total, o.value);
    hide Prune;
  }

  /** Undercount bound: each time a key is forgotten it loses at most its
      `1 / (max_items + 1)` share of the interval's traffic. */
  lemma UndercountBound<K(!new)>(first: nat, maxItems: nat, obs: seq<Observation<K>>, k: K)
    requires TruthTotal(obs) < TWO_TO_THE_31
    ensures Lost(first, maxItems, obs, k) * (maxItems + 1) <= Evictions(first, maxItems, obs, k) * TruthTotal(obs)
  {
    hide Lost, Evictions, TruthTotal;
    SharesLost(first, maxItems, obs, k);
  }

  ghost predicate ShareBound(lost: int, share: nat, e: nat, w: nat) {
    lost * share <= e * w
  }

  lemma {:induction false} SharesLost<K(!new)>(first: nat, maxItems: nat, obs: seq<Observation<K>>, k: K)
    requires TruthTotal(obs) < TWO_TO_THE_31
    ensures ShareBound(Lost(first, maxItems, obs, k), maxItems + 1, Evictions(first, maxItems, obs, k), TruthTotal(obs))
  {
    if obs != [] {
      hide ShareBound, Lost, Evictions;
      var before, o := obs[..|obs| - 1], obs[|obs| - 1];
      assert obs == before + [o];
      SharesLost(first, maxItems, before, k);
      SharesStep(first, maxItems, before, o, k);
    }
  }

  lemma SharesStep<K(!new)>(first: nat, maxItems: nat, before: seq<Observation<K>>, o: Observation<K>, k: K)
    requires TruthTotal(before) + o.value < TWO_TO_THE_31
    requires ShareBound(Lost(first, maxItems, before, k), maxItems + 1, Evictions(first, maxItems, before, k), TruthTotal(before))
    ensures var obs := before + [o];
            ShareBound(Lost(first, maxItems, obs, k), maxItems + 1, Evictions(first, maxItems, obs, k), TruthTotal(obs))
  {
    var obs := before + [o];
    GrowsBy(first, maxItems, before, o, k);
    hide *;
    UndercountStep(first, maxItems, before, o, k);
    AddShare(Lost(first, maxItems, before, k), Lost(first, maxItems, obs, k), maxItems + 1,
             Evictions(first, maxItems, before, k), Evictions(first, maxItems, obs, k), TruthTotal(before), TruthTotal(obs));
  }

  lemma GrowsBy<K>(first: nat, maxItems: nat, before: seq<Observation<K>>, o: Observation<K>, k: K)
    ensures var obs := before + [o];
            && TruthTotal(obs) == TruthTotal(before) + o.value
            && Evictions(first, maxItems, obs, k) == Evictions(first, maxItems, before, k)
               + if Has(Run(first, maxItems, before), k) && !Has(Run(first, maxItems, obs), k) then 1 else 0
  {
    hide Run, Has;
    assert (before + [o])[..|before + [o]| - 1] == before;
  }

  lemma AddShare(lost: int, lost': int, share: nat, e: nat, e': nat, w: nat, w': nat)
    requires ShareBound(lost, share, e, w) && w <= w'
    requires (lost' == lost && e <= e') || (e' == e + 1 && ShareBound(lost' - lost, share, 1, w))
    ensures ShareBound(lost', share, e', w')
  {
    MulGrows(e, w, w');
    if lost' == lost {
      MulGrows(w', e, e');
    } else {
      assert lost' * share == lost * share + (lost' - lost) * share;
      assert e' * w' == e * w' + w';
    }
  }

  /** One observation loses nothing of `k` unless it makes the table forget it. */
  lemma UndercountStep<K(!new)>(first: nat, maxItems: nat, before: seq<Observation<K>>, o: Observation<K>, k: K)
    requires TruthTotal(before) + o.value < TWO_TO_THE_31
    ensures var t, obs := Run(first, maxItems, before), before + [o];
            var loss := Lost(first, maxItems, obs, k) - Lost(first, maxItems, before, k);
            if Has(t, k) && !Has(Run(first, maxItems, obs), k)
            then Prunes(t, maxItems, o.key) && loss == Sum(t.nodes, OfKey(k))
                 && ShareBound(loss, maxItems + 1, 1, TruthTotal(before))
            else loss == 0
  {
    hide Add;
    hide Prune;
    hide Prunes;
    hide Sum;
    hide Has;
    var obs := before + [o];
    assert obs[..|obs| - 1] == before;
    var t := Run(first, maxItems, before);
    Conservation(first, maxItems, before);
    SmallSumIsWindowed(t.nodes);
    AddToKey(t, maxItems, o, k);
    HeavyKeySurvivesPrune(t.nodes, maxItems, k, 0);
    if Has(t, k) && !Has(Run(first, maxItems, obs), k) {
      MulGrows(maxItems + 1, Sum(t.nodes, OfKey(k)), Sum(t.nodes, OfKey(k)));
    }
  }

  /** How often the table has pruned. */
  function NumPrunes<K(==)>(first: nat, maxItems: nat, obs: seq<Observation<K>>): nat {
    if obs == [] then 0
    else
      var before, o := obs[..|obs| - 1], obs[|obs| - 1];
      NumPrunes(first, maxItems, before) + if Prunes(Run(first, maxItems, before), maxItems, o.key) then 1 else 0
  }

  /** Each prune takes at least `max_items + 1` nodes that were added before. */
  lemma {:induction false} PrunesAreRare<K>(first: nat, maxItems: nat, obs: seq<Observation<K>>)
    requires maxItems < TWO_TO_THE_31
    ensures NumPrunes(first, maxItems, obs) * (maxItems + 1) + |Run(first, maxItems, obs).nodes| <= |obs|
  {
    if obs != [] {
      hide Prune;
      assert Threshold(maxItems) == 2 * maxItems;
      var before, o := obs[..|obs| - 1], obs[|obs| - 1];
      PrunesAreRare(first, maxItems, before);
      if Prunes(Run(first, maxItems, before), maxItems, o.key) {
        OneMore(maxItems + 1, NumPrunes(first, maxItems, before) + 1);
      }
    }
  }

  lemma OneMore(v: nat, n: nat)
    requires n > 0
    ensures n * v == (n - 1) * v + v
  {
  }

  lemma {:induction false} EvictionsNeedPrunes<K(!new)>(first: nat, maxItems: nat, obs: seq<Observation<K>>, k: K)
    requires TruthTotal(obs) < TWO_TO_THE_31
    ensures Evictions(first, maxItems, obs, k) <= NumPrunes(first, maxItems, obs)
  {
    if obs != [] {
      var before, o := obs[..|obs| - 1], obs[|obs| - 1];
      assert obs == before + [o];
      EvictionsNeedPrunes(first, maxItems, before, k);
      UndercountStep(first, maxItems, before, o, k);
      hide Run, Has, Prunes;
    }
  }

  /** A table with more room than there is traffic loses nothing. */
  lemma {:induction false} NothingLost<K(!new)>(first: nat, maxItems: nat, obs: seq<Observation<K>>, k: K)
    requires TruthTotal(obs) < TWO_TO_THE_31 && TruthTotal(obs) <= maxItems
    ensures Lost(first, maxItems, obs, k) <= 0
  {
    if obs != [] {
      var before, o := obs[..|obs| - 1], obs[|obs| - 1];
      assert obs == before + [o];
      assert TruthTotal(obs) == TruthTotal(before) + o.value;
      hide Run, Has, Prunes, Lost, ShareBound, TruthTotal;
      NothingLost(first, maxItems, before, k);
      UndercountStep(first, maxItems, before, o, k);
      LessThanOne(Lost(first, maxItems, obs, k) - Lost(first, maxItems, before, k), maxItems + 1, TruthTotal(before));
    }
  }

  lemma LessThanOne(loss: int, share: nat, w: nat)
    requires w < share
    ensures ShareBound(loss, share, 1, w) ==> loss <= 0
  {
    MultipleIsFar(share, loss);
  }

  /** The undercount in terms of the stream alone: with `n` observations a key loses at
      most a share of `n / (max_items + 1)^2` of the traffic. */
  lemma UndercountInStream<K(!new)>(first: nat, maxItems: nat, obs: seq<Observation<K>>, k: K)
    requires TruthTotal(obs) < TWO_TO_THE_31
    ensures Lost(first, maxItems, obs, k) * (maxItems + 1) * (maxItems + 1) <= |obs| * TruthTotal(obs)
  {
    hide Lost, Evictions, TruthTotal, NumPrunes, Run;
    var lost, share, w := Lost(first, maxItems, obs, k), maxItems + 1, TruthTotal(obs);
    if maxItems < TWO_TO_THE_31 {
      UndercountBound(first, maxItems, obs, k);
      EvictionsNeedPrunes(first, maxItems, obs, k);
      PrunesAreRare(first, maxItems, obs);
      SquareShare(lost, share, Evictions(first, maxItems, obs, k), NumPrunes(first, maxItems, obs), |obs|, w);
    } else {
      NothingLost(first, maxItems, obs, k);
      SquareShare(lost, share, 0, 0, |obs|, w);
    }
  }

  lemma SquareShare(lost: int, share: nat, e: nat, p: nat, n: nat, w: nat)
    requires lost * share <= e * w && e <= p && p * share <= n
    ensures lost * share * share <= n * w
  {
    assert lost * share * share <= e * w * share by {
      Grows(lost * share, e * w, share);
    }
    assert e * w * share == e * share * w;
    Grows(e, p, share);
    Grows(e * share, n, w);
  }

  lemma Grows(a: int, b: int, c: nat)
    requires a <= b
    ensures a * c <= b * c
  {
  }

  /** `k` had more than its share of the traffic whenever the table pruned. */
  ghost predicate HeavyAtEveryPrune<K>(first: nat, maxItems: nat, obs: seq<Observation<K>>, k: K) {
    forall n | 0 <= n < |obs| && Prunes(Run(first, maxItems, obs[..n]), maxItems, obs[n].key) ::
      Truth(obs[..n], k) == 0 || Truth(obs[..n], k) * (maxItems + 1) > TruthTotal(obs[..n])
  }

  /** Heavy hitters are counted exactly. */
  lemma {:induction false} HeavyHittersExact<K(!new)>(first: nat, maxItems: nat, obs: seq<Observation<K>>, k: K)
    requires TruthTotal(obs) < TWO_TO_THE_31
    requires HeavyAtEveryPrune(first, maxItems, obs, k)
    ensures Sum(Run(first, maxItems, obs).nodes, OfKey(k)) == Truth(obs, k)
  {
    if obs != [] {
      var before, o := obs[..|obs| - 1], obs[|obs| - 1];
      assert obs == before + [o];
      hide Prunes, Run, Sum, HeavyAtEveryPrune, Truth;
      HeavyPrefix(first, maxItems, before, o, k);
      HeavyHittersExact(first, maxItems, before, k);
      HeavyStep(first, maxItems, before, o, k);
    }
  }

  lemma HeavyStep<K(!new)>(first: nat, maxItems: nat, before: seq<Observation<K>>, o: Observation<K>, k: K)
    requires TruthTotal(before) + o.value < TWO_TO_THE_31
    requires Lost(first, maxItems, before, k) == 0
    requires Prunes(Run(first, maxItems, before), maxItems, o.key) ==>
               Truth(before, k) == 0 || Truth(before, k) * (maxItems + 1) > TruthTotal(before)
    ensures Lost(first, maxItems, before + [o], k) == 0
  {
    UndercountStep(first, maxItems, before, o, k);
    hide Run;
    hide Prunes;
    hide Sum;
    hide Has;
    hide Truth;
  }

  lemma HeavyPrefix<K>(first: nat, maxItems: nat, before: seq<Observation<K>>, o: Observation<K>, k: K)
    requires HeavyAtEveryPrune(first, maxItems, before + [o], k)
    ensures HeavyAtEveryPrune(first, maxItems, before, k)
    ensures Prunes(Run(first, maxItems, before), maxItems, o.key) ==>
              Truth(before, k) == 0 || Truth(before, k) * (maxItems + 1) > TruthTotal(before)
  {
    hide Prunes;
    var obs := before + [o];
    assert obs[..|before|] == before && obs[|before|] == o;
    forall n | 0 <= n < |before| && Prunes(Run(first, maxItems, before[..n]), maxItems, before[n].key)
      ensures Truth(before[..n], k) == 0 || Truth(before[..n], k) * (maxItems + 1) > TruthTotal(before[..n])
    {
      assert before[..n] == obs[..n] && before[n] == obs[n];
    }
  }

  // ----- what goes wrong beyond 2^31 -----

  /** With two nodes the sort is right exactly when the difference fits. */
  lemma TwoNodeSortExact<K>(a: Node<K>, b: Node<K>)
    requires a.value < TWO_TO_THE_32 && b.value < TWO_TO_THE_32
    ensures Descending(HashSort([a, b])) <==> -TWO_TO_THE_31 < a.value - b.value <= TWO_TO_THE_31
  {
    ValueSortExact(a, b);
    var s := [a, b];
    assert s[..1] == [a] && s[1..2] == [b] && s[2..] == [];
    assert MergePass(s, 1) == Merge([a], [b]) + [];
    var r := HashSort(s);
    if ValueSort(a, b) <= 0 {
      assert Merge([a], [b]) == [a] + Merge([a][1..], [b]);
      assert r == [a, b];
      assert Descending(r) <==> r[0].value >= r[1].value;
    } else {
      assert Merge([a], [b]) == [b] + Merge([a], [b][1..]);
      assert r == [b, a];
      assert Descending(r) <==> r[0].value >= r[1].value;
    }
  }

  /** `n` observations of different keys, all of value zero. */
  function ZeroStream(n: nat): seq<Observation<nat>> {
    seq(n, (i: nat) => Observation(i, 0))
  }

  function ZeroNodes(first: nat, n: nat): seq<Node<nat>> {
    seq(n, (i: nat) => Node(first + i, i, 0))
  }

  /** How many keys fill the table so that the next but one new key makes it prune. */
  function Filling(maxItems: nat): nat {
    if maxItems <= Threshold(maxItems) then Threshold(maxItems) else maxItems
  }

  /** A filled table of zero values, then one key with all of the traffic, then one
      new key. */
  function LoneHeavyStream(maxItems: nat): seq<Observation<nat>> {
    var n := Filling(maxItems);
    ZeroStream(n) + [Observation(n, TWO_TO_THE_31)] + [Observation(n + 1, 0)]
  }

  lemma RunAppend<K>(first: nat, maxItems: nat, before: seq<Observation<K>>, o: Observation<K>)
    ensures Run(first, maxItems, before + [o]) == Add(Run(first, maxItems, before), maxItems, o)
  {
    assert (before + [o])[..|before + [o]| - 1] == before;
  }

  /** A new key added to a table that its prune leaves unchanged. */
  lemma AddToUnpruned<K>(t: Table<K>, maxItems: nat, o: Observation<K>)
    requires forall x | x in t.nodes :: x.key != o.key
    requires t.valuesSum + o.value < TWO_TO_THE_32
    requires |t.nodes| <= Filling(maxItems) && HashSort(t.nodes) == t.nodes
    ensures Add(t, maxItems, o) == Table(t.nodes + [Node(t.nextId, o.key, o.value)], t.valuesSum + o.value, t.nextId + 1)
  {
    hide HashSort;
    if Prunes(t, maxItems, o.key) {
      assert Prune(t.nodes, maxItems) == t.nodes;
    }
  }

  lemma ZerosStay(first: nat, n: nat)
    ensures HashSort(ZeroNodes(first, n)) == ZeroNodes(first, n)
  {
    HashSortInOrder(ZeroNodes(first, n));
  }

  lemma ZerosGrow(first: nat, n: nat)
    ensures ZeroStream(n + 1) == ZeroStream(n) + [Observation(n, 0)]
    ensures ZeroNodes(first, n + 1) == ZeroNodes(first, n) + [Node(first + n, n, 0)]
    ensures |ZeroNodes(first, n)| == n && forall x | x in ZeroNodes(first, n) :: x.key != n
  {
  }

  lemma EmptyRun(first: nat, maxItems: nat)
    ensures Run(first, maxItems, ZeroStream(0)) == Table(ZeroNodes(first, 0), 0, first)
  {
  }

  lemma {:induction false} ZeroRun(first: nat, maxItems: nat, n: nat)
    requires n <= Filling(maxItems)
    ensures Run(first, maxItems, ZeroStream(n)) == Table(ZeroNodes(first, n), 0, first + n)
  {
    hide Run, Add, HashSort, ZeroNodes, ZeroStream, Filling, Threshold, IndexOf;
    if n == 0 {
      EmptyRun(first, maxItems);
    } else {
      ZeroRun(first, maxItems, n - 1);
      var t: Table<nat>, o: Observation<nat> := Table(ZeroNodes(first, n - 1), 0, first + n - 1), Observation(n - 1, 0);
      ZerosGrow(first, n - 1);
      RunAppend(first, maxItems, ZeroStream(n - 1), o);
      ZerosStay(first, n - 1);
      AddToUnpruned(t, maxItems, o);
    }
  }

  /** The table once the heavy key has been added. */
  function Filled(first: nat, n: nat): Table<nat> {
    Table(ZeroNodes(first, n) + [Node(first + n, n, TWO_TO_THE_31)], TWO_TO_THE_31, first + n + 1)
  }

  lemma FilledRun(first: nat, maxItems: nat)
    ensures var n := Filling(maxItems);
            Run(first, maxItems, ZeroStream(n) + [Observation(n, TWO_TO_THE_31)]) == Filled(first, n)
  {
    hide Run, Add, HashSort, Filling;
    var n := Filling(maxItems);
    ZeroRun(first, maxItems, n);
    ZerosStay(first, n);
    RunAppend(first, maxItems, ZeroStream(n), Observation(n, TWO_TO_THE_31));
    AddToUnpruned(Table(ZeroNodes(first, n), 0, first + n), maxItems, Observation(n, TWO_TO_THE_31));
  }

  /** The prune that the next key sets off keeps zeros and drops the heavy key. */
  lemma FilledPrune(first: nat, maxItems: nat)
    ensures var n := Filling(maxItems);
            var t := Filled(first, n);
            Prunes(t, maxItems, n + 1) && Prune(t.nodes, maxItems) == ZeroNodes(first, maxItems)
  {
    var n := Filling(maxItems);
    var t := Filled(first, n);
    HashSortInOrder(t.nodes);
    hide HashSort;
  }

  lemma LoneHeavyRun(first: nat, maxItems: nat)
    ensures var n := Filling(maxItems);
            && Run(first, maxItems, ZeroStream(n) + [Observation(n, TWO_TO_THE_31)]) == Filled(first, n)
            && Run(first, maxItems, LoneHeavyStream(maxItems)).nodes
               == ZeroNodes(first, maxItems) + [Node(first + n + 1, n + 1, 0)]
  {
    hide Run, Prune, Filling, ZeroNodes, ZeroStream;
    var n := Filling(maxItems);
    var before := ZeroStream(n) + [Observation(n, TWO_TO_THE_31)];
    FilledRun(first, maxItems);
    FilledPrune(first, maxItems);
    RunAppend(first, maxItems, before, Observation(n + 1, 0));
  }

  lemma {:induction false} ZeroTruth(n: nat, k: nat)
    ensures Truth(ZeroStream(n), k) == 0 && TruthTotal(ZeroStream(n)) == 0
  {
    if n > 0 {
      ZeroTruth(n - 1, k);
      assert ZeroStream(n)[..n - 1] == ZeroStream(n - 1);
    }
  }

  /** What was added up to each point of that stream. */
  lemma LoneHeavyTruth(maxItems: nat, i: nat)
    requires i <= Filling(maxItems) + 2
    ensures var n, obs := Filling(maxItems), LoneHeavyStream(maxItems);
            && |obs| == n + 2
            && Truth(obs[..i], n) == TruthTotal(obs[..i]) == if i <= n then 0 else TWO_TO_THE_31
  {
    var n, obs := Filling(maxItems), LoneHeavyStream(maxItems);
    ZeroTruth(Min(i, n), n);
    if i <= n {
      assert obs[..i] == ZeroStream(i);
    } else {
      assert obs[..n + 1][..n] == ZeroStream(n);
      assert obs[..n + 2][..n + 1] == obs[..n + 1];
    }
  }

  /** One key has all of the traffic, 2^31 in total, and the table forgets it. */
  lemma HeavyHitterLost(first: nat, maxItems: nat)
    requires maxItems >= 1
    ensures var n, obs := Filling(maxItems), LoneHeavyStream(maxItems);
            && Truth(obs, n) == TruthTotal(obs) == TWO_TO_THE_31
            && HeavyAtEveryPrune(first, maxItems, obs, n)
            && Sum(Run(first, maxItems, obs).nodes, OfKey(n)) == 0
            && Evictions(first, maxItems, obs, n) == 1
  {
    var n, obs := Filling(maxItems), LoneHeavyStream(maxItems);
    LoneHeavyTruth(maxItems, n + 2);
    assert obs[..n + 2] == obs;
    hide *;
    LoneHeavyIsHeavy(first, maxItems);
    LoneHeavyForgotten(first, maxItems);
    LoneHeavyEvictions(first, maxItems);
  }

  lemma LoneHeavyIsHeavy(first: nat, maxItems: nat)
    requires maxItems >= 1
    ensures HeavyAtEveryPrune(first, maxItems, LoneHeavyStream(maxItems), Filling(maxItems))
  {
    var n, obs := Filling(maxItems), LoneHeavyStream(maxItems);
    hide Run, Truth, TruthTotal, Prunes, LoneHeavyStream, Filling;
    MulGrows(TWO_TO_THE_31, 2, maxItems + 1);
    forall i | 0 <= i < |obs| ensures Truth(obs[..i], n) == 0 || Truth(obs[..i], n) * (maxItems + 1) > TruthTotal(obs[..i]) {
      LoneHeavyTruth(maxItems, 0);
      LoneHeavyTruth(maxItems, i);
    }
  }

  lemma LoneHeavyForgotten(first: nat, maxItems: nat)
    ensures Sum(Run(first, maxItems, LoneHeavyStream(maxItems)).nodes, OfKey(Filling(maxItems))) == 0
    ensures !Has(Run(first, maxItems, LoneHeavyStream(maxItems)), Filling(maxItems))
  {
    hide Run, Sum, LoneHeavyStream;
    LoneHeavyRun(first, maxItems);
    var n, nodes := Filling(maxItems), Run(first, maxItems, LoneHeavyStream(maxItems)).nodes;
    assert forall x | x in nodes :: x.key != n;
    AbsentHasNoOccurrence(nodes, n);
  }

  lemma LoneHeavyEvictions(first: nat, maxItems: nat)
    ensures Evictions(first, maxItems, LoneHeavyStream(maxItems), Filling(maxItems)) == 1
  {
    var n, obs := Filling(maxItems), LoneHeavyStream(maxItems);
    ZeroEvictions(first, maxItems, n, n);
    LoneHeavyRun(first, maxItems);
    var before := ZeroStream(n) + [Observation(n, TWO_TO_THE_31)];
    assert obs[..|obs| - 1] == before && before[..|before| - 1] == ZeroStream(n);
    var nodes := Run(first, maxItems, before).nodes;
    hide Run;
    assert nodes[n].key == n;
    LoneHeavyForgotten(first, maxItems);
  }

  lemma {:induction false} ZeroEvictions(first: nat, maxItems: nat, n: nat, k: nat)
    requires n <= Filling(maxItems) && n <= k
    ensures Evictions(first, maxItems, ZeroStream(n), k) == 0 && !Has(Run(first, maxItems, ZeroStream(n)), k)
  {
    ZeroRun(first, maxItems, n);
    hide Run, ZeroNodes, Filling;
    if n > 0 {
      ZeroEvictions(first, maxItems, n - 1, k);
      assert ZeroStream(n)[..n - 1] == ZeroStream(n - 1);
    }
  }

  /** The heavy-hitter guarantee, for every stream of at most `bound` in total. */
  ghost predicate ExactUpTo(maxItems: nat, bound: nat) {
    forall first: nat, obs: seq<Observation<nat>>, k: nat
      | TruthTotal(obs) <= bound && HeavyAtEveryPrune(first, maxItems, obs, k) ::
      Sum(Run(first, maxItems, obs).nodes, OfKey(k)) == Truth(obs, k)
  }

  /** The undercount bound, likewise. */
  ghost predicate UndercountUpTo(maxItems: nat, bound: nat) {
    forall first: nat, obs: seq<Observation<nat>>, k: nat | TruthTotal(obs) <= bound ::
      Lost(first, maxItems, obs, k) * (maxItems + 1) <= Evictions(first, maxItems, obs, k) * TruthTotal(obs)
  }

  /** Both guarantees hold for every stream of total at most `bound` if and only if
      the bound is below 2^31. */
  lemma GuaranteeExact(maxItems: nat, bound: nat)
    requires maxItems >= 1
    ensures ExactUpTo(maxItems, bound) <==> bound < TWO_TO_THE_31
    ensures UndercountUpTo(maxItems, bound) <==> bound < TWO_TO_THE_31
  {
    if bound < TWO_TO_THE_31 {
      hide TruthTotal, Truth, Run, Sum, HeavyAtEveryPrune, Lost, Evictions;
      forall first: nat, obs: seq<Observation<nat>>, k: nat
        | TruthTotal(obs) <= bound && HeavyAtEveryPrune(first, maxItems, obs, k)
        ensures Sum(Run(first, maxItems, obs).nodes, OfKey(k)) == Truth(obs, k) {
        HeavyHittersExact(first, maxItems, obs, k);
      }
      forall first: nat, obs: seq<Observation<nat>>, k: nat | TruthTotal(obs) <= bound
        ensures Lost(first, maxItems, obs, k) * (maxItems + 1) <= Evictions(first, maxItems, obs, k) * TruthTotal(obs) {
        UndercountBound(first, maxItems, obs, k);
      }
    } else {
      hide TruthTotal, Truth, Run, Sum, HeavyAtEveryPrune, Evictions;
      HeavyHitterLost(0, maxItems);
      var n, obs := Filling(maxItems), LoneHeavyStream(maxItems);
      hide LoneHeavyStream, Filling;
      assert Lost(0, maxItems, obs, n) == TWO_TO_THE_31;
      MulGrows(TWO_TO_THE_31, 2, maxItems + 1);
    }
  }
}
