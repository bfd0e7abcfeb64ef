/**
 The FrequentTrafficItems object itself, updated in place, each method proved
 against the functions of TopItems and TrafficSharing.
 */
module FrequentTrafficItems {
  import opened Basics
  import opened UtHashSort
  import opened TopItems
  import TrafficSharing

  /** The key union; the key length passed to the hash keeps the two apart. */
  datatype TrafficKey =
    | PoolProto(poolId: nat, protoId: nat)
    | MacProto(mac: seq<nat>, macProtoId: nat)

  class FrequentTrafficItems {
    const maxItems: nat
    const maxItemsThreshold: nat
    var q: seq<Node<TrafficKey>>
    var qCommitted: seq<Node<TrafficKey>>
    var valuesSum: nat
    var lastValuesSum: nat
    var nextId: nat          // identity of the next allocated node
    ghost var freed: seq<nat> // identities passed to free, in order

    ghost predicate Valid()
      reads this
    {
      maxItemsThreshold == Threshold(maxItems)
    }

    ghost function Working(): Table<TrafficKey>
      reads this
    {
      Table(q, valuesSum, nextId)
    }

    constructor (maxItems: nat)
      ensures Valid() && this.maxItems == maxItems
      ensures Working() == Run(0, maxItems, []) && qCommitted == [] && lastValuesSum == 0 && freed == []
    {
      this.maxItems := maxItems;
      maxItemsThreshold := (2 * maxItems) % TWO_TO_THE_32;
      q, qCommitted := [], [];
      valuesSum, lastValuesSum, nextId := 0, 0, 0;
      freed := [];
    }

    /** HASH_FIND: the position of the key's node, or the end of the table. */
    method Find(key: TrafficKey) returns (i: nat)
      ensures i == IndexOf(q, key)
    {
      i := 0;
      while i < |q| && q[i].key != key
        invariant i <= |q|
        invariant IndexOf(q, key) == i + IndexOf(q[i..], key)
      {
        assert q[i..][1..] == q[i + 1..];
        i := i + 1;
      }
    }

    /** Sort by value, then walk the list and free every node past the first
        `max_items`. */
    method PruneTable()
      requires Valid()
      modifies this`q, this`freed
      ensures q == Prune(old(q), maxItems)
      ensures freed == old(freed) + TrafficSharing.Ids(Dropped(old(q), maxItems))
    {
      hide HashSort, Walked, FreedIds;
      HashSortPermutes(q);
      var sorted := HashSrt(q);
      q := sorted;
      WalkStarts(sorted, maxItems);
      var curr, num := 0, 0;
      while curr < |sorted|
        invariant num == curr <= |sorted|
        invariant q == Walked(sorted, maxItems, curr)
        invariant freed == old(freed) + FreedIds(sorted, maxItems, curr)
      {
        WalkStep(sorted, maxItems, curr);
        num := num + 1;
        if num > maxItems {
          q := q[..maxItems] + q[maxItems + 1..];
          freed := freed + [sorted[curr].id];
        }
        curr := curr + 1;
      }
      WalkEnds(sorted, maxItems);
    }

    /** The node of `key`, allocated (after a prune if the table is over its
        threshold) when there is none. */
    method AddGeneric(key: TrafficKey) returns (i: nat)
      requires Valid()
      modifies this`q, this`freed, this`nextId
      ensures i == IndexOf(q, key) < |q|
      ensures if IndexOf(old(q), key) < |old(q)|
              then q == old(q) && nextId == old(nextId)
              else q == Kept(old(Working()), maxItems, key) + [Node(old(nextId), key, 0)] && nextId == old(nextId) + 1
      ensures freed == old(freed) + TrafficSharing.Ids(TrafficSharing.FreedBy(old(Working()), maxItems, Observation(key, 0)))
    {
      i := Find(key);
      if i == |q| {
        AbsentFromKept(Working(), maxItems, key);
        if |q| > maxItemsThreshold {
          PruneTable();
        }
        i := |q|;
        ghost var kept := q;
        q := q + [Node(nextId, key, 0)];
        nextId := nextId + 1;
        AppendedIsFound(kept, Node(old(nextId), key, 0));
      }
    }

    /** `s->value += value; values_sum += value`, with 32-bit wrap-around. */
    method AddValue(key: TrafficKey, value: nat)
      requires Valid()
      modifies this`q, this`freed, this`nextId, this`valuesSum
      ensures Working() == Add(old(Working()), maxItems, Observation(key, value))
      ensures freed == old(freed) + TrafficSharing.Ids(TrafficSharing.FreedBy(old(Working()), maxItems, Observation(key, value)))
    {
      hide Prune;
      hide Dropped;
      var s := AddGeneric(key);
      ghost var q0 := q;
      q := q[s := q[s].(value := (q[s].value + value) % TWO_TO_THE_32)];
      valuesSum := (valuesSum + value) % TWO_TO_THE_32;
      ghost var kept := Kept(old(Working()), maxItems, key);
      if IndexOf(old(q), key) == |old(q)| {
        AppendedIsFound(kept, Node(old(nextId), key, 0)) by {
          AbsentFromKept(old(Working()), maxItems, key);
        }
        assert q == kept + [Node(old(nextId), key, value % TWO_TO_THE_32)];
      }
    }

    method AddPoolProtocol(poolId: nat, protoId: nat, value: nat)
      requires Valid()
      modifies this`q, this`freed, this`nextId, this`valuesSum
      ensures Working() == Add(old(Working()), maxItems, Observation(PoolProto(poolId, protoId), value))
      ensures freed == old(freed)
              + TrafficSharing.Ids(TrafficSharing.FreedBy(old(Working()), maxItems, Observation(PoolProto(poolId, protoId), value)))
    {
      AddValue(PoolProto(poolId, protoId), value);
    }

    method AddMacProtocol(mac: seq<nat>, protoId: nat, value: nat)
      requires Valid() && |mac| == 6
      modifies this`q, this`freed, this`nextId, this`valuesSum
      ensures Working() == Add(old(Working()), maxItems, Observation(MacProto(mac, protoId), value))
      ensures freed == old(freed)
              + TrafficSharing.Ids(TrafficSharing.FreedBy(old(Working()), maxItems, Observation(MacProto(mac, protoId), value)))
    {
      AddValue(MacProto(mac, protoId), value);
    }

    /** The object as a state of the sharing protocol, between two calls. */
    ghost function Shared(interval: seq<Observation<TrafficKey>>, first: nat,
                          shown: seq<Observation<TrafficKey>>, shownFirst: nat, previousSum: nat)
      : TrafficSharing.State<TrafficKey>
      reads this
    {
      TrafficSharing.State(Working(), qCommitted, lastValuesSum, freed, TrafficSharing.Quiet,
                           interval, first, shown, shownFirst, previousSum)
    }

    /** `reset` is the protocol's four writer steps in a row. */
    method Reset(ghost interval: seq<Observation<TrafficKey>>, ghost first: nat,
                 ghost shown: seq<Observation<TrafficKey>>, ghost shownFirst: nat, ghost previousSum: nat)
      requires Valid()
      modifies this
      ensures Valid()
      ensures var s0 := old(Shared(interval, first, shown, shownFirst, previousSum));
              var s1 := TrafficSharing.Next(maxItems, s0, TrafficSharing.Publish);
              var s2 := TrafficSharing.Next(maxItems, s1, TrafficSharing.Empty);
              var s3 := TrafficSharing.Next(maxItems, s2, TrafficSharing.SaveSum);
              Shared([], nextId, interval, first, old(lastValuesSum)) == TrafficSharing.Next(maxItems, s3, TrafficSharing.ZeroSum)
    {
      Cleanup();
      qCommitted := q;
      q := [];
      lastValuesSum := valuesSum;
      valuesSum := 0;
    }

    /** `cleanup(q_committed)`: free the nodes one after the other. */
    method Cleanup()
      modifies this`qCommitted, this`freed
      ensures qCommitted == []
      ensures freed == old(freed) + TrafficSharing.Ids(old(qCommitted))
    {
      while qCommitted != []
        invariant freed + TrafficSharing.Ids(qCommitted) == old(freed) + TrafficSharing.Ids(old(qCommitted))
        decreases |qCommitted|
      {
        freed := freed + [qCommitted[0].id];
        qCommitted := qCommitted[1..];
      }
    }
  }

  /** The list and the freed identities when the prune walk has reached node
      `curr` of the sorted list. */
  function Walked<K>(sorted: seq<Node<K>>, maxItems: nat, curr: nat): seq<Node<K>>
    requires curr <= |sorted|
  {
    sorted[..Min(curr, maxItems)] + sorted[curr..]
  }

  function FreedIds<K>(sorted: seq<Node<K>>, maxItems: nat, curr: nat): seq<nat>
    requires curr <= |sorted|
  {
    if curr <= maxItems then [] else TrafficSharing.Ids(sorted[maxItems..curr])
  }

  lemma WalkStarts<K>(sorted: seq<Node<K>>, maxItems: nat)
    ensures Walked(sorted, maxItems, 0) == sorted
    ensures FreedIds(sorted, maxItems, 0) == []
  {
  }

  lemma WalkStep<K>(sorted: seq<Node<K>>, maxItems: nat, curr: nat)
    requires curr < |sorted|
    ensures var l := Walked(sorted, maxItems, curr);
            if curr < maxItems
            then Walked(sorted, maxItems, curr + 1) == l
                 && FreedIds(sorted, maxItems, curr + 1) == FreedIds(sorted, maxItems, curr)
            else maxItems < |l| && l[maxItems] == sorted[curr]
                 && Walked(sorted, maxItems, curr + 1) == l[..maxItems] + l[maxItems + 1..]
                 && FreedIds(sorted, maxItems, curr + 1) == FreedIds(sorted, maxItems, curr) + [sorted[curr].id]
  {
    if curr >= maxItems {
      var gone, n := sorted[maxItems..curr], sorted[curr];
      assert sorted[maxItems..curr + 1] == gone + [n];
      TrafficSharing.IdsOfConcat(gone, [n]);
      assert TrafficSharing.Ids([n]) == [n.id];
    } else {
      assert sorted[..curr] + sorted[curr..] == sorted[..curr + 1] + sorted[curr + 1..];
    }
  }

  lemma WalkEnds<K>(sorted: seq<Node<K>>, maxItems: nat)
    ensures Walked(sorted, maxItems, |sorted|) == sorted[..Min(maxItems, |sorted|)]
    ensures FreedIds(sorted, maxItems, |sorted|) == TrafficSharing.Ids(sorted[Min(maxItems, |sorted|)..])
  {
    assert sorted[..|sorted|] == sorted;
    if |sorted| > maxItems {
      assert sorted[maxItems..|sorted|] == sorted[maxItems..];
    }
  }

  lemma AbsentFromKept<K>(t: Table<K>, maxItems: nat, key: K)
    requires !Has(t, key)
    ensures IndexOf(Kept(t, maxItems, key), key) == |Kept(t, maxItems, key)|
  {
    AbsentHasNoOccurrence(t.nodes, key);
    KeptSplits(t, maxItems, key, Occurrences(key));
    AbsentHasNoOccurrence(Kept(t, maxItems, key), key);
  }

  lemma {:induction false} AppendedIsFound<K>(s: seq<Node<K>>, n: Node<K>)
    requires IndexOf(s, n.key) == |s|
    ensures IndexOf(s + [n], n.key) == |s|
  {
    if s != [] {
      AppendedIsFound(s[1..], n);
      assert (s + [n])[1..] == s[1..] + [n];
    }
  }
}
