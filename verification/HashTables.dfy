/**
 The parts of the hash that know nothing of entry states: bucket chains, the split of
 a vector by use count, and the round-robin order in which scans visit buckets.
 */
module HashTables {
  import opened Basics

  // ----- chains -----

  ghost predicate KnownChain(chain: seq<nat>, n: nat) {
    forall i | 0 <= i < |chain| :: chain[i] < n
  }

  function Population(table: seq<seq<nat>>): nat {
    if table == [] then 0 else |table[0]| + Population(table[1..])
  }

  lemma {:induction false} PopulationUpdate(table: seq<seq<nat>>, b: nat, chain: seq<nat>)
    requires b < |table|
    ensures Population(table[b := chain]) + |table[b]| == Population(table) + |chain|
  {
    if b == 0 {
      assert table[b := chain][1..] == table[1..];
    } else {
      PopulationUpdate(table[1..], b - 1, chain);
      assert table[b := chain][1..] == table[1..][b - 1 := chain];
    }
  }

  lemma {:induction false} EmptyPopulation(table: seq<seq<nat>>)
    requires forall b | 0 <= b < |table| :: table[b] == []
    ensures Population(table) == 0
  {
    if table != [] {
      EmptyPopulation(table[1..]);
    }
  }

  ghost predicate ChainsDisjoint(table: seq<seq<nat>>) {
    forall a, b, e | 0 <= a < |table| && 0 <= b < |table| && a != b :: e in table[a] ==> e !in table[b]
  }

  lemma MembersKnown(v: seq<nat>, n: nat)
    requires forall e | e in v :: e < n
    ensures KnownChain(v, n)
  {
    forall i | 0 <= i < |v| ensures v[i] < n {
      assert v[i] in v;
    }
  }

  /** The entries of a table. */
  function Entries(table: seq<seq<nat>>): set<nat> {
    set b, i | 0 <= b < |table| && 0 <= i < |table[b]| :: table[b][i]
  }

  ghost predicate NoRepeat(v: seq<nat>) {
    forall i, j | 0 <= i < j < |v| :: v[i] != v[j]
  }

  /** No entry is in the table twice. */
  ghost predicate Distinct(table: seq<seq<nat>>) {
    && ChainsDisjoint(table)
    && forall b | 0 <= b < |table| :: NoRepeat(table[b])
  }

  lemma InEntries(table: seq<seq<nat>>, x: nat)
    ensures x in Entries(table) <==> exists b :: 0 <= b < |table| && x in table[b]
  {
    if b :| 0 <= b < |table| && x in table[b] {
      var i :| 0 <= i < |table[b]| && table[b][i] == x;
    }
  }

  lemma AddedEntries(table: seq<seq<nat>>, b: nat, e: nat)
    requires b < |table| && Distinct(table) && e !in Entries(table)
    ensures var t := table[b := [e] + table[b]];
            Entries(t) == Entries(table) + {e} && Distinct(t)
  {
    var t := table[b := [e] + table[b]];
    forall x ensures x in Entries(t) <==> x in Entries(table) + {e} {
      InEntries(t, x);
      InEntries(table, x);
      assert x in t[b] <==> x == e || x in table[b];
      if c :| 0 <= c < |table| && x in table[c] {
        assert x in t[c];
      }
    }
    forall c | 0 <= c < |table| ensures e !in table[c] {
      InEntries(table, e);
    }
  }

  lemma VisitedEntry(table: seq<seq<nat>>, b: nat, t: seq<seq<nat>>, x: nat)
    requires b < |table| == |t| && ChainsDisjoint(table)
    requires forall c | 0 <= c < |table| && c != b :: t[c] == table[c]
    requires x in t[b] ==> x in table[b]
    ensures x in Entries(t) <==> x in Entries(table) && (x in table[b] ==> x in t[b])
  {
    InEntries(t, x);
    InEntries(table, x);
    if c :| 0 <= c < |table| && x in table[c] {
      if c != b {
        assert x in t[c];
      }
    }
    if c :| 0 <= c < |t| && x in t[c] {
      assert x in table[c];
    }
  }

  lemma ConsNoRepeat(e: nat, v: seq<nat>)
    requires NoRepeat(v) && e !in v
    ensures NoRepeat([e] + v)
  {
    var w := [e] + v;
    forall i, j | 0 <= i < j < |w| ensures w[i] != w[j] {
      assert w[j] == v[j - 1] && v[j - 1] in v;
      assert i > 0 ==> w[i] == v[i - 1];
    }
  }

  function Elements(v: seq<nat>): set<nat> {
    set e | e in v
  }

  lemma {:induction false} SizeOfChain(v: seq<nat>)
    requires NoRepeat(v)
    ensures |Elements(v)| == |v|
  {
    if v != [] {
      SizeOfChain(v[1..]);
      assert v[0] !in v[1..];
      assert Elements(v) == {v[0]} + Elements(v[1..]);
    }
  }

  lemma InFrontOrRest(table: seq<seq<nat>>, x: nat)
    requires table != [] && Distinct(table)
    ensures x in Entries(table) <==> x in table[0] || x in Entries(table[1..])
    ensures !(x in table[0] && x in Entries(table[1..]))
  {
    InEntries(table, x);
    InEntries(table[1..], x);
    if b :| 0 <= b < |table| && x in table[b] {
      if b > 0 {
        assert x in table[1..][b - 1];
      }
    }
    if b :| 0 <= b < |table[1..]| && x in table[1..][b] {
      assert x in table[b + 1];
    }
  }

  lemma {:induction false} SizeIsPopulation(table: seq<seq<nat>>)
    requires Distinct(table)
    ensures |Entries(table)| == Population(table)
  {
    if table == [] {
      assert Entries(table) == {};
    } else {
      var rest := table[1..];
      SizeIsPopulation(rest);
      forall x: nat ensures x in Entries(table) <==> x in Elements(table[0]) + Entries(rest) {
        InFrontOrRest(table, x);
      }
      assert Entries(table) == Elements(table[0]) + Entries(rest);
      forall x: nat ensures !(x in Elements(table[0]) && x in Entries(rest)) {
        InFrontOrRest(table, x);
      }
      assert Elements(table[0]) !! Entries(rest);
      SizeOfChain(table[0]);
    }
  }

  // ----- occurrences in a vector -----

  function Occurs(v: seq<nat>, e: nat): nat {
    multiset(v)[e]
  }

  lemma OccursAppend(v: seq<nat>, x: nat, e: nat)
    ensures Occurs(v + [x], e) == Occurs(v, e) + if x == e then 1 else 0
  {
  }

  lemma OccursHead(v: seq<nat>, i: nat, e: nat)
    requires i < |v|
    ensures Occurs(v[i..], e) == Occurs(v[i + 1..], e) + if v[i] == e then 1 else 0
  {
    assert v[i..] == [v[i]] + v[i + 1..];
  }

  lemma OccursRemoval(v: seq<nat>, j: nat, e: nat)
    requires j < |v|
    ensures Occurs(v, e) == Occurs(v[..j] + v[j + 1..], e) + if v[j] == e then 1 else 0
  {
    assert v == v[..j] + [v[j]] + v[j + 1..];
  }

  lemma OccursNone(e: nat)
    ensures Occurs([], e) == 0
  {
  }

  lemma InIffOccurs(v: seq<nat>, e: nat)
    ensures e in v <==> Occurs(v, e) > 0
  {
    assert e in v <==> e in multiset(v);
  }

  lemma TwiceOccurs(v: seq<nat>, i: nat, j: nat)
    requires i < j < |v| && v[i] == v[j]
    ensures Occurs(v, v[i]) >= 2
  {
    assert v == v[..i] + [v[i]] + v[i + 1..j] + [v[j]] + v[j + 1..];
  }

  // ----- splitting a vector by use -----

  predicate IsUnused(e: nat, uses: seq<int>) {
    e < |uses| && uses[e] == 0
  }

  function Unused(v: seq<nat>, uses: seq<int>): seq<nat> {
    if v == [] then []
    else if IsUnused(v[0], uses) then [v[0]] + Unused(v[1..], uses)
    else Unused(v[1..], uses)
  }

  function Used(v: seq<nat>, uses: seq<int>): seq<nat> {
    if v == [] then []
    else if IsUnused(v[0], uses) then Used(v[1..], uses)
    else [v[0]] + Used(v[1..], uses)
  }

  lemma SplitHead(v: seq<nat>, i: nat, uses: seq<int>)
    requires i < |v|
    ensures if IsUnused(v[i], uses)
            then Unused(v[i..], uses) == [v[i]] + Unused(v[i + 1..], uses) && Used(v[i..], uses) == Used(v[i + 1..], uses)
            else Unused(v[i..], uses) == Unused(v[i + 1..], uses) && Used(v[i..], uses) == [v[i]] + Used(v[i + 1..], uses)
  {
    assert v[i..][1..] == v[i + 1..];
  }

  lemma {:induction false} ConcatUnused(a: seq<nat>, b: seq<nat>, uses: seq<int>)
    ensures Unused(a + b, uses) == Unused(a, uses) + Unused(b, uses)
  {
    if a == [] {
      assert a + b == b;
    } else {
      ConcatUnused(a[1..], b, uses);
      hide IsUnused;
      assert (a + b)[1..] == a[1..] + b && (a + b)[0] == a[0];
    }
  }

  lemma {:induction false} ConcatUsed(a: seq<nat>, b: seq<nat>, uses: seq<int>)
    ensures Used(a + b, uses) == Used(a, uses) + Used(b, uses)
  {
    if a == [] {
      assert a + b == b;
    } else {
      ConcatUsed(a[1..], b, uses);
      hide IsUnused;
      assert (a + b)[1..] == a[1..] + b && (a + b)[0] == a[0];
    }
  }

  /** A second split of the used entries changes nothing. */
  lemma {:induction false} UsedIsUsed(v: seq<nat>, uses: seq<int>)
    ensures Unused(Used(v, uses), uses) == [] && Used(Used(v, uses), uses) == Used(v, uses)
  {
    if v != [] {
      UsedIsUsed(v[1..], uses);
      if !IsUnused(v[0], uses) {
        assert Used(v, uses) == [v[0]] + Used(v[1..], uses);
        assert Used(v, uses)[1..] == Used(v[1..], uses);
      } else {
        assert Used(v, uses) == Used(v[1..], uses);
      }
    }
  }

  lemma {:induction false} UsedKnown(v: seq<nat>, uses: seq<int>)
    requires KnownChain(v, |uses|)
    ensures KnownChain(Used(v, uses), |uses|)
  {
    if v != [] {
      UsedKnown(v[1..], uses);
    }
  }

  lemma SplitQueued(inUse: seq<nat>, queued: seq<nat>, uses: seq<int>)
    requires KnownChain(inUse, |uses|) && KnownChain(queued, |uses|)
    ensures var parked := inUse + Used(queued, uses);
            && KnownChain(parked, |uses|)
            && Unused(parked, uses) == Unused(inUse, uses)
            && Used(parked, uses) == Used(inUse, uses) + Used(queued, uses)
  {
    ConcatUnused(inUse, Used(queued, uses), uses);
    ConcatUsed(inUse, Used(queued, uses), uses);
    UsedIsUsed(queued, uses);
    UsedKnown(queued, uses);
  }

  lemma {:induction false} SplitCounts(v: seq<nat>, uses: seq<int>)
    ensures multiset(Unused(v, uses)) + multiset(Used(v, uses)) == multiset(v)
    ensures forall e | e in Unused(v, uses) :: IsUnused(e, uses)
    ensures forall e | e in Used(v, uses) :: !IsUnused(e, uses)
  {
    if v != [] {
      SplitCounts(v[1..], uses);
      assert v == [v[0]] + v[1..];
    }
  }

  lemma NothingQueued(uses: seq<int>)
    ensures Unused([], uses) == [] && Used([], uses) == []
  {
  }

  // ----- the order of visits -----

  /** The bucket visited `k` steps after the cursor. */
  function Bucket(cursor: nat, k: nat, n: nat): (b: nat)
    requires n > 0
    ensures b < n
  {
    (cursor + 1 + k) % n
  }

  lemma CursorStep(cursor: nat, j: nat, n: nat)
    requires n > 0
    ensures Bucket(cursor, j, n) == (cursor + j + 1) % n
    ensures (cursor + j + 1) % n == if (cursor + j) % n + 1 == n then 0 else (cursor + j) % n + 1
  {
    var q, r := (cursor + j) / n, (cursor + j) % n;
    assert cursor + j == n * q + r;
    if r + 1 == n {
      assert cursor + j + 1 == n * (q + 1);
      ModOfSum(n, q + 1, 0);
    } else {
      assert cursor + j + 1 == n * q + (r + 1);
      ModOfSum(n, q, r + 1);
    }
  }

  lemma ModOfSum(n: nat, q: nat, r: nat)
    requires r < n
    ensures (n * q + r) % n == r
  {
    QuotientIs(n * q + r, n, q, r);
  }

  /** How many steps after the cursor bucket `b` comes up. */
  function Offset(cursor: nat, b: nat, n: nat): (k: nat)
    requires cursor < n && b < n
    ensures k < n
  {
    if b > cursor then b - cursor - 1 else b + n - cursor - 1
  }

  /** Bucket `b` is the one visited at its offset, and no other. */
  lemma OffsetExact(cursor: nat, b: nat, k: nat, n: nat)
    requires cursor < n && b < n && k < n
    ensures Bucket(cursor, k, n) == b <==> k == Offset(cursor, b, n)
  {
    var x := cursor + 1 + k;
    if x < n {
      ModOfSum(n, 0, x);
    } else {
      ModOfSum(n, 1, x - n);
    }
  }

  /** Buckets come up one after the other, the one after the cursor first, and each of
      them once in a round: bucket `b` is `k` steps further exactly if `k` is its
      offset. */
  lemma TurnExact(cursor: nat, b: nat, k: nat, n: nat)
    requires cursor < n && b < n && k < n
    ensures (cursor + 1 + k) % n == b <==> k == Offset(cursor, b, n)
  {
    OffsetExact(cursor, b, k, n);
  }

  lemma ShiftBucket(cursor: nat, v: nat, k: nat, n: nat)
    requires n > 0
    ensures Bucket((cursor + v) % n, k, n) == Bucket(cursor, v + k, n)
  {
    var q, r := (cursor + v) / n, (cursor + v) % n;
    assert cursor + v == n * q + r;
    var x := r + 1 + k;
    var q2, r2 := x / n, x % n;
    assert x == n * q2 + r2;
    assert cursor + 1 + (v + k) == n * (q + q2) + r2 by {
      assert n * (q + q2) == n * q + n * q2;
    }
    ModOfSum(n, q + q2, r2);
  }

  lemma CloserCursor(cursor: nat, v: nat, b: nat, n: nat)
    requires cursor < n && b < n && v <= Offset(cursor, b, n)
    ensures Offset((cursor + v) % n, b, n) == Offset(cursor, b, n) - v
  {
    var k := Offset(cursor, b, n);
    hide Offset, Bucket;
    OffsetExact(cursor, b, k, n);
    ShiftBucket(cursor, v, k - v, n);
    OffsetExact((cursor + v) % n, b, k - v, n);
  }
}
