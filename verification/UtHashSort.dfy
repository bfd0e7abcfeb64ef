/**
 The sort that the frequency tables run on their hash: the bottom-up merge sort
 of the `uthash` list (third-party/uthash.h, HASH_SRT) driven by `value_sort`,
 a three-way comparison computed by subtracting two unsigned 32-bit values and
 reading the difference as a signed one.
 */
module UtHashSort {
  import opened Basics

  /** A hash node. `id` names the allocation, so that freeing can be tracked. */
  datatype Node<+K> = Node(id: nat, key: K, value: nat)

  /** The low 32 bits of `x`, read as a signed integer. */
  function Signed32(x: int): int {
    var low := x % TWO_TO_THE_32;
    if low < TWO_TO_THE_31 then low else low - TWO_TO_THE_32
  }

  /** `value_sort`: negative or zero keeps `a` before `b`. */
  function ValueSort<K>(a: Node<K>, b: Node<K>): int {
    Signed32(b.value - a.value)
  }

  /** The comparison orders a pair by decreasing value exactly when the
      difference fits in a signed 32-bit integer. */
  lemma ValueSortExact<K>(a: Node<K>, b: Node<K>)
    requires a.value < TWO_TO_THE_32 && b.value < TWO_TO_THE_32
    ensures (ValueSort(a, b) <= 0 <==> a.value >= b.value)
       <==> -TWO_TO_THE_31 < a.value - b.value <= TWO_TO_THE_31
  {
    var d := b.value - a.value;
    if d >= 0 {
      assert d % TWO_TO_THE_32 == d;
    } else {
      assert d % TWO_TO_THE_32 == d + TWO_TO_THE_32;
    }
  }

  /** Past that range the comparison is not even transitive: three values
      arranged in a circle each come before the next. */
  lemma ValueSortCycles()
    ensures var a, b, c := Node(0, 0, 0), Node(1, 1, 0x6000_0000), Node(2, 2, 0xC000_0000);
            ValueSort(b, a) < 0 && ValueSort(c, b) < 0 && ValueSort(a, c) < 0
  {
    assert (0 - 0x6000_0000) % TWO_TO_THE_32 == 0xA000_0000;
    assert (0x6000_0000 - 0xC000_0000) % TWO_TO_THE_32 == 0xA000_0000;
    assert (0xC000_0000 - 0) % TWO_TO_THE_32 == 0xC000_0000;
  }

  ghost predicate Descending<K>(s: seq<Node<K>>) {
    forall i, j | 0 <= i < j < |s| :: s[i].value >= s[j].value
  }

  /** All values are unsigned 32-bit and lie in a window of width 2^31, so that
      no two of them are 2^31 or more apart. */
  ghost predicate Windowed<K>(s: seq<Node<K>>, low: nat) {
    forall x | x in s :: low <= x.value < low + TWO_TO_THE_31 && x.value < TWO_TO_THE_32
  }

  /** One merge of two adjacent runs; ties are taken from the left run. */
  function Merge<K>(p: seq<Node<K>>, q: seq<Node<K>>): seq<Node<K>> {
    if p == [] then q
    else if q == [] then p
    else if ValueSort(p[0], q[0]) <= 0 then [p[0]] + Merge(p[1..], q)
    else [q[0]] + Merge(p, q[1..])
  }

  /** The merge of the first two runs of `n` nodes. */
  function MergeFront<K>(s: seq<Node<K>>, n: nat): seq<Node<K>>
    requires 0 < n < |s|
  {
    Merge(s[..n], s[n..Min(2 * n, |s|)])
  }

  /** One pass over the list: merge neighbouring runs of `n` nodes. */
  function MergePass<K>(s: seq<Node<K>>, n: nat): seq<Node<K>>
    requires n > 0
    decreases |s|
  {
    if |s| <= n then s
    else MergeFront(s, n) + MergePass(s[Min(2 * n, |s|)..], n)
  }

  /** Passes of doubling run size, until one pass needs a single merge. */
  function SortFrom<K>(s: seq<Node<K>>, n: nat): seq<Node<K>>
    requires n > 0
    decreases if |s| <= 2 * n then 0 else |s| - n
  {
    var t := MergePass(s, n);
    MergePassPermutes(s, n);
    assert |multiset(t)| == |multiset(s)|;
    if |s| <= 2 * n then t else SortFrom(t, 2 * n)
  }

  function HashSort<K>(s: seq<Node<K>>): seq<Node<K>> {
    if s == [] then [] else SortFrom(s, 1)
  }

  // ----- what the passes keep and establish -----

  lemma {:induction false} MergePermutes<K>(p: seq<Node<K>>, q: seq<Node<K>>)
    ensures multiset(Merge(p, q)) == multiset(p) + multiset(q)
    decreases |p| + |q|
  {
    if p != [] && q != [] {
      if ValueSort(p[0], q[0]) <= 0 {
        MergePermutes(p[1..], q);
        ConsMultiset(p);
      } else {
        MergePermutes(p, q[1..]);
        ConsMultiset(q);
      }
    }
  }

  lemma ConsMultiset<K>(s: seq<Node<K>>)
    requires s != []
    ensures multiset(s) == multiset{s[0]} + multiset(s[1..])
  {
    assert s == [s[0]] + s[1..];
  }

  lemma {:induction false} MergePassPermutes<K>(s: seq<Node<K>>, n: nat)
    requires n > 0
    ensures multiset(MergePass(s, n)) == multiset(s)
    decreases |s|
  {
    if |s| > n {
      var end := Min(2 * n, |s|);
      MergeFrontPermutes(s, n);
      MergePassPermutes(s[end..], n);
      assert s == s[..end] + s[end..];
    }
  }

  lemma MergeFrontPermutes<K>(s: seq<Node<K>>, n: nat)
    requires 0 < n < |s|
    ensures multiset(MergeFront(s, n)) == multiset(s[..Min(2 * n, |s|)])
    ensures |MergeFront(s, n)| == Min(2 * n, |s|)
  {
    var end := Min(2 * n, |s|);
    MergePermutes(s[..n], s[n..end]);
    assert s[..end] == s[..n] + s[n..end];
    SameNodes(MergeFront(s, n), s[..end]);
  }

  lemma {:induction false} MergeDescending<K>(p: seq<Node<K>>, q: seq<Node<K>>, low: nat)
    requires Descending(p) && Descending(q)
    requires Windowed(p, low) && Windowed(q, low)
    ensures Descending(Merge(p, q))
    decreases |p| + |q|
  {
    if p != [] && q != [] {
      ValueSortExact(p[0], q[0]);
      hide ValueSort;
      if ValueSort(p[0], q[0]) <= 0 {
        MergeDescending(p[1..], q, low);
        TakenIsLargest(p, q, p[0]);
        MergeMembers(p[1..], q);
      } else {
        MergeDescending(p, q[1..], low);
        TakenIsLargest(p, q, q[0]);
        MergeMembers(p, q[1..]);
      }
    }
  }

  lemma TakenIsLargest<K>(p: seq<Node<K>>, q: seq<Node<K>>, x: Node<K>)
    requires p != [] && q != [] && Descending(p) && Descending(q)
    requires x.value >= p[0].value && x.value >= q[0].value
    ensures forall y | y in p :: x.value >= y.value
    ensures forall y | y in q :: x.value >= y.value
  {
  }

  lemma MergeMembers<K>(p: seq<Node<K>>, q: seq<Node<K>>)
    ensures forall x | x in Merge(p, q) :: x in p || x in q
  {
    MergePermutes(p, q);
    assert forall x | x in Merge(p, q) :: x in multiset(Merge(p, q));
  }

  lemma SameNodes<K>(s: seq<Node<K>>, t: seq<Node<K>>)
    requires multiset(s) == multiset(t)
    ensures |s| == |t|
    ensures forall x | x in s :: x in t
    ensures forall x | x in t :: x in s
  {
    assert |multiset(s)| == |s| && |multiset(t)| == |t|;
    assert forall x | x in s :: x in multiset(t);
    assert forall x | x in t :: x in multiset(s);
  }

  lemma RemovalMultiset<K>(t: seq<Node<K>>, i: nat)
    requires i < |t|
    ensures multiset(t) == multiset{t[i]} + multiset(t[..i] + t[i + 1..])
  {
    assert t == t[..i] + [t[i]] + t[i + 1..];
  }

  /** The first node of a list, found and removed in a permutation of it. */
  lemma PermutationTail<K>(s: seq<Node<K>>, t: seq<Node<K>>) returns (i: nat)
    requires multiset(s) == multiset(t) && s != []
    ensures i < |t| && t[i] == s[0]
    ensures multiset(s[1..]) == multiset(t[..i] + t[i + 1..])
  {
    SameNodes(s, t);
    assert s[0] in s;
    i :| 0 <= i < |t| && t[i] == s[0];
    ConsMultiset(s);
    RemovalMultiset(t, i);
    assert multiset(s[1..]) == multiset(s) - multiset{s[0]};
    assert multiset(t[..i] + t[i + 1..]) == multiset(t) - multiset{t[i]};
  }

  /** Consecutive runs of `n` nodes, the last one possibly shorter, are each
      in descending order. */
  ghost predicate RunsDescending<K>(s: seq<Node<K>>, n: nat)
    requires n > 0
    decreases |s|
  {
    if |s| <= n then Descending(s)
    else Descending(s[..n]) && RunsDescending(s[n..], n)
  }

  lemma {:induction false} MergePassDoublesRuns<K>(s: seq<Node<K>>, n: nat, low: nat)
    requires n > 0 && RunsDescending(s, n)
    requires Windowed(s, low)
    ensures RunsDescending(MergePass(s, n), 2 * n)
    decreases |s|
  {
    if |s| > n {
      var rest := s[Min(2 * n, |s|)..];
      var front := MergeFront(s, n);
      RunsSplit(s, n);
      MergeFrontDescends(s, n, low);
      MergeFrontPermutes(s, n);
      if |s| > 2 * n {
        MergePassDoublesRuns(rest, n, low);
        var out := front + MergePass(rest, n);
        assert out[..2 * n] == front && out[2 * n..] == MergePass(rest, n);
      } else {
        assert front + MergePass(rest, n) == front;
      }
    }
  }

  lemma RunsSplit<K>(s: seq<Node<K>>, n: nat)
    requires 0 < n < |s| && RunsDescending(s, n)
    ensures var end := Min(2 * n, |s|);
            Descending(s[..n]) && Descending(s[n..end]) && RunsDescending(s[end..], n)
  {
    var t := s[n..];
    if |s| > 2 * n {
      assert t[..n] == s[n..2 * n] && t[n..] == s[2 * n..];
    } else {
      assert t == s[n..|s|] && s[|s|..] == [];
    }
  }

  lemma MergeFrontDescends<K>(s: seq<Node<K>>, n: nat, low: nat)
    requires 0 < n < |s|
    requires Windowed(s, low)
    requires Descending(s[..n]) && Descending(s[n..Min(2 * n, |s|)])
    ensures Descending(MergeFront(s, n))
  {
    var p, q := s[..n], s[n..Min(2 * n, |s|)];
    MergeDescending(p, q, low);
  }

  lemma {:induction false} SortFromSorts<K>(s: seq<Node<K>>, n: nat, low: nat)
    requires n > 0 && RunsDescending(s, n)
    requires Windowed(s, low)
    ensures Descending(SortFrom(s, n))
    decreases if |s| <= 2 * n then 0 else |s| - n
  {
    var t := MergePass(s, n);
    MergePassDoublesRuns(s, n, low);
    MergePassPermutes(s, n);
    SameNodes(s, t);
    if |s| > 2 * n {
      SortFromSorts(t, 2 * n, low);
    }
  }

  lemma {:induction false} SortFromPermutes<K>(s: seq<Node<K>>, n: nat)
    requires n > 0
    ensures multiset(SortFrom(s, n)) == multiset(s)
    decreases if |s| <= 2 * n then 0 else |s| - n
  {
    MergePassPermutes(s, n);
    SameNodes(s, MergePass(s, n));
    if |s| > 2 * n {
      SortFromPermutes(MergePass(s, n), 2 * n);
    }
  }

  lemma {:induction false} SingletonRunsDescend<K>(s: seq<Node<K>>)
    ensures RunsDescending(s, 1)
  {
    if |s| > 1 {
      SingletonRunsDescend(s[1..]);
    }
  }

  /** The sort never loses or duplicates a node, whatever the values. */
  lemma HashSortPermutes<K>(s: seq<Node<K>>)
    ensures multiset(HashSort(s)) == multiset(s)
    ensures |HashSort(s)| == |s|
  {
    if s != [] {
      SortFromPermutes(s, 1);
    }
    SameNodes(HashSort(s), s);
  }

  /** The sort puts the largest values first when no two values are 2^31 or
      more apart. */
  lemma HashSortDescends<K>(s: seq<Node<K>>, low: nat)
    requires Windowed(s, low)
    ensures Descending(HashSort(s))
  {
    if s != [] {
      SingletonRunsDescend(s);
      SortFromSorts(s, 1, low);
    }
  }

  // ----- exactly when the sort is right -----

  /** Some occurrence of `x` comes before some occurrence of `y`. */
  ghost predicate Precedes<K>(s: seq<Node<K>>, x: Node<K>, y: Node<K>) {
    exists i, j :: 0 <= i < j < |s| && s[i] == x && s[j] == y
  }

  lemma ConsPrecedes<K>(z: Node<K>, s: seq<Node<K>>, x: Node<K>, y: Node<K>)
    requires Precedes(s, x, y) || (z == x && y in s)
    ensures Precedes([z] + s, x, y)
  {
    var t := [z] + s;
    if Precedes(s, x, y) {
      var i, j :| 0 <= i < j < |s| && s[i] == x && s[j] == y;
      assert t[i + 1] == x && t[j + 1] == y;
    } else {
      var j :| 0 <= j < |s| && s[j] == y;
      assert t[0] == x && t[j + 1] == y;
    }
  }

  /** Merging keeps the order within the left run, whatever the comparison says. */
  lemma {:induction false} MergeKeepsOrder<K>(p: seq<Node<K>>, q: seq<Node<K>>, x: Node<K>, y: Node<K>)
    requires Precedes(p, x, y)
    ensures Precedes(Merge(p, q), x, y)
    decreases |p| + |q|
  {
    hide ValueSort;
    if q == [] {
    } else if ValueSort(p[0], q[0]) <= 0 {
      var i, j :| 0 <= i < j < |p| && p[i] == x && p[j] == y;
      var rest := Merge(p[1..], q);
      if i > 0 {
        assert p[1..][i - 1] == x && p[1..][j - 1] == y;
        MergeKeepsOrder(p[1..], q, x, y);
      } else {
        assert p[1..][j - 1] == y;
        MergePermutes(p[1..], q);
        assert y in multiset(rest);
      }
      ConsPrecedes(p[0], rest, x, y);
    } else {
      MergeKeepsOrder(p, q[1..], x, y);
      ConsPrecedes(q[0], Merge(p, q[1..]), x, y);
    }
  }

  lemma PassKeepsOrder<K>(s: seq<Node<K>>, n: nat, x: Node<K>, y: Node<K>)
    requires n > 0 && Precedes(s[..Min(n, |s|)], x, y)
    ensures |MergePass(s, n)| == |s| && Precedes(MergePass(s, n)[..Min(2 * n, |s|)], x, y)
  {
    MergePassPermutes(s, n);
    assert |multiset(MergePass(s, n))| == |multiset(s)|;
    if |s| > n {
      MergeFrontPermutes(s, n);
      MergeKeepsOrder(s[..n], s[n..Min(2 * n, |s|)], x, y);
      hide Merge;
      assert MergePass(s, n)[..Min(2 * n, |s|)] == MergeFront(s, n);
    } else {
      assert s[..Min(2 * n, |s|)] == s[..Min(n, |s|)];
    }
  }

  lemma {:induction false} SortFromKeepsOrder<K>(s: seq<Node<K>>, n: nat, x: Node<K>, y: Node<K>)
    requires n > 0 && Precedes(s[..Min(n, |s|)], x, y)
    ensures Precedes(SortFrom(s, n), x, y)
    decreases if |s| <= 2 * n then 0 else |s| - n
  {
    PassKeepsOrder(s, n, x, y);
    hide MergePass, Precedes;
    if |s| <= 2 * n {
      assert MergePass(s, n)[..|s|] == MergePass(s, n);
    } else {
      SortFromKeepsOrder(MergePass(s, n), 2 * n, x, y);
    }
  }

  /** A pair whose comparison keeps it in place comes out in that order when it stands
      first, whatever follows. */
  lemma FirstPairStays<K>(x: Node<K>, y: Node<K>, rest: seq<Node<K>>)
    requires ValueSort(x, y) <= 0
    ensures Precedes(HashSort([x, y] + rest), x, y)
  {
    hide ValueSort;
    var t := [x, y] + rest;
    assert t[..1] == [x] && t[1..2] == [y] && [x][1..] == [];
    assert MergeFront(t, 1) == [x] + Merge([x][1..], [y]) == [x, y];
    assert Precedes([x, y], x, y) by {
      assert [x, y][0] == x && [x, y][1] == y;
    }
    var u := MergePass(t, 1);
    MergePassPermutes(t, 1);
    assert |multiset(u)| == |multiset(t)|;
    assert u[..2] == [x, y];
    if |t| == 2 {
      assert u == u[..2];
    } else {
      SortFromKeepsOrder(u, 2, x, y);
    }
  }

  /** Either all values lie in one window, or two of them are 2^31 or more apart. */
  lemma WindowOrPair<K>(s: seq<Node<K>>) returns (low: nat, i: nat, j: nat)
    requires forall x | x in s :: x.value < TWO_TO_THE_32
    ensures Windowed(s, low) || (i < |s| && j < |s| && s[j].value - s[i].value >= TWO_TO_THE_31)
  {
    low, i, j := 0, 0, 0;
    for k := 0 to |s|
      invariant i == 0 || i < k
      invariant forall m | 0 <= m < k :: s[i].value <= s[m].value
    {
      if s[k].value < s[i].value {
        i := k;
      }
    }
    if s != [] {
      low := s[i].value;
      if m :| 0 <= m < |s| && s[m].value >= low + TWO_TO_THE_31 {
        j := m;
      }
    }
  }

  /** The list with two of its nodes moved to the front. */
  lemma PairFirst<K>(s: seq<Node<K>>, i: nat, j: nat) returns (rest: seq<Node<K>>)
    requires i < |s| && j < |s| && i != j
    ensures multiset([s[i], s[j]] + rest) == multiset(s)
  {
    var others := s[..i] + s[i + 1..];
    var k := if j < i then j else j - 1;
    assert others[k] == s[j];
    RemovalMultiset(s, i);
    RemovalMultiset(others, k);
    rest := others[..k] + others[k + 1..];
    assert multiset([s[i], s[j]] + rest) == multiset{s[i]} + multiset{s[j]} + multiset(rest);
  }

  /** The sort is right for these nodes in whatever order the hash holds them. */
  ghost predicate SortsEveryOrder<K(!new)>(s: seq<Node<K>>) {
    forall t: seq<Node<K>> | multiset(t) == multiset(s) :: Descending(HashSort(t))
  }

  /** For 32-bit values: the sort is right for every order of the nodes if and only if
      no two values are 2^31 or more apart. */
  lemma HashSortExact<K(!new)>(s: seq<Node<K>>)
    requires forall x | x in s :: x.value < TWO_TO_THE_32
    ensures SortsEveryOrder(s) <==> exists low: nat :: Windowed(s, low)
  {
    hide HashSort, ValueSort;
    if low: nat :| Windowed(s, low) {
      forall t: seq<Node<K>> | multiset(t) == multiset(s) ensures Descending(HashSort(t)) {
        SameNodes(t, s);
        HashSortDescends(t, low);
      }
    } else {
      var low, i, j := WindowOrPair(s);
      assert s[j].value - s[i].value >= TWO_TO_THE_31;
      FarPairStays(s[i], s[j]);
      var rest := PairFirst(s, i, j);
      FirstPairStays(s[i], s[j], rest);
    }
  }

  lemma FarPairStays<K>(a: Node<K>, b: Node<K>)
    requires b.value < TWO_TO_THE_32 && b.value - a.value >= TWO_TO_THE_31
    ensures ValueSort(a, b) <= 0
  {
  }

  /** Every node may stay before every later one. */
  ghost predicate InOrder<K>(s: seq<Node<K>>) {
    forall i, j | 0 <= i < j < |s| :: ValueSort(s[i], s[j]) <= 0
  }

  lemma {:induction false} MergeInOrder<K>(p: seq<Node<K>>, q: seq<Node<K>>)
    requires InOrder(p + q)
    ensures Merge(p, q) == p + q
    decreases |p|
  {
    hide ValueSort;
    if p != [] && q != [] {
      var s := p + q;
      assert s[0] == p[0] && s[|p|] == q[0];
      assert p[1..] + q == s[1..];
      MergeInOrder(p[1..], q);
    }
  }

  lemma {:induction false} PassInOrder<K>(s: seq<Node<K>>, n: nat)
    requires n > 0 && InOrder(s)
    ensures MergePass(s, n) == s
    decreases |s|
  {
    hide ValueSort;
    if |s| > n {
      var end := Min(2 * n, |s|);
      assert s[..n] + s[n..end] == s[..end];
      MergeInOrder(s[..n], s[n..end]);
      PassInOrder(s[end..], n);
      hide Merge;
      assert MergePass(s, n) == s[..end] + s[end..];
    }
  }

  lemma {:induction false} SortFromInOrder<K>(s: seq<Node<K>>, n: nat)
    requires n > 0 && InOrder(s)
    ensures SortFrom(s, n) == s
    decreases if |s| <= 2 * n then 0 else |s| - n
  {
    hide InOrder;
    PassInOrder(s, n);
    if |s| > 2 * n {
      SortFromInOrder(s, 2 * n);
    }
  }

  /** A list whose every pair may stay as it is comes out of the sort unchanged. */
  lemma HashSortInOrder<K>(s: seq<Node<K>>)
    requires InOrder(s)
    ensures HashSort(s) == s
  {
    SortFromInOrder(s, 1);
  }

  // ----- the macro itself -----

  /** HASH_SRT with the list kept as a sequence and the pointers `_hs_p` and
      `_hs_q` as positions in it; a null pointer is the position past the end. */
  method HashSrt<K>(head: seq<Node<K>>) returns (list: seq<Node<K>>)
    ensures list == HashSort(head)
  {
    list := head;
    if head == [] {
      return;
    }
    var insize, looping := 1, true;
    while looping
      invariant insize > 0
      invariant looping ==> |list| == |head| && SortFrom(list, insize) == HashSort(head)
      invariant !looping ==> list == HashSort(head)
      decreases looping, |head| - insize
    {
      ghost var before := list;
      var nmerges;
      list, nmerges := MergeRuns(list, insize);
      MergePassPermutes(before, insize);
      SameNodes(before, list);
      if nmerges <= 1 {
        looping := false;
      }
      insize := insize * 2;
    }
  }

  /** One turn of the outer loop of HASH_SRT. */
  method MergeRuns<K>(list: seq<Node<K>>, insize: nat) returns (out: seq<Node<K>>, nmerges: nat)
    requires insize > 0
    ensures out == MergePass(list, insize)
    ensures nmerges <= 1 <==> |list| <= 2 * insize
  {
    out, nmerges := [], 0;
    var p := 0;
    while p < |list|
      invariant 0 <= p <= |list|
      invariant out + MergePass(list[p..], insize) == MergePass(list, insize)
      invariant nmerges == 0 ==> p == 0
      invariant nmerges == 1 ==> p == Min(2 * insize, |list|)
      invariant nmerges >= 2 ==> |list| > 2 * insize
    {
      nmerges := nmerges + 1;
      ghost var done, oldP := out, p;
      out, p := MergeAdjacent(list, p, insize, out);
      PassStep(list, oldP, insize, done, out);
    }
    assert list[p..] == [];
  }

  function RunEnd<K>(list: seq<Node<K>>, p: nat, n: nat): (e: nat)
    requires p <= |list|
    ensures p <= e <= |list|
  {
    Min(p + n, |list|)
  }

  /** The merge of the run of `n` nodes at `p` with the run after it. */
  function MergeAt<K>(list: seq<Node<K>>, p: nat, n: nat): seq<Node<K>>
    requires p <= |list|
  {
    var mid := RunEnd(list, p, n);
    MergeSlices(list, p, mid, mid, RunEnd(list, mid, n))
  }

  /** The merge still to be done when the runs are consumed up to `p` and `q`. */
  function MergeSlices<K>(list: seq<Node<K>>, p: nat, middle: nat, q: nat, end: nat): seq<Node<K>>
    requires p <= middle <= q <= end <= |list|
  {
    Merge(list[p..middle], list[q..end])
  }

  /** Find the second run and append the merge of the two runs to the output. */
  method MergeAdjacent<K>(list: seq<Node<K>>, p: nat, insize: nat, tail: seq<Node<K>>)
    returns (out: seq<Node<K>>, q: nat)
    requires p <= |list|
    ensures q == Min(p + 2 * insize, |list|)
    ensures out == tail + MergeAt(list, p, insize)
  {
    q := p;
    var psize, i := 0, 0;
    while i < insize && q < |list|
      invariant psize == i == q - p <= insize
      invariant q <= |list|
    {
      psize, q, i := psize + 1, q + 1, i + 1;
    }
    out, q := MergeTwo(list, p, psize, insize, tail);
  }

  /** The innermost loop of HASH_SRT, over a run of `size` nodes at `start` and
      a run of at most `insize` nodes after it. */
  method MergeTwo<K>(list: seq<Node<K>>, start: nat, size: nat, insize: nat, tail: seq<Node<K>>)
    returns (out: seq<Node<K>>, q: nat)
    requires start + size <= |list|
    ensures q == RunEnd(list, start + size, insize)
    ensures out == tail + MergeSlices(list, start, start + size, start + size, q)
  {
    hide MergeSlices;
    var p, psize, qsize := start, size, insize;
    out, q := tail, start + size;
    ghost var middle, end := q, RunEnd(list, q, insize);
    ghost var rest := MergeSlices(list, p, middle, q, end);
    ghost var merged := tail + rest;
    while psize > 0 || (qsize > 0 && q < |list|)
      invariant 0 <= psize && 0 <= qsize
      invariant 0 <= p <= p + psize == middle <= q <= end == Min(q + qsize, |list|)
      invariant rest == MergeSlices(list, p, middle, q, end)
      invariant out + rest == merged
      decreases psize + qsize
    {
      var e;
      ghost var p0, q0 := p, q;
      if psize == 0 {
        e := list[q];
        q, qsize := q + 1, qsize - 1;
      } else if qsize == 0 || q == |list| {
        e := list[p];
        p, psize := p + 1, psize - 1;
      } else if ValueSort(list[p], list[q]) <= 0 {
        e := list[p];
        p, psize := p + 1, psize - 1;
      } else {
        e := list[q];
        q, qsize := q + 1, qsize - 1;
      }
      MergeStep(list, p0, middle, q0, end);
      rest, out := rest[1..], out + [e];
    }
    MergeDone(list, middle, end);
  }

  lemma MergeStep<K>(list: seq<Node<K>>, p: nat, middle: nat, q: nat, end: nat)
    requires p <= middle <= q <= end <= |list|
    requires p < middle || q < end
    ensures if p < middle && (q == end || ValueSort(list[p], list[q]) <= 0)
            then MergeSlices(list, p, middle, q, end) == [list[p]] + MergeSlices(list, p + 1, middle, q, end)
            else MergeSlices(list, p, middle, q, end) == [list[q]] + MergeSlices(list, p, middle, q + 1, end)
  {
    if p < middle {
      assert list[p..middle] == [list[p]] + list[p + 1..middle];
    }
    if q < end {
      assert list[q..end] == [list[q]] + list[q + 1..end];
    }
  }

  lemma MergeDone<K>(list: seq<Node<K>>, middle: nat, end: nat)
    requires middle <= end <= |list|
    ensures MergeSlices(list, middle, middle, end, end) == []
  {
  }

  lemma PassStep<K>(list: seq<Node<K>>, p: nat, n: nat, done: seq<Node<K>>, out: seq<Node<K>>)
    requires n > 0 && p < |list|
    requires out == done + MergeAt(list, p, n)
    ensures done + MergePass(list[p..], n) == out + MergePass(list[Min(p + 2 * n, |list|)..], n)
  {
    PassSplits(list, p, n);
    hide *;
    Associate(done, MergeAt(list, p, n), MergePass(list[Min(p + 2 * n, |list|)..], n));
  }

  lemma Associate<K>(a: seq<Node<K>>, b: seq<Node<K>>, c: seq<Node<K>>)
    ensures a + (b + c) == a + b + c
  {
  }

  lemma PassSplits<K>(list: seq<Node<K>>, p: nat, n: nat)
    requires n > 0 && p < |list|
    ensures MergePass(list[p..], n) == MergeAt(list, p, n) + MergePass(list[Min(p + 2 * n, |list|)..], n)
  {
    var s := list[p..];
    var mid := RunEnd(list, p, n);
    var end := RunEnd(list, mid, n);
    if |s| > n {
      assert s[..n] == list[p..mid];
      assert s[n..Min(2 * n, |s|)] == list[mid..end];
      assert s[Min(2 * n, |s|)..] == list[end..];
    } else {
      assert list[p..mid] == s && list[mid..end] == [] && list[end..] == [];
    }
  }
}
