/**
 The ARP matrix: a chained hash of elements, one per unordered pair of IPv4
 addresses, that counts ARP requests and replies in both directions and starts
 over when a host's MAC address changes. Looking an element up also updates it.
 */
module ArpMatrix {
  import opened Basics

  type Mac = nat
  type Ip = x: int | 0 <= x < TWO_TO_THE_32

  const EMPTY_MAC: Mac := 0

  /** What happened to one element: it was found by a sender, or a packet counted.
      `forward` is the direction from its source to its destination. */
  datatype Event = Found(forward: bool, mac: Mac) | Packet(forward: bool, reply: bool)

  datatype Pair = Pair(requests: nat, replies: nat)
  datatype Stats = Stats(src2dst: Pair, dst2src: Pair)

  const NO_STATS := Stats(Pair(0, 0), Pair(0, 0))

  /** `firstSrc` and `firstDst` are the MAC addresses at creation and `log` what
      happened since: they describe the history and are never consulted. */
  datatype Elem = Elem(srcMac: Mac, dstMac: Mac, srcIp: Ip, dstIp: Ip, stats: Stats, idle: bool,
                       firstSrc: Mac, firstDst: Mac, log: seq<Event>)

  function Create(srcMac: Mac, dstMac: Mac, srcIp: Ip, dstIp: Ip): Elem {
    Elem(srcMac, dstMac, srcIp, dstIp, NO_STATS, false, srcMac, dstMac, [])
  }

  function Direction(e: Elem, a: Ip, b: Ip): Option<bool> {
    if e.srcIp == a && e.dstIp == b then Some(true)
    else if e.srcIp == b && e.dstIp == a then Some(false)
    else None
  }

  /** The update a matching `equal` makes. */
  function Look(e: Elem, forward: bool, mac: Mac): Elem {
    var log := e.log + [Found(forward, mac)];
    if forward then
      if e.srcMac == mac then e.(log := log)
      else e.(srcMac := mac, stats := NO_STATS, log := log)
    else if e.dstMac == mac then e.(log := log)
    else if e.dstMac == EMPTY_MAC then e.(dstMac := mac, log := log)
    else e.(dstMac := mac, stats := NO_STATS, log := log)
  }

  function IncPair(p: Pair, reply: bool): Pair {
    if reply then p.(replies := (p.replies + 1) % TWO_TO_THE_32)
    else p.(requests := (p.requests + 1) % TWO_TO_THE_32)
  }

  /** `incArpReplies` and `incArpRequests`. */
  function Bump(e: Elem, forward: bool, reply: bool): Elem {
    var stats := if forward then e.stats.(src2dst := IncPair(e.stats.src2dst, reply))
                 else e.stats.(dst2src := IncPair(e.stats.dst2src, reply));
    e.(stats := stats, log := e.log + [Packet(forward, reply)])
  }

  // ----- one element along its history -----

  function Counter(s: Stats, forward: bool, reply: bool): nat {
    var p := if forward then s.src2dst else s.dst2src;
    if reply then p.replies else p.requests
  }

  /** The latest sender on one side, or the address given at creation. */
  function LatestMac(first: Mac, log: seq<Event>, forward: bool): Mac {
    if log == [] then first
    else
      var last := log[|log| - 1];
      if last.Found? && last.forward == forward then last.mac
      else LatestMac(first, log[..|log| - 1], forward)
  }

  /** A lookup starts the counters over when its sender differs from the latest one
      on that side, except that the destination's first address is only noted. */
  predicate StartsOver(firstSrc: Mac, firstDst: Mac, log: seq<Event>, e: Event) {
    && e.Found?
    && var known := LatestMac(if e.forward then firstSrc else firstDst, log, e.forward);
    e.mac != known && (e.forward || known != EMPTY_MAC)
  }

  /** How much of the history precedes the current counting period. */
  function Period(firstSrc: Mac, firstDst: Mac, log: seq<Event>): (n: nat)
    ensures n <= |log|
  {
    if log == [] then 0
    else
      var front := log[..|log| - 1];
      if StartsOver(firstSrc, firstDst, front, log[|log| - 1]) then |log|
      else Period(firstSrc, firstDst, front)
  }

  function Occurrences(log: seq<Event>, e: Event): nat {
    if log == [] then 0 else Occurrences(log[..|log| - 1], e) + if log[|log| - 1] == e then 1 else 0
  }

  /** The element is what its history says: both addresses are the latest senders'
      and each counter is the number of packets in the current period. */
  ghost predicate Exact(e: Elem) {
    && e.srcMac == LatestMac(e.firstSrc, e.log, true)
    && e.dstMac == LatestMac(e.firstDst, e.log, false)
    && forall forward, reply :: CounterExact(e, forward, reply)
  }

  ghost predicate CounterExact(e: Elem, forward: bool, reply: bool) {
    var current := e.log[Period(e.firstSrc, e.firstDst, e.log)..];
    Counter(e.stats, forward, reply) == Occurrences(current, Packet(forward, reply)) % TWO_TO_THE_32
  }

  lemma Extend(log: seq<Event>, e: Event, from: nat, what: Event)
    requires from <= |log|
    ensures Occurrences((log + [e])[from..], what) == Occurrences(log[from..], what) + if e == what then 1 else 0
  {
    var current := log[from..];
    assert (log + [e])[from..] == current + [e];
    assert (current + [e])[..|current + [e]| - 1] == current;
  }

  lemma PeriodAfter(e: Elem, ev: Event)
    ensures var log := e.log + [ev];
            && Period(e.firstSrc, e.firstDst, log)
               == (if StartsOver(e.firstSrc, e.firstDst, e.log, ev) then |log| else Period(e.firstSrc, e.firstDst, e.log))
            && (forall forward, first ::
                  LatestMac(first, log, forward)
                  == (if ev.Found? && ev.forward == forward then ev.mac else LatestMac(first, e.log, forward)))
  {
    assert (e.log + [ev])[..|e.log + [ev]| - 1] == e.log;
  }

  lemma LookExact(e: Elem, forward: bool, mac: Mac)
    requires Exact(e)
    ensures Exact(Look(e, forward, mac))
  {
    var ev, n := Found(forward, mac), Look(e, forward, mac);
    PeriodAfter(e, ev);
    hide Period, LatestMac;
    forall f, r ensures CounterExact(n, f, r) {
      assert CounterExact(e, f, r);
      if StartsOver(e.firstSrc, e.firstDst, e.log, ev) {
        assert n.log[|n.log|..] == [];
      } else {
        Extend(e.log, ev, Period(e.firstSrc, e.firstDst, e.log), Packet(f, r));
      }
    }
  }

  lemma BumpExact(e: Elem, forward: bool, reply: bool)
    requires Exact(e)
    ensures Exact(Bump(e, forward, reply))
  {
    var ev, n := Packet(forward, reply), Bump(e, forward, reply);
    PeriodAfter(e, ev);
    forall f, r ensures CounterExact(n, f, r) {
      hide Period, LatestMac, Occurrences;
      assert CounterExact(e, f, r);
      hide Bump, Counter;
      IncRemainder(Occurrences(e.log[Period(e.firstSrc, e.firstDst, e.log)..], Packet(f, r)));
      Extend(e.log, ev, Period(e.firstSrc, e.firstDst, e.log), Packet(f, r));
    }
  }

  /** A lookup discards the counters exactly when it replaces an address that was
      set, or when a sender shows up as source of an element whose source address
      was unset; the first sender as destination discards nothing. */
  lemma DiscardExact(e: Elem, forward: bool, mac: Mac)
    requires Exact(e)
    ensures var known := if forward then e.srcMac else e.dstMac;
            StartsOver(e.firstSrc, e.firstDst, e.log, Found(forward, mac))
            <==> mac != known && (known != EMPTY_MAC || forward)
    ensures StartsOver(e.firstSrc, e.firstDst, e.log, Found(forward, mac)) ==> Look(e, forward, mac).stats == NO_STATS
    ensures !StartsOver(e.firstSrc, e.firstDst, e.log, Found(forward, mac)) ==> Look(e, forward, mac).stats == e.stats
  {
  }

  /** The two directions are not alike: with both addresses unset and one packet
      counted, the first sender as source discards it, as destination keeps it. */
  lemma UnsetSourceDiscards(a: Ip, b: Ip, mac: Mac, reply: bool)
    requires mac != EMPTY_MAC
    ensures var e := Bump(Create(EMPTY_MAC, EMPTY_MAC, a, b), true, reply);
            && Counter(e.stats, true, reply) == 1
            && Counter(Look(e, true, mac).stats, true, reply) == 0
            && Counter(Look(e, false, mac).stats, true, reply) == 1
  {
  }

  // ----- the table -----

  type Table = seq<seq<Elem>>

  /** The bucket: a wrapping 32-bit sum, then the remainder. */
  function Bucket(n: nat, a: Ip, b: Ip): (h: nat)
    requires n > 0
    ensures h < n
  {
    ((a + b) % TWO_TO_THE_32) % n
  }

  predicate Live(e: Elem, a: Ip, b: Ip) {
    !e.idle && Direction(e, a, b).Some?
  }

  /** Index of the first live match in a chain, or its length. */
  function Find(chain: seq<Elem>, a: Ip, b: Ip): (i: nat)
    ensures i <= |chain|
    ensures i < |chain| ==> Live(chain[i], a, b)
    ensures forall j | 0 <= j < i :: !Live(chain[j], a, b)
  {
    if chain == [] || Live(chain[0], a, b) then 0 else 1 + Find(chain[1..], a, b)
  }

  datatype Hit = Hit(bucket: nat, index: nat, src2dst: bool)

  function GetHit(t: Table, a: Ip, b: Ip): Option<Hit>
    requires |t| > 0
  {
    var h := Bucket(|t|, a, b);
    var i := Find(t[h], a, b);
    if i < |t[h]| then Some(Hit(h, i, Direction(t[h][i], a, b).value)) else None
  }

  /** `get`: the table afterwards. */
  function GetTable(t: Table, mac: Mac, a: Ip, b: Ip): Table
    requires |t| > 0
  {
    match GetHit(t, a, b)
    case None => t
    case Some(hit) => Changed(t, hit.bucket, hit.index, Look(t[hit.bucket][hit.index], hit.src2dst, mac))
  }

  function Changed(t: Table, h: nat, i: nat, e: Elem): Table
    requires h < |t| && i < |t[h]|
  {
    t[h := t[h][i := e]]
  }

  predicate At(t: Table, h: nat, i: nat) {
    h < |t| && i < |t[h]|
  }

  /** Every element is in its bucket, and live elements of one chain are of
      different pairs. */
  ghost predicate Valid(t: Table) {
    && |t| > 0
    && forall h | 0 <= h < |t| :: ValidChain(|t|, h, t[h])
  }

  ghost predicate ValidChain(n: nat, h: nat, chain: seq<Elem>)
    requires n > 0
  {
    && (forall i | 0 <= i < |chain| :: Bucket(n, chain[i].srcIp, chain[i].dstIp) == h && Exact(chain[i]))
    && (forall i, j | 0 <= i < j < |chain| && !chain[j].idle :: !Live(chain[i], chain[j].srcIp, chain[j].dstIp))
  }

  /** The table is a map on unordered pairs: an element anywhere in it that is live
      for the pair is the one found, whichever way round the pair is given. */
  lemma FindsThePair(t: Table, a: Ip, b: Ip, h: nat, i: nat)
    requires Valid(t) && At(t, h, i) && Live(t[h][i], a, b)
    ensures GetHit(t, a, b) == Some(Hit(h, i, t[h][i].srcIp == a && t[h][i].dstIp == b))
    ensures GetHit(t, b, a) == Some(Hit(h, i, t[h][i].srcIp == b && t[h][i].dstIp == a))
  {
    hide Exact;
    assert ValidChain(|t|, h, t[h]);
    assert Bucket(|t|, a, b) == Bucket(|t|, b, a) == h;
  }

  /** `get` succeeds exactly when the pair has a live element. */
  lemma GetExact(t: Table, a: Ip, b: Ip)
    requires Valid(t)
    ensures GetHit(t, a, b).Some? <==> exists h: nat, i: nat :: At(t, h, i) && Live(t[h][i], a, b)
    ensures GetHit(t, a, b).Some? <==> GetHit(t, b, a).Some?
  {
    hide ValidChain;
    if GetHit(t, a, b).Some? {
      var hit := GetHit(t, a, b).value;
      assert At(t, hit.bucket, hit.index) && Live(t[hit.bucket][hit.index], a, b);
      FindsThePair(t, a, b, hit.bucket, hit.index);
    }
    if h: nat, i: nat :| At(t, h, i) && Live(t[h][i], a, b) {
      FindsThePair(t, a, b, h, i);
    }
    if GetHit(t, b, a).Some? {
      var hit := GetHit(t, b, a).value;
      FindsThePair(t, b, a, hit.bucket, hit.index);
    }
  }

  /** A lookup and then one with the addresses exchanged find the same element, in
      opposite directions unless the addresses are equal, and no other element
      changes. */
  lemma BothWays(t: Table, m1: Mac, m2: Mac, a: Ip, b: Ip)
    requires Valid(t) && GetHit(t, a, b).Some?
    ensures var hit, n := GetHit(t, a, b).value, GetTable(t, m1, a, b);
            && |n| == |t|
            && GetHit(n, b, a) == Some(hit.(src2dst := if a == b then hit.src2dst else !hit.src2dst))
            && var n2 := GetTable(n, m2, b, a);
            && |n2| == |t|
            && forall h: nat, i: nat | At(t, h, i) && !(h == hit.bucket && i == hit.index) :: At(n2, h, i) && n2[h][i] == t[h][i]
  {
    hide Valid, Exact;
    var hit, n := GetHit(t, a, b).value, GetTable(t, m1, a, b);
    GetKeepsValid(t, m1, a, b);
    var e := n[hit.bucket][hit.index];
    assert e == Look(t[hit.bucket][hit.index], hit.src2dst, m1);
    assert Live(e, b, a);
    FindsThePair(n, b, a, hit.bucket, hit.index);
  }

  lemma ChangeKeepsValid(t: Table, h: nat, i: nat, e: Elem)
    requires Valid(t) && At(t, h, i) && Exact(e)
    requires e.srcIp == t[h][i].srcIp && e.dstIp == t[h][i].dstIp && (t[h][i].idle ==> e.idle)
    ensures Valid(Changed(t, h, i, e))
  {
    hide Exact;
    assert ValidChain(|t|, h, t[h]);
  }

  lemma GetKeepsValid(t: Table, mac: Mac, a: Ip, b: Ip)
    requires Valid(t)
    ensures Valid(GetTable(t, mac, a, b))
  {
    hide Exact;
    if GetHit(t, a, b).Some? {
      var hit := GetHit(t, a, b).value;
      var e := t[hit.bucket][hit.index];
      assert ValidChain(|t|, hit.bucket, t[hit.bucket]);
      assert Exact(e);
      LookExact(e, hit.src2dst, mac);
      ChangeKeepsValid(t, hit.bucket, hit.index, Look(e, hit.src2dst, mac));
    }
  }

  // ----- every run -----

  datatype Action =
    | Lookup(mac: Mac, a: Ip, b: Ip)
    | Count(h: nat, i: nat, forward: bool, reply: bool)
    | Add(srcMac: Mac, dstMac: Mac, a: Ip, b: Ip)
    | Expire(h: nat, i: nat)
    | Purge(h: nat, i: nat)

  /** An element is added only after a lookup of its pair failed. */
  predicate Allowed(t: Table, action: Action)
    requires |t| > 0
  {
    match action
    case Lookup(_, _, _) => true
    case Count(h, i, _, _) => At(t, h, i)
    case Add(_, _, a, b) => GetHit(t, a, b).None?
    case Expire(h, i) => At(t, h, i)
    case Purge(h, i) => At(t, h, i)
  }

  function Next(t: Table, action: Action): (n: Table)
    requires |t| > 0 && Allowed(t, action)
    ensures |n| == |t|
  {
    match action
    case Lookup(mac, a, b) => GetTable(t, mac, a, b)
    case Count(h, i, forward, reply) => Changed(t, h, i, Bump(t[h][i], forward, reply))
    case Add(srcMac, dstMac, a, b) => AddElem(t, Create(srcMac, dstMac, a, b))
    case Expire(h, i) => Changed(t, h, i, t[h][i].(idle := true))
    case Purge(h, i) => t[h := t[h][..i] + t[h][i + 1..]]
  }

  function AddElem(t: Table, e: Elem): (n: Table)
    requires |t| > 0
    ensures |n| == |t|
  {
    var h := Bucket(|t|, e.srcIp, e.dstIp);
    t[h := [e] + t[h]]
  }

  lemma AddKeepsValid(t: Table, srcMac: Mac, dstMac: Mac, a: Ip, b: Ip)
    requires Valid(t) && GetHit(t, a, b).None?
    ensures Valid(AddElem(t, Create(srcMac, dstMac, a, b)))
  {
    var e, h := Create(srcMac, dstMac, a, b), Bucket(|t|, a, b);
    hide Exact;
    var chain, was := [e] + t[h], t[h];
    assert ValidChain(|t|, h, was);
    forall i | 0 <= i < |chain| ensures Bucket(|t|, chain[i].srcIp, chain[i].dstIp) == h && Exact(chain[i]) {
      assert i > 0 ==> chain[i] == was[i - 1];
    }
    forall i, j | 0 <= i < j < |chain| && !chain[j].idle ensures !Live(chain[i], chain[j].srcIp, chain[j].dstIp) {
      assert chain[j] == was[j - 1];
      if i == 0 {
        assert !Live(was[j - 1], a, b);
      } else {
        assert chain[i] == was[i - 1];
      }
    }
  }

  /** An added element is found at once, at the head of the chain its pair belongs to,
      in the direction it was added in; it holds the given addresses and nothing has
      been counted. The rest of the table is as it was. */
  lemma AddedIsFound(t: Table, srcMac: Mac, dstMac: Mac, a: Ip, b: Ip)
    requires Valid(t) && GetHit(t, a, b).None?
    ensures var n, h := Next(t, Add(srcMac, dstMac, a, b)), ((a + b) % TWO_TO_THE_32) % |t|;
            && GetHit(n, a, b) == Some(Hit(h, 0, true))
            && GetHit(n, b, a) == Some(Hit(h, 0, a == b))
            && n[h][1..] == t[h] && (forall g | 0 <= g < |t| && g != h :: n[g] == t[g])
            && var e := n[h][0];
            && e.srcMac == srcMac && e.dstMac == dstMac && e.srcIp == a && e.dstIp == b && !e.idle
            && e.stats.src2dst.requests == e.stats.src2dst.replies == 0
            && e.stats.dst2src.requests == e.stats.dst2src.replies == 0
            && e.firstSrc == srcMac && e.firstDst == dstMac && e.log == []
  {
    var n, h := Next(t, Add(srcMac, dstMac, a, b)), Bucket(|t|, a, b);
    AddKeepsValid(t, srcMac, dstMac, a, b);
    hide Valid;
    FindsThePair(n, a, b, h, 0);
  }

  lemma PurgeKeepsValid(t: Table, h: nat, i: nat)
    requires Valid(t) && At(t, h, i)
    ensures Valid(t[h := t[h][..i] + t[h][i + 1..]])
  {
    hide Exact;
    var was := t[h];
    var chain := was[..i] + was[i + 1..];
    assert ValidChain(|t|, h, was);
    forall k | 0 <= k < |chain| ensures chain[k] == was[if k < i then k else k + 1] {
    }
  }

  lemma StepKeepsValid(t: Table, action: Action)
    requires Valid(t) && Allowed(t, action)
    ensures Valid(Next(t, action))
  {
    hide ValidChain, Exact;
    match action
    case Lookup(mac, a, b) => GetKeepsValid(t, mac, a, b);
    case Count(h, i, forward, reply) =>
      ValidElement(t, h, i);
      BumpExact(t[h][i], forward, reply);
      ChangeKeepsValid(t, h, i, Bump(t[h][i], forward, reply));
    case Add(srcMac, dstMac, a, b) => AddKeepsValid(t, srcMac, dstMac, a, b);
    case Expire(h, i) =>
      ValidElement(t, h, i);
      ExpireExact(t[h][i]);
      ChangeKeepsValid(t, h, i, t[h][i].(idle := true));
    case Purge(h, i) => PurgeKeepsValid(t, h, i);
  }

  /** An element found for a pair is found no more once it has expired. */
  lemma ExpiredIsLost(t: Table, a: Ip, b: Ip)
    requires Valid(t) && GetHit(t, a, b).Some?
    ensures var hit := GetHit(t, a, b).value;
            var n := Next(t, Expire(hit.bucket, hit.index));
            GetHit(n, a, b).None? && GetHit(n, b, a).None?
  {
    hide Valid, Exact;
    var hit := GetHit(t, a, b).value;
    var n := Next(t, Expire(hit.bucket, hit.index));
    StepKeepsValid(t, Expire(hit.bucket, hit.index));
    GetExact(n, a, b);
    if h: nat, i: nat :| At(n, h, i) && Live(n[h][i], a, b) {
      FindsThePair(t, a, b, h, i);
    }
  }

  /** What was purged idle was no pair's element: every pair is found or missing as
      before. */
  lemma PurgeLosesNothing(t: Table, h: nat, i: nat, a: Ip, b: Ip)
    requires Valid(t) && At(t, h, i) && t[h][i].idle
    ensures GetHit(Next(t, Purge(h, i)), a, b).Some? <==> GetHit(t, a, b).Some?
  {
    hide Valid, GetHit, Exact;
    var n := Next(t, Purge(h, i));
    StepKeepsValid(t, Purge(h, i));
    GetExact(t, a, b);
    GetExact(n, a, b);
    if g: nat, j: nat :| At(t, g, j) && Live(t[g][j], a, b) {
      var k := if g == h && j > i then j - 1 else j;
      assert At(n, g, k) && n[g][k] == t[g][j];
    }
    if g: nat, j: nat :| At(n, g, j) && Live(n[g][j], a, b) {
      var k := if g == h && j >= i then j + 1 else j;
      assert At(t, g, k) && n[g][j] == t[g][k];
    }
  }

  /** The history of an element is what the run does to it: a lookup that finds it
      adds its sender, in the direction in which the pair was given, a packet adds
      itself, and nothing else changes any history. */
  lemma HistoryGrows(t: Table, action: Action)
    requires Valid(t) && Allowed(t, action)
    ensures var n := Next(t, action);
            match action
            case Lookup(mac, a, b) =>
              forall h: nat, i: nat | At(t, h, i) ::
                At(n, h, i) && n[h][i].log == t[h][i].log + (if Live(t[h][i], a, b) then [Found(t[h][i].srcIp == a && t[h][i].dstIp == b, mac)] else [])
            case Count(h, i, forward, reply) =>
              forall g: nat, j: nat | At(t, g, j) ::
                At(n, g, j) && n[g][j].log == t[g][j].log + (if g == h && j == i then [Packet(forward, reply)] else [])
            case Expire(h, i) => forall g: nat, j: nat | At(t, g, j) :: At(n, g, j) && n[g][j].log == t[g][j].log
            case Purge(h, i) => n[h] == t[h][..i] + t[h][i + 1..] && forall g | 0 <= g < |t| && g != h :: n[g] == t[g]
            case Add(_, _, a, b) => forall g: nat, j: nat | At(t, g, j) :: t[g][j] in n[g]
  {
    if action.Lookup? {
      var n := Next(t, action);
      hide Valid, Exact;
      forall h: nat, i: nat | At(t, h, i) && Live(t[h][i], action.a, action.b)
        ensures GetHit(t, action.a, action.b) == Some(Hit(h, i, t[h][i].srcIp == action.a && t[h][i].dstIp == action.b))
      {
        FindsThePair(t, action.a, action.b, h, i);
      }
    }
    hide Valid, Exact;
  }

  lemma ExpireExact(e: Elem)
    requires Exact(e)
    ensures Exact(e.(idle := true))
  {
    forall f, r ensures CounterExact(e.(idle := true), f, r) {
      assert CounterExact(e, f, r);
    }
  }

  lemma ValidElement(t: Table, h: nat, i: nat)
    requires Valid(t) && At(t, h, i)
    ensures Exact(t[h][i])
  {
    hide Exact;
    assert ValidChain(|t|, h, t[h]);
  }

  /** The tables a run goes through. */
  ghost predicate IsRun(tables: seq<Table>, run: seq<Action>) {
    && |tables| == |run| + 1
    && |tables[0]| > 0 && (forall h | 0 <= h < |tables[0]| :: tables[0][h] == [])
    && forall k | 0 <= k < |run| ::
         |tables[k]| > 0 && Allowed(tables[k], run[k]) && tables[k + 1] == Next(tables[k], run[k])
  }

  lemma {:induction false} EveryRunIsValid(tables: seq<Table>, run: seq<Action>, k: nat)
    requires IsRun(tables, run) && k < |tables|
    ensures Valid(tables[k])
  {
    if k > 0 {
      EveryRunIsValid(tables, run, k - 1);
      hide Valid, Next;
      assert tables[k - 1 + 1] == Next(tables[k - 1], run[k - 1]);
      StepKeepsValid(tables[k - 1], run[k - 1]);
    }
  }

  /** In every table of every run each element's addresses are the latest senders'
      and its counters are exact. */
  lemma ElementExact(tables: seq<Table>, run: seq<Action>, k: nat, h: nat, i: nat)
    requires IsRun(tables, run) && k < |tables| && At(tables[k], h, i)
    ensures Exact(tables[k][h][i])
  {
    EveryRunIsValid(tables, run, k);
    ValidElement(tables[k], h, i);
  }

  // ----- the classes -----

  class ArpStatsMatrixElement {
    var srcMac: Mac
    var dstMac: Mac
    const srcIp: Ip
    const dstIp: Ip
    var stats: Stats
    var idle: bool
    ghost const firstSrc: Mac
    ghost const firstDst: Mac
    ghost var log: seq<Event>

    ghost function View(): Elem
      reads this
    {
      Elem(srcMac, dstMac, srcIp, dstIp, stats, idle, firstSrc, firstDst, log)
    }

    constructor (srcMac0: Mac, dstMac0: Mac, srcIp0: Ip, dstIp0: Ip)
      ensures View() == Create(srcMac0, dstMac0, srcIp0, dstIp0)
    {
      srcMac, dstMac, srcIp, dstIp := srcMac0, dstMac0, srcIp0, dstIp0;
      stats, idle := NO_STATS, false;
      firstSrc, firstDst, log := srcMac0, dstMac0, [];
    }

    /** `equal`; `direction` comes back as it was given when nothing matched. */
    method Equal(mac: Mac, a: Ip, b: Ip, direction: bool) returns (same: bool, src2dst: bool)
      modifies this
      ensures same <==> Direction(old(View()), a, b).Some?
      ensures same ==> Direction(old(View()), a, b) == Some(src2dst) && View() == Look(old(View()), src2dst, mac)
      ensures !same ==> src2dst == direction && View() == old(View())
    {
      if srcIp == a && dstIp == b {
        log := log + [Found(true, mac)];
        if srcMac != mac {
          srcMac, stats := mac, NO_STATS;
        }
        return true, true;
      }
      if srcIp == b && dstIp == a {
        log := log + [Found(false, mac)];
        if dstMac == mac {
        } else if dstMac == EMPTY_MAC {
          dstMac := mac;
        } else {
          dstMac, stats := mac, NO_STATS;
        }
        return true, false;
      }
      return false, direction;
    }

    method IncArpReplies(src2dst: bool)
      modifies this
      ensures View() == Bump(old(View()), src2dst, true)
    {
      if src2dst {
        stats := stats.(src2dst := stats.src2dst.(replies := (stats.src2dst.replies + 1) % TWO_TO_THE_32));
      } else {
        stats := stats.(dst2src := stats.dst2src.(replies := (stats.dst2src.replies + 1) % TWO_TO_THE_32));
      }
      log := log + [Packet(src2dst, true)];
    }

    method IncArpRequests(src2dst: bool)
      modifies this
      ensures View() == Bump(old(View()), src2dst, false)
    {
      if src2dst {
        stats := stats.(src2dst := stats.src2dst.(requests := (stats.src2dst.requests + 1) % TWO_TO_THE_32));
      } else {
        stats := stats.(dst2src := stats.dst2src.(requests := (stats.dst2src.requests + 1) % TWO_TO_THE_32));
      }
      log := log + [Packet(src2dst, false)];
    }
  }

  class ArpStatsHashMatrix {
    const table: array<seq<ArpStatsMatrixElement>>

    ghost predicate Holds(h: int, i: int)
      reads this, table
    {
      0 <= h < table.Length && 0 <= i < |table[h]|
    }

    ghost function Elements(): set<object>
      reads this, table
    {
      set h, i | 0 <= h < table.Length && 0 <= i < |table[h]| :: table[h][i]
    }

    /** No element object is in the table twice. */
    ghost predicate Distinct()
      reads this, table
    {
      forall h, i, g, j | Holds(h, i) && Holds(g, j) && table[h][i] == table[g][j] :: h == g && i == j
    }

    /** The elements' fields are those of `t`. */
    ghost predicate Represents(t: Table)
      reads this, table, Elements()
    {
      && table.Length == |t| > 0
      && (forall h | 0 <= h < |t| :: |table[h]| == |t[h]|)
      && forall h, i | Holds(h, i) :: table[h][i].View() == t[h][i]
    }

    constructor (numHashes: nat)
      requires numHashes > 0
      ensures Represents(seq(numHashes, _ => [])) && Distinct() && fresh(table)
    {
      table := new seq<ArpStatsMatrixElement>[numHashes](_ => []);
    }

    /** `get`: walks the chain; the element found is updated by the comparison. */
    method Get(mac: Mac, a: Ip, b: Ip, direction: bool, ghost t: Table)
      returns (found: ArpStatsMatrixElement?, src2dst: bool)
      requires Represents(t) && Distinct()
      modifies Elements()
      ensures Distinct() && Represents(GetTable(t, mac, a, b))
      ensures found == null <==> GetHit(t, a, b).None?
      ensures found == null ==> src2dst == direction
      ensures found != null ==>
        var hit := GetHit(t, a, b).value;
        Holds(hit.bucket, hit.index) && found == table[hit.bucket][hit.index] && src2dst == hit.src2dst
    {
      hide Look, Find, Direction;
      var h := ((a + b) % TWO_TO_THE_32) % table.Length;
      var i := 0;
      src2dst := direction;
      ghost var chain := t[h];
      while i < |table[h]|
        invariant 0 <= i <= |table[h]| == |chain|
        invariant Represents(t) && src2dst == direction
        invariant forall j | 0 <= j < i :: !Live(chain[j], a, b)
      {
        var head := table[h][i];
        assert head.View() == chain[i] by {
          assert Holds(h, i);
        }
        if !head.idle {
          var same: bool;
          same, src2dst := head.Equal(mac, a, b, src2dst);
          if same {
            return head, src2dst;
          }
        }
        i := i + 1;
      }
      return null, src2dst;
    }
  }

}
