/**
 The byte string that identifies a flow in the Community ID Flow Hashing
 specification, version 1, before it is hashed: endpoint ordering, the pseudo-ports
 of ICMP, and the layout of the buffer.
 */
module CommunityId {
  import opened Basics

  type Byte = x: int | 0 <= x < 256
  type Port = x: int | 0 <= x < 0x1_0000

  /** An address as IpAddress holds it: version 4, version 6, or never set. */
  datatype IpAddress = V4(v4: seq<Byte>) | V6(v6: seq<Byte>) | Unset

  predicate Valid(ip: IpAddress) {
    match ip
    case V4(b) => |b| == 4
    case V6(b) => |b| == 16
    case Unset => true
  }

  function Version(ip: IpAddress): nat {
    match ip
    case V4(_) => 4
    case V6(_) => 6
    case Unset => 0
  }

  /** `memcmp` on two blocks of the same length. */
  function MemCmp(a: seq<Byte>, b: seq<Byte>): int
    requires |a| == |b|
  {
    if a == [] then 0
    else if a[0] < b[0] then -1
    else if a[0] > b[0] then 1
    else MemCmp(a[1..], b[1..])
  }

  /** IpAddress::compare. */
  function Compare(a: IpAddress, b: IpAddress): int
    requires Valid(a) && Valid(b)
  {
    if Version(a) < Version(b) then -1
    else if Version(a) > Version(b) then 1
    else match a
      case V4(x) => MemCmp(x, b.v4)
      case V6(x) => MemCmp(x, b.v6)
      case Unset => 0
  }

  const IPPROTO_ICMP: Byte := 1
  const IPPROTO_TCP: Byte := 6
  const IPPROTO_UDP: Byte := 17
  const IPPROTO_ICMPV6: Byte := 58
  const IPPROTO_SCTP: Byte := 132

  datatype Flow = Flow(cli: IpAddress, srv: IpAddress, proto: Byte, cliPort: Port, srvPort: Port,
                       icmpType: Byte, icmpCode: Byte)

  predicate ValidFlow(f: Flow) {
    Valid(f.cli) && Valid(f.srv)
  }

  /** The type that answers an ICMP type, if there is one. */
  function PairV4(t: Byte): Option<Byte> {
    match t
    case 8 => Some(0)    // echo, echo reply
    case 0 => Some(8)
    case 13 => Some(14)  // timestamp, reply
    case 14 => Some(13)
    case 15 => Some(16)  // information request, reply
    case 16 => Some(15)
    case 10 => Some(9)   // router solicitation, advertisement
    case 9 => Some(10)
    case 17 => Some(18)  // mask request, reply
    case 18 => Some(17)
    case _ => None
  }

  function PairV6(t: Byte): Option<Byte> {
    match t
    case 128 => Some(129) // echo
    case 129 => Some(128)
    case 133 => Some(134) // router
    case 134 => Some(133)
    case 135 => Some(136) // neighbour
    case 136 => Some(135)
    case 130 => Some(131) // multicast listener query, report
    case 131 => Some(130)
    case 139 => Some(140) // node information
    case 140 => Some(139)
    case 144 => Some(145) // home agent address discovery
    case 145 => Some(144)
    case _ => None
  }

  predicate IsIcmp(p: Byte) {
    p == IPPROTO_ICMP || p == IPPROTO_ICMPV6
  }

  predicate HasPorts(p: Byte) {
    IsIcmp(p) || p == IPPROTO_SCTP || p == IPPROTO_UDP || p == IPPROTO_TCP
  }

  function Pair(f: Flow): Option<Byte> {
    if f.proto == IPPROTO_ICMP then PairV4(f.icmpType) else PairV6(f.icmpType)
  }

  /** An ICMP message that no other type answers. */
  predicate OneWay(f: Flow) {
    IsIcmp(f.proto) && Pair(f).None?
  }

  /** The ports, or what stands for them. */
  function CliPort(f: Flow): Port {
    if IsIcmp(f.proto) then f.icmpType else if HasPorts(f.proto) then f.cliPort else 0
  }

  function SrvPort(f: Flow): Port {
    if IsIcmp(f.proto) then (if Pair(f).Some? then Pair(f).value else f.icmpCode)
    else if HasPorts(f.proto) then f.srvPort
    else 0
  }

  datatype Peers = Peers(ip1: IpAddress, ip2: IpAddress, p1: Port, p2: Port)

  predicate IsLessThan(e: Peers)
    requires Valid(e.ip1) && Valid(e.ip2)
  {
    var comp := Compare(e.ip1, e.ip2);
    comp < 0 || (comp == 0 && e.p1 < e.p2)
  }

  function Swapped(e: Peers): Peers {
    Peers(e.ip2, e.ip1, e.p2, e.p1)
  }

  function CheckPeers(e: Peers, oneWay: bool): Peers
    requires Valid(e.ip1) && Valid(e.ip2)
  {
    if oneWay || IsLessThan(e) then e else Swapped(e)
  }

  /** The endpoints in the order they are written to the buffer. */
  function Ordered(f: Flow): (e: Peers)
    requires ValidFlow(f)
    ensures Valid(e.ip1) && Valid(e.ip2)
  {
    CheckPeers(Peers(f.cli, f.srv, CliPort(f), SrvPort(f)), OneWay(f))
  }

  // ----- the buffer -----

  function Zeros(n: nat): (r: seq<Byte>)
    ensures |r| == n
  {
    seq(n, _ => 0)
  }

  /** `get_ipv4`, zero for any other version. */
  function Bytes4(ip: IpAddress): (r: seq<Byte>)
    requires Valid(ip)
    ensures |r| == 4
  {
    if ip.V4? then ip.v4 else Zeros(4)
  }

  /** `get_ipv6`, a null pointer and hence zeros for any other version. */
  function Bytes16(ip: IpAddress): (r: seq<Byte>)
    requires Valid(ip)
    ensures |r| == 16
  {
    if ip.V6? then ip.v6 else Zeros(16)
  }

  function AddressBytes(ip1: IpAddress, ip2: IpAddress): (r: seq<Byte>)
    requires Valid(ip1) && Valid(ip2)
    ensures |r| == if ip1.V4? then 8 else 32
  {
    if ip1.V4? then Bytes4(ip1) + Bytes4(ip2) else Bytes16(ip1) + Bytes16(ip2)
  }

  /** A port in network byte order. */
  function PortBytes(p: Port): (r: seq<Byte>)
    ensures |r| == 2
  {
    [p / 256, p % 256]
  }

  function Buffer(f: Flow): seq<Byte>
    requires ValidFlow(f)
  {
    var e := Ordered(f);
    [0, 0] + AddressBytes(e.ip1, e.ip2) + [f.proto, 0]
    + (if HasPorts(f.proto) then PortBytes(e.p1) + PortBytes(e.p2) else [])
  }

  /** `buf_copy` at offset `at`; a missing source means zeros. */
  method BufCopy(dst: array<Byte>, at: nat, src: Option<seq<Byte>>, len: nat) returns (copied: nat)
    requires at + len <= dst.Length && (src.Some? ==> |src.value| == len)
    modifies dst
    ensures copied == len
    ensures dst[at..at + len] == if src.Some? then src.value else Zeros(len)
    ensures forall i | 0 <= i < dst.Length && !(at <= i < at + len) :: dst[i] == old(dst[i])
  {
    var data := if src.Some? then src.value else Zeros(len);
    copied := 0;
    while copied < len
      invariant copied <= len
      invariant forall i | 0 <= i < dst.Length && !(at <= i < at + copied) :: dst[i] == old(dst[i])
      invariant forall i | at <= i < at + copied :: dst[i] == data[i - at]
    {
      dst[at + copied] := data[copied];
      copied := copied + 1;
    }
    assert dst[at..at + len] == data;
  }

  /** Append to the used part of the buffer. */
  method Append(buf: array<Byte>, used: nat, src: Option<seq<Byte>>, len: nat) returns (total: nat)
    requires used + len <= buf.Length && (src.Some? ==> |src.value| == len)
    modifies buf
    ensures total == used + len
    ensures buf[..total] == old(buf[..used]) + (if src.Some? then src.value else Zeros(len))
  {
    ghost var before := buf[..used];
    var n := BufCopy(buf, used, src, len);
    total := used + n;
    assert buf[..used] == before;
    assert buf[..total] == buf[..used] + buf[used..total];
  }

  /** Both addresses, after the seed. */
  method AppendAddresses(buf: array<Byte>, e: Peers) returns (used: nat)
    requires buf.Length == 40 && Valid(e.ip1) && Valid(e.ip2)
    modifies buf
    ensures used == 2 + |AddressBytes(e.ip1, e.ip2)|
    ensures buf[..used] == old(buf[..2]) + AddressBytes(e.ip1, e.ip2)
  {
    if e.ip1.V4? {
      used := Append(buf, 2, Some(Bytes4(e.ip1)), 4);
      used := Append(buf, used, Some(Bytes4(e.ip2)), 4);
    } else {
      used := Append(buf, 2, if e.ip1.V6? then Some(e.ip1.v6) else None, 16);
      used := Append(buf, used, if e.ip2.V6? then Some(e.ip2.v6) else None, 16);
    }
  }

  /** The buffer as `get_community_id_flow_hash` fills it, in 40 bytes. */
  method FillBuffer(f: Flow) returns (buf: array<Byte>, used: nat)
    requires ValidFlow(f)
    ensures fresh(buf) && buf.Length == 40
    ensures used <= 40 && buf[..used] == Buffer(f)
    ensures used == (if Ordered(f).ip1.V4? then 12 else 36) + (if HasPorts(f.proto) then 4 else 0)
    // in network byte order
    ensures HasPorts(f.proto) ==> Number(buf[used - 4..used - 2]) == Ordered(f).p1 && Number(buf[used - 2..used]) == Ordered(f).p2
  {
    buf := new Byte[2 + 16 + 16 + 1 + 1 + 2 + 2](_ => 0);
    var e := Ordered(f);
    hide Ordered;
    used := Append(buf, 0, Some([0, 0]), 2);
    used := AppendAddresses(buf, e);
    hide AddressBytes, PortBytes, Number;
    ghost var head := [0, 0] + AddressBytes(e.ip1, e.ip2);
    used := Append(buf, used, Some([f.proto]), 1);
    used := Append(buf, used, None, 1);
    assert buf[..used] == head + [f.proto, 0];
    if HasPorts(f.proto) {
      used := AppendPorts(buf, used, e.p1, e.p2);
    }
  }

  /** Both ports, after the rest. */
  method AppendPorts(buf: array<Byte>, used: nat, p: Port, q: Port) returns (total: nat)
    requires used + 4 <= buf.Length
    modifies buf
    ensures total == used + 4 && buf[..total] == old(buf[..used]) + (PortBytes(p) + PortBytes(q))
    ensures Number(buf[used..used + 2]) == p && Number(buf[used + 2..total]) == q
  {
    ghost var head := buf[..used];
    PortsOnTheWire(p);
    PortsOnTheWire(q);
    hide PortBytes, Number;
    total := Append(buf, used, Some(PortBytes(p)), 2);
    total := Append(buf, total, Some(PortBytes(q)), 2);
    PartsOfTail(head, PortBytes(p), PortBytes(q));
    assert buf[..total] == head + (PortBytes(p) + PortBytes(q));
    assert buf[used..used + 2] == buf[..total][used..used + 2] && buf[used + 2..total] == buf[..total][used + 2..total];
  }

  // ----- the order is total -----

  lemma {:induction false} MemCmpOrders(a: seq<Byte>, b: seq<Byte>)
    requires |a| == |b|
    ensures MemCmp(a, b) == -MemCmp(b, a)
    ensures MemCmp(a, b) == 0 <==> a == b
  {
    if a != [] && a[0] == b[0] {
      MemCmpOrders(a[1..], b[1..]);
      assert a == [a[0]] + a[1..] && b == [b[0]] + b[1..];
    }
  }

  lemma CompareOrders(a: IpAddress, b: IpAddress)
    requires Valid(a) && Valid(b)
    ensures Compare(a, b) == -Compare(b, a)
    ensures Compare(a, b) == 0 <==> a == b
  {
    match a
    case V4(x) => if b.V4? { MemCmpOrders(x, b.v4); }
    case V6(x) => if b.V6? { MemCmpOrders(x, b.v6); }
    case Unset =>
  }

  /** Sorting the endpoints forgets which one was the client. */
  lemma SortForgetsDirection(e: Peers)
    requires Valid(e.ip1) && Valid(e.ip2)
    ensures CheckPeers(e, false) == CheckPeers(Swapped(e), false)
  {
    CompareOrders(e.ip1, e.ip2);
  }

  /** Sorted endpoints are equal exactly for the same pair up to direction. */
  lemma SortedEqual(e: Peers, d: Peers)
    requires Valid(e.ip1) && Valid(e.ip2) && Valid(d.ip1) && Valid(d.ip2)
    ensures CheckPeers(e, false) == CheckPeers(d, false) <==> d == e || d == Swapped(e)
  {
    SortForgetsDirection(e);
  }

  // ----- the order, in numbers -----

  /** Bytes read in base 256, most significant first. */
  function Number(b: seq<Byte>): nat {
    if b == [] then 0 else 256 * Number(b[..|b| - 1]) + b[|b| - 1]
  }

  function Pow256(n: nat): (p: nat)
    ensures p > 0
  {
    if n == 0 then 1 else 256 * Pow256(n - 1)
  }

  lemma {:induction false} NumberFront(x: Byte, b: seq<Byte>)
    ensures Number([x] + b) == x * Pow256(|b|) + Number(b)
    ensures Number(b) < Pow256(|b|)
  {
    if b == [] {
      assert [x] + b == [x] && [x][..0] == [];
    } else {
      var front, last := b[..|b| - 1], b[|b| - 1];
      NumberFront(x, front);
      assert ([x] + b)[..|b|] == [x] + front && ([x] + b)[|b|] == last;
      assert 256 * (x * Pow256(|front|)) == x * Pow256(|b|) by {
        Regroup(x, Pow256(|front|));
      }
    }
  }

  lemma Regroup(x: nat, p: nat)
    ensures 256 * (x * p) == x * (256 * p)
  {
  }

  lemma LeadingDigit(x: nat, y: nat, p: nat, r: nat, q: nat)
    requires x < y && r < p
    ensures x * p + r < y * p + q
  {
    assert y * p == x * p + (y - x) * p;
    assert (y - x) * p >= p by {
      MultipleIsFar(p, y - x);
    }
  }

  /** `memcmp` compares the numbers that the blocks stand for. */
  lemma {:induction false} MemCmpIsNumeric(a: seq<Byte>, b: seq<Byte>)
    requires |a| == |b|
    ensures MemCmp(a, b) < 0 <==> Number(a) < Number(b)
    ensures MemCmp(a, b) > 0 <==> Number(a) > Number(b)
  {
    if a != [] {
      MemCmpIsNumeric(a[1..], b[1..]);
      NumberFront(a[0], a[1..]);
      NumberFront(b[0], b[1..]);
      assert a == [a[0]] + a[1..] && b == [b[0]] + b[1..];
      if a[0] < b[0] {
        LeadingDigit(a[0], b[0], Pow256(|a[1..]|), Number(a[1..]), Number(b[1..]));
      } else if a[0] > b[0] {
        LeadingDigit(b[0], a[0], Pow256(|a[1..]|), Number(b[1..]), Number(a[1..]));
      }
    }
  }

  /** The number an address stands for, zero if it was never set. */
  function Address(ip: IpAddress): nat {
    match ip
    case V4(b) => Number(b)
    case V6(b) => Number(b)
    case Unset => 0
  }

  /** One endpoint is before another: version 4 before version 6, then the lower
      address, then the lower port. */
  predicate Precedes(a: IpAddress, p: Port, b: IpAddress, q: Port) {
    || (a.Unset? && !b.Unset?) || (a.V4? && b.V6?)
    || (a.V4? == b.V4? && a.V6? == b.V6? && (Address(a) < Address(b) || (Address(a) == Address(b) && p <= q)))
  }

  /** The types that answer each other, by number. */
  const ANSWERS_V4: set<(int, int)> := {(8, 0), (13, 14), (15, 16), (10, 9), (17, 18)}
  const ANSWERS_V6: set<(int, int)> := {(128, 129), (133, 134), (135, 136), (130, 131), (139, 140), (144, 145)}

  lemma AnswersExact(t: Byte, u: Byte)
    ensures PairV4(t) == Some(u) <==> (t, u) in ANSWERS_V4 || (u, t) in ANSWERS_V4
    ensures PairV6(t) == Some(u) <==> (t, u) in ANSWERS_V6 || (u, t) in ANSWERS_V6
  {
  }

  /** What stands for the ports: the ports themselves, for ICMP (protocols 1 and 58)
      the type and the answering type, or the code of a type without an answer, and
      zeros for any other protocol. */
  lemma PseudoPortsExact(f: Flow)
    ensures f.proto in {6, 17, 132} ==> CliPort(f) == f.cliPort && SrvPort(f) == f.srvPort && !OneWay(f)
    ensures f.proto !in {1, 6, 17, 58, 132} ==> CliPort(f) == SrvPort(f) == 0 && !OneWay(f)
    ensures f.proto in {1, 58} ==> CliPort(f) == f.icmpType
    ensures f.proto == 1 ==> if PairV4(f.icmpType).None? then OneWay(f) && SrvPort(f) == f.icmpCode
                             else !OneWay(f) && PairV4(f.icmpType) == Some(SrvPort(f))
    ensures f.proto == 58 ==> if PairV6(f.icmpType).None? then OneWay(f) && SrvPort(f) == f.icmpCode
                              else !OneWay(f) && PairV6(f.icmpType) == Some(SrvPort(f))
  {
  }

  /** The order of the endpoints: as given for a one-way message, otherwise the one
      that precedes the other first. */
  lemma OrderedExact(f: Flow)
    requires ValidFlow(f)
    ensures var e, p, q := Ordered(f), CliPort(f), SrvPort(f);
            && (e == Peers(f.cli, f.srv, p, q) || (!OneWay(f) && e == Peers(f.srv, f.cli, q, p)))
            && (!OneWay(f) ==> Precedes(e.ip1, e.p1, e.ip2, e.p2))
  {
    hide CliPort, SrvPort;
    if f.cli.V4? && f.srv.V4? {
      MemCmpIsNumeric(f.cli.v4, f.srv.v4);
    } else if f.cli.V6? && f.srv.V6? {
      MemCmpIsNumeric(f.cli.v6, f.srv.v6);
    }
    hide MemCmp, Number;
  }

  lemma TwoBytes(a: Byte, b: Byte)
    ensures Number([a, b]) == 256 * a + b
  {
    assert [a, b][..1] == [a] && [a][..0] == [];
    assert Number([a]) == a;
  }

  lemma PortsOnTheWire(p: Port)
    ensures Number(PortBytes(p)) == p
  {
    TwoBytes(p / 256, p % 256);
  }

  lemma PartsOfTail(head: seq<Byte>, p: seq<Byte>, q: seq<Byte>)
    requires |p| == |q| == 2
    ensures var all := head + (p + q);
            all[|head|..|head| + 2] == p && all[|head| + 2..|head| + 4] == q
  {
  }

  /** The bytes one by one: the seed, the two ordered addresses, four bytes each if
      the first is of version 4 and sixteen otherwise, an address of another version
      written as zeros, the protocol, a zero, and for ICMP, TCP, UDP, ICMPv6 and SCTP
      the two ports, most significant byte first. */
  lemma BufferBytes(f: Flow)
    requires ValidFlow(f)
    ensures var buf, e := Buffer(f), Ordered(f);
            var n := if e.ip1.V4? then 4 else 16;
            var end := 4 + 2 * n;
            && |buf| == end + (if f.proto in {1, 6, 17, 58, 132} then 4 else 0)
            && buf[0] == buf[1] == 0 && buf[end - 2] == f.proto && buf[end - 1] == 0
            && Number(buf[2..2 + n]) == Address(e.ip1)
            && Number(buf[2 + n..2 + 2 * n]) == (if e.ip2.V4? == e.ip1.V4? then Address(e.ip2) else 0)
            && (f.proto in {1, 6, 17, 58, 132} ==>
                  Number(buf[end..end + 2]) == e.p1 && Number(buf[end + 2..end + 4]) == e.p2)
  {
    hide Ordered, Number, Address, AddressBytes;
    var buf, e := Buffer(f), Ordered(f);
    var n := if e.ip1.V4? then 4 else 16;
    AddressesWritten(e);
    var both := AddressBytes(e.ip1, e.ip2);
    assert buf[2..2 + 2 * n] == both;
    assert buf[2..2 + n] == both[..n] && buf[2 + n..2 + 2 * n] == buf[2..2 + 2 * n][n..];
    if HasPorts(f.proto) {
      PortsOnTheWire(e.p1);
      PortsOnTheWire(e.p2);
      PartsOfTail([0, 0] + both + [f.proto, 0], PortBytes(e.p1), PortBytes(e.p2));
      hide PortBytes;
    }
  }

  lemma AddressesWritten(e: Peers)
    requires Valid(e.ip1) && Valid(e.ip2)
    ensures var n, both := if e.ip1.V4? then 4 else 16, AddressBytes(e.ip1, e.ip2);
            && Number(both[..n]) == Address(e.ip1)
            && Number(both[n..]) == (if e.ip2.V4? == e.ip1.V4? then Address(e.ip2) else 0)
  {
    ZerosAreZero(4);
    ZerosAreZero(16);
    hide Number;
    var n, both := if e.ip1.V4? then 4 else 16, AddressBytes(e.ip1, e.ip2);
    assert both[..n] == if e.ip1.V4? then Bytes4(e.ip1) else Bytes16(e.ip1);
    assert both[n..] == if e.ip1.V4? then Bytes4(e.ip2) else Bytes16(e.ip2);
  }

  lemma {:induction false} ZerosAreZero(n: nat)
    ensures Number(Zeros(n)) == 0
  {
    if n > 0 {
      ZerosAreZero(n - 1);
      assert Zeros(n)[..n - 1] == Zeros(n - 1);
    }
  }

  /** What the bytes say of a flow with ports between two addresses of one version:
      they hold the two endpoints, the one with the lower address first and, between
      equal addresses, the one with the lower port; a one-way ICMP message keeps the
      client first. */
  lemma FlowOnTheWire(f: Flow)
    requires ValidFlow(f) && SameFamily(f) && f.proto in {1, 6, 17, 58, 132}
    ensures var n := if f.cli.V4? then 4 else 16;
            var end, buf := 4 + 2 * n, Buffer(f);
            && |buf| == end + 4
            && var a, b := Number(buf[2..2 + n]), Number(buf[2 + n..2 + 2 * n]);
            var p, q := Number(buf[end..end + 2]), Number(buf[end + 2..end + 4]);
            if OneWay(f)
            then (a, p, b, q) == (Address(f.cli), f.icmpType, Address(f.srv), f.icmpCode)
            else && ((a, p, b, q) == (Address(f.cli), CliPort(f), Address(f.srv), SrvPort(f))
                     || (a, p, b, q) == (Address(f.srv), SrvPort(f), Address(f.cli), CliPort(f)))
                 && (a < b || (a == b && p <= q))
  {
    hide Buffer, Ordered, Number, CliPort, SrvPort;
    OrderedExact(f);
    BufferBytes(f);
    PseudoPortsExact(f);
  }

  // ----- direction independence -----

  lemma PairsAreMutual(f: Flow)
    ensures Pair(f).Some? ==> Pair(f.(icmpType := Pair(f).value)) == Some(f.icmpType)
  {
  }

  /** The same conversation seen from the other side: a two-way ICMP message is
      replaced by its answer. */
  function Reversed(f: Flow): Flow {
    f.(cli := f.srv, srv := f.cli, cliPort := f.srvPort, srvPort := f.cliPort,
       icmpType := if IsIcmp(f.proto) && Pair(f).Some? then Pair(f).value else f.icmpType)
  }

  lemma ReversedTwoWay(f: Flow)
    requires ValidFlow(f) && !OneWay(f)
    ensures !OneWay(Reversed(f)) && Ordered(Reversed(f)) == Ordered(f)
  {
    PairsAreMutual(f);
    SortForgetsDirection(Peers(f.cli, f.srv, CliPort(f), SrvPort(f)));
  }

  /** Direction independence, and exactly when it holds: always for two-way
      traffic, and for one-way ICMP only if the two addresses are written alike. */
  lemma DirectionIndependent(f: Flow)
    requires ValidFlow(f)
    ensures Buffer(Reversed(f)) == Buffer(f)
       <==> !OneWay(f) || AddressBytes(f.cli, f.srv) == AddressBytes(f.srv, f.cli)
  {
    if !OneWay(f) {
      ReversedTwoWay(f);
    } else {
      var a, b := AddressBytes(f.cli, f.srv), AddressBytes(f.srv, f.cli);
      var tail := [f.proto, 0] + PortBytes(CliPort(f)) + PortBytes(SrvPort(f));
      assert Buffer(f) == [0, 0] + a + tail;
      assert Buffer(Reversed(f)) == [0, 0] + b + tail;
      SamePart([0, 0], a, b, tail);
    }
  }

  lemma SamePart(head: seq<Byte>, a: seq<Byte>, b: seq<Byte>, tail: seq<Byte>)
    ensures head + a + tail == head + b + tail <==> a == b
  {
    if head + a + tail == head + b + tail {
      assert |a| == |b|;
      assert (head + a + tail)[|head|..|head| + |a|] == a;
      assert (head + b + tail)[|head|..|head| + |b|] == b;
    }
  }

  // ----- injectivity -----

  /** The used length is 12, 16, 36 or 40, and tells the address family and
      whether there are ports. */
  lemma BufferLength(f: Flow)
    requires ValidFlow(f)
    ensures |Buffer(f)| == (if Ordered(f).ip1.V4? then 12 else 36) + (if HasPorts(f.proto) then 4 else 0)
  {
    hide Ordered;
  }

  /** What the buffer keeps of two ordered endpoints: the first address picks the
      family, and an address of another family is written as zeros. */
  function Written(e: Peers): Peers
    requires Valid(e.ip1) && Valid(e.ip2)
  {
    if e.ip1.V4? then e.(ip1 := V4(Bytes4(e.ip1)), ip2 := V4(Bytes4(e.ip2)))
    else e.(ip1 := V6(Bytes16(e.ip1)), ip2 := V6(Bytes16(e.ip2)))
  }

  lemma AddressBytesInjective(d: Peers, e: Peers)
    requires Valid(d.ip1) && Valid(d.ip2) && Valid(e.ip1) && Valid(e.ip2)
    requires AddressBytes(d.ip1, d.ip2) == AddressBytes(e.ip1, e.ip2)
    ensures Written(d).ip1 == Written(e).ip1 && Written(d).ip2 == Written(e).ip2
  {
    hide Bytes4, Bytes16;
    var n := if d.ip1.V4? then 4 else 16;
    assert |AddressBytes(d.ip1, d.ip2)| == |AddressBytes(e.ip1, e.ip2)|;
    assert AddressBytes(d.ip1, d.ip2)[..n] == AddressBytes(e.ip1, e.ip2)[..n];
    assert AddressBytes(d.ip1, d.ip2)[n..] == AddressBytes(e.ip1, e.ip2)[n..];
  }

  /** A buffer, split into its parts. */
  lemma BufferParts(f: Flow)
    requires ValidFlow(f)
    ensures var e, n := Ordered(f), if Ordered(f).ip1.V4? then 8 else 32;
            var buf := Buffer(f);
            && |buf| >= n + 4
            && buf[2..n + 2] == AddressBytes(e.ip1, e.ip2) && buf[n + 2] == f.proto
            && (HasPorts(f.proto) ==> |buf| == n + 8 && buf[n + 4..n + 6] == PortBytes(e.p1) && buf[n + 6..n + 8] == PortBytes(e.p2))
  {
    hide Ordered;
  }

  /** Equal buffers, for any two flows of any families: exactly when they agree on the
      protocol and on what is written of the ordered endpoints. */
  lemma BufferExact(f: Flow, g: Flow)
    requires ValidFlow(f) && ValidFlow(g)
    ensures Buffer(f) == Buffer(g) <==> f.proto == g.proto && Written(Ordered(f)) == Written(Ordered(g))
  {
    if Buffer(f) == Buffer(g) {
      EqualParts(f, g);
    }
    if f.proto == g.proto && Written(Ordered(f)) == Written(Ordered(g)) {
      hide Ordered, Bytes4, Bytes16;
      assert AddressBytes(Ordered(f).ip1, Ordered(f).ip2) == AddressBytes(Ordered(g).ip1, Ordered(g).ip2);
    }
  }

  lemma EqualParts(f: Flow, g: Flow)
    requires ValidFlow(f) && ValidFlow(g) && Buffer(f) == Buffer(g)
    ensures f.proto == g.proto && Written(Ordered(f)) == Written(Ordered(g))
  {
    BufferLength(f);
    BufferLength(g);
    BufferParts(f);
    BufferParts(g);
    hide Buffer, Ordered, AddressBytes, PortBytes;
    var d, e := Ordered(f), Ordered(g);
    AddressBytesInjective(d, e);
  }

  /** Something of the endpoints may have been lost: an address is written as zeros in
      a place where another address would be written so too. */
  predicate Ambiguous(e: Peers)
    requires Valid(e.ip1) && Valid(e.ip2)
  {
    if e.ip1.V4? then Bytes4(e.ip2) == Zeros(4)
    else Bytes16(e.ip1) == Zeros(16) || Bytes16(e.ip2) == Zeros(16)
  }

  lemma WrittenTells(d: Peers, e: Peers)
    requires Valid(d.ip1) && Valid(d.ip2) && Valid(e.ip1) && Valid(e.ip2)
    requires Written(d) == Written(e)
    ensures !Ambiguous(d) ==> d == e
  {
  }

  /** Other endpoints that are written alike. */
  function Alternative(e: Peers): Peers
    requires Valid(e.ip1) && Valid(e.ip2)
  {
    if e.ip1.V4? then e.(ip2 := V6(if e.ip2 == V6(Zeros(16)) then seq(16, _ => 1) else Zeros(16)))
    else if e.ip1 == V6(Zeros(16)) then e.(ip1 := Unset)
    else if e.ip1.Unset? && Bytes16(e.ip2) != Zeros(16) then e.(ip1 := V6(Zeros(16)))
    else e.(ip2 := V4(if e.ip2 == V4(Zeros(4)) then seq(4, _ => 1) else Zeros(4)))
  }

  lemma AlternativeWritten(e: Peers)
    requires Valid(e.ip1) && Valid(e.ip2) && Ambiguous(e)
    ensures var d := Alternative(e);
            Valid(d.ip1) && Valid(d.ip2) && d != e && d.p1 == e.p1 && d.p2 == e.p2 && Written(d) == Written(e)
  {
    var ones: seq<Byte> := seq(16, _ => 1);
    var four: seq<Byte> := seq(4, _ => 1);
    assert ones[0] != Zeros(16)[0] && four[0] != Zeros(4)[0];
  }

  /** If the endpoints are in order, so are the alternative ones, strictly. */
  lemma AlternativeOrdered(e: Peers)
    requires Valid(e.ip1) && Valid(e.ip2) && Ambiguous(e) && Compare(e.ip1, e.ip2) <= 0
    ensures var d := Alternative(e);
            Valid(d.ip1) && Valid(d.ip2) && Compare(d.ip1, d.ip2) < 0
  {
    if e.ip1.V6? && e.ip2.V6? {
      ZerosFirst(e.ip1.v6, 16);
      MemCmpOrders(e.ip1.v6, e.ip2.v6);
      assert e.ip2.v6 == Zeros(16) ==> e.ip1.v6 == Zeros(16);
    } else if e.ip2.V6? {
      ZerosFirst(e.ip2.v6, 16);
    }
  }

  lemma {:induction false} ZerosFirst(b: seq<Byte>, n: nat)
    requires |b| == n
    ensures MemCmp(Zeros(n), b) <= 0 && (MemCmp(Zeros(n), b) == 0 <==> b == Zeros(n))
    ensures MemCmp(b, Zeros(n)) == -MemCmp(Zeros(n), b)
  {
    MemCmpOrders(Zeros(n), b);
    if n > 0 {
      assert Zeros(n)[1..] == Zeros(n - 1);
      ZerosFirst(b[1..], n - 1);
    }
  }

  /** A flow whose ordered endpoints are ambiguous shares its buffer with a flow
      between other endpoints. */
  lemma Collision(f: Flow) returns (g: Flow)
    requires ValidFlow(f) && Ambiguous(Ordered(f))
    ensures ValidFlow(g) && g.proto == f.proto && Buffer(g) == Buffer(f) && Ordered(g) != Ordered(f)
  {
    var e := Ordered(f);
    var d := Alternative(e);
    AlternativeWritten(e);
    var straight := OneWay(f) || IsLessThan(Peers(f.cli, f.srv, CliPort(f), SrvPort(f)));
    g := if straight then f.(cli := d.ip1, srv := d.ip2) else f.(cli := d.ip2, srv := d.ip1);
    if !OneWay(f) {
      CompareOrders(f.cli, f.srv);
      AlternativeOrdered(e);
      CompareOrders(d.ip1, d.ip2);
    }
    hide Alternative, Ambiguous, Written, Compare;
    assert Ordered(g) == d;
    BufferExact(f, g);
  }

  /** Injectivity, and exactly where it holds: a buffer tells protocol and ordered
      endpoints apart from those of every other flow if and only if the flow's own
      endpoints are not ambiguous. */
  lemma BufferInjective(f: Flow)
    requires ValidFlow(f)
    ensures (forall g | ValidFlow(g) && Buffer(g) == Buffer(f) :: g.proto == f.proto && Ordered(g) == Ordered(f))
       <==> !Ambiguous(Ordered(f))
  {
    hide Buffer, Ordered, Ambiguous;
    if Ambiguous(Ordered(f)) {
      var g := Collision(f);
    } else {
      forall g | ValidFlow(g) && Buffer(g) == Buffer(f) ensures g.proto == f.proto && Ordered(g) == Ordered(f) {
        BufferExact(f, g);
        WrittenTells(Ordered(f), Ordered(g));
      }
    }
  }

  predicate SameFamily(f: Flow) {
    (f.cli.V4? && f.srv.V4?) || (f.cli.V6? && f.srv.V6?)
  }

  predicate MixedFamily(f: Flow) {
    (f.cli.V4? && f.srv.V6?) || (f.cli.V6? && f.srv.V4?)
  }

  /** Nothing is lost when both flows have addresses of one family, or when the first
      is not ambiguous, whatever the second is. */
  predicate Distinguishable(f: Flow, g: Flow)
    requires ValidFlow(f)
  {
    !Ambiguous(Ordered(f)) || (SameFamily(f) && SameFamily(g))
  }

  lemma EndpointsTold(f: Flow, g: Flow)
    requires ValidFlow(f) && ValidFlow(g) && Distinguishable(f, g)
    ensures Buffer(f) == Buffer(g) <==> f.proto == g.proto && Ordered(f) == Ordered(g)
  {
    BufferExact(f, g);
    if SameFamily(f) && SameFamily(g) {
    } else if Written(Ordered(f)) == Written(Ordered(g)) {
      WrittenTells(Ordered(f), Ordered(g));
    }
  }

  /** For TCP, UDP and SCTP, in terms of the flows: the buffers are equal exactly
      for the same conversation in either direction. */
  lemma PortFlowsCollide(f: Flow, g: Flow)
    requires ValidFlow(f) && ValidFlow(g) && Distinguishable(f, g)
    requires HasPorts(f.proto) && !IsIcmp(f.proto) && HasPorts(g.proto) && !IsIcmp(g.proto)
    ensures Buffer(f) == Buffer(g) <==>
              f.proto == g.proto &&
              ((g.cli, g.srv, g.cliPort, g.srvPort) == (f.cli, f.srv, f.cliPort, f.srvPort)
               || (g.cli, g.srv, g.cliPort, g.srvPort) == (f.srv, f.cli, f.srvPort, f.cliPort))
  {
    EndpointsTold(f, g);
    SortedEqual(Peers(f.cli, f.srv, f.cliPort, f.srvPort), Peers(g.cli, g.srv, g.cliPort, g.srvPort));
    hide Buffer, CheckPeers, Ambiguous;
  }

  /** For ICMP: a one-way message collides only with itself, a two-way message
      only with messages of its type in its direction and of the answering type
      in the other; the code of a two-way message is not looked at. */
  lemma IcmpFlowsCollide(f: Flow, g: Flow)
    requires ValidFlow(f) && ValidFlow(g) && Distinguishable(f, g)
    requires IsIcmp(f.proto) && f.proto == g.proto
    ensures Buffer(f) == Buffer(g) <==>
              if OneWay(f) then (g.cli, g.srv, g.icmpType, g.icmpCode) == (f.cli, f.srv, f.icmpType, f.icmpCode)
              else (g.cli, g.srv, g.icmpType) == (f.cli, f.srv, f.icmpType)
                   || (g.cli, g.srv, g.icmpType) == (f.srv, f.cli, Pair(f).value)
  {
    EndpointsTold(f, g);
    hide Buffer, Ambiguous;
    PairsAreMutual(f);
    PairsAreMutual(g);
    var d, e := Peers(f.cli, f.srv, CliPort(f), SrvPort(f)), Peers(g.cli, g.srv, CliPort(g), SrvPort(g));
    if !OneWay(f) && !OneWay(g) {
      SortedEqual(d, e);
      hide CheckPeers;
    }
  }

  /** With one address of each version one of them is lost: of two-way traffic the
      version 6 one, whichever side it is on, and of one-way ICMP the server's. */
  predicate ClientLost(f: Flow) {
    !OneWay(f) && f.cli.V6?
  }

  function WithLost(f: Flow, ip: IpAddress): Flow {
    if ClientLost(f) then f.(cli := ip) else f.(srv := ip)
  }

  lemma MixedFamilyCollides(f: Flow, ip: IpAddress)
    requires ValidFlow(f) && MixedFamily(f) && Valid(ip)
    requires var lost := if ClientLost(f) then f.cli else f.srv;
             ip != lost && ip.V4? == lost.V4? && ip.V6? == lost.V6?
    ensures ValidFlow(WithLost(f, ip)) && Buffer(WithLost(f, ip)) == Buffer(f)
    ensures Ordered(WithLost(f, ip)) != Ordered(f)
  {
    BufferExact(f, WithLost(f, ip));
  }

  lemma MixedFamilyIsAmbiguous(f: Flow)
    requires ValidFlow(f) && MixedFamily(f)
    ensures Ambiguous(Ordered(f))
  {
  }
}
