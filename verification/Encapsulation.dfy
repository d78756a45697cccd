/** GRE-in-UDP encapsulation (RFC 8086) in place: the sending node shifts a frame by 46
    bytes and writes the outer headers before it, nodes on the way rewrite the outer
    Ethernet addresses, and the receiving node cuts the outer headers off again.

    Lookups in the address and route tables are a finite map; the two bytes of the outer
    UDP source port are a parameter; the topology slot is fixed. */
module Encapsulation {
  import opened Bits

  const OUTER: nat := 46
  const ETH_P_IP: nat := 0x0800
  const ETH_P_TEB: nat := 0x6558
  const UDP_PORT: nat := 0x1292

  datatype Option<T> = Some(value: T) | None

  /** What the tables say about a destination: its index and the next hop's address. */
  datatype Hop = Hop(index: int, mac: seq<Byte>)

  datatype Node = Node(nicIface: string, outEthSrc: seq<Byte>, srcIp: seq<Byte>, route: map<seq<Byte>, Hop>)

  predicate Configured(n: Node) {
    && |n.outEthSrc| == 6 && |n.srcIp| == 4
    && forall a | a in n.route :: |n.route[a].mac| == 6
  }

  /** The two bytes of a value in network order. */
  function Net(x: nat): (r: seq<Byte>)
    ensures |r| == 2
  {
    [x / 256 % 256, x % 256]
  }

  /** The two bytes of a value in the machine's order. */
  function Raw(x: nat): (r: seq<Byte>)
    ensures |r| == 2
  {
    [x % 256, x / 256 % 256]
  }

  function RawAt(w: seq<Byte>, k: nat): (r: nat)
    requires k + 2 <= |w|
  {
    (w[k] as int) + 256 * (w[k + 1] as int)
  }

  function NetAt(w: seq<Byte>, k: nat): (r: nat)
    requires k + 2 <= |w|
    ensures r <= 0xFFFF
  {
    (w[k] as int) * 256 + w[k + 1]
  }

  /** The bytes with others written over them at k. */
  function Put(w: seq<Byte>, k: nat, bytes: seq<Byte>): (r: seq<Byte>)
    requires k + |bytes| <= |w|
    ensures |r| == |w|
    ensures forall i | 0 <= i < |w| :: r[i] == if k <= i < k + |bytes| then bytes[i - k] else w[i]
  {
    w[..k] + bytes + w[k + |bytes|..]
  }

  /** The number that process_rx_packet derives from a veth's name. */
  function VethOf(iface: string): Option<nat> {
    if iface == "crout12" then Some(0)
    else if iface == "crout13" then Some(1)
    else if iface == "crout14" then Some(2)
    else if iface == "crout15" then Some(3)
    else if iface == "crout16" then Some(4)
    else if iface == "crout17" then Some(5)
    else if iface == "crout18" then Some(6)
    else if iface == "crout19" then Some(7)
    else None
  }

  /** crout12 to crout19 have the numbers 0 to 7, and no other name has one. */
  lemma VethNumbers(iface: string, k: nat)
    ensures VethOf(iface) == Some(k) <==> k <= 7 && iface == "crout1" + [(50 + k) as char]
  {
    if k <= 7 {
      var (name, last) := ("crout1" + [(50 + k) as char], (50 + k) as char);
      assert |name| == 7 && name[6] == last;
      assert iface == name <==> |iface| == 7 && iface[..6] == "crout1" && iface[6] == last;
    }
  }

  /** The frame is refused: not IPv4, or too short. */
  predicate Refused(w: seq<Byte>, len: nat)
    requires |w| >= 14
  {
    NetAt(w, 12) != ETH_P_IP || len < 34
  }

  function Shift(w: seq<Byte>, len: nat): (r: seq<Byte>)
    requires OUTER + len <= |w|
    ensures |r| == |w|
  {
    Put(w, OUTER, w[..len])
  }

  /** The writes of the sending node, in the order of the code: first the Ethernet and the
      IP header ... */
  function EthernetAndIp(w: seq<Byte>, src: seq<Byte>, mac: seq<Byte>): (r: seq<Byte>)
    requires OUTER <= |w| && |src| == 6 && |mac| == 6
    ensures |r| == |w|
  {
    var w := Put(w, 6, src);
    var w := Put(w, 0, mac);
    var w := Put(w, 12, Net(ETH_P_IP));
    var w := Put(w, 23, [17]);
    Put(w, 16, Net(14 + 8 + 4 + NetAt(w, 16)))
  }

  /** ... then UDP and GRE: the inner header that the length is taken from is by then the
      outer one. */
  function UdpAndGre(w: seq<Byte>, port: seq<Byte>, veth: Option<nat>): (r: seq<Byte>)
    requires OUTER <= |w| && |port| == 2
    ensures |r| == |w|
  {
    var w := Put(w, 34, port);
    var w := Put(w, 36, Net(UDP_PORT));
    var w := Put(w, 38, Net(8 + 4 + 14 + NetAt(w, 16)));
    var w := Put(w, 44, Net(ETH_P_TEB));
    if veth.Some? then Put(w, 42, Raw(veth.value)) else w
  }

  function Headers(w: seq<Byte>, src: seq<Byte>, mac: seq<Byte>, port: seq<Byte>, veth: Option<nat>): (r: seq<Byte>)
    requires OUTER <= |w| && |src| == 6 && |mac| == 6 && |port| == 2
    ensures |r| == |w|
  {
    UdpAndGre(EthernetAndIp(w, src, mac), port, veth)
  }

  function Encapsulate(w: seq<Byte>, len: nat, src: seq<Byte>, mac: seq<Byte>, port: seq<Byte>, veth: Option<nat>)
    : (r: seq<Byte>)
    requires OUTER + len <= |w| && |src| == 6 && |mac| == 6 && |port| == 2
    ensures |r| == |w|
  {
    Headers(Shift(w, len), src, mac, port, veth)
  }

  /** A node on the way. */
  function Transit(w: seq<Byte>, src: seq<Byte>, mac: seq<Byte>): (r: seq<Byte>)
    requires OUTER <= |w| && |src| == 6 && |mac| == 6
    ensures |r| == |w|
  {
    Put(Put(w, 0, mac), 6, src)
  }

  /** The final cut-off. */
  function Decapsulate(w: seq<Byte>, len: nat): (r: seq<Byte>)
    requires OUTER <= len <= |w|
    ensures |r| == |w|
  {
    Put(w, 0, w[OUTER..len])
  }

  /** Where the frame is going, seen from the sending and from the other nodes. */
  function InnerDestination(w: seq<Byte>): seq<Byte>
    requires |w| >= 34
  {
    w[30..34]
  }

  function OuterDestination(w: seq<Byte>): seq<Byte>
    requires |w| >= 80
  {
    w[76..80]
  }

  // --------------------------------------------------------------- the round trip

  lemma HeadersOnly(w: seq<Byte>, src: seq<Byte>, mac: seq<Byte>, port: seq<Byte>, veth: Option<nat>, i: nat)
    requires OUTER <= i < |w| && |src| == 6 && |mac| == 6 && |port| == 2
    ensures Headers(w, src, mac, port, veth)[i] == w[i]
  {
    hide Put, NetAt, Net, Raw;
  }

  lemma FrameBehind(w: seq<Byte>, len: nat, src: seq<Byte>, mac: seq<Byte>, port: seq<Byte>, veth: Option<nat>)
    requires OUTER + len <= |w| && |src| == 6 && |mac| == 6 && |port| == 2
    ensures var r := Encapsulate(w, len, src, mac, port, veth);
            r[OUTER..OUTER + len] == w[..len] && r[OUTER + len..] == w[OUTER + len..]
  {
    var (v, r) := (Shift(w, len), Encapsulate(w, len, src, mac, port, veth));
    forall i | OUTER <= i < |w|
      ensures r[i] == v[i]
    {
      HeadersOnly(v, src, mac, port, veth, i);
    }
    hide Put, Headers, Encapsulate;
  }

  lemma NumberLeft(w: seq<Byte>, len: nat, src: seq<Byte>, mac: seq<Byte>, port: seq<Byte>, veth: Option<nat>)
    requires OUTER + len <= |w| && |src| == 6 && |mac| == 6 && |port| == 2
    ensures var r := Encapsulate(w, len, src, mac, port, veth);
            && (veth.Some? && veth.value <= 0xFFFF ==> RawAt(r, 42) == veth.value)
            && (veth.None? ==> RawAt(r, 42) == RawAt(w, 42))
  {
    var r := Encapsulate(w, len, src, mac, port, veth);
    EncapsulatedBytes(w, len, src, mac, port, veth);
    hide Encapsulate, Headers, Put, Net, NetAt;
    assert r[42] == HeaderByte(w, src, mac, port, veth, 42) && r[43] == HeaderByte(w, src, mac, port, veth, 43);
  }

  /** What the sending node leaves: the frame behind 46 bytes, and its own number. */
  lemma EncapsulatedFrame(w: seq<Byte>, len: nat, src: seq<Byte>, mac: seq<Byte>, port: seq<Byte>, veth: Option<nat>)
    requires OUTER + len <= |w| && |src| == 6 && |mac| == 6 && |port| == 2 && len >= 34
    ensures var r := Encapsulate(w, len, src, mac, port, veth);
            && r[OUTER..OUTER + len] == w[..len] && r[OUTER + len..] == w[OUTER + len..]
            && OuterDestination(r) == InnerDestination(w)
            && (veth.Some? && veth.value <= 0xFFFF ==> RawAt(r, 42) == veth.value)
            && (veth.None? ==> RawAt(r, 42) == RawAt(w, 42))
  {
    FrameBehind(w, len, src, mac, port, veth);
    NumberLeft(w, len, src, mac, port, veth);
    hide Encapsulate, RawAt;
    var r := Encapsulate(w, len, src, mac, port, veth);
    assert r[76..80] == r[OUTER..OUTER + len][30..34] == w[..len][30..34];
  }

  lemma NetBack(w: seq<Byte>, k: nat, x: nat)
    requires k + 2 <= |w| && w[k] == Net(x)[0] && w[k + 1] == Net(x)[1]
    ensures NetAt(w, k) == x % 65536
  {
    assert x == 65536 * (x / 65536) + x % 65536;
  }

  /** Byte for byte. */
  function HeaderByte(w: seq<Byte>, src: seq<Byte>, mac: seq<Byte>, port: seq<Byte>, veth: Option<nat>, i: nat): Byte
    requires OUTER <= |w| && |src| == 6 && |mac| == 6 && |port| == 2 && i < OUTER
  {
    if i < 6 then mac[i]
    else if i < 12 then src[i - 6]
    else if i < 14 then Net(ETH_P_IP)[i - 12]
    else if 16 <= i < 18 then Net(NetAt(w, 16) + 26)[i - 16]
    else if i == 23 then 17
    else if 34 <= i < 36 then port[i - 34]
    else if 36 <= i < 38 then Net(UDP_PORT)[i - 36]
    else if 38 <= i < 40 then Net((NetAt(w, 16) + 26) % 65536 + 26)[i - 38]
    else if 42 <= i < 44 && veth.Some? then Raw(veth.value)[i - 42]
    else if 44 <= i then Net(ETH_P_TEB)[i - 44]
    else w[i]
  }

  lemma HeaderBytes(w: seq<Byte>, src: seq<Byte>, mac: seq<Byte>, port: seq<Byte>, veth: Option<nat>, i: nat)
    requires OUTER <= |w| && |src| == 6 && |mac| == 6 && |port| == 2 && i < OUTER
    ensures Headers(w, src, mac, port, veth)[i] == HeaderByte(w, src, mac, port, veth, i)
  {
    var w4 := Put(Put(Put(Put(w, 6, src), 0, mac), 12, Net(ETH_P_IP)), 23, [17]);
    assert w4[16] == w[16] && w4[17] == w[17];
    var w5 := Put(w4, 16, Net(14 + 8 + 4 + NetAt(w4, 16)));
    var w7 := Put(Put(w5, 34, port), 36, Net(UDP_PORT));
    assert w7[16] == w5[16] && w7[17] == w5[17];
    NetBack(w7, 16, NetAt(w, 16) + 26);
    assert NetAt(w4, 16) == NetAt(w, 16) && NetAt(w7, 16) == (NetAt(w, 16) + 26) % 65536;
    hide Put, NetAt, Net, Raw;
  }

  lemma EncapsulatedBytes(w: seq<Byte>, len: nat, src: seq<Byte>, mac: seq<Byte>, port: seq<Byte>, veth: Option<nat>)
    requires OUTER + len <= |w| && |src| == 6 && |mac| == 6 && |port| == 2
    ensures var r := Encapsulate(w, len, src, mac, port, veth);
            forall i | 0 <= i < OUTER :: r[i] == HeaderByte(w, src, mac, port, veth, i)
  {
    var (v, r) := (Shift(w, len), Encapsulate(w, len, src, mac, port, veth));
    forall i | 0 <= i < OUTER
      ensures r[i] == HeaderByte(w, src, mac, port, veth, i)
    {
      HeaderBytes(v, src, mac, port, veth, i);
      assert v[i] == w[i] && NetAt(v, 16) == NetAt(w, 16);
    }
  }

  /** The outer headers as RFC 8086 has them: the node's addresses, an IPv4 header copied
      from the inner one, protocol UDP; the UDP checksum is not written. */
  lemma OuterHeaders(w: seq<Byte>, len: nat, src: seq<Byte>, mac: seq<Byte>, port: seq<Byte>, veth: Option<nat>)
    requires OUTER + len <= |w| && |src| == 6 && |mac| == 6 && |port| == 2
    ensures var r := Encapsulate(w, len, src, mac, port, veth);
            && r[..6] == mac && r[6..12] == src && r[12..14] == Net(ETH_P_IP) && r[36..38] == Net(UDP_PORT)
            && r[44..46] == Net(ETH_P_TEB) && r[14..16] == w[14..16] && r[18..23] == w[18..23] && r[23] == 17
            && r[24..34] == w[24..34] && r[34..36] == port && r[40..42] == w[40..42]
  {
    EncapsulatedBytes(w, len, src, mac, port, veth);
    hide Put, NetAt, Net, Raw, Headers, Encapsulate, Shift;
  }

  /** Its lengths.  The IP length grows by 26 and the UDP length by 52: for an inner frame
      without padding they should be 46 and 26 more than the inner IP length, and neither
      ever is. */
  lemma OuterLengths(w: seq<Byte>, len: nat, src: seq<Byte>, mac: seq<Byte>, port: seq<Byte>, veth: Option<nat>)
    requires OUTER + len <= |w| && |src| == 6 && |mac| == 6 && |port| == 2
    ensures var (r, t) := (Encapsulate(w, len, src, mac, port, veth), NetAt(w, 16));
            && NetAt(r, 16) == (t + 26) % 65536 != (t + 46) % 65536
            && NetAt(r, 38) == (t + 52) % 65536 != (t + 26) % 65536
  {
    var (r, t) := (Encapsulate(w, len, src, mac, port, veth), NetAt(w, 16));
    EncapsulatedBytes(w, len, src, mac, port, veth);
    assert [r[16], r[17]] == Net(t + 26) && [r[38], r[39]] == Net((t + 26) % 65536 + 26);
    hide *;
    NetBack(r, 16, t + 26);
    NetBack(r, 38, (t + 26) % 65536 + 26);
    LengthsDiffer(t);
  }

  lemma LengthsDiffer(t: nat)
    ensures ((t + 26) % 65536 + 26) % 65536 == (t + 52) % 65536
    ensures (t + 26) % 65536 != (t + 46) % 65536 && (t + 52) % 65536 != (t + 26) % 65536
  {
  }

  /** Any number of nodes on the way: each finds the destination in its own tables. */
  function TransitAll(w: seq<Byte>, path: seq<Node>): (r: seq<Byte>)
    requires |w| >= 80 && forall n | n in path :: Configured(n) && OuterDestination(w) in n.route
    ensures |r| == |w|
    decreases |path|
  {
    if path == [] then w
    else
      var n := path[0];
      assert n in path && Configured(n);
      var v := Transit(w, n.outEthSrc, n.route[OuterDestination(w)].mac);
      TransitTouches(w, n.outEthSrc, n.route[OuterDestination(w)].mac);
      TransitAll(v, path[1..])
  }

  /** A node on the way writes its two addresses and touches nothing else. */
  lemma TransitTouches(w: seq<Byte>, src: seq<Byte>, mac: seq<Byte>)
    requires |w| >= 80 && |src| == 6 && |mac| == 6
    ensures Transit(w, src, mac)[..6] == mac && Transit(w, src, mac)[6..12] == src
    ensures Transit(w, src, mac)[12..] == w[12..]
    ensures OuterDestination(Transit(w, src, mac)) == OuterDestination(w)
  {
    hide Put;
    assert OuterDestination(w) == w[12..][64..68];
  }

  lemma {:induction false} TransitKeeps(w: seq<Byte>, path: seq<Node>)
    requires |w| >= 80 && forall n | n in path :: Configured(n) && OuterDestination(w) in n.route
    ensures TransitAll(w, path)[12..] == w[12..]
    decreases |path|
  {
    hide Transit, Put, OuterDestination;
    if path != [] {
      var n := path[0];
      TransitTouches(w, n.outEthSrc, n.route[OuterDestination(w)].mac);
      TransitKeeps(Transit(w, n.outEthSrc, n.route[OuterDestination(w)].mac), path[1..]);
    }
  }

  /** Encapsulating a frame, passing it on through any number of nodes and cutting the
      outer headers off gives back the frame, its length and the sending veth's number;
      a veth whose name has no number leaves there what the buffer held. */
  lemma RoundTrip(w: seq<Byte>, len: nat, sender: Node, port: seq<Byte>, iface: string, path: seq<Node>)
    requires OUTER + len <= |w| && len >= 34 && |port| == 2 && Configured(sender)
    requires InnerDestination(w) in sender.route
    requires forall n | n in path :: Configured(n) && InnerDestination(w) in n.route
    ensures var e := Encapsulate(w, len, sender.outEthSrc, sender.route[InnerDestination(w)].mac, port, VethOf(iface));
            && OuterDestination(e) == InnerDestination(w)
            && (var t := TransitAll(e, path);
                && OuterDestination(t) == InnerDestination(w)
                && RawAt(t, 42) == (if VethOf(iface).Some? then VethOf(iface).value else RawAt(w, 42))
                && Decapsulate(t, OUTER + len)[..len] == w[..len])
  {
    var (mac, veth) := (sender.route[InnerDestination(w)].mac, VethOf(iface));
    assert veth.Some? ==> veth.value <= 7;
    var e := Encapsulate(w, len, sender.outEthSrc, mac, port, veth);
    EncapsulatedFrame(w, len, sender.outEthSrc, mac, port, veth);
    TransitKeeps(e, path);
    var t := TransitAll(e, path);
    hide *;
    SameBehind(t, e, len);
    CutOff(t, len);
  }

  lemma SameBehind(t: seq<Byte>, e: seq<Byte>, len: nat)
    requires 80 <= OUTER + len <= |t| == |e| && t[12..] == e[12..]
    ensures t[OUTER..OUTER + len] == e[OUTER..OUTER + len]
    ensures RawAt(t, 42) == RawAt(e, 42) && OuterDestination(t) == OuterDestination(e)
  {
    assert forall i | 12 <= i < |t| :: t[i] == t[12..][i - 12] == e[i];
  }

  lemma CutOff(t: seq<Byte>, len: nat)
    requires OUTER + len <= |t|
    ensures Decapsulate(t, OUTER + len)[..len] == t[OUTER..OUTER + len]
  {
  }
}
