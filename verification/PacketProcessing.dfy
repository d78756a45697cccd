/** process_rx_packet in place: what it does to the frame's buffer and to the result that
    the caller keeps from packet to packet. */
module PacketProcessing {
  import opened Bits
  import opened Encapsulation

  /** The fields of the result, as a value. */
  datatype Fields = Fields(newLen: int, ringBufIndex: int, whichVeth: int)

  /** The frame's buffer and the result afterwards; a lookup that finds nothing is
      followed by an access through a null pointer. */
  datatype Outcome = Done(frame: seq<Byte>, res: Fields) | NullPointer(frame: seq<Byte>)

  /** From a veth: a refused frame is shifted all the same, and the result keeps the
      values of the packet before. */
  function VethOutcome(w: seq<Byte>, len: nat, iface: string, n: Node, port: seq<Byte>, res: Fields): Outcome
    requires 80 <= |w| && OUTER + len <= |w| && Configured(n) && |port| == 2
  {
    if Refused(w, len) then Done(Shift(w, len), res)
    else if InnerDestination(w) !in n.route then NullPointer(Put(Shift(w, len), 6, n.outEthSrc))
    else
      var hop := n.route[InnerDestination(w)];
      Done(Encapsulate(w, len, n.outEthSrc, hop.mac, port, VethOf(iface)),
           Fields(len + OUTER, hop.index - 1, res.whichVeth))
  }

  /** A frame for this node must hold the outer headers that are cut off. */
  predicate Deliverable(w: seq<Byte>, len: nat, n: Node)
    requires 80 <= |w|
  {
    n.srcIp == OuterDestination(w) ==> OUTER <= len
  }

  /** From the network: passed on, or cut off and handed to the veth it names. */
  function NicOutcome(w: seq<Byte>, len: nat, n: Node, res: Fields): Outcome
    requires 80 <= |w| && len <= |w| && Configured(n) && Deliverable(w, len, n)
  {
    if n.srcIp == OuterDestination(w) then
      Done(Decapsulate(w, len), Fields(len - OUTER, res.ringBufIndex, RawAt(w, 42)))
    else if OuterDestination(w) !in n.route then NullPointer(w)
    else
      var hop := n.route[OuterDestination(w)];
      Done(Transit(w, n.outEthSrc, hop.mac), Fields(1, hop.index - 1, res.whichVeth))
  }

  class RxResult {
    var newLen: int
    var ringBufIndex: int
    var whichVeth: int

    constructor ()
      ensures newLen == 0 && ringBufIndex == 0 && whichVeth == 0
    {
      newLen, ringBufIndex, whichVeth := 0, 0, 0;
    }

    /** Its fields as a value. */
    function Value(): Fields
      reads this
    {
      Fields(newLen, ringBufIndex, whichVeth)
    }
  }

  /** A packet buffer: cap bytes from `at` on. */
  ghost function Frame(umem: array<Byte>, at: nat, cap: nat): (r: seq<Byte>)
    requires at + cap <= umem.Length
    reads umem
    ensures |r| == cap
  {
    umem[at..at + cap]
  }

  /** Nothing outside the buffer has changed. */
  twostate predicate OnlyFrame(umem: array<Byte>, at: nat, cap: nat)
    requires at + cap <= umem.Length
    reads umem
  {
    umem[..at] == old(umem[..at]) && umem[at + cap..] == old(umem[at + cap..])
  }

  method Write(umem: array<Byte>, at: nat, cap: nat, k: nat, bytes: seq<Byte>)
    requires at + cap <= umem.Length && k + |bytes| <= cap
    modifies umem
    ensures Frame(umem, at, cap) == Put(old(Frame(umem, at, cap)), k, bytes) && OnlyFrame(umem, at, cap)
  {
    forall i | 0 <= i < |bytes| {
      umem[at + k + i] := bytes[i];
    }
    assert umem[..at] == old(umem[..at]) && umem[at + cap..] == old(umem[at + cap..]);
    ghost var (w, r) := (old(umem[at..at + cap]), umem[at..at + cap]);
    hide Put;
    assert r == Put(w, k, bytes);
  }

  /** memcpy between places of one buffer, taken as a move. */
  method Move(umem: array<Byte>, at: nat, cap: nat, dst: nat, src: nat, n: nat)
    requires at + cap <= umem.Length && dst + n <= cap && src + n <= cap
    modifies umem
    ensures Frame(umem, at, cap) == Put(old(Frame(umem, at, cap)), dst, old(Frame(umem, at, cap))[src..src + n])
    ensures OnlyFrame(umem, at, cap)
  {
    forall i | 0 <= i < n {
      umem[at + dst + i] := umem[at + src + i];
    }
    assert umem[..at] == old(umem[..at]) && umem[at + cap..] == old(umem[at + cap..]);
    ghost var (w, r) := (old(umem[at..at + cap]), umem[at..at + cap]);
    ghost var moved := w[src..src + n];
    hide Put;
    assert forall i | 0 <= i < n :: moved[i] == old(umem[at + src + i]);
    assert forall i | 0 <= i < cap :: r[i] == umem[at + i] && w[i] == old(umem[at + i]);
    assert r == Put(w, dst, moved);
  }

  method NetLoad(umem: array<Byte>, at: nat, cap: nat, k: nat) returns (x: nat)
    requires at + cap <= umem.Length && k + 2 <= cap
    ensures x == NetAt(Frame(umem, at, cap), k)
  {
    x := (umem[at + k] as int) * 256 + umem[at + k + 1];
  }

  method RawLoad(umem: array<Byte>, at: nat, cap: nat, k: nat) returns (x: nat)
    requires at + cap <= umem.Length && k + 2 <= cap
    ensures x == RawAt(Frame(umem, at, cap), k)
  {
    x := (umem[at + k] as int) + 256 * (umem[at + k + 1] as int);
  }

  method Load4(umem: array<Byte>, at: nat, cap: nat, k: nat) returns (a: seq<Byte>)
    requires at + cap <= umem.Length && k + 4 <= cap
    ensures a == Frame(umem, at, cap)[k..k + 4]
  {
    a := umem[at + k..at + k + 4];
    ghost var w := umem[at..at + cap];
    assert forall i | 0 <= i < cap :: w[i] == umem[at + i];
    assert forall i | 0 <= i < 4 :: a[i] == w[k + i] == w[k..k + 4][i];
  }

  method WriteEthernetAndIp(umem: array<Byte>, at: nat, cap: nat, src: seq<Byte>, mac: seq<Byte>)
    requires at + cap <= umem.Length && OUTER <= cap && |src| == 6 && |mac| == 6
    modifies umem
    ensures Frame(umem, at, cap) == EthernetAndIp(old(Frame(umem, at, cap)), src, mac) && OnlyFrame(umem, at, cap)
  {
    hide Put, NetAt, Frame, Net;
    Write(umem, at, cap, 6, src);
    Write(umem, at, cap, 0, mac);
    Write(umem, at, cap, 12, Net(ETH_P_IP));
    Write(umem, at, cap, 23, [17]);
    var innerLength := NetLoad(umem, at, cap, 16);
    Write(umem, at, cap, 16, Net(14 + 8 + 4 + innerLength));
  }

  method WriteUdpAndGre(umem: array<Byte>, at: nat, cap: nat, port: seq<Byte>, veth: Option<nat>)
    requires at + cap <= umem.Length && OUTER <= cap && |port| == 2
    modifies umem
    ensures Frame(umem, at, cap) == UdpAndGre(old(Frame(umem, at, cap)), port, veth) && OnlyFrame(umem, at, cap)
  {
    hide Put, NetAt, Frame, Net, Raw;
    Write(umem, at, cap, 34, port);
    Write(umem, at, cap, 36, Net(UDP_PORT));
    var innerLength := NetLoad(umem, at, cap, 16);
    Write(umem, at, cap, 38, Net(8 + 4 + 14 + innerLength));
    Write(umem, at, cap, 44, Net(ETH_P_TEB));
    if veth.Some? {
      Write(umem, at, cap, 42, Raw(veth.value));
    }
  }

  /** The branch for veths. */
  method FromVeth(umem: array<Byte>, at: nat, cap: nat, len: nat, iface: string, n: Node, port: seq<Byte>,
                  res: RxResult)
    returns (crash: bool)
    requires at + cap <= umem.Length && 80 <= cap && OUTER + len <= cap && Configured(n) && |port| == 2
    modifies umem, res
    ensures OnlyFrame(umem, at, cap)
    ensures var o := VethOutcome(old(Frame(umem, at, cap)), len, iface, n, port, old(res.Value()));
            && Frame(umem, at, cap) == o.frame && (crash <==> o.NullPointer?)
            && res.Value() == if crash then old(res.Value()) else o.res
  {
    ghost var (w, r) := (Frame(umem, at, cap), res.Value());
    VethCases(w, len, iface, n, port, r);
    ShiftedFrame(w, len);
    hide *;
    Move(umem, at, cap, OUTER, 0, len);
    var proto := NetLoad(umem, at, cap, OUTER + 12);
    if proto != ETH_P_IP || len < 34 {
      return false;
    }
    crash := Address(umem, at, cap, len, iface, n, port, res);
  }

  /** The outcome in terms of the shifted frame. */
  lemma VethCases(w: seq<Byte>, len: nat, iface: string, n: Node, port: seq<Byte>, res: Fields)
    requires 80 <= |w| && OUTER + len <= |w| && Configured(n) && |port| == 2
    ensures var (o, v) := (VethOutcome(w, len, iface, n, port, res), Shift(w, len));
            var dest := InnerDestination(v);
            if NetAt(v, OUTER + 12) != ETH_P_IP || len < 34 then o == Done(v, res)
            else if dest !in n.route then o == NullPointer(Put(v, 6, n.outEthSrc))
            else o == Done(Headers(v, n.outEthSrc, n.route[dest].mac, port, VethOf(iface)),
                           Fields(len + OUTER, n.route[dest].index - 1, res.whichVeth))
  {
    ShiftedFrame(w, len);
    hide Put, NetAt, Shift, Headers, VethOf;
  }

  /** Its second half, on the shifted frame: the lookup and the outer headers. */
  method Address(umem: array<Byte>, at: nat, cap: nat, len: nat, iface: string, n: Node, port: seq<Byte>, res: RxResult)
    returns (crash: bool)
    requires at + cap <= umem.Length && 80 <= cap && Configured(n) && |port| == 2
    modifies umem, res
    ensures OnlyFrame(umem, at, cap)
    ensures var (v, r) := (old(Frame(umem, at, cap)), old(res.Value()));
            var dest := InnerDestination(v);
            && (crash <==> dest !in n.route)
            && (crash ==> Frame(umem, at, cap) == Put(v, 6, n.outEthSrc) && res.Value() == r)
            && (!crash ==>
                  && Frame(umem, at, cap) == Headers(v, n.outEthSrc, n.route[dest].mac, port, VethOf(iface))
                  && res.Value() == Fields(len + OUTER, n.route[dest].index - 1, r.whichVeth))
  {
    hide VethOf, EthernetAndIp, UdpAndGre, Frame, Put;
    var daddr := Load4(umem, at, cap, 30);
    if daddr !in n.route {
      Write(umem, at, cap, 6, n.outEthSrc);
      return true;
    }
    var hop := n.route[daddr];
    WriteEthernetAndIp(umem, at, cap, n.outEthSrc, hop.mac);
    WriteUdpAndGre(umem, at, cap, port, VethOf(iface));
    res.ringBufIndex := hop.index - 1;
    res.newLen := len + OUTER;
    crash := false;
  }

  /** What is read after the shift is what was there before. */
  lemma ShiftedFrame(w: seq<Byte>, len: nat)
    requires 80 <= |w| && OUTER + len <= |w|
    ensures Shift(w, len) == Put(w, OUTER, w[0..0 + len])
    ensures InnerDestination(Shift(w, len)) == InnerDestination(w)
    ensures len >= 34 ==> NetAt(Shift(w, len), OUTER + 12) == NetAt(w, 12)
  {
    assert w[0..0 + len] == w[..len];
  }

  /** The branch for the network. */
  method FromNic(umem: array<Byte>, at: nat, cap: nat, len: nat, n: Node, res: RxResult) returns (crash: bool)
    requires at + cap <= umem.Length && 80 <= cap && len <= cap && Configured(n)
    requires Deliverable(Frame(umem, at, cap), len, n)
    modifies umem, res
    ensures OnlyFrame(umem, at, cap)
    ensures var o := NicOutcome(old(Frame(umem, at, cap)), len, n, old(res.Value()));
            && Frame(umem, at, cap) == o.frame && (crash <==> o.NullPointer?)
            && res.Value() == if crash then old(res.Value()) else o.res
  {
    hide Put, Frame;
    var daddr := Load4(umem, at, cap, 76);
    if n.srcIp != daddr {
      if daddr !in n.route {
        return true;
      }
      var hop := n.route[daddr];
      Write(umem, at, cap, 0, hop.mac);
      Write(umem, at, cap, 6, n.outEthSrc);
      res.ringBufIndex := hop.index - 1;
      res.newLen := 1;
    } else {
      var flags := RawLoad(umem, at, cap, 42);
      res.whichVeth := flags;
      Move(umem, at, cap, 0, OUTER, len - OUTER);
      res.newLen := len - OUTER;
    }
    crash := false;
  }

  /** process_rx_packet: an interface whose name starts with "crout" is a veth; one that
      is neither a veth nor the network's changes nothing. */
  method ProcessRxPacket(umem: array<Byte>, at: nat, cap: nat, len: nat, iface: string, n: Node, port: seq<Byte>,
                         res: RxResult)
    returns (crash: bool)
    requires at + cap <= umem.Length && 80 <= cap && len <= cap && Configured(n) && |port| == 2
    requires "crout" <= iface ==> OUTER + len <= cap
    requires !("crout" <= iface) && iface == n.nicIface ==> Deliverable(Frame(umem, at, cap), len, n)
    modifies umem, res
    ensures OnlyFrame(umem, at, cap)
    ensures
      var (w, r) := (old(Frame(umem, at, cap)), old(res.Value()));
      var o := if "crout" <= iface then VethOutcome(w, len, iface, n, port, r)
               else if iface == n.nicIface then NicOutcome(w, len, n, r) else Done(w, r);
      && Frame(umem, at, cap) == o.frame && (crash <==> o.NullPointer?)
      && res.Value() == if crash then r else o.res
  {
    hide VethOutcome, NicOutcome;
    if "crout" <= iface {
      crash := FromVeth(umem, at, cap, len, iface, n, port, res);
    } else if iface == n.nicIface {
      crash := FromNic(umem, at, cap, len, n, res);
    } else {
      crash := false;
    }
  }

  // ------------------------------------------------------------- the whole journey

  /** A node on the way, and what its buffer holds behind the bytes it receives. */
  datatype Stop = Stop(node: Node, rest: seq<Byte>, res: Fields)

  /** A node that knows the destination and is not it. */
  predicate PassesOn(t: Stop, dest: seq<Byte>) {
    Configured(t.node) && t.node.srcIp != dest && dest in t.node.route
  }

  /** The bytes on the wire after all these nodes; each sends on as many as it received. */
  function Carried(bytes: seq<Byte>, path: seq<Stop>): (r: seq<Byte>)
    requires 80 <= |bytes| && forall t | t in path :: PassesOn(t, bytes[76..80])
    ensures |r| == |bytes| && r[12..] == bytes[12..]
    decreases |path|
  {
    if path == [] then bytes
    else
      var t := path[0];
      assert t in path;
      PassedOn(bytes, t);
      Carried(NicOutcome(bytes + t.rest, |bytes|, t.node, t.res).frame[..|bytes|], path[1..])
  }

  /** A node that is not the destination asks for the frame to be sent on, to the next hop
      and from itself, with nothing else changed. */
  lemma PassedOn(bytes: seq<Byte>, t: Stop)
    requires 80 <= |bytes| && PassesOn(t, bytes[76..80])
    ensures Deliverable(bytes + t.rest, |bytes|, t.node)
    ensures var (w, hop) := (bytes + t.rest, t.node.route[bytes[76..80]]);
            var o := NicOutcome(w, |bytes|, t.node, t.res);
            && o.Done? && o.res == Fields(1, hop.index - 1, t.res.whichVeth) && |o.frame| == |w|
            && o.frame[..6] == hop.mac && o.frame[6..12] == t.node.outEthSrc && o.frame[12..] == w[12..]
            && o.frame[..|bytes|][12..] == bytes[12..] && o.frame[..|bytes|][76..80] == bytes[76..80]
  {
    var w := bytes + t.rest;
    assert OuterDestination(w) == bytes[76..80];
    var f := Transit(w, t.node.outEthSrc, t.node.route[OuterDestination(w)].mac);
    TransitTouches(w, t.node.outEthSrc, t.node.route[OuterDestination(w)].mac);
    hide Transit, Put;
    assert f[..|bytes|][12..] == f[12..][..|bytes| - 12] == w[12..][..|bytes| - 12] == bytes[12..];
    assert f[..|bytes|][76..80] == f[12..][64..68] == bytes[76..80];
  }

  /** A node that knows nothing of the destination follows the null pointer at once. */
  lemma NicUnknown(w: seq<Byte>, len: nat, n: Node, res: Fields)
    requires 80 <= |w| && len <= |w| && Configured(n) && n.srcIp != w[76..80] && w[76..80] !in n.route
    ensures Deliverable(w, len, n) && NicOutcome(w, len, n, res) == NullPointer(w)
  {
  }

  /** What is accepted from a veth: IPv4, and long enough for its header. */
  predicate Accepted(w: seq<Byte>, len: nat)
    requires 80 <= |w|
  {
    w[12] == 0x08 && w[13] == 0x00 && len >= 34
  }

  lemma LongEnough(w: seq<Byte>, len: nat)
    requires 80 <= |w| && Accepted(w, len)
    ensures len >= 34
  {
  }

  /** Anything else is shifted by 46 bytes, and the result is that of the packet before. */
  lemma VethRefused(w: seq<Byte>, len: nat, iface: string, n: Node, port: seq<Byte>, res: Fields)
    requires 80 <= |w| && 46 + len <= |w| && Configured(n) && |port| == 2 && !Accepted(w, len)
    ensures var o := VethOutcome(w, len, iface, n, port, res);
            && o.Done? && o.res == res && |o.frame| == |w|
            && o.frame[..46] == w[..46] && o.frame[46..46 + len] == w[..len] && o.frame[46 + len..] == w[46 + len..]
  {
    assert Refused(w, len);
    assert w[46 + len..] == Shift(w, len)[46 + len..];
  }

  /** With a destination that no table has, the source address is written as well. */
  lemma VethUnknown(w: seq<Byte>, len: nat, iface: string, n: Node, port: seq<Byte>, res: Fields)
    requires 80 <= |w| && 46 + len <= |w| && Configured(n) && |port| == 2
    requires Accepted(w, len) && w[30..34] !in n.route
    ensures var o := VethOutcome(w, len, iface, n, port, res);
            && o.NullPointer? && |o.frame| == |w|
            && o.frame[..6] == w[..6] && o.frame[6..12] == n.outEthSrc && o.frame[12..46] == w[12..46]
            && o.frame[46..46 + len] == w[..len] && o.frame[46 + len..] == w[46 + len..]
  {
    assert !Refused(w, len);
  }

  lemma VethAccepted(w: seq<Byte>, len: nat, iface: string, n: Node, port: seq<Byte>, res: Fields)
    requires 80 <= |w| && 46 + len <= |w| && Configured(n) && |port| == 2
    requires Accepted(w, len) && w[30..34] in n.route
    ensures var hop := n.route[w[30..34]];
            VethOutcome(w, len, iface, n, port, res) ==
            Done(Encapsulate(w, len, n.outEthSrc, hop.mac, port, VethOf(iface)),
                 Fields(46 + len, hop.index - 1, res.whichVeth))
  {
    hide Encapsulate, VethOf;
    assert !Refused(w, len);
  }

  /** The outer headers, field by field: the addresses of the next hop and of the node,
      IPv4, the inner IP header with another protocol and length, UDP with its length and
      without a checksum, and GRE. */
  ghost predicate OuterFields(b: seq<Byte>, w: seq<Byte>, src: seq<Byte>, mac: seq<Byte>, port: seq<Byte>)
    requires |b| == |w| >= 80
  {
    var t := 256 * (w[16] as int) + w[17];
    && b[..6] == mac && b[6..12] == src && b[12..14] == [0x08, 0x00]
    && b[14..16] == w[14..16] && 256 * (b[16] as int) + b[17] == (t + 26) % 65536
    && b[18..23] == w[18..23] && b[23] == 17 && b[24..34] == w[24..34]
    && b[34..36] == port && b[36..38] == [0x12, 0x92]
    && 256 * (b[38] as int) + b[39] == (t + 52) % 65536 && b[40..42] == w[40..42]
    && b[44..46] == [0x65, 0x58]
  }

  /** The frame stands behind them, with the veth's number, if it has one, in GRE. */
  ghost predicate FrameBehindFields(b: seq<Byte>, w: seq<Byte>, len: nat, veth: Option<nat>)
    requires |b| == |w| >= 80 && 46 + len <= |w|
  {
    && (if veth.Some? then b[42] == veth.value && b[43] == 0 else b[42..44] == w[42..44])
    && b[46..46 + len] == w[..len] && b[46 + len..] == w[46 + len..]
  }

  lemma SentHeaders(w: seq<Byte>, len: nat, src: seq<Byte>, mac: seq<Byte>, port: seq<Byte>, veth: Option<nat>)
    requires 80 <= |w| && 46 + len <= |w| && |src| == 6 && |mac| == 6 && |port| == 2
    ensures OuterFields(Encapsulate(w, len, src, mac, port, veth), w, src, mac, port)
  {
    hide Encapsulate;
    OuterHeaders(w, len, src, mac, port, veth);
    OuterLengths(w, len, src, mac, port, veth);
  }

  lemma SentFrame(w: seq<Byte>, len: nat, src: seq<Byte>, mac: seq<Byte>, port: seq<Byte>, veth: Option<nat>)
    requires 80 <= |w| && 46 + len <= |w| && |src| == 6 && |mac| == 6 && |port| == 2
    requires len >= 34 && (veth.Some? ==> veth.value <= 7)
    ensures FrameBehindFields(Encapsulate(w, len, src, mac, port, veth), w, len, veth)
  {
    EncapsulatedFrame(w, len, src, mac, port, veth);
    hide Encapsulate;
    NumberBytes(Encapsulate(w, len, src, mac, port, veth), w, if veth.Some? then veth.value else RawAt(w, 42));
  }

  lemma NumberBytes(e: seq<Byte>, w: seq<Byte>, k: nat)
    requires |e| >= 44 && |w| >= 44 && RawAt(e, 42) == k
    ensures k <= 7 ==> e[42] == k && e[43] == 0
    ensures k == RawAt(w, 42) ==> e[42..44] == w[42..44]
  {
  }

  /** The sending node: the frame is to be sent with 46 bytes more, by the thread of its
      destination, behind its outer headers. */
  lemma Departure(w: seq<Byte>, len: nat, iface: string, n: Node, port: seq<Byte>, res: Fields)
    requires 80 <= |w| && 46 + len <= |w| && Configured(n) && |port| == 2
    requires Accepted(w, len) && w[30..34] in n.route
    ensures var (o, hop) := (VethOutcome(w, len, iface, n, port, res), n.route[w[30..34]]);
            && o.Done? && o.res == Fields(46 + len, hop.index - 1, res.whichVeth) && |o.frame| == |w|
            && OuterFields(o.frame, w, n.outEthSrc, hop.mac, port)
            && FrameBehindFields(o.frame, w, len, VethOf(iface))
  {
    var (mac, veth) := (n.route[w[30..34]].mac, VethOf(iface));
    assert |mac| == 6 && |n.outEthSrc| == 6 && (veth.Some? ==> veth.value <= 7);
    LongEnough(w, len);
    hide *;
    VethAccepted(w, len, iface, n, port, res);
    SentHeaders(w, len, n.outEthSrc, mac, port, veth);
    SentFrame(w, len, n.outEthSrc, mac, port, veth);
  }

  /** The node it is for: it is cut off and delivered. */
  lemma Arrival(b: seq<Byte>, n: Node, rest: seq<Byte>, res: Fields)
    requires 80 <= |b| && Configured(n) && n.srcIp == b[76..80]
    ensures Deliverable(b + rest, |b|, n)
    ensures var (o, m) := (NicOutcome(b + rest, |b|, n, res), |b| - 46);
            && o.Done? && o.res == Fields(m, res.ringBufIndex, b[42] + 256 * (b[43] as int))
            && |o.frame| == |b + rest| && o.frame[..m] == b[46..] && o.frame[m..] == (b + rest)[m..]
  {
    var w := b + rest;
    assert OuterDestination(w) == b[76..80] && RawAt(w, 42) == RawAt(b, 42);
    CutOff(w, |b| - OUTER);
    assert w[OUTER..|b|] == b[OUTER..];
  }

  /** From a veth of one node, over any number of others, to the node whose address is the
      frame's destination: the results say that the frame is to be sent, passed on, and
      delivered with its own length, bytes and the number of the veth it came from. */
  lemma Journey(w: seq<Byte>, len: nat, iface: string, sender: Node, port: seq<Byte>, r0: Fields, path: seq<Stop>,
                receiver: Node, rest: seq<Byte>, r1: Fields) returns (sent: Outcome, wire: seq<Byte>, got: Outcome)
    requires 80 <= |w| && 46 + len <= |w| && Configured(sender) && Configured(receiver) && |port| == 2
    requires Accepted(w, len) && w[30..34] in sender.route && receiver.srcIp == w[30..34]
    requires forall t | t in path :: PassesOn(t, w[30..34])
    ensures sent == VethOutcome(w, len, iface, sender, port, r0) && sent.Done? && sent.res.newLen == 46 + len
    ensures |sent.frame| == |w| && sent.frame[..46 + len][76..80] == w[30..34]
    ensures wire == Carried(sent.frame[..46 + len], path)
    ensures Deliverable(wire + rest, |wire|, receiver)
    ensures got == NicOutcome(wire + rest, |wire|, receiver, r1) && got.Done? && got.res.newLen == len
    ensures |got.frame| >= len && got.frame[..len] == w[..len]
    ensures got.res.whichVeth == if VethOf(iface).Some? then VethOf(iface).value else w[42] + 256 * (w[43] as int)
  {
    Departure(w, len, iface, sender, port, r0);
    sent := VethOutcome(w, len, iface, sender, port, r0);
    LongEnough(w, len);
    assert FrameBehindFields(sent.frame, w, len, VethOf(iface));
    var e := sent.frame;
    assert e[46..46 + len] == w[..len];
    assert if VethOf(iface).Some? then e[42] == VethOf(iface).value && e[43] == 0 else e[42..44] == w[42..44];
    hide *;
    var b := sent.frame[..46 + len];
    FirstBytes(sent.frame, w, len);
    wire := Carried(b, path);
    OnTheWire(wire, b, sent.frame, w, len);
    Arrival(wire, receiver, rest, r1);
    got := NicOutcome(wire + rest, |wire|, receiver, r1);
  }

  lemma FirstBytes(e: seq<Byte>, w: seq<Byte>, len: nat)
    requires 34 <= len && 46 + len <= |w| == |e| && e[46..46 + len] == w[..len]
    ensures e[..46 + len][76..80] == w[30..34]
  {
    var (dest, d) := (e[..46 + len][76..80], w[30..34]);
    forall i | 0 <= i < 4
      ensures dest[i] == d[i]
    {
      assert e[46..46 + len][30 + i] == w[..len][30 + i];
    }
  }

  lemma OnTheWire(wire: seq<Byte>, b: seq<Byte>, e: seq<Byte>, w: seq<Byte>, len: nat)
    requires 34 <= len && 46 + len <= |w| == |e| && e[46..46 + len] == w[..len]
    requires b == e[..46 + len] && |wire| == |b| && wire[12..] == b[12..]
    ensures wire[76..80] == w[30..34] && wire[46..] == w[..len] && wire[42..44] == e[42..44]
  {
    assert forall i | 12 <= i < 46 + len :: wire[i] == wire[12..][i - 12] == b[12..][i - 12] == e[i];
    FirstBytes(e, w, len);
    assert wire[76..80] == e[..46 + len][76..80];
    assert wire[46..] == e[46..46 + len];
  }
}
