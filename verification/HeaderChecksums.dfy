/** The simple checksum and the routines that store it in IP, TCP and UDP headers, on a
    little-endian machine with 64-bit sums. */
module HeaderChecksums {
  import opened Bits
  import opened InternetChecksum

  const IPPROTO_TCP: Byte := 6
  const IPPROTO_UDP: Byte := 17

  /** The 16-bit word of the machine that holds a big-endian value. */
  function BigEndian(x: nat): seq<Byte>
    requires x <= 0xFFFF
  {
    [x / 256, x % 256]
  }

  /** The loops over the data: whole words, then a padded last byte.  No addition
      overflows. */
  method AddWords(sum0: nat, data: array<Byte>, from: nat, count0: nat) returns (sum: nat)
    requires from + count0 <= data.Length && count0 < TWO_32 && sum0 <= 6 * 0xFFFF
    ensures sum == sum0 + Lo(data[from..from + count0]) < TWO_64
  {
    ghost var s := data[from..from + count0];
    var (i, count) := (from, count0);
    sum := sum0;
    ghost var k := 0;
    assert s[0..] == s;
    while count > 1
      invariant i == from + k && k + count == count0
      invariant sum + Lo(s[k..]) == sum0 + Lo(s)
      invariant sum <= (6 + k) * 0xFFFF
    {
      NextTwo(s, k);
      assert s[k] == data[i] && s[k + 1] == data[i + 1];
      SmallMod(sum + Word(data[i], data[i + 1]), TWO_64);
      sum := U64(sum + Word(data[i], data[i + 1]));
      i, count, k := i + 2, count - 2, k + 2;
    }
    if count > 0 {
      LastOne(s, k);
      SmallMod(sum + data[i], TWO_64);
      sum := U64(sum + data[i]);
      k := k + 1;
    }
    assert s[k..] == [];
  }

  /** The folding loop terminates with the one's complement sum. */
  method Fold(sum0: nat) returns (sum: nat)
    ensures sum <= 0xFFFF && Alike(sum, sum0)
  {
    sum := sum0;
    while sum / 65536 != 0
      invariant Alike(sum, sum0)
      decreases sum
    {
      FoldAlike(sum, 0, sum0);
      sum := sum % 65536 + sum / 65536;
    }
  }

  /** sum = ~sum, cut to 16 bits. */
  function Complement(sum: nat): nat {
    (TWO_64 - 1 - sum) % 65536
  }

  lemma ComplementIs(sum: nat)
    requires sum <= 0xFFFF
    ensures Complement(sum) == 0xFFFF - sum
  {
    DivModUnique(TWO_64 - 1 - sum, 65536, TWO_64 / 65536 - 1, 0xFFFF - sum);
  }

  /** compute_checksum: the value that do_csum's complement has on the same bytes. */
  method ComputeChecksum(data: array<Byte>, from: nat, count: nat) returns (check: nat)
    requires from + count <= data.Length && count < TWO_32
    ensures check == Checksum(data[from..from + count]) && check <= 0xFFFF
  {
    var sum := AddWords(0, data, from, count);
    sum := Fold(sum);
    OnesSumIs(data[from..from + count], false, sum, sum);
    ComplementIs(sum);
    check := Complement(sum);
  }

  // -------------------------------------------------- storing the check field

  /** The bytes with a little-endian word stored at k. */
  function WithWord(s: seq<Byte>, k: nat, w: nat): (r: seq<Byte>)
    requires k + 2 <= |s| && w <= 0xFFFF
    ensures |r| == |s|
  {
    s[k := w % 256][k + 1 := w / 256]
  }

  lemma LoUpdate(s: seq<Byte>, k: nat, b: Byte)
    requires k < |s|
    ensures Lo(s[k := b]) == Lo(s) + (if k % 2 == 0 then b - s[k] else 256 * (b - s[k]))
  {
    assert s == s[..k] + ([s[k]] + s[k + 1..]);
    assert s[k := b] == s[..k] + ([b] + s[k + 1..]);
    LoSplit(s[..k], [s[k]] + s[k + 1..]);
    LoSplit(s[..k], [b] + s[k + 1..]);
  }

  /** A word stored at an even place adds itself to the sum in place of the old one. */
  lemma LoWithWord(s: seq<Byte>, k: nat, w: nat)
    requires k % 2 == 0 && k + 2 <= |s| && w <= 0xFFFF && s[k] == 0 && s[k + 1] == 0
    ensures Lo(WithWord(s, k, w)) == Lo(s) + w
  {
    LoUpdate(s, k, w % 256);
    LoUpdate(s[k := w % 256], k + 1, w / 256);
  }

  /** With the complement of its sum stored in a zero field a byte string sums to 0xFFFF. */
  lemma SelfVerifying(s: seq<Byte>, k: nat, w: nat)
    requires k % 2 == 0 && k + 2 <= |s| && s[k] == 0 && s[k + 1] == 0
    requires w == Checksum(s) || (w == 0xFFFF && Checksum(s) == 0)
    ensures 0 <= w <= 0xFFFF && OnesSum(WithWord(s, k, w)) == 0xFFFF
  {
    OnesSumAlike(s);
    LoWithWord(s, k, w);
    OnesSumAlike(WithWord(s, k, w));
    hide WithWord, Lo, OnesSum, Alike;
    Completed(Lo(s), OnesSum(s), w, OnesSum(WithWord(s, k, w)));
  }

  lemma Completed(x: nat, sum: nat, w: nat, r: nat)
    requires sum <= 0xFFFF && Alike(sum, x) && r <= 0xFFFF && Alike(r, x + w)
    requires w == 0xFFFF - sum || (w == 0xFFFF && sum == 0xFFFF)
    ensures r == 0xFFFF
  {
  }

  function Ihl(header: seq<Byte>): nat
    requires |header| >= 1
  {
    header[0] % 16
  }

  /** compute_ip_checksum. */
  method ComputeIpChecksum(header: array<Byte>)
    requires header.Length >= 20 && 4 * Ihl(header[..]) <= header.Length
    modifies header
    ensures header[..] == WithIpCheck(old(header[..]))
    ensures var (zeroed, n) := (old(header[..])[10 := 0][11 := 0], 4 * (old(header[0]) % 16));
            var check := 0xFFFF - OnesSum(zeroed[..n]);
            && 0 <= check <= 0xFFFF
            && header[..] == zeroed[10 := check % 256][11 := check / 256]
            && (n >= 12 ==> OnesSum(header[..n]) == 0xFFFF)
  {
    ghost var was := header[..];
    header[10], header[11] := 0, 0;
    assert header[..] == WithWord(was, 10, 0);
    var ihl := header[0] % 16;
    var check := ComputeChecksum(header, 0, 4 * ihl);
    header[10], header[11] := check % 256, check / 256;
    assert header[..] == WithWord(WithWord(was, 10, 0), 10, check);
    IpVerifies(was);
  }

  ghost function WithIpCheck(h: seq<Byte>): (r: seq<Byte>)
    requires |h| >= 20 && 4 * Ihl(h) <= |h|
    ensures |r| == |h|
  {
    var zeroed := WithWord(h, 10, 0);
    OnesSumAlike(zeroed[..4 * Ihl(h)]);
    WithWord(zeroed, 10, Checksum(zeroed[..4 * Ihl(h)]))
  }

  /** Computing the checksum again over a header gives 0 whenever the header reaches the
      check field (IHL of at least 3; RFC 791 has 5), and the same value when it does
      not; nothing but the field changes. */
  lemma IpVerifies(h: seq<Byte>)
    requires |h| >= 20 && 4 * Ihl(h) <= |h|
    ensures var (r, n) := (WithIpCheck(h), 4 * Ihl(h));
            && (forall i | 0 <= i < |h| && i != 10 && i != 11 :: r[i] == h[i])
            && (Ihl(h) >= 3 ==> Checksum(r[..n]) == 0)
            && (Ihl(h) < 3 ==> Checksum(r[..n]) == Checksum(h[..n]))
  {
    var n := 4 * Ihl(h);
    var (zeroed, r) := (WithWord(h, 10, 0), WithIpCheck(h));
    if Ihl(h) >= 3 {
      var s := zeroed[..n];
      OnesSumAlike(s);
      SelfVerifying(s, 10, Checksum(s));
      assert r[..n] == WithWord(s, 10, Checksum(s));
    } else {
      assert r[..n] == h[..n];
    }
  }

  // -------------------------------------------------------------- TCP and UDP

  /** The pseudo header: addresses, protocol and length. */
  function Pseudo(header: seq<Byte>, protocol: Byte, len: nat): (r: seq<Byte>)
    requires |header| >= 20 && len <= 0xFFFF
    ensures |r| == 12
  {
    header[12..20] + [0, protocol] + BigEndian(len)
  }

  /** The sum both routines start from. */
  function PseudoSum(header: seq<Byte>, protocol: Byte, len: nat): nat
    requires |header| >= 20 && len <= 0xFFFF
  {
    Word(header[14], header[15]) + Word(header[12], header[13])
    + Word(header[18], header[19]) + Word(header[16], header[17])
    + Word(0, protocol) + Word(len / 256, len % 256)
  }

  lemma PseudoSumIs(header: seq<Byte>, protocol: Byte, len: nat, data: seq<Byte>)
    requires |header| >= 20 && len <= 0xFFFF
    ensures PseudoSum(header, protocol, len) <= 6 * 0xFFFF
    ensures Lo(Pseudo(header, protocol, len) + data) == PseudoSum(header, protocol, len) + Lo(data)
  {
    var p := Pseudo(header, protocol, len);
    assert p[0..] == p && p[12..] == [];
    LoSplit(p, data);
    var h := header;
    assert [p[0], p[1], p[2], p[3]] == [h[12], h[13], h[14], h[15]];
    assert [p[4], p[5], p[6], p[7]] == [h[16], h[17], h[18], h[19]];
    assert [p[8], p[9], p[10], p[11]] == [0, protocol, len / 256, len % 256];
    hide Pseudo;
    TwelveBytes(p);
    hide Lo, Hi;
    assert Lo(p) == PseudoSum(header, protocol, len);
  }

  lemma TwelveBytes(p: seq<Byte>)
    requires |p| == 12
    ensures Lo(p) == Word(p[0], p[1]) + Word(p[2], p[3]) + Word(p[4], p[5])
                     + Word(p[6], p[7]) + Word(p[8], p[9]) + Word(p[10], p[11])
  {
    assert p[0..] == p && p[12..] == [];
    assert Lo(p[12..]) == 0;
    hide Lo, Hi;
    NextTwo(p, 0);
    NextTwo(p, 2);
    NextTwo(p, 4);
    NextTwo(p, 6);
    NextTwo(p, 8);
    NextTwo(p, 10);
  }

  /** The segment with the check field at k filled in; UDP stores 0xFFFF for 0. */
  ghost function WithCheck(segment: seq<Byte>, k: nat, pseudo: seq<Byte>, len: nat, udp: bool): (r: seq<Byte>)
    requires k + 2 <= |segment| && len <= |segment|
    ensures |r| == |segment|
  {
    WithWord(WithWord(segment, k, 0), k, CheckValue(segment, k, pseudo, len, udp))
  }

  ghost function CheckValue(segment: seq<Byte>, k: nat, pseudo: seq<Byte>, len: nat, udp: bool): (c: nat)
    requires k + 2 <= |segment| && len <= |segment|
    ensures c <= 0xFFFF && (udp ==> c != 0)
  {
    var s := pseudo + WithWord(segment, k, 0)[..len];
    OnesSumAlike(s);
    if udp && Checksum(s) == 0 then 0xFFFF else Checksum(s)
  }

  lemma WordBehind(a: seq<Byte>, b: seq<Byte>, k: nat, len: nat, w: nat)
    requires k + 2 <= len <= |b| && w <= 0xFFFF
    ensures a + WithWord(b, k, w)[..len] == WithWord(a + b[..len], |a| + k, w)
  {
    var (hi, lo) := (w / 256, w % 256);
    assert a + b[k := lo][k + 1 := hi][..len] == (a + b[..len])[|a| + k := lo][|a| + k + 1 := hi];
  }

  lemma AddedAlike(x: nat, sum: nat, d: nat, r: nat)
    requires sum <= 0xFFFF && Alike(sum, x) && d <= 0xFFFF && r <= 0xFFFF && Alike(r, x + d)
    ensures r == OnesAdd(sum, d)
  {
  }

  lemma CoveredField(a: seq<Byte>, b: seq<Byte>, k: nat, len: nat, w: nat)
    requires k % 2 == 0 && k + 2 <= len <= |b| && |a| % 2 == 0 && b[k] == 0 && b[k + 1] == 0
    requires w == Checksum(a + b[..len]) || (w == 0xFFFF && Checksum(a + b[..len]) == 0)
    ensures 0 <= w <= 0xFFFF && OnesSum(a + WithWord(b, k, w)[..len]) == 0xFFFF
  {
    hide *;
    var s := a + b[..len];
    assert s[|a| + k] == 0 && s[|a| + k + 1] == 0;
    assert (|a| + k) % 2 == 0;
    SelfVerifying(s, |a| + k, w);
    WordBehind(a, b, k, len, w);
  }

  lemma {:induction false} HalfField(a: seq<Byte>, b: seq<Byte>, k: nat, w: nat)
    requires k % 2 == 0 && k + 2 <= |b| && |a| % 2 == 0 && b[k] == 0 && w <= 0xFFFF
    ensures OnesSum(a + WithWord(b, k, w)[..k + 1]) == OnesAdd(OnesSum(a + b[..k + 1]), w % 256)
  {
    var (s, lo) := (a + b[..k + 1], w % 256);
    var t := s[|a| + k := lo];
    assert a + WithWord(b, k, w)[..k + 1] == t;
    hide *;
    assert s[|a| + k] == 0 && (|a| + k) % 2 == 0;
    LoUpdate(s, |a| + k, lo);
    OnesSumAlike(s);
    OnesSumAlike(t);
    AddedAlike(Lo(s), OnesSum(s), lo, OnesSum(t));
  }

  /** The pseudo header and the segment sum to 0xFFFF, for even and odd lengths, whenever
      the segment reaches its check field; a shorter length covers half of the field or
      none of it. */
  lemma SegmentVerifies(segment: seq<Byte>, k: nat, pseudo: seq<Byte>, len: nat, udp: bool)
    requires k % 2 == 0 && k + 2 <= |segment| && len <= |segment| && |pseudo| % 2 == 0
    ensures var (r, c) := (WithCheck(segment, k, pseudo, len, udp), CheckValue(segment, k, pseudo, len, udp));
            && (forall i | 0 <= i < |segment| && i != k && i != k + 1 :: r[i] == segment[i])
            && (k + 2 <= len ==> OnesSum(pseudo + r[..len]) == 0xFFFF)
            && (k + 1 == len ==>
                  OnesSum(pseudo + r[..len]) == OnesAdd(OnesSum(pseudo + WithWord(segment, k, 0)[..len]), c % 256))
            && (len <= k ==> OnesSum(pseudo + r[..len]) == OnesSum(pseudo + segment[..len]))
  {
    var (zeroed, r) := (WithWord(segment, k, 0), WithCheck(segment, k, pseudo, len, udp));
    var c := CheckValue(segment, k, pseudo, len, udp);
    assert forall i | 0 <= i < |segment| && i != k && i != k + 1 :: r[i] == segment[i];
    if k + 2 <= len {
      CoveredField(pseudo, zeroed, k, len, c);
    } else if k + 1 == len {
      HalfField(pseudo, zeroed, k, c);
    } else {
      assert r[..len] == segment[..len];
    }
    hide OnesSum, WithCheck, CheckValue, OnesAdd;
  }

  /** The stored field, and what it makes the sum. */
  lemma StoredCheck(segment: seq<Byte>, k: nat, pseudo: seq<Byte>, len: nat, udp: bool)
    requires k % 2 == 0 && k + 2 <= |segment| && len <= |segment| && |pseudo| % 2 == 0
    ensures var (zeroed, r) := (segment[k := 0][k + 1 := 0], WithCheck(segment, k, pseudo, len, udp));
            var sum := 0xFFFF - OnesSum(pseudo + zeroed[..len]);
            var check := if udp && sum == 0 then 0xFFFF else sum;
            && 0 <= check <= 0xFFFF && r == zeroed[k := check % 256][k + 1 := check / 256]
            && (k + 2 <= len ==> OnesSum(pseudo + r[..len]) == 0xFFFF)
  {
    SegmentVerifies(segment, k, pseudo, len, udp);
    hide OnesSum;
  }

  lemma PseudoBytes(header: seq<Byte>, protocol: Byte, len: nat)
    requires |header| >= 20 && len <= 0xFFFF
    ensures Pseudo(header, protocol, len) == header[12..20] + [0, protocol, len / 256, len % 256]
  {
  }

  /** The length that compute_tcp_checksum derives from the IP header, in 16 bits. */
  function TcpLength(header: seq<Byte>): nat
    requires |header| >= 20
  {
    (256 * (header[2] as int) + header[3] - 4 * Ihl(header)) % 65536
  }

  /** What both routines do with the pseudo header's sum and a zeroed check field. */
  method SegmentSum(sum0: nat, ghost header: seq<Byte>, ghost protocol: Byte, segment: array<Byte>, len: nat)
    returns (check: nat)
    requires |header| >= 20 && len <= 0xFFFF && len <= segment.Length && sum0 == PseudoSum(header, protocol, len)
    ensures check == Checksum(Pseudo(header, protocol, len) + segment[..len])
    ensures check <= 0xFFFF
  {
    ghost var s := Pseudo(header, protocol, len) + segment[..len];
    PseudoSumIs(header, protocol, len, segment[..len]);
    assert segment[0..0 + len] == segment[..len];
    hide PseudoSum, Pseudo, Word;
    var sum := AddWords(sum0, segment, 0, len);
    sum := Fold(sum);
    OnesSumIs(s, false, sum, sum);
    ComplementIs(sum);
    check := Complement(sum);
  }

  /** compute_tcp_checksum. */
  method ComputeTcpChecksum(header: seq<Byte>, segment: array<Byte>)
    requires |header| >= 20 && segment.Length >= 18 && TcpLength(header) <= segment.Length
    modifies segment
    ensures segment[..] ==
            WithCheck(old(segment[..]), 16, Pseudo(header, IPPROTO_TCP, TcpLength(header)), TcpLength(header), false)
    ensures var len := (256 * (header[2] as int) + header[3] - 4 * (header[0] % 16)) % 65536;
            var pseudo: seq<Byte> := header[12..20] + [0, 6, len / 256, len % 256];
            && len <= segment.Length
            && var zeroed := old(segment[..])[16 := 0][17 := 0];
               var check := 0xFFFF - OnesSum(pseudo + zeroed[..len]);
               && 0 <= check <= 0xFFFF
               && segment[..] == zeroed[16 := check % 256][17 := check / 256]
               && (len >= 18 ==> OnesSum(pseudo + segment[..len]) == 0xFFFF)
  {
    ghost var was := segment[..];
    var tcpLen := TcpLength(header);
    var sum := PseudoSum(header, IPPROTO_TCP, tcpLen);
    segment[16], segment[17] := 0, 0;
    assert segment[..] == WithWord(was, 16, 0);
    var check := SegmentSum(sum, header, IPPROTO_TCP, segment, tcpLen);
    segment[16], segment[17] := check % 256, check / 256;
    assert segment[..] == WithWord(WithWord(was, 16, 0), 16, check);
    PseudoBytes(header, IPPROTO_TCP, tcpLen);
    StoredCheck(was, 16, Pseudo(header, IPPROTO_TCP, tcpLen), tcpLen, false);
    hide OnesSum, WithWord, WithCheck, CheckValue, PseudoSum, Pseudo;
  }

  function UdpLength(segment: seq<Byte>): nat
    requires |segment| >= 8
  {
    256 * (segment[4] as int) + segment[5]
  }

  /** compute_udp_checksum. */
  method ComputeUdpChecksum(header: seq<Byte>, segment: array<Byte>)
    requires |header| >= 20 && segment.Length >= 8 && UdpLength(segment[..]) <= segment.Length
    modifies segment
    ensures segment[..] ==
            (var len := UdpLength(old(segment[..]));
             WithCheck(old(segment[..]), 6, Pseudo(header, IPPROTO_UDP, len), len, true))
    ensures var len := 256 * (old(segment[4]) as int) + old(segment[5]);
            var pseudo: seq<Byte> := header[12..20] + [0, 17, len / 256, len % 256];
            && len <= segment.Length
            && var zeroed := old(segment[..])[6 := 0][7 := 0];
               var sum := 0xFFFF - OnesSum(pseudo + zeroed[..len]);
               var check := if sum == 0 then 0xFFFF else sum;
               && 0 <= check <= 0xFFFF
               && segment[..] == zeroed[6 := check % 256][7 := check / 256]
               && (len >= 8 ==> OnesSum(pseudo + segment[..len]) == 0xFFFF)
  {
    ghost var was := segment[..];
    var udpLen := UdpLength(segment[..]);
    var sum := PseudoSum(header, IPPROTO_UDP, udpLen);
    segment[6], segment[7] := 0, 0;
    assert segment[..] == WithWord(was, 6, 0);
    var check := SegmentSum(sum, header, IPPROTO_UDP, segment, udpLen);
    check := if check == 0 then 0xFFFF else check;
    segment[6], segment[7] := check % 256, check / 256;
    assert segment[..] == WithWord(WithWord(was, 6, 0), 6, check);
    PseudoBytes(header, IPPROTO_UDP, udpLen);
    StoredCheck(was, 6, Pseudo(header, IPPROTO_UDP, udpLen), udpLen, true);
    hide OnesSum, PseudoSum, Pseudo;
  }
}
