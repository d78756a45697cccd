/** The Internet checksum (RFC 1071): the word-at-a-time form whose result does not
    depend on the alignment of the buffer, and the simple form, on a little-endian
    machine. */
module InternetChecksum {
  import opened Bits

  /** Words as the machine loads them. */
  function Word(b0: Byte, b1: Byte): (w: nat)
    ensures w <= 0xFFFF
  {
    b0 + 256 * b1
  }

  function Word4(b0: Byte, b1: Byte, b2: Byte, b3: Byte): nat {
    b0 + 256 * b1 + 65536 * b2 + 0x100_0000 * b3
  }

  // ------------------------------------------------------ the sum as defined

  /** Addition with end-around carry. */
  function OnesAdd(x: nat, y: nat): nat {
    if x + y > 0xFFFF then x + y - 0xFFFF else x + y
  }

  /** The one's complement sum of the 16-bit words of a byte string, padded with a zero
      byte when its length is odd. */
  function OnesSum(s: seq<Byte>): nat {
    if |s| == 0 then 0
    else if |s| == 1 then s[0]
    else OnesAdd(Word(s[0], s[1]), OnesSum(s[2..]))
  }

  function Checksum(s: seq<Byte>): int {
    0xFFFF - OnesSum(s)
  }

  /** The example of RFC 1071, section 3, in little-endian words, and an odd length. */
  lemma Rfc1071Example()
    ensures OnesSum([0x00, 0x01, 0xF2, 0x03, 0xF4, 0xF5, 0xF6, 0xF7]) == 0xF2DD
    ensures OnesSum([0xFF, 0xFF, 0x03]) == 0x0003
  {
    var s: seq<Byte> := [0x00, 0x01, 0xF2, 0x03, 0xF4, 0xF5, 0xF6, 0xF7];
    assert s[2..] == [0xF2, 0x03, 0xF4, 0xF5, 0xF6, 0xF7];
    assert s[2..][2..] == [0xF4, 0xF5, 0xF6, 0xF7];
    assert s[2..][2..][2..] == [0xF6, 0xF7];
    assert s[2..][2..][2..][2..] == [];
    assert OnesSum([0xF6, 0xF7]) == 0xF7F6;
    assert OnesSum([0xF4, 0xF5, 0xF6, 0xF7]) == 0xEDEB;
    var t: seq<Byte> := [0xFF, 0xFF, 0x03];
    assert t[2..] == [0x03];
  }

  // ------------------------------------------------- the sum before any folding

  /** The plain sum of the words, whose first byte is a low one ... */
  function Lo(s: seq<Byte>): nat {
    if s == [] then 0 else s[0] + Hi(s[1..])
  }

  /** ... or a high one. */
  function Hi(s: seq<Byte>): nat {
    if s == [] then 0 else 256 * s[0] + Lo(s[1..])
  }

  /** The same number in one's complement arithmetic: congruent modulo 65535, and zero
      only together. */
  predicate Alike(x: nat, y: nat) {
    (x - y) % 0xFFFF == 0 && (x == 0 <==> y == 0)
  }

  lemma AlikeUnique(x: nat, y: nat)
    requires Alike(x, y) && x <= 0xFFFF && y <= 0xFFFF
    ensures x == y
  {
  }

  lemma {:induction false} OnesSumAlike(s: seq<Byte>)
    ensures OnesSum(s) <= 0xFFFF && Alike(OnesSum(s), Lo(s))
  {
    if |s| == 1 {
      assert s[1..] == [];
    } else if |s| >= 2 {
      OnesSumAlike(s[2..]);
      assert s[1..][1..] == s[2..];
    }
  }

  /** Summing from the other byte of the word multiplies by 256: the sum of the swapped
      words is the swapped sum (RFC 1071, section 2). */
  lemma {:induction false} Swapped(s: seq<Byte>)
    ensures Alike(256 * Hi(s), Lo(s)) && Alike(256 * Lo(s), Hi(s))
  {
    if s != [] {
      Swapped(s[1..]);
    }
  }

  lemma SwapAlike(x: nat)
    requires x <= 0xFFFF
    ensures x / 256 + 256 * (x % 256) <= 0xFFFF && Alike(x / 256 + 256 * (x % 256), 256 * x)
  {
    assert 256 * x == 65536 * (x / 256) + 256 * (x % 256);
  }

  lemma NextTwo(s: seq<Byte>, i: nat)
    requires i + 2 <= |s|
    ensures Lo(s[i..]) == Word(s[i], s[i + 1]) + Lo(s[i + 2..])
  {
    assert s[i..][1..] == s[i + 1..] && s[i + 1..][1..] == s[i + 2..];
  }

  lemma LastOne(s: seq<Byte>, i: nat)
    requires i + 1 == |s|
    ensures Lo(s[i..]) == s[i]
  {
    assert s[i..][1..] == [];
  }

  lemma {:induction false} LoSplit(a: seq<Byte>, b: seq<Byte>)
    ensures Lo(a + b) == Lo(a) + (if |a| % 2 == 0 then Lo(b) else Hi(b))
    ensures Hi(a + b) == Hi(a) + (if |a| % 2 == 0 then Hi(b) else Lo(b))
  {
    if a == [] {
      assert a + b == b;
    } else {
      assert (a + b)[1..] == a[1..] + b;
      LoSplit(a[1..], b);
    }
  }

  // ------------------------------------------------------------------ the fast form

  /** from32to16: adding the upper half twice. */
  method From32To16(x0: nat) returns (r: nat)
    requires x0 < TWO_32
    ensures r <= 0xFFFF && Alike(r, x0)
  {
    var x := x0 % 65536 + x0 / 65536;
    x := x % 65536 + x / 65536;
    r := x % 65536;
  }

  /** One word of the main loop; the carry of the last addition is added first. */
  lemma CarryAround(result: nat, carry: nat, b0: Byte, b1: Byte, b2: Byte, b3: Byte, rest: nat)
    requires result < TWO_32 && carry <= 1 && (carry == 1 ==> result < TWO_32 - 1)
    ensures var w := Word4(b0, b1, b2, b3);
            var sum := U32(U32(result + carry) + w);
            var c := if w > sum then 1 else 0;
            && (c == 1 ==> sum < TWO_32 - 1)
            && Alike(sum + c + rest, result + carry + (Word(b0, b1) + Word(b2, b3) + rest))
  {
    var w := Word4(b0, b1, b2, b3);
    SmallMod(result + carry, TWO_32);
    if result + carry + w < TWO_32 {
      SmallMod(result + carry + w, TWO_32);
    } else {
      DivModUnique(result + carry + w, TWO_32, 1, result + carry + w - TWO_32);
    }
  }

  lemma AlikeTrans(x: nat, y: nat, z: nat)
    requires Alike(x, y) && Alike(y, z)
    ensures Alike(x, z)
  {
  }

  /** One round of the loop: the carry of the last addition and the next word. */
  method OneWord(buff: seq<Byte>, i: nat, result0: nat, carry0: nat) returns (result: nat, carry: nat)
    requires i + 4 <= |buff|
    requires result0 < TWO_32 && carry0 <= 1 && (carry0 == 1 ==> result0 < TWO_32 - 1)
    ensures result < TWO_32 && carry <= 1 && (carry == 1 ==> result < TWO_32 - 1)
    ensures Alike(result + carry + Lo(buff[i + 4..]), result0 + carry0 + Lo(buff[i..]))
  {
    var w := Word4(buff[i], buff[i + 1], buff[i + 2], buff[i + 3]);
    NextTwo(buff, i);
    NextTwo(buff, i + 2);
    CarryAround(result0, carry0, buff[i], buff[i + 1], buff[i + 2], buff[i + 3], Lo(buff[i + 4..]));
    hide Word4, Word, Lo, Alike;
    result := U32(result0 + carry0);
    result := U32(result + w);
    carry := if w > result then 1 else 0;
  }

  /** The do-while loop of do_csum, with the fold behind it. */
  method SumWords(buff: seq<Byte>, i0: nat, n: nat, result0: nat) returns (result: nat)
    requires n >= 4 && n % 4 == 0 && i0 + n <= |buff| && result0 < 0x1_FFFF
    ensures result <= 0x1_FFFE
    ensures Alike(result + Lo(buff[i0 + n..]), result0 + Lo(buff[i0..]))
  {
    ghost var total := result0 + Lo(buff[i0..]);
    var i, carry, end := i0, 0, i0 + n;
    result := result0;
    ghost var (m, rounds) := (0, n / 4);
    assert n == 4 * rounds && rounds >= 1;
    hide Lo, Hi;
    while true
      invariant i == i0 + 4 * m && m < rounds
      invariant result < TWO_32 && 0 <= carry <= 1 && (carry == 1 ==> result < TWO_32 - 1)
      invariant Alike(result + carry + Lo(buff[i..]), total)
      decreases rounds - m
    {
      ghost var before := result + carry + Lo(buff[i..]);
      result, carry := OneWord(buff, i, result, carry);
      i, m := i + 4, m + 1;
      AlikeTrans(result + carry + Lo(buff[i..]), before, total);
      hide Alike;
      if i >= end {
        break;
      }
    }
    SmallMod(result + carry, TWO_32);
    result := U32(result + carry);
    FoldAlike(result, Lo(buff[i..]), total);
    hide Alike;
    result := result % 65536 + result / 65536;
  }

  lemma FoldAlike(x: nat, rest: nat, total: nat)
    requires Alike(x + rest, total)
    ensures Alike(x % 65536 + x / 65536 + rest, total)
  {
    assert x == 65536 * (x / 65536) + x % 65536;
  }

  /** do_csum on the len bytes at an address of any alignment: the one's complement sum. */
  method DoCsum(buff: seq<Byte>, len0: int, address: nat) returns (r: nat)
    requires len0 <= |buff|
    ensures r == if len0 <= 0 then 0 else OnesSum(buff[..len0])
  {
    if len0 <= 0 {
      return 0;
    }
    var s := buff[..len0];
    var odd := address % 2;
    var (i, len, result) := (0, len0, 0);
    ghost var total := if odd == 1 then Hi(s) else Lo(s);
    if odd == 1 {
      result := Word(0, buff[0]);
      i, len := 1, len - 1;
    } else {
      assert s[0..] == s;
    }
    assert result + Lo(s[i..]) == total && result <= 0xFF00;
    r := Aligned(s, i, address + i, result);
    ghost var plain := r;
    if odd == 1 {
      SwapAlike(r);
      r := r / 256 + 256 * (r % 256);
    }
    OnesSumIs(s, odd == 1, plain, r);
  }

  /** The part of do_csum behind the odd byte. */
  method Aligned(s: seq<Byte>, i0: nat, address: nat, result0: nat) returns (r: nat)
    requires i0 <= |s| && result0 <= 0xFF00
    ensures r <= 0xFFFF && Alike(r, result0 + Lo(s[i0..]))
  {
    hide Lo, Word, Hi;
    var (i, result) := (i0, result0);
    if |s| - i >= 2 && address / 2 % 2 == 1 {
      NextTwo(s, i);
      i, result := i + 2, result + Word(s[i], s[i + 1]);
    }
    ghost var total := result0 + Lo(s[i0..]);
    assert Alike(result + Lo(s[i..]), total);
    r := Words(s, i, result, total);
  }

  /** The words of 32 bits, and what is left. */
  method Words(s: seq<Byte>, i0: nat, result0: nat, ghost total: nat) returns (r: nat)
    requires i0 <= |s| && result0 <= 0xFF00 + 0xFFFF && Alike(result0 + Lo(s[i0..]), total)
    ensures r <= 0xFFFF && Alike(r, total)
  {
    hide Lo, Hi;
    var (i, len, result) := (i0, |s| - i0, result0);
    if len >= 4 {
      var n := len - len % 4;
      result := SumWords(s, i, n, result);
      AlikeTrans(result + Lo(s[i + n..]), result0 + Lo(s[i..]), total);
      i := i + n;
    }
    hide Alike;
    r := Tail(s, i, result, total);
  }

  /** The last three bytes at most. */
  method Tail(s: seq<Byte>, i0: nat, result0: nat, ghost total: nat) returns (r: nat)
    requires i0 <= |s| <= i0 + 3 && result0 <= 0x1_FFFE + 0xFFFF && Alike(result0 + Lo(s[i0..]), total)
    ensures r <= 0xFFFF && Alike(r, total)
  {
    var (i, len, result) := (i0, |s| - i0, result0);
    if len / 2 % 2 == 1 {
      NextTwo(s, i);
      result := result + Word(s[i], s[i + 1]);
      i := i + 2;
    }
    if len % 2 == 1 {
      LastOne(s, i);
      result := result + s[i];
      i := i + 1;
    }
    assert s[i..] == [];
    assert result == result0 + Lo(s[i0..]);
    r := From32To16(result);
    AlikeTrans(r, result, total);
  }

  lemma OnesSumIs(s: seq<Byte>, odd: bool, plain: nat, r: nat)
    requires plain <= 0xFFFF && r <= 0xFFFF
    requires if odd then Alike(plain, Hi(s)) && Alike(r, 256 * plain) else Alike(plain, Lo(s)) && r == plain
    ensures r == OnesSum(s)
  {
    OnesSumAlike(s);
    Swapped(s);
    if odd {
      AlikeTimes(plain, Hi(s));
      AlikeTrans(r, 256 * plain, 256 * Hi(s));
      AlikeTrans(r, 256 * Hi(s), Lo(s));
    }
    AlikeSymmetric(OnesSum(s), Lo(s));
    AlikeTrans(r, Lo(s), OnesSum(s));
    AlikeUnique(r, OnesSum(s));
  }

  lemma AlikeSymmetric(x: nat, y: nat)
    requires Alike(x, y)
    ensures Alike(y, x)
  {
  }

  lemma AlikeTimes(x: nat, y: nat)
    requires Alike(x, y)
    ensures Alike(256 * x, 256 * y)
  {
  }

  /** ip_fast_csum. */
  method IpFastCsum(header: seq<Byte>, ihl: nat, address: nat) returns (check: nat)
    requires 4 * ihl <= |header|
    ensures check == Checksum(header[..4 * ihl])
  {
    var sum := DoCsum(header, ihl * 4, address);
    OnesSumAlike(header[..4 * ihl]);
    check := (TWO_32 - 1 - sum) % 65536;
  }
}
