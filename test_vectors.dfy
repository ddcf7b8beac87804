/**
 * The expected outputs of the repository's unit tests, derived from the
 * model: 192.168.0.1 and 2001:db8:abcd:1234::1 under several prefix lengths.
 * The labels are stated for single block addresses; the results of `ipv4`,
 * `ipv6` and `checkPrefixes` for every address of the test's network.
 */
module TestVectors {
  import opened Wrappers
  import opened Arith
  import opened Text
  import opened Netip
  import opened Subnets
  import opened Labels
  import opened InAddr

  const Rev1921680 := "0.168.192.in-addr.arpa."
  const Rev1921681 := "1.168.192.in-addr.arpa."
  const RevIPv64 := "4.3.2.1.d.c.b.a.8.b.d.0.1.0.0.2.in-addr.arpa."
  const RevIPv65 := "5.3.2.1.d.c.b.a.8.b.d.0.1.0.0.2.in-addr.arpa."

  /** Go's `%d` of the octets in the IPv4 vectors. */
  lemma DecimalOctets()
    ensures FormatUint(0, 10) == "0" && FormatUint(1, 10) == "1"
    ensures FormatUint(168, 10) == "168" && FormatUint(192, 10) == "192"
  {
  }

  /** The bytes of 192.168.0.0 and 192.168.1.0. */
  lemma V4VectorBytes()
    ensures As4(0xC0A8_0000) == [192, 168, 0, 0]
    ensures As4(0xC0A8_0100) == [192, 168, 1, 0]
  {
    assert BigEndian(0xC0, 1) == [192];
    assert BigEndian(0xC0A8, 2) == [192, 168];
    assert BigEndian(0xC0A8_00, 3) == [192, 168, 0];
    assert BigEndian(0xC0A8_01, 3) == [192, 168, 1];
  }

  /**
   * The pieces of the IPv4 vectors, joined. These string facts are lemmas of
   * their own so that the solver meets them apart from the label lemmas'
   * other facts; proved inside Rev4Zero and Rev4One they cost far more.
   */
  lemma V4TextZero()
    ensures "0" + "." + "168" + "." + "192" + "." + "in-addr.arpa." == Rev1921680
  {
  }

  lemma V4TextOne()
    ensures "1" + "." + "168" + "." + "192" + "." + "in-addr.arpa." == Rev1921681
  {
  }

  /** The label of 192.168.0.0/24. */
  lemma Rev4Zero()
    ensures V4Label(0xC0A8_0000) == Rev1921680
  {
    var b := As4(0xC0A8_0000);
    V4VectorBytes();
    V4LabelOctets(0xC0A8_0000);
    DecimalOctets();
    V4TextZero();
    assert FormatUint(b[2], 10) == "0";
    assert FormatUint(b[1], 10) == "168";
    assert FormatUint(b[0], 10) == "192";
  }

  /** The label of 192.168.1.0/24. */
  lemma Rev4One()
    ensures V4Label(0xC0A8_0100) == Rev1921681
  {
    var b := As4(0xC0A8_0100);
    V4VectorBytes();
    V4LabelOctets(0xC0A8_0100);
    DecimalOctets();
    V4TextOne();
    assert FormatUint(b[2], 10) == "1";
    assert FormatUint(b[1], 10) == "168";
    assert FormatUint(b[0], 10) == "192";
  }

  /** Every address of 192.168.0.0/24 and of 192.168.1.0/24 gets its label. */
  lemma Rev4Block(a: nat)
    ensures a / 256 == 0xC0A800 ==> V4Label(a) == Rev1921680
    ensures a / 256 == 0xC0A801 ==> V4Label(a) == Rev1921681
  {
    if a / 256 == 0xC0A800 {
      V4LabelSameBlock(a, 0xC0A8_0000);
      Rev4Zero();
    }
    if a / 256 == 0xC0A801 {
      V4LabelSameBlock(a, 0xC0A8_0100);
      Rev4One();
    }
  }

  /**
   * `ipv4` on 192.168.0.1/24 or /28, as on any address of 192.168.0.0/24
   * with a prefix length of 24 or more: the one label of that /24.
   */
  lemma Ipv4SingleVector(a: U32, bits: nat)
    requires a / 256 == 0xC0A800 && 24 <= bits <= 32
    ensures Ipv4Result(Prefix(V4(a), bits)) == Ok([Rev1921680])
  {
    Rev4Block(a);
    assert Blocks(a, 32, bits, V4SplitBits) == [a];
    assert V4Labels([a]) == [Rev1921680];
  }

  /** The network of any address of 192.168.0.0/23 is 192.168.0.0. */
  lemma Slash23Network(a: nat)
    requires a / 512 == 0x60_5400
    ensures ClearLow(a, 9) == 0xC0A8_0000
  {
    Pow2Widths();
    Pow2Add(8, 1);
    ClearLowValue(a, 9);
  }

  /**
   * `ipv4` on 192.168.0.1/23, as on any address of 192.168.0.0/23: the
   * labels of its two /24s, in order.
   */
  lemma Ipv4PairVector(p: Prefix)
    requires p.addr.V4? && p.addr.v4 / 512 == 0x60_5400 && p.bits == 23
    ensures Ipv4Result(p) == Ok([Rev1921680, Rev1921681])
  {
    var ls := Ipv4Result(p).value;
    Pair23Labels(p.addr.v4, p.bits, ls);
    assert ls == [Rev1921680, Rev1921681];
  }

  /** The two /24 blocks of any address of 192.168.0.0/23. */
  lemma Pair23Blocks(a: nat, bits: nat, bs: seq<nat>)
    requires a / 512 == 0x60_5400 && bits == 23 && bs == Blocks(a, 32, bits, V4SplitBits)
    ensures |bs| == 2 && bs[0] / 256 == 0xC0A800 && bs[1] / 256 == 0xC0A801
  {
    Slash23Network(a);
    Pow2Widths();
    assert |bs| == 2 by { assert Pow2(1) == 2; }
    assert ClearLow(a, 32 - bits) == 0xC0A8_0000;
    assert bs[0] == 0xC0A8_0000;
    assert bs[1] == BlockStart(ClearLow(a, 32 - bits), Pow2(32 - V4SplitBits), 1);
  }

  /** Their labels, by the label lemmas of each /24. */
  lemma Pair23Labels(a: nat, bits: nat, ls: seq<string>)
    requires a / 512 == 0x60_5400 && bits == 23 && ls == V4Labels(Blocks(a, 32, bits, V4SplitBits))
    ensures |ls| == 2 && ls[0] == Rev1921680 && ls[1] == Rev1921681
  {
    var bs := Blocks(a, 32, bits, V4SplitBits);
    Pair23Blocks(a, bits, bs);
    Rev4Block(bs[0]);
    Rev4Block(bs[1]);
  }

  /**
   * `checkPrefixes` on 192.168.0.1/23, as on any address of 192.168.0.0/23, gives the two labels; on the zero
   * prefix that parsing "0.0.0.0" or "::" as a prefix yields, it fails.
   */
  lemma CheckPrefixesVectors(a: U32)
    requires a / 512 == 0x60_5400
    ensures CheckResult(Prefix(V4(a), 23)) == Ok([Rev1921680, Rev1921681])
    ensures CheckResult(InvalidPrefix).Err?
  {
    CheckOutcome(Prefix(V4(a), 23));
    Ipv4PairVector(Prefix(V4(a), 23));
  }

  /** Clearing the host bits of a /64, or of a /63 from an even /64, keeps the /64 number. */
  lemma V6Network(a: nat, h: nat, n: nat)
    requires (h == 64 && a / 0x1_0000_0000_0000_0000 == n) || (h == 65 && a / 0x2_0000_0000_0000_0000 == n / 2 && n % 2 == 0)
    ensures ClearLow(a, h) / 0x1_0000_0000_0000_0000 == n
  {
    Pow2Widths();
    ClearLowValue(a, h);
    if h == 65 {
      Pow2Add(64, 1);
      assert Pow2(h) == 2 * 0x1_0000_0000_0000_0000;
    }
  }

  /** A label depends only on the eight leading bytes the loop reads. */
  lemma {:induction false} V6TailPrefix(bits: seq<Byte>, lo: nat)
    requires lo <= 8 <= |bits|
    ensures V6Tail(bits, lo) == V6Tail(bits[..8], lo)
    decreases 8 - lo
  {
    if lo < 8 {
      V6TailPrefix(bits, lo + 1);
      assert bits[..8][lo] == bits[lo];
    }
  }

  /** The eight leading bytes of an address are the bytes of its /64 number. */
  lemma V6LeadingBytes(a: nat, n: nat)
    requires a / 0x1_0000_0000_0000_0000 == n
    ensures As16(a)[..8] == BigEndian(n, 8)
  {
    Pow2Widths();
    BigEndianHigh(a, 8, 8);
  }

  /**
   * An address whose /64 number has bytes bs gets the label that the loop's
   * text of bs and the zone make.
   */
  lemma V6LabelOfBytes(a: nat, n: nat, bs: seq<Byte>, text: string)
    requires a / 0x1_0000_0000_0000_0000 == n && BigEndian(n, 8) == bs
    requires V6Tail(bs, 0) == text
    ensures V6Label(a) == text + Suffix
  {
    V6LeadingBytes(a, n);
    V6TailPrefix(As16(a), 0);
    V6TailLabel(a);
  }

  /** The bytes of /64 numbers 0x2001_0db8_abcd_1234 and 0x2001_0db8_abcd_1235. */
  lemma V6VectorBytes()
    ensures BigEndian(0x2001_0db8_abcd_1234, 8) == [0x20, 0x01, 0x0d, 0xb8, 0xab, 0xcd, 0x12, 0x34]
    ensures BigEndian(0x2001_0db8_abcd_1235, 8) == [0x20, 0x01, 0x0d, 0xb8, 0xab, 0xcd, 0x12, 0x35]
  {
    assert BigEndian(0x20, 1) == [0x20];
    assert BigEndian(0x2001, 2) == [0x20, 0x01];
    assert BigEndian(0x2001_0d, 3) == [0x20, 0x01, 0x0d];
    assert BigEndian(0x2001_0db8, 4) == [0x20, 0x01, 0x0d, 0xb8];
    assert BigEndian(0x2001_0db8_ab, 5) == [0x20, 0x01, 0x0d, 0xb8, 0xab];
    assert BigEndian(0x2001_0db8_abcd, 6) == [0x20, 0x01, 0x0d, 0xb8, 0xab, 0xcd];
    assert BigEndian(0x2001_0db8_abcd_12, 7) == [0x20, 0x01, 0x0d, 0xb8, 0xab, 0xcd, 0x12];
  }

  /** The loop's text for the bytes of /64 number 0x2001_0db8_abcd_1234. */
  lemma V6TailText64(bs: seq<Byte>)
    requires bs == [0x20, 0x01, 0x0d, 0xb8, 0xab, 0xcd, 0x12, 0x34]
    ensures V6Tail(bs, 0) == "4.3.2.1.d.c.b.a.8.b.d.0.1.0.0.2."
  {
    assert V6Tail(bs, 7) == "4.3.";
    assert V6Tail(bs, 6) == "4.3.2.1.";
    assert V6Tail(bs, 5) == "4.3.2.1.d.c.";
    assert V6Tail(bs, 4) == "4.3.2.1.d.c.b.a.";
    assert V6Tail(bs, 3) == "4.3.2.1.d.c.b.a.8.b.";
    assert V6Tail(bs, 2) == "4.3.2.1.d.c.b.a.8.b.d.0.";
    assert V6Tail(bs, 1) == "4.3.2.1.d.c.b.a.8.b.d.0.1.0.";
  }

  /** The loop's text for the bytes of /64 number 0x2001_0db8_abcd_1235. */
  lemma V6TailText65(bs: seq<Byte>)
    requires bs == [0x20, 0x01, 0x0d, 0xb8, 0xab, 0xcd, 0x12, 0x35]
    ensures V6Tail(bs, 0) == "5.3.2.1.d.c.b.a.8.b.d.0.1.0.0.2."
  {
    assert V6Tail(bs, 7) == "5.3.";
    assert V6Tail(bs, 6) == "5.3.2.1.";
    assert V6Tail(bs, 5) == "5.3.2.1.d.c.";
    assert V6Tail(bs, 4) == "5.3.2.1.d.c.b.a.";
    assert V6Tail(bs, 3) == "5.3.2.1.d.c.b.a.8.b.";
    assert V6Tail(bs, 2) == "5.3.2.1.d.c.b.a.8.b.d.0.";
    assert V6Tail(bs, 1) == "5.3.2.1.d.c.b.a.8.b.d.0.1.0.";
  }

  /** The loop's texts, then the zone. */
  lemma RevIPv6Text()
    ensures "4.3.2.1.d.c.b.a.8.b.d.0.1.0.0.2." + Suffix == RevIPv64
    ensures "5.3.2.1.d.c.b.a.8.b.d.0.1.0.0.2." + Suffix == RevIPv65
  {
  }

  /** The label of 2001:db8:abcd:1234::/64. */
  lemma Rev64Block(a: nat)
    requires a / 0x1_0000_0000_0000_0000 == 0x2001_0db8_abcd_1234
    ensures V6Label(a) == RevIPv64
  {
    var bs := BigEndian(0x2001_0db8_abcd_1234, 8);
    V6VectorBytes();
    V6TailText64(bs);
    V6LabelOfBytes(a, 0x2001_0db8_abcd_1234, bs, "4.3.2.1.d.c.b.a.8.b.d.0.1.0.0.2.");
    RevIPv6Text();
  }

  /** The label of 2001:db8:abcd:1235::/64. */
  lemma Rev65Block(a: nat)
    requires a / 0x1_0000_0000_0000_0000 == 0x2001_0db8_abcd_1235
    ensures V6Label(a) == RevIPv65
  {
    var bs := BigEndian(0x2001_0db8_abcd_1235, 8);
    V6VectorBytes();
    V6TailText65(bs);
    V6LabelOfBytes(a, 0x2001_0db8_abcd_1235, bs, "5.3.2.1.d.c.b.a.8.b.d.0.1.0.0.2.");
    RevIPv6Text();
  }

  /**
   * `ipv6` on 2001:db8:abcd:1234::1/128 and /64, as on any address of
   * 2001:db8:abcd:1234::/64 with a prefix length of 64 or more: revIPv64.
   */
  lemma Ipv6SingleVector(a: U128, bits: nat)
    requires a / 0x1_0000_0000_0000_0000 == 0x2001_0db8_abcd_1234 && 64 <= bits <= 128
    ensures Ipv6Result(Prefix(V6(a), bits)) == Ok([RevIPv64])
  {
    Rev64Block(a);
    assert Blocks(a, 128, bits, V6SplitBits) == [a];
    assert V6Labels([a]) == [RevIPv64];
  }

  /** The two /64 blocks of any address of 2001:db8:abcd:1234::/63. */
  lemma Pair63Blocks(a: nat, bits: nat, bs: seq<nat>)
    requires a / 0x2_0000_0000_0000_0000 == 0x1000_86dc_55e6_891a && a < 0x1_0000_0000_0000_0000_0000_0000_0000_0000
    requires bits == 63 && bs == Blocks(a, 128, bits, V6SplitBits)
    ensures |bs| == 2
    ensures bs[0] / 0x1_0000_0000_0000_0000 == 0x2001_0db8_abcd_1234
    ensures bs[1] / 0x1_0000_0000_0000_0000 == 0x2001_0db8_abcd_1235
  {
    var p := Prefix(V6(a), bits);
    V6Network(a, 65, 0x2001_0db8_abcd_1234);
    V6BlocksNumbered(p);
    assert |bs| == 2 by { assert Pow2(1) == 2; }
    assert HostBits(p) == 65;
  }

  /** Their labels, by the label lemmas of each /64. */
  lemma Pair63Labels(a: nat, bits: nat, ls: seq<string>)
    requires a / 0x2_0000_0000_0000_0000 == 0x1000_86dc_55e6_891a && a < 0x1_0000_0000_0000_0000_0000_0000_0000_0000
    requires bits == 63 && ls == V6Labels(Blocks(a, 128, bits, V6SplitBits))
    ensures |ls| == 2 && ls[0] == RevIPv64 && ls[1] == RevIPv65
  {
    var bs := Blocks(a, 128, bits, V6SplitBits);
    Pair63Blocks(a, bits, bs);
    Rev64Block(bs[0]);
    Rev65Block(bs[1]);
  }

  /**
   * `ipv6` on 2001:db8:abcd:1234::1/63, as on any address of
   * 2001:db8:abcd:1234::/63: revIPv64 and revIPv65, in that order.
   */
  lemma Ipv6PairVector(p: Prefix)
    requires p.addr.V6? && p.addr.v6 / 0x2_0000_0000_0000_0000 == 0x1000_86dc_55e6_891a && p.bits == 63
    ensures Ipv6Result(p) == Ok([RevIPv64, RevIPv65])
  {
    var ls := Ipv6Result(p).value;
    Pair63Labels(p.addr.v6, p.bits, ls);
    assert ls == [RevIPv64, RevIPv65];
  }

  /** `checkPrefixes` on 2001:db8:abcd:1234::1/63 gives revIPv64 and revIPv65. */
  lemma CheckPrefixesV6Vector(a: U128)
    requires a / 0x2_0000_0000_0000_0000 == 0x1000_86dc_55e6_891a
    ensures CheckResult(Prefix(V6(a), 63)) == Ok([RevIPv64, RevIPv65])
  {
    CheckOutcome(Prefix(V6(a), 63));
    Ipv6PairVector(Prefix(V6(a), 63));
  }
}
