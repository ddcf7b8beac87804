/**
 * Reverse-DNS labels. A label names a block by the digits of its network
 * address in reverse order, each followed by a dot, then the zone: three
 * decimal octets for an IPv4 /24 (section 3.5 of RFC 1035) and sixteen hex
 * nibbles for an IPv6 /64 (section 2.5 of RFC 3596). The tool ends both
 * families with the same zone, "in-addr.arpa.".
 */
module Labels {
  import opened Wrappers
  import opened Arith
  import opened Text
  import opened Netip

  /** The zone every label ends in, for both families as the tool writes it. */
  const Suffix := "in-addr.arpa."

  /** The numerals of xs, last element first. */
  function ReverseFormatted(xs: seq<nat>, base: nat): (fs: seq<string>)
    requires base == 10 || base == 16
    ensures |fs| == |xs|
    ensures forall k :: 0 <= k < |fs| ==> fs[k] == FormatUint(xs[|xs| - 1 - k], base)
  {
    if xs == [] then [] else ReverseFormatted(xs[1..], base) + [FormatUint(xs[0], base)]
  }

  /** The nibbles of bytes, most significant first: high nibble, then low nibble of each byte. */
  function Nibbles(bs: seq<Byte>): (ns: seq<nat>)
    ensures |ns| == 2 * |bs|
    ensures forall i :: 0 <= i < |ns| ==> ns[i] < 16
  {
    if bs == [] then []
    else Nibbles(bs[..|bs| - 1]) + [bs[|bs| - 1] / 16, bs[|bs| - 1] % 16]
  }

  /** Byte k gives nibbles 2k (its high half) and 2k + 1 (its low half). */
  lemma {:induction false} NibblesAt(bs: seq<Byte>, k: nat)
    requires k < |bs|
    ensures Nibbles(bs)[2 * k] == bs[k] / 16 && Nibbles(bs)[2 * k + 1] == bs[k] % 16
  {
    var init := bs[..|bs| - 1];
    if k < |bs| - 1 {
      NibblesAt(init, k);
      assert Nibbles(bs)[2 * k] == Nibbles(init)[2 * k];
      assert Nibbles(bs)[2 * k + 1] == Nibbles(init)[2 * k + 1];
    }
  }

  /** Read in base 16, the nibbles are worth what the bytes are in base 256. */
  lemma {:induction false} NibblesValue(bs: seq<Byte>)
    ensures FromDigits(Nibbles(bs), 16) == FromDigits(bs, 256)
  {
    if bs != [] {
      var b, init := bs[|bs| - 1], bs[..|bs| - 1];
      var ns := Nibbles(bs);
      var half := Nibbles(init) + [b / 16];
      NibblesValue(init);
      assert ns[..|ns| - 1] == half;
      assert half[..|half| - 1] == Nibbles(init);
      assert FromDigits(ns, 16) == (FromDigits(Nibbles(init), 16) * 16 + b / 16) * 16 + b % 16;
    }
  }

  lemma NibblesCons(b: Byte, rest: seq<Byte>)
    ensures Nibbles([b] + rest) == [b / 16, b % 16] + Nibbles(rest)
  {
    var l := Nibbles([b] + rest);
    var r := [b / 16, b % 16] + Nibbles(rest);
    forall i | 0 <= i < |l|
      ensures l[i] == r[i]
    {
      var k := i / 2;
      NibblesAt([b] + rest, k);
      if k > 0 {
        NibblesAt(rest, k - 1);
        assert ([b] + rest)[k] == rest[k - 1];
      }
    }
  }

  /** The label of an IPv4 /24: octets 2, 1, 0 of the address in decimal. */
  function V4Label(a: nat): string
  {
    Joined(ReverseFormatted(As4(a)[..3], 10), '.') + Suffix
  }

  /** The label of an IPv6 /64: the nibbles of the first 8 bytes, reversed, in hex. */
  function V6Label(a: nat): string
  {
    Joined(ReverseFormatted(Nibbles(As16(a)[..8]), 16), '.') + Suffix
  }

  /** Reads reversed numerals back into the order they were written from. */
  function ParseReversed(fs: seq<string>, base: nat): (xs: seq<nat>)
    ensures |xs| == |fs|
  {
    if fs == [] then [] else [ParseUint(fs[|fs| - 1], base)] + ParseReversed(fs[..|fs| - 1], base)
  }

  lemma {:induction false} ParseReverseFormatted(xs: seq<nat>, base: nat)
    requires base == 10 || base == 16
    ensures ParseReversed(ReverseFormatted(xs, base), base) == xs
  {
    if xs != [] {
      var fs := ReverseFormatted(xs, base);
      assert fs[..|fs| - 1] == ReverseFormatted(xs[1..], base);
      ParseReverseFormatted(xs[1..], base);
      assert xs == [xs[0]] + xs[1..];
    }
  }

  /**
   * Reads a label made of n numerals and the zone, giving the numbers in the
   * order they stand in the address; None for any other text.
   */
  function ParseLabel(s: string, base: nat, n: nat): Option<seq<nat>>
  {
    var fs := Fields(s, '.');
    if |fs| == n + 3 && fs[n..] == ["in-addr", "arpa", ""] &&
       forall k :: 0 <= k < n ==> IsNumeral(fs[k], base)
    then Some(ParseReversed(fs[..n], base))
    else None
  }

  /** The value of the three octets an IPv4 label names: the address divided by 256. */
  function ParseV4Label(s: string): Option<nat>
  {
    match ParseLabel(s, 10, 3)
    case Some(bs) => if forall k :: 0 <= k < |bs| ==> bs[k] < 256 then Some(FromDigits(bs, 256)) else None
    case None => None
  }

  /** The value of the sixteen nibbles an IPv6 label names: the address divided by 2^64. */
  function ParseV6Label(s: string): Option<nat>
  {
    match ParseLabel(s, 16, 16)
    case Some(ns) => Some(FromDigits(ns, 16))
    case None => None
  }

  /** The zone is its two labels, each followed by a dot. */
  lemma SuffixJoined()
    ensures Joined(["in-addr", "arpa"], '.') == Suffix
  {
    var zone := ["in-addr", "arpa"];
    assert zone[1..] == ["arpa"] && zone[1..][1..] == [];
  }

  /** No numeral and no label of the zone holds a dot. */
  lemma NoDots(fs: seq<string>, base: nat)
    requires forall k :: 0 <= k < |fs| ==> IsNumeral(fs[k], base)
    ensures forall k :: 0 <= k < |fs + ["in-addr", "arpa"]| ==> '.' !in (fs + ["in-addr", "arpa"])[k]
  {
    var zs := fs + ["in-addr", "arpa"];
    forall k | 0 <= k < |zs|
      ensures '.' !in zs[k]
    {
      if k < |fs| {
        assert zs[k] == fs[k];
        NumeralWithout(fs[k], base, '.');
      } else if k == |fs| {
        assert zs[k] == "in-addr";
      } else {
        assert zs[k] == "arpa";
      }
    }
  }

  /**
   * Appending one more element to a two-element tail. Kept as a lemma of its
   * own: the step is obvious, but proving it inside FieldsOfFormatted, among
   * that lemma's facts about Fields and Joined, costs the solver far more.
   */
  lemma AppendLast<T>(xs: seq<T>, a: T, b: T, c: T)
    ensures xs + [a, b] + [c] == xs + [a, b, c]
  {
  }

  /** A formatted label cuts into its numerals and the zone's two labels and root. */
  lemma FieldsOfFormatted(xs: seq<nat>, base: nat)
    requires base == 10 || base == 16
    ensures Fields(Joined(ReverseFormatted(xs, base), '.') + Suffix, '.')
      == ReverseFormatted(xs, base) + ["in-addr", "arpa", ""]
  {
    var fs := ReverseFormatted(xs, base);
    var zs := fs + ["in-addr", "arpa"];
    SuffixJoined();
    JoinedAppend(fs, ["in-addr", "arpa"], '.');
    NoDots(fs, base);
    FieldsOfJoinedAll(zs, '.');
    AppendLast(fs, "in-addr", "arpa", "");
  }

  /** A label made by formatting xs reads back as xs. */
  lemma ParseLabelOfFormatted(xs: seq<nat>, base: nat)
    requires base == 10 || base == 16
    ensures ParseLabel(Joined(ReverseFormatted(xs, base), '.') + Suffix, base, |xs|) == Some(xs)
  {
    var fs := ReverseFormatted(xs, base);
    var all := fs + ["in-addr", "arpa", ""];
    FieldsOfFormatted(xs, base);
    assert all[..|xs|] == fs && all[|xs|..] == ["in-addr", "arpa", ""];
    ParseReverseFormatted(xs, base);
  }

  /** Octets 0 to 2 of an IPv4 address, read as a number, are the address divided by 256. */
  lemma V4BlockBytes(a: nat)
    requires a < 0x1_0000_0000
    ensures FromDigits(As4(a)[..3], 256) == a / 256
  {
    assert As4(a)[..3] == BigEndian(a / 256, 3);
    assert a / 256 < Pow2(24) by {
      Pow2Widths();
      Pow2Add(8, 24);
      DivBelow(a, 256, Pow2(24));
    }
    BigEndianValue(a / 256, 3);
  }

  /** The nibbles of bytes 0 to 7 of an IPv6 address, read as a number, are the address divided by 2^64. */
  lemma V6BlockNibbles(a: nat)
    requires a < 0x1_0000_0000_0000_0000_0000_0000_0000_0000
    ensures FromDigits(Nibbles(As16(a)[..8]), 16) == a / 0x1_0000_0000_0000_0000
  {
    Pow2Widths();
    BigEndianHigh(a, 8, 8);
    assert a / Pow2(64) < Pow2(64) by {
      Pow2Add(64, 64);
      DivBelow(a, Pow2(64), Pow2(64));
    }
    BigEndianValue(a / Pow2(64), 8);
    NibblesValue(As16(a)[..8]);
  }

  /** Reading an IPv4 label back recovers the /24 it names. */
  lemma V4LabelRoundTrip(a: nat)
    requires a < 0x1_0000_0000
    ensures ParseV4Label(V4Label(a)) == Some(a / 256)
  {
    var bs := As4(a)[..3];
    ParseLabelOfFormatted(bs, 10);
    V4BlockBytes(a);
  }

  /** Reading an IPv6 label back recovers the /64 it names. */
  lemma V6LabelRoundTrip(a: nat)
    requires a < 0x1_0000_0000_0000_0000_0000_0000_0000_0000
    ensures ParseV6Label(V6Label(a)) == Some(a / 0x1_0000_0000_0000_0000)
  {
    ParseLabelOfFormatted(Nibbles(As16(a)[..8]), 16);
    V6BlockNibbles(a);
  }

  /** Two IPv4 addresses get the same label exactly when they lie in the same /24. */
  lemma V4LabelSameBlock(a: nat, b: nat)
    requires a < 0x1_0000_0000 && b < 0x1_0000_0000
    ensures V4Label(a) == V4Label(b) <==> a / 256 == b / 256
  {
    if a / 256 == b / 256 {
      assert As4(a)[..3] == BigEndian(a / 256, 3);
      assert As4(b)[..3] == BigEndian(b / 256, 3);
    }
    if V4Label(a) == V4Label(b) {
      V4LabelRoundTrip(a);
      V4LabelRoundTrip(b);
    }
  }

  /** Two IPv6 addresses get the same label exactly when they lie in the same /64. */
  lemma V6LabelSameBlock(a: nat, b: nat)
    requires a < 0x1_0000_0000_0000_0000_0000_0000_0000_0000 && b < 0x1_0000_0000_0000_0000_0000_0000_0000_0000
    ensures V6Label(a) == V6Label(b) <==> a / 0x1_0000_0000_0000_0000 == b / 0x1_0000_0000_0000_0000
  {
    Pow2Widths();
    if a / 0x1_0000_0000_0000_0000 == b / 0x1_0000_0000_0000_0000 {
      BigEndianHigh(a, 8, 8);
      BigEndianHigh(b, 8, 8);
    }
    if V6Label(a) == V6Label(b) {
      V6LabelRoundTrip(a);
      V6LabelRoundTrip(b);
    }
  }

  /** The IPv4 label spelled out: octets 2, 1 and 0 in decimal, then the zone. */
  lemma V4LabelOctets(a: nat)
    ensures var b := As4(a);
      V4Label(a) == FormatUint(b[2], 10) + "." + FormatUint(b[1], 10) + "." +
                    FormatUint(b[0], 10) + "." + "in-addr.arpa."
  {
    var b := As4(a);
    var fs := ReverseFormatted(b[..3], 10);
    var x, y, z := FormatUint(b[2], 10), FormatUint(b[1], 10), FormatUint(b[0], 10);
    assert fs == [x, y, z] by {
      assert fs[0] == x && fs[1] == y && fs[2] == z;
    }
    JoinedThree(x, y, z, '.');
  }

  /** Pieces of one character each, every one followed by sep. */
  lemma {:induction false} JoinedSingles(xs: seq<string>, sep: char)
    requires forall k :: 0 <= k < |xs| ==> |xs[k]| == 1
    ensures |Joined(xs, sep)| == 2 * |xs|
    ensures forall j :: 0 <= j < |xs| ==> Joined(xs, sep)[2 * j] == xs[j][0] && Joined(xs, sep)[2 * j + 1] == sep
  {
    if xs != [] {
      JoinedSingles(xs[1..], sep);
      var s := Joined(xs, sep);
      assert s == xs[0] + [sep] + Joined(xs[1..], sep);
      forall j | 0 <= j < |xs|
        ensures s[2 * j] == xs[j][0] && s[2 * j + 1] == sep
      {
        if j > 0 {
          assert s[2 * j] == Joined(xs[1..], sep)[2 * (j - 1)];
          assert s[2 * j + 1] == Joined(xs[1..], sep)[2 * (j - 1) + 1];
        }
      }
    }
  }

  /** Every digit of a label is a one-character numeral. */
  lemma DigitsFormatted(ns: seq<nat>)
    requires forall i :: 0 <= i < |ns| ==> ns[i] < 16
    ensures var fs := ReverseFormatted(ns, 16);
      forall j :: 0 <= j < |fs| ==> fs[j] == [DigitChar(ns[|ns| - 1 - j])]
  {
  }

  /** The nibble form of the IPv6 label: digit j is nibble 15 - j. */
  lemma V6LabelDigits(a: nat)
    ensures |V6Label(a)| == 32 + |Suffix| && V6Label(a)[32..] == Suffix
    ensures var ns := Nibbles(As16(a)[..8]);
      forall j :: 0 <= j < 16 ==> V6Label(a)[2 * j] == DigitChar(ns[15 - j]) && V6Label(a)[2 * j + 1] == '.'
  {
    var ns := Nibbles(As16(a)[..8]);
    var fs := ReverseFormatted(ns, 16);
    var s := V6Label(a);
    DigitsFormatted(ns);
    JoinedSingles(fs, '.');
    assert s == Joined(fs, '.') + Suffix;
    forall j | 0 <= j < 16
      ensures s[2 * j] == DigitChar(ns[15 - j]) && s[2 * j + 1] == '.'
    {
      assert s[2 * j] == Joined(fs, '.')[2 * j] == fs[j][0];
    }
  }

  /**
   * The IPv6 label spelled out: sixteen one-digit hex labels. Read as
   * section 2.5 of RFC 3596 writes it, they are the nibbles of the first
   * eight bytes in reverse order; read byte by byte, bytes 7 down to 0 each
   * give their low nibble, then their high nibble.
   */
  lemma V6LabelNibbles(a: nat)
    ensures |V6Label(a)| == 32 + |Suffix| && V6Label(a)[32..] == Suffix
    ensures forall j :: 0 <= j < 16 ==> V6Label(a)[2 * j + 1] == '.'
    ensures var b := As16(a);
      forall k :: 0 <= k < 8 ==>
        V6Label(a)[4 * k] == DigitChar(b[7 - k] % 16) && V6Label(a)[4 * k + 2] == DigitChar(b[7 - k] / 16)
  {
    V6LabelDigits(a);
    forall k | 0 <= k < 8
      ensures V6Label(a)[4 * k] == DigitChar(As16(a)[7 - k] % 16)
      ensures V6Label(a)[4 * k + 2] == DigitChar(As16(a)[7 - k] / 16)
    {
      V6LabelByte(a, k);
    }
  }

  /** Digits 2k and 2k + 1 of a sixteen-digit label are nibbles 2(7 - k) + 1 and 2(7 - k). */
  lemma DigitPair(s: string, ns: seq<nat>, k: nat)
    requires k < 8 && |ns| == 16 && |s| >= 32
    requires forall i :: 0 <= i < 16 ==> ns[i] < 16
    requires forall j :: 0 <= j < 16 ==> s[2 * j] == DigitChar(ns[15 - j])
    ensures s[4 * k] == DigitChar(ns[2 * (7 - k) + 1]) && s[4 * k + 2] == DigitChar(ns[2 * (7 - k)])
  {
    var lo, hi := 2 * k, 2 * k + 1;
    assert s[2 * lo] == DigitChar(ns[15 - lo]);
    assert s[2 * hi] == DigitChar(ns[15 - hi]);
  }

  /** Byte 7 - k of the address gives digits 2k (its low nibble) and 2k + 1 (its high nibble). */
  lemma V6LabelByte(a: nat, k: nat)
    requires k < 8
    ensures 4 * k + 2 < |V6Label(a)|
    ensures V6Label(a)[4 * k] == DigitChar(As16(a)[7 - k] % 16)
    ensures V6Label(a)[4 * k + 2] == DigitChar(As16(a)[7 - k] / 16)
  {
    var bs := As16(a)[..8];
    V6LabelDigits(a);
    DigitPair(V6Label(a), Nibbles(bs), k);
    NibblesAt(bs, 7 - k);
    assert bs[7 - k] == As16(a)[7 - k];
  }
}
