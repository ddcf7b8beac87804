/**
 * The in-addr command: given an IPv4 or IPv6 prefix, list the reverse-DNS
 * labels of the /24 (IPv4) or /64 (IPv6) blocks that cover it, or report why
 * the input is refused.
 */
module InAddr {
  import opened Wrappers
  import opened Arith
  import opened Text
  import opened Netip
  import opened Subnets
  import opened Labels

  /** The length IPv4 prefixes are split down to. */
  const V4SplitBits: nat := 24
  /** The length IPv6 prefixes are split down to. */
  const V6SplitBits: nat := 64
  /** How many bytes an IPv6 address takes. */
  const V6Bytes: nat := 16

  const BitsizeNotHandled := "exception in checkPrefixes, bitsize not handled"
  const InvalidInput := "invalid input, does not match IP Address or Prefix"
  const NoSubnetMask := "does not include a subnet mask, try"

  /**
   * An error the tool returns: a message of its own, or a failure reported
   * by the netaddr library, whose wording is not modelled.
   */
  datatype Error = Message(text: string) | NetaddrFailure

  /*
   * fatal
   */

  /** The text `fatal` builds: the tag, then every token followed by a space. */
  function FatalText(m: seq<string>): string
  {
    "[FATAL] " + Joined(m, ' ')
  }

  method Fatal(m: seq<string>) returns (s: string)
    ensures s == FatalText(m)
  {
    s := "[FATAL] ";
    for i := 0 to |m|
      invariant s == "[FATAL] " + Joined(m[..i], ' ')
    {
      JoinedAppend(m[..i], [m[i]], ' ');
      assert m[..i + 1] == m[..i] + [m[i]];
      s := s + m[i] + " ";
    }
    assert m[..|m|] == m;
  }

  /** Splitting the text at spaces gives back the tag and the tokens. */
  lemma FatalFields(m: seq<string>)
    requires forall k :: 0 <= k < |m| ==> ' ' !in m[k]
    ensures Fields(FatalText(m), ' ') == ["[FATAL]"] + m + [""]
  {
    var all := ["[FATAL]"] + m;
    forall k | 0 <= k < |all|
      ensures ' ' !in all[k]
    {
      if k > 0 {
        assert all[k] == m[k - 1];
      }
    }
    assert Joined(all, ' ') == "[FATAL]" + [' '] + Joined(m, ' ');
    assert all[1..] == m;
    assert "[FATAL]" + [' '] == "[FATAL] ";
    assert FatalText(m) == Joined(all, ' ');
    FieldsOfJoinedAll(all, ' ');
  }

  lemma FatalExample()
    ensures FatalText(["this", "is", "a", "test"]) == "[FATAL] this is a test "
  {
    JoinedAppend(["this"], ["is", "a", "test"], ' ');
    JoinedThree("is", "a", "test", ' ');
    assert ["this"] + ["is", "a", "test"] == ["this", "is", "a", "test"];
    assert ["this"][1..] == [];
  }

  /*
   * Rendering one block
   */

  /** Reverse-formatting a longer sequence appends the numeral of its new head. */
  lemma ReverseFormattedCons(x: nat, xs: seq<nat>, base: nat)
    requires base == 10 || base == 16
    ensures ReverseFormatted([x] + xs, base) == ReverseFormatted(xs, base) + [FormatUint(x, base)]
  {
    assert ([x] + xs)[1..] == xs;
  }

  /** One octet more: its numeral and a dot follow the text so far. */
  lemma V4Step(x: nat, rest: seq<nat>)
    ensures Joined(ReverseFormatted([x] + rest, 10), '.')
      == Joined(ReverseFormatted(rest, 10), '.') + FormatUint(x, 10) + "."
  {
    ReverseFormattedCons(x, rest, 10);
    JoinedSnoc(ReverseFormatted(rest, 10), FormatUint(x, 10), '.');
  }

  /**
   * The inner loop of `ipv4`: octets 2 down to 0 of the block's network
   * address, each in decimal and followed by a dot, then the zone.
   */
  method RenderV4(a: nat) returns (rendered: string)
    ensures rendered == V4Label(a)
  {
    var bytes: seq<nat> := As4(a);
    var reversed := "";
    var segment := |bytes| - 2;
    while segment >= 0
      invariant -1 <= segment <= 2
      invariant reversed == Joined(ReverseFormatted(bytes[segment + 1..3], 10), '.')
      decreases segment
    {
      var x, rest := bytes[segment], bytes[segment + 1..3];
      assert bytes[segment..3] == [x] + rest;
      V4Step(x, rest);
      reversed := reversed + FormatUint(x, 10) + ".";
      segment := segment - 1;
    }
    assert bytes[0..3] == bytes[..3];
    rendered := reversed + "in-addr.arpa.";
  }

  /** Two digits more, high then low: the low digit's numeral comes first. */
  lemma V6Pair(high: nat, low: nat, ns: seq<nat>)
    ensures Joined(ReverseFormatted([high, low] + ns, 16), '.')
      == Joined(ReverseFormatted(ns, 16), '.') + FormatUint(low, 16) + "." + FormatUint(high, 16) + "."
  {
    var fs := ReverseFormatted(ns, 16);
    assert [high, low] + ns == [high] + ([low] + ns);
    ReverseFormattedCons(high, [low] + ns, 16);
    ReverseFormattedCons(low, ns, 16);
    JoinedSnoc(fs, FormatUint(low, 16), '.');
    JoinedSnoc(fs + [FormatUint(low, 16)], FormatUint(high, 16), '.');
  }

  /** One byte more: its low nibble, then its high nibble, in hex, each with a dot. */
  lemma V6Step(b: Byte, rest: seq<Byte>)
    ensures Joined(ReverseFormatted(Nibbles([b] + rest), 16), '.')
      == Joined(ReverseFormatted(Nibbles(rest), 16), '.') +
         FormatUint(b % 16, 16) + "." + FormatUint(b / 16, 16) + "."
  {
    NibblesCons(b, rest);
    V6Pair(b / 16, b % 16, Nibbles(rest));
  }

  /** Byte `segment` of the eight leading bytes, in the form the loop appends it. */
  lemma V6Segment(bits: seq<Byte>, segment: nat)
    requires segment < 8 <= |bits|
    ensures Joined(ReverseFormatted(Nibbles(bits[segment..8]), 16), '.')
      == Joined(ReverseFormatted(Nibbles(bits[segment + 1..8]), 16), '.') +
         FormatUint(bits[segment] % 16, 16) + "." + FormatUint(bits[segment] / 16, 16) + "."
  {
    assert bits[segment..8] == [bits[segment]] + bits[segment + 1..8];
    V6Step(bits[segment], bits[segment + 1..8]);
  }

  /** What the inner loop of `ipv6` has built once bytes 7 down to lo are appended. */
  function V6Tail(bits: seq<Byte>, lo: nat): string
    requires lo <= 8 <= |bits|
    decreases 8 - lo
  {
    if lo == 8 then ""
    else V6Tail(bits, lo + 1) + FormatUint(bits[lo] % 16, 16) + "." + FormatUint(bits[lo] / 16, 16) + "."
  }

  /** Byte by byte, low nibble first, is the reversed nibble order. */
  lemma {:induction false} V6TailJoined(bits: seq<Byte>, lo: nat)
    requires lo <= 8 <= |bits|
    ensures V6Tail(bits, lo) == Joined(ReverseFormatted(Nibbles(bits[lo..8]), 16), '.')
    decreases 8 - lo
  {
    if lo < 8 {
      V6TailJoined(bits, lo + 1);
      V6Segment(bits, lo);
    } else {
      assert bits[lo..8] == [];
    }
  }

  /** The loop's text of all eight bytes, then the zone, is the label. */
  lemma V6TailLabel(a: nat)
    ensures V6Tail(As16(a), 0) + Suffix == V6Label(a)
  {
    var bits := As16(a);
    V6TailJoined(bits, 0);
    assert bits[0..8] == bits[..8];
  }

  /**
   * The inner loop of `ipv6`: bytes 7 down to 0 of the block's network
   * address, each giving its low nibble, then its high nibble, in hex and
   * followed by a dot, then the zone.
   */
  method RenderV6(a: nat) returns (rendered: string)
    ensures rendered == V6Label(a)
  {
    var split := V6Bytes / (128 / 64);
    assert split == 8;
    var bits := As16(a);
    var reversed := "";
    var segment := |bits[..split]| - 1;
    while segment >= 0
      invariant -1 <= segment <= 7
      invariant reversed == V6Tail(bits, segment + 1)
      decreases segment
    {
      var b := bits[segment];
      reversed := reversed + FormatUint(b % 16, 16) + "." + FormatUint(b / 16, 16) + ".";
      segment := segment - 1;
    }
    assert segment + 1 == 0;
    V6TailLabel(a);
    rendered := reversed + Suffix;
  }

  /*
   * ipv4 and ipv6
   */

  /** The labels of the given block addresses, in the same order. */
  function V4Labels(ips: seq<nat>): (ls: seq<string>)
    ensures |ls| == |ips| && forall i :: 0 <= i < |ips| ==> ls[i] == V4Label(ips[i])
  {
    seq(|ips|, (i: nat) requires i < |ips| => V4Label(ips[i]))
  }

  function V6Labels(ips: seq<nat>): (ls: seq<string>)
    ensures |ls| == |ips| && forall i :: 0 <= i < |ips| ==> ls[i] == V6Label(ips[i])
  {
    seq(|ips|, (i: nat) requires i < |ips| => V6Label(ips[i]))
  }

  /**
   * What `ipv4` returns: the labels of the /24 blocks of the prefix, or a
   * library failure when the prefix is not a valid IPv4 prefix.
   */
  function Ipv4Result(p: Prefix): Result<seq<string>, Error>
  {
    if p.addr.V4? && IsValid(p) then
      Ok(V4Labels(Blocks(p.addr.v4, BitLen(p.addr), p.bits, V4SplitBits)))
    else Err(NetaddrFailure)
  }

  /** What `ipv6` returns: the labels of the /64 blocks of the prefix. */
  function Ipv6Result(p: Prefix): Result<seq<string>, Error>
  {
    if p.addr.V6? && IsValid(p) then
      Ok(V6Labels(Blocks(p.addr.v6, BitLen(p.addr), p.bits, V6SplitBits)))
    else Err(NetaddrFailure)
  }

  method Ipv4(prefix: Prefix) returns (r: Result<seq<string>, Error>)
    ensures r == Ipv4Result(prefix)
  {
    if !(prefix.addr.V4? && IsValid(prefix)) {
      return Err(NetaddrFailure);
    }
    var ips := Enumerate(prefix.addr.v4, BitLen(prefix.addr), prefix.bits, V4SplitBits);
    var results := new string[|ips|];
    for idx := 0 to |ips|
      invariant forall k :: 0 <= k < idx ==> results[k] == V4Label(ips[k])
    {
      var rendered := RenderV4(ips[idx]);
      results[idx] := rendered;
    }
    assert results[..] == V4Labels(ips);
    r := Ok(results[..]);
  }

  method Ipv6(prefix: Prefix) returns (r: Result<seq<string>, Error>)
    ensures r == Ipv6Result(prefix)
  {
    if !(prefix.addr.V6? && IsValid(prefix)) {
      return Err(NetaddrFailure);
    }
    var ips := Enumerate(prefix.addr.v6, BitLen(prefix.addr), prefix.bits, V6SplitBits);
    var results := new string[|ips|];
    for idx := 0 to |ips|
      invariant forall k :: 0 <= k < idx ==> results[k] == V6Label(ips[k])
    {
      var rendered := RenderV6(ips[idx]);
      results[idx] := rendered;
    }
    assert results[..] == V6Labels(ips);
    r := Ok(results[..]);
  }

  /*
   * checkPrefixes
   */

  /** What `checkPrefixes` returns: the masked prefix goes to its family's enumeration. */
  function CheckResult(p: Prefix): Result<seq<string>, Error>
  {
    var network := Masked(p);
    match BitLen(p.addr)
    case 128 => Ipv6Result(network)
    case 32 => Ipv4Result(network)
    case _ => Err(Message(BitsizeNotHandled))
  }

  method CheckPrefixes(prefix: Prefix) returns (r: Result<seq<string>, Error>)
    ensures r == CheckResult(prefix)
  {
    var networkAddress := Masked(prefix);
    match BitLen(prefix.addr)
    case 128 =>
      r := Ipv6(networkAddress);
    case 32 =>
      r := Ipv4(networkAddress);
    case _ =>
      r := Err(Message(BitsizeNotHandled));
  }

  /*
   * Run
   */

  /** The address with the host-length mask `Run` suggests for a bare address. */
  function Suggestion(subnet: string, a: Addr): string
  {
    match BitLen(a)
    case 32 => subnet + "/32"
    case 128 => subnet + "/128"
    case _ => ""
  }

  /**
   * What `Run` returns for the command-line argument `subnet`: an error for
   * an argument without '/', whether or not it is an address; the parse
   * error of a malformed prefix; otherwise the outcome of `checkPrefixes`.
   * The labels of an Ok outcome are the lines `Run` prints.
   */
  function RunResult(subnet: string, parseAddr: string -> Option<Addr>,
                     parsePrefix: string -> Result<Prefix, string>): Result<seq<string>, Error>
  {
    if '/' !in subnet then
      match parseAddr(subnet)
      case None => Err(Message(FatalText([subnet, InvalidInput])))
      case Some(a) => Err(Message(FatalText([subnet, NoSubnetMask, Suggestion(subnet, a)])))
    else
      match parsePrefix(subnet)
      case Err(e) => Err(Message(FatalText([e])))
      case Ok(p) => CheckResult(p)
  }

  method Run(subnet: string, parseAddr: string -> Option<Addr>,
             parsePrefix: string -> Result<Prefix, string>)
    returns (r: Result<seq<string>, Error>)
    ensures r == RunResult(subnet, parseAddr, parsePrefix)
  {
    if '/' !in subnet {
      var p := parseAddr(subnet);
      if p.None? {
        var text := Fatal([subnet, InvalidInput]);
        return Err(Message(text));
      }
      var withPrefix := "";
      match BitLen(p.value) {
        case 32 =>
          withPrefix := subnet + "/32";
        case 128 =>
          withPrefix := subnet + "/128";
        case _ =>
      }
      var text := Fatal([subnet, NoSubnetMask, withPrefix]);
      return Err(Message(text));
    }
    var prefix := parsePrefix(subnet);
    if prefix.Err? {
      var text := Fatal([prefix.error]);
      return Err(Message(text));
    }
    r := CheckPrefixes(prefix.value);
  }

  /*
   * Properties of the enumeration
   */

  /** The sizes of the IPv4 space and of a /24 block in it. */
  lemma V4Sizes(w: nat)
    requires w == 32
    ensures Pow2(w) == 0x1_0000_0000 && Pow2(w - V4SplitBits) == 256
  {
    Pow2Widths();
    assert w - V4SplitBits == 8;
  }

  /** The sizes of the IPv6 space and of a /64 block in it. */
  lemma V6Sizes(w: nat)
    requires w == 128
    ensures Pow2(w) == 0x1_0000_0000_0000_0000_0000_0000_0000_0000 && Pow2(w - V6SplitBits) == 0x1_0000_0000_0000_0000
  {
    Pow2Widths();
    assert w - V6SplitBits == 64;
  }

  /** Label i of ls reads back as /24 number first + i. */
  predicate V4Numbered(ls: seq<string>, first: nat)
  {
    forall i :: 0 <= i < |ls| ==> ParseV4Label(ls[i]) == Some(first + i)
  }

  /** Label i of ls reads back as /64 number first + i. */
  predicate V6Numbered(ls: seq<string>, first: nat)
  {
    forall i :: 0 <= i < |ls| ==> ParseV6Label(ls[i]) == Some(first + i)
  }

  /** Labels of consecutive /24 networks read back as consecutive numbers. */
  lemma V4LabelsNumbered(ips: seq<nat>, first: nat)
    requires forall i :: 0 <= i < |ips| ==> ips[i] < 0x1_0000_0000 && ips[i] / 256 == first + i
    ensures V4Numbered(V4Labels(ips), first)
  {
    forall i | 0 <= i < |ips|
      ensures ParseV4Label(V4Labels(ips)[i]) == Some(first + i)
    {
      V4LabelRoundTrip(ips[i]);
    }
  }

  /** Labels of consecutive /64 networks read back as consecutive numbers. */
  lemma V6LabelsNumbered(ips: seq<nat>, first: nat)
    requires forall i :: 0 <= i < |ips| ==> ips[i] < 0x1_0000_0000_0000_0000_0000_0000_0000_0000 && ips[i] / 0x1_0000_0000_0000_0000 == first + i
    ensures V6Numbered(V6Labels(ips), first)
  {
    forall i | 0 <= i < |ips|
      ensures ParseV6Label(V6Labels(ips)[i]) == Some(first + i)
    {
      V6LabelRoundTrip(ips[i]);
    }
  }

  /** The /24 blocks of a valid IPv4 prefix are consecutive /24s, from the one its network lies in. */
  lemma V4BlocksNumbered(p: Prefix)
    requires p.addr.V4? && IsValid(p)
    ensures var ips := Blocks(p.addr.v4, BitLen(p.addr), p.bits, V4SplitBits);
      forall i :: 0 <= i < |ips| ==>
        ips[i] < 0x1_0000_0000 && ips[i] / 256 == ClearLow(p.addr.v4, HostBits(p)) / 256 + i
  {
    V4Sizes(BitLen(p.addr));
    BlocksNumbered(p.addr.v4, BitLen(p.addr), p.bits, V4SplitBits);
  }

  /** The /64 blocks of a valid IPv6 prefix are consecutive /64s, from the one its network lies in. */
  lemma V6BlocksNumbered(p: Prefix)
    requires p.addr.V6? && IsValid(p)
    ensures var ips := Blocks(p.addr.v6, BitLen(p.addr), p.bits, V6SplitBits);
      forall i :: 0 <= i < |ips| ==>
        ips[i] < 0x1_0000_0000_0000_0000_0000_0000_0000_0000 &&
        ips[i] / 0x1_0000_0000_0000_0000 == ClearLow(p.addr.v6, HostBits(p)) / 0x1_0000_0000_0000_0000 + i
  {
    V6Sizes(BitLen(p.addr));
    BlocksNumbered(p.addr.v6, BitLen(p.addr), p.bits, V6SplitBits);
  }

  /**
   * `ipv4` on a valid IPv4 prefix of length L gives 2^(24 - L) labels, or
   * one when L >= 24, and label i names /24 number n + i, where n is the
   * /24 the prefix's network address lies in.
   */
  lemma Ipv4Labels(p: Prefix)
    requires p.addr.V4? && IsValid(p)
    ensures Ipv4Result(p).Ok?
    ensures var ls, v := Ipv4Result(p).value, p.addr.v4;
      |ls| == SubnetCount(p.bits, V4SplitBits) && V4Numbered(ls, ClearLow(v, HostBits(p)) / 256)
  {
    V4BlocksNumbered(p);
    V4LabelsNumbered(Blocks(p.addr.v4, BitLen(p.addr), p.bits, V4SplitBits), ClearLow(p.addr.v4, HostBits(p)) / 256);
  }

  /**
   * `ipv6` on a valid IPv6 prefix of length L gives 2^(64 - L) labels, or
   * one when L >= 64, and label i names /64 number n + i, where n is the
   * /64 the prefix's network address lies in.
   */
  lemma Ipv6Labels(p: Prefix)
    requires p.addr.V6? && IsValid(p)
    ensures Ipv6Result(p).Ok?
    ensures var ls, v := Ipv6Result(p).value, p.addr.v6;
      |ls| == SubnetCount(p.bits, V6SplitBits) && V6Numbered(ls, ClearLow(v, HostBits(p)) / 0x1_0000_0000_0000_0000)
  {
    V6BlocksNumbered(p);
    V6LabelsNumbered(Blocks(p.addr.v6, BitLen(p.addr), p.bits, V6SplitBits), ClearLow(p.addr.v6, HostBits(p)) / 0x1_0000_0000_0000_0000);
  }

  /** Address lists that agree /24 by /24 get the same labels. */
  lemma V4LabelsAgree(xs: seq<nat>, ys: seq<nat>)
    requires |xs| == |ys|
    requires forall i :: 0 <= i < |xs| ==> xs[i] < 0x1_0000_0000 && ys[i] < 0x1_0000_0000 && xs[i] / 256 == ys[i] / 256
    ensures V4Labels(xs) == V4Labels(ys)
  {
    forall i | 0 <= i < |xs|
      ensures V4Label(xs[i]) == V4Label(ys[i])
    {
      V4LabelSameBlock(xs[i], ys[i]);
    }
  }

  /** Address lists that agree /64 by /64 get the same labels. */
  lemma V6LabelsAgree(xs: seq<nat>, ys: seq<nat>)
    requires |xs| == |ys|
    requires forall i :: 0 <= i < |xs| ==> xs[i] < 0x1_0000_0000_0000_0000_0000_0000_0000_0000 && ys[i] < 0x1_0000_0000_0000_0000_0000_0000_0000_0000 && xs[i] / 0x1_0000_0000_0000_0000 == ys[i] / 0x1_0000_0000_0000_0000
    ensures V6Labels(xs) == V6Labels(ys)
  {
    forall i | 0 <= i < |xs|
      ensures V6Label(xs[i]) == V6Label(ys[i])
    {
      V6LabelSameBlock(xs[i], ys[i]);
    }
  }

  /** The blocks of an IPv4 prefix of v and of its network get the same labels. */
  lemma V4NetworkLabels(v: nat, w: nat, bits: nat)
    requires w == 32 && v < 0x1_0000_0000 && bits <= w
    ensures V4Labels(Blocks(ClearLow(v, w - bits), w, bits, V4SplitBits)) == V4Labels(Blocks(v, w, bits, V4SplitBits))
  {
    V4Sizes(w);
    BlocksNumbered(v, w, bits, V4SplitBits);
    BlocksNumbered(ClearLow(v, w - bits), w, bits, V4SplitBits);
    ClearLowIdempotent(v, w - bits);
    V4LabelsAgree(Blocks(ClearLow(v, w - bits), w, bits, V4SplitBits), Blocks(v, w, bits, V4SplitBits));
  }

  /** The blocks of an IPv6 prefix of v and of its network get the same labels. */
  lemma V6NetworkLabels(v: nat, w: nat, bits: nat)
    requires w == 128 && v < 0x1_0000_0000_0000_0000_0000_0000_0000_0000 && bits <= w
    ensures V6Labels(Blocks(ClearLow(v, w - bits), w, bits, V6SplitBits)) == V6Labels(Blocks(v, w, bits, V6SplitBits))
  {
    V6Sizes(w);
    BlocksNumbered(v, w, bits, V6SplitBits);
    BlocksNumbered(ClearLow(v, w - bits), w, bits, V6SplitBits);
    ClearLowIdempotent(v, w - bits);
    V6LabelsAgree(Blocks(ClearLow(v, w - bits), w, bits, V6SplitBits), Blocks(v, w, bits, V6SplitBits));
  }

  /**
   * Masking first changes nothing: the blocks of a short prefix come from
   * its network anyway, and the one label of a long prefix ignores the
   * host bits.
   */
  lemma Ipv4MaskIrrelevant(p: Prefix)
    ensures Ipv4Result(Masked(p)) == Ipv4Result(p)
  {
    if p.addr.V4? && IsValid(p) {
      V4NetworkLabels(p.addr.v4, BitLen(p.addr), p.bits);
    }
  }

  lemma Ipv6MaskIrrelevant(p: Prefix)
    ensures Ipv6Result(Masked(p)) == Ipv6Result(p)
  {
    if p.addr.V6? && IsValid(p) {
      V6NetworkLabels(p.addr.v6, BitLen(p.addr), p.bits);
    }
  }

  /**
   * `checkPrefixes` succeeds exactly on valid prefixes, and then gives what
   * its family's enumeration gives for the prefix itself; the zero prefix
   * gets the bit-size message, any other invalid prefix a library failure.
   */
  lemma CheckOutcome(p: Prefix)
    ensures CheckResult(p).Ok? <==> IsValid(p)
    ensures IsValid(p) && p.addr.V4? ==> CheckResult(p) == Ipv4Result(p)
    ensures IsValid(p) && p.addr.V6? ==> CheckResult(p) == Ipv6Result(p)
    ensures p.addr.Zero? ==> CheckResult(p) == Err(Message(BitsizeNotHandled))
    ensures !p.addr.Zero? && !IsValid(p) ==> CheckResult(p) == Err(NetaddrFailure)
  {
    Ipv4MaskIrrelevant(p);
    Ipv6MaskIrrelevant(p);
  }

  /*
   * Properties of Run
   */

  /** `fatal` with one, two and three tokens. */
  lemma FatalOne(x: string)
    ensures FatalText([x]) == "[FATAL] " + x + " "
  {
    assert Joined([x], ' ') == x + " " by { assert [x][1..] == []; }
  }

  lemma FatalTwo(x: string, y: string)
    ensures FatalText([x, y]) == "[FATAL] " + x + " " + y + " "
  {
    assert Joined([x], ' ') == x + " " by { assert [x][1..] == []; }
    JoinedSnoc([x], y, ' ');
    assert [x] + [y] == [x, y];
  }

  lemma FatalThree(x: string, y: string, z: string)
    ensures FatalText([x, y, z]) == "[FATAL] " + x + " " + y + " " + z + " "
  {
    JoinedThree(x, y, z, ' ');
  }

  /** An argument without '/' that is not an address is refused as invalid input. */
  lemma RunNotAddress(subnet: string, parseAddr: string -> Option<Addr>,
                      parsePrefix: string -> Result<Prefix, string>)
    requires '/' !in subnet && parseAddr(subnet).None?
    ensures RunResult(subnet, parseAddr, parsePrefix)
      == Err(Message("[FATAL] " + subnet + " " + InvalidInput + " "))
  {
    FatalTwo(subnet, InvalidInput);
  }

  /**
   * A bare address is refused too, with the address and the mask of its
   * own length as the suggested prefix.
   */
  lemma RunBareAddress(subnet: string, parseAddr: string -> Option<Addr>,
                       parsePrefix: string -> Result<Prefix, string>)
    requires '/' !in subnet && parseAddr(subnet).Some?
    ensures RunResult(subnet, parseAddr, parsePrefix).Err?
    ensures parseAddr(subnet).value.V4? ==>
      RunResult(subnet, parseAddr, parsePrefix)
        == Err(Message("[FATAL] " + subnet + " " + NoSubnetMask + " " + (subnet + "/32") + " "))
    ensures parseAddr(subnet).value.V6? ==>
      RunResult(subnet, parseAddr, parsePrefix)
        == Err(Message("[FATAL] " + subnet + " " + NoSubnetMask + " " + (subnet + "/128") + " "))
  {
    FatalThree(subnet, NoSubnetMask, Suggestion(subnet, parseAddr(subnet).value));
  }

  /** A malformed prefix is reported with its parse error. */
  lemma RunParseError(subnet: string, parseAddr: string -> Option<Addr>,
                      parsePrefix: string -> Result<Prefix, string>)
    requires '/' in subnet && parsePrefix(subnet).Err?
    ensures RunResult(subnet, parseAddr, parsePrefix)
      == Err(Message("[FATAL] " + parsePrefix(subnet).error + " "))
  {
    FatalOne(parsePrefix(subnet).error);
  }
}
