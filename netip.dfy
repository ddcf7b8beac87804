/**
 * The values of Go's net/netip package that the tool handles: addresses,
 * prefixes, masking, and the byte views As4 and As16.
 */
module Netip {
  import opened Arith

  type Byte = b: nat | b < 256

  /** Unsigned values of 32 and of 128 bits. */
  type U32 = v: nat | v < 0x1_0000_0000
  type U128 = v: nat | v < 0x1_0000_0000_0000_0000_0000_0000_0000_0000

  lemma Pow2Widths()
    ensures Pow2(8) == 256
    ensures Pow2(32) == 0x1_0000_0000
    ensures Pow2(64) == 0x1_0000_0000_0000_0000
    ensures Pow2(128) == 0x1_0000_0000_0000_0000_0000_0000_0000_0000
  {
    assert Pow2(8) == 256;
    Pow2Add(8, 8);
    Pow2Add(16, 16);
    assert Pow2(32) == 0x1_0000_0000;
    Pow2Add(32, 32);
    assert Pow2(64) == 0x1_0000_0000_0000_0000;
    Pow2Add(64, 64);
  }

  /** One more byte is a factor of 256. */
  lemma Pow2Byte(m: nat)
    ensures Pow2(8 * (m + 1)) == 256 * Pow2(8 * m)
  {
    Pow2Add(8, 8 * m);
    Pow2Widths();
  }

  /**
   * An address: Go's zero Addr (which is not a valid address and has bit
   * length 0), an IPv4 address or an IPv6 address.
   */
  datatype Addr = Zero | V4(v4: U32) | V6(v6: U128)

  function BitLen(a: Addr): nat
  {
    match a
    case Zero => 0
    case V4(_) => 32
    case V6(_) => 128
  }

  /** The address as an unsigned number of BitLen(a) bits. */
  function Value(a: Addr): (v: nat)
    ensures v < Pow2(BitLen(a))
  {
    Pow2Widths();
    match a
    case Zero => 0
    case V4(v) => v
    case V6(v) => v
  }

  /**
   * A prefix: an address and a prefix length. Go's zero Prefix, which
   * ParsePrefix returns with its errors, has the zero address and length -1.
   */
  datatype Prefix = Prefix(addr: Addr, bits: int)

  const InvalidPrefix := Prefix(Zero, -1)

  predicate IsValid(p: Prefix)
  {
    !p.addr.Zero? && 0 <= p.bits <= BitLen(p.addr)
  }

  /** The number of host bits of a valid prefix. */
  function HostBits(p: Prefix): nat
    requires IsValid(p)
  {
    BitLen(p.addr) - p.bits
  }

  /**
   * Prefix.Masked: the prefix with the host bits of its address cleared;
   * an invalid prefix becomes the zero Prefix.
   */
  function Masked(p: Prefix): (m: Prefix)
    ensures IsValid(p) ==> IsValid(m) && m.bits == p.bits && BitLen(m.addr) == BitLen(p.addr)
    ensures IsValid(p) ==>
      Value(m.addr) <= Value(p.addr) &&
      Value(p.addr) - Value(m.addr) < Pow2(HostBits(p)) &&
      Value(m.addr) % Pow2(HostBits(p)) == 0
    ensures !IsValid(p) ==> m == InvalidPrefix
  {
    if !IsValid(p) then InvalidPrefix
    else
      ClearLowValue(Value(p.addr), HostBits(p));
      match p.addr
      case Zero => InvalidPrefix
      case V4(v) => Prefix(V4(ClearLow(v, HostBits(p))), p.bits)
      case V6(v) => Prefix(V6(ClearLow(v, HostBits(p))), p.bits)
  }

  lemma MaskedIdempotent(p: Prefix)
    ensures Masked(Masked(p)) == Masked(p)
  {
    if IsValid(p) {
      ClearLowIdempotent(Value(p.addr), HostBits(p));
    }
  }

  /** The n low-order bytes of v, most significant first. */
  function BigEndian(v: nat, n: nat): (bs: seq<Byte>)
    ensures |bs| == n
  {
    if n == 0 then [] else BigEndian(v / 256, n - 1) + [v % 256]
  }

  /** The n bytes of a value below 256^n read back as that value. */
  lemma {:induction false} BigEndianValue(v: nat, n: nat)
    requires v < Pow2(8 * n)
    ensures FromDigits(BigEndian(v, n), 256) == v
  {
    if n > 0 {
      var bs := BigEndian(v, n);
      Pow2Byte(n - 1);
      DivBelow(v, 256, Pow2(8 * (n - 1)));
      BigEndianValue(v / 256, n - 1);
      assert bs[..n - 1] == BigEndian(v / 256, n - 1);
    }
  }

  /** Dropping one byte, then m - 1 more, is dropping m bytes. */
  lemma DropBytes(v: nat, m: nat)
    requires m > 0
    ensures v / 256 / Pow2(8 * (m - 1)) == v / Pow2(8 * m)
  {
    Pow2Byte(m - 1);
    DivDiv(v, 256, Pow2(8 * (m - 1)));
  }

  /** The leading n of n + m bytes of v are the bytes of v / 256^m. */
  lemma {:induction false} BigEndianHigh(v: nat, n: nat, m: nat)
    ensures BigEndian(v, n + m)[..n] == BigEndian(v / Pow2(8 * m), n)
  {
    if m > 0 {
      var w, k := v / 256, n + (m - 1);
      DropBytes(v, m);
      BigEndianHigh(w, n, m - 1);
      assert BigEndian(v, n + m) == BigEndian(w, k) + [v % 256];
      assert BigEndian(v, n + m)[..n] == BigEndian(w, k)[..n];
    }
  }

  /** Addr.As4: the four bytes of an IPv4 address, network order. */
  function As4(v: nat): seq<Byte>
  {
    BigEndian(v, 4)
  }

  /** Addr.As16: the sixteen bytes of an IPv6 address, network order. */
  function As16(v: nat): seq<Byte>
  {
    BigEndian(v, 16)
  }
}
