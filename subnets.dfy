/**
 * Cutting a prefix into the fixed-size blocks reverse zones are delegated at
 * (/24 for IPv4, /64 for IPv6). The tool asks netaddr-go's SubnetCount and
 * NthSubnet for these; here they are plain arithmetic on the address value.
 */
module Subnets {
  import opened Arith

  /** How many blocks of length `boundary` a prefix of length `bits` yields. */
  function SubnetCount(bits: nat, boundary: nat): nat
  {
    if bits < boundary then Pow2(boundary - bits) else 1
  }

  /** The start of block i of `size` addresses after `network`. */
  function BlockStart(network: nat, size: nat, i: nat): nat
  {
    network + i * size
  }

  /**
   * The network addresses of the blocks of a prefix of length `bits` of a
   * `width`-bit address: when the prefix is shorter than a block, block i
   * starts i blocks of 2^(width - boundary) addresses after the prefix's
   * network; otherwise the address itself is the one block.
   */
  function Blocks(addr: nat, width: nat, bits: nat, boundary: nat): (bs: seq<nat>)
    requires bits <= width && boundary <= width
    ensures |bs| == SubnetCount(bits, boundary)
  {
    if bits < boundary then
      var network, size := ClearLow(addr, width - bits), Pow2(width - boundary);
      seq(Pow2(boundary - bits), (i: nat) => BlockStart(network, size, i))
    else [addr]
  }

  /**
   * The collecting loop of `ipv4`/`ipv6`: no block count (the prefix is not
   * longer than a block) gives the address itself, otherwise the blocks are
   * appended in index order.
   */
  method Enumerate(addr: nat, width: nat, bits: nat, boundary: nat) returns (ips: seq<nat>)
    requires bits <= width && boundary <= width
    ensures ips == Blocks(addr, width, bits, boundary)
  {
    ips := [];
    var count := if bits < boundary then Pow2(boundary - bits) else 0;
    if count == 0 {
      ips := ips + [addr];
    } else {
      var network := ClearLow(addr, width - bits);
      var size := Pow2(width - boundary);
      var i := 0;
      while i < count
        invariant i <= count
        invariant |ips| == i
        invariant forall k :: 0 <= k < i ==> ips[k] == BlockStart(network, size, k)
      {
        ips := ips + [BlockStart(network, size, i)];
        i := i + 1;
      }
    }
  }

  /** The blocks come in strictly ascending address order. */
  lemma BlocksAscending(addr: nat, width: nat, bits: nat, boundary: nat)
    requires bits <= width && boundary <= width
    ensures var bs := Blocks(addr, width, bits, boundary);
      forall i, j :: 0 <= i < j < |bs| ==> bs[i] < bs[j]
  {
    var bs := Blocks(addr, width, bits, boundary);
    if bits < boundary {
      var size := Pow2(width - boundary);
      forall i, j | 0 <= i < j < |bs|
        ensures bs[i] < bs[j]
      {
        MulMonotone(i + 1, j, size);
      }
    }
  }

  /** A prefix of length `bits` spans 2^(boundary - bits) blocks. */
  lemma PrefixSpan(width: nat, bits: nat, boundary: nat)
    requires bits <= boundary <= width
    ensures Pow2(width - bits) == Pow2(boundary - bits) * Pow2(width - boundary)
  {
    Pow2Add(boundary - bits, width - boundary);
  }

  /** Every block is aligned to the block size and lies inside the prefix. */
  lemma BlockInPrefix(addr: nat, width: nat, bits: nat, boundary: nat, i: nat)
    requires bits < boundary <= width && addr < Pow2(width) && i < SubnetCount(bits, boundary)
    ensures var x := Blocks(addr, width, bits, boundary)[i];
      x < Pow2(width) &&
      x % Pow2(width - boundary) == 0 &&
      ClearLow(x, width - bits) == ClearLow(addr, width - bits)
  {
    var x := Blocks(addr, width, bits, boundary)[i];
    var size, count, span := Pow2(width - boundary), Pow2(boundary - bits), Pow2(width - bits);
    var q := addr / span;
    assert span == count * size by { PrefixSpan(width, bits, boundary); }
    assert q < Pow2(bits) && Pow2(width) == Pow2(bits) * span by {
      Pow2Add(bits, width - bits);
      DivBelow(addr, span, Pow2(bits));
    }
    ClearLowValue(addr, width - bits);
    assert x == q * span + i * size;
    BlockOfRun(q, count, size, i, Pow2(bits));
    ClearLowValue(x, width - bits);
  }

  /** Every block-aligned address inside the prefix is one of the blocks. */
  lemma AlignedInBlocks(addr: nat, width: nat, bits: nat, boundary: nat, x: nat)
    requires bits < boundary <= width
    requires x % Pow2(width - boundary) == 0
    requires ClearLow(x, width - bits) == ClearLow(addr, width - bits)
    ensures x in Blocks(addr, width, bits, boundary)
  {
    var bs := Blocks(addr, width, bits, boundary);
    var size, count, span := Pow2(width - boundary), Pow2(boundary - bits), Pow2(width - bits);
    assert span == count * size by { PrefixSpan(width, bits, boundary); }
    var q, i := AlignedInRun(x, count, size);
    assert addr / span == q by {
      ClearLowQuotient(x, width - bits);
      ClearLowQuotient(addr, width - bits);
    }
    ClearLowValue(addr, width - bits);
    assert bs[i] == q * span + i * size;
  }

  /**
   * The blocks are exactly the block-aligned addresses inside the prefix:
   * no gap, nothing outside it.
   */
  lemma BlocksCoverPrefix(addr: nat, width: nat, bits: nat, boundary: nat, x: nat)
    requires bits < boundary <= width && addr < Pow2(width)
    ensures x in Blocks(addr, width, bits, boundary) <==>
      x < Pow2(width) &&
      x % Pow2(width - boundary) == 0 &&
      ClearLow(x, width - bits) == ClearLow(addr, width - bits)
  {
    var bs := Blocks(addr, width, bits, boundary);
    if x in bs {
      var i :| 0 <= i < |bs| && bs[i] == x;
      BlockInPrefix(addr, width, bits, boundary, i);
    }
    if x % Pow2(width - boundary) == 0 && ClearLow(x, width - bits) == ClearLow(addr, width - bits) {
      AlignedInBlocks(addr, width, bits, boundary, x);
    }
  }

  /** Block i is the i-th block after the prefix's network. */
  lemma BlockIndex(addr: nat, width: nat, bits: nat, boundary: nat, i: nat)
    requires bits < boundary <= width && i < SubnetCount(bits, boundary)
    ensures Blocks(addr, width, bits, boundary)[i] / Pow2(width - boundary)
      == ClearLow(addr, width - bits) / Pow2(width - boundary) + i
  {
    var size, count, network := Pow2(width - boundary), Pow2(boundary - bits), ClearLow(addr, width - bits);
    PrefixSpan(width, bits, boundary);
    ClearLowValue(addr, width - bits);
    MultipleOfFactor(network, count, size);
    AddMultiple(network, i, size);
    assert Blocks(addr, width, bits, boundary)[i] == network + i * size;
  }

  /**
   * Every block lies in the address space, and block i is the i-th block
   * after the one holding the prefix's network; for a prefix no shorter
   * than a block, that is the block holding the address.
   */
  lemma BlockQuotient(addr: nat, width: nat, bits: nat, boundary: nat, i: nat)
    requires bits <= width && boundary <= width && addr < Pow2(width)
    requires i < SubnetCount(bits, boundary)
    ensures Blocks(addr, width, bits, boundary)[i] < Pow2(width)
    ensures Blocks(addr, width, bits, boundary)[i] / Pow2(width - boundary)
      == ClearLow(addr, width - bits) / Pow2(width - boundary) + i
  {
    if bits < boundary {
      BlockInPrefix(addr, width, bits, boundary, i);
      BlockIndex(addr, width, bits, boundary, i);
    } else {
      ClearLowKeepsHigh(addr, width - bits, width - boundary);
    }
  }

  /**
   * The blocks of the prefix's network are the blocks of the prefix: the
   * same list when the prefix is shorter than a block, and otherwise one
   * block, the one holding the address.
   */
  lemma BlocksOfNetwork(addr: nat, width: nat, bits: nat, boundary: nat, i: nat)
    requires bits <= width && boundary <= width
    requires i < SubnetCount(bits, boundary)
    ensures bits < boundary ==>
      Blocks(ClearLow(addr, width - bits), width, bits, boundary) == Blocks(addr, width, bits, boundary)
    ensures Blocks(ClearLow(addr, width - bits), width, bits, boundary)[i] / Pow2(width - boundary)
      == Blocks(addr, width, bits, boundary)[i] / Pow2(width - boundary)
  {
    if bits < boundary {
      ClearLowIdempotent(addr, width - bits);
    } else {
      ClearLowKeepsHigh(addr, width - bits, width - boundary);
    }
  }

  /** BlockQuotient for all blocks at once. */
  lemma BlocksNumbered(addr: nat, width: nat, bits: nat, boundary: nat)
    requires bits <= width && boundary <= width && addr < Pow2(width)
    ensures var bs, size := Blocks(addr, width, bits, boundary), Pow2(width - boundary);
      forall i :: 0 <= i < |bs| ==>
        bs[i] < Pow2(width) && bs[i] / size == ClearLow(addr, width - bits) / size + i
  {
    var bs := Blocks(addr, width, bits, boundary);
    forall i | 0 <= i < |bs|
      ensures bs[i] < Pow2(width) &&
        bs[i] / Pow2(width - boundary) == ClearLow(addr, width - bits) / Pow2(width - boundary) + i
    {
      BlockQuotient(addr, width, bits, boundary, i);
    }
  }
}
