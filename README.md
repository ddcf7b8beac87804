# in-addr, modelled in Dafny

`in-addr` is a small command-line tool. It takes an IPv4 or IPv6 prefix in
CIDR notation and prints the reverse-DNS labels of the blocks that cover it:

- IPv4 is split into /24 blocks. A block's label is octets 2, 1 and 0 of its
  network address in decimal, each followed by a dot, then `in-addr.arpa.`.
- IPv6 is split into /64 blocks. A block's label is 16 hex nibbles. Bytes 7
  down to 0 each give their low nibble, then their high nibble, and every
  nibble is followed by a dot.
- IPv6 labels end in `in-addr.arpa.`, not the standard zone `ip6.arpa.`
  (section 2.5 of RFC 3596). The code and its own tests both write it this
  way, and the model keeps it as written.

An input without a `/` is refused. When it is a bare address, the error
suggests the address with its host-length mask. A prefix that does not parse
is refused with the parser's message. The code puts no limit on how many
blocks it enumerates, so neither does the model.

Modules:

- `Arith`: powers of two, clearing low bits, and division facts.
- `Text`: Go's `%d`/`%x` numerals and their parsing, joining with a
  separator, and splitting into fields.
- `Netip`: `Addr` and `Prefix`, modelled on Go's `net/netip`: the zero
  address, 32- and 128-bit addresses, `BitLen`, `Masked` and the byte views
  `As4`/`As16`.
- `Subnets`: the blocks of a prefix. This replaces the `netaddr-go` calls
  `SubnetCount` and `NthSubnet`.
- `Labels`: the two label forms, a parser that reads a label back, and the
  facts that connect the two.
- `InAddr`: `fatal`, `ipv4`, `ipv6`, `checkPrefixes` and `Generate.Run`. Each
  is a method that follows the Go code step by step and is proved equal to a
  specification function. Lemmas state what those functions promise.
- `TestVectors`: the expectations of the repository's unit tests, derived
  from the model. The results of `ipv4`, `ipv6` and `checkPrefixes` are
  stated for every address of the test's network, not just for the one host
  the test uses. The IPv4 labels are stated for the block address itself.

## Model

| member | source | states |
|---|---|---|
| InAddr.Fatal | cmd/in-addr/main.go:31-39 | The loop builds `"[FATAL] "` followed by every token, each with one trailing space, in order (`FatalText`). |
| InAddr.FatalFields | cmd/in-addr/main.go:31-39 | If no token contains a space, splitting the text at spaces gives back `"[FATAL]"`, the tokens in order, and a final empty field. |
| InAddr.FatalOne | cmd/in-addr/main.go:140 | `fatal` of one token is the tag, the token and a space. |
| InAddr.FatalThree | cmd/in-addr/main.go:136 | `fatal` of three tokens is the tag and each token with a trailing space. |
| InAddr.FatalExample | cmd/in-addr/main_test.go:143-149 | `fatal("this", "is", "a", "test")` is `"[FATAL] this is a test "`. |
| Text.FormatUint | cmd/in-addr/main.go:66 | The `%d`/`%x` numeral is a well-formed numeral in its base and reads back as the value. It has no leading zero: it starts with `0` only when the value is 0, and then it is `0` alone. It is one character exactly when the value is below the base. |
| Subnets.Enumerate | cmd/in-addr/main.go:81-90 | The collecting loop returns `Blocks`: the address itself when the prefix is no shorter than a block, otherwise 2^(boundary - L) block addresses, block i being the network plus i blocks. |
| Subnets.BlocksAscending | cmd/in-addr/main.go:86-89 | The blocks come in strictly ascending order. |
| Subnets.BlockInPrefix | cmd/in-addr/main.go:86-89 | For a prefix shorter than a block, every block is block-aligned, lies in the address space, and has the prefix's network. |
| Subnets.AlignedInBlocks | cmd/in-addr/main.go:86-89 | For a prefix shorter than a block, every block-aligned address with the prefix's network is among the blocks. |
| Subnets.BlocksCoverPrefix | cmd/in-addr/main.go:81-90 | For a prefix shorter than a block, an address is a block exactly when it is block-aligned, in range and inside the prefix: no gaps and nothing outside. |
| Subnets.BlocksOfNetwork | cmd/in-addr/main.go:81-90 | The masked network of the prefix has the same blocks as the prefix, up to the block each lies in. |
| Subnets.BlockQuotient | cmd/in-addr/main.go:81-90 | Block i lies in the address space and is block number n + i, where n is the block holding the prefix's network. |
| InAddr.RenderV4 | cmd/in-addr/main.go:94-101 | The inner loop of `ipv4` (octets 2 down to 0, then the zone) produces `V4Label` of the block. |
| Labels.V4LabelOctets | cmd/in-addr/main.go:96-99 | The IPv4 label is `dec(b2).dec(b1).dec(b0).in-addr.arpa.`. Octet 3 plays no part. |
| Labels.V4LabelRoundTrip | cmd/in-addr/main.go:94-101 | Reading an IPv4 label back gives the /24 number (address / 256) it was made from. |
| Labels.V4LabelSameBlock | cmd/in-addr/main.go:96-97 | Two IPv4 addresses get the same label if and only if they lie in the same /24. |
| InAddr.RenderV6 | cmd/in-addr/main.go:59-70 | The inner loop of `ipv6` (bytes 7 down to 0, low nibble then high nibble, in hex, then the zone) produces `V6Label` of the block. |
| InAddr.V6TailLabel | cmd/in-addr/main.go:65-68 | The text that loop builds byte by byte equals the reversed-nibble label form followed by the zone. |
| Labels.V6LabelNibbles | cmd/in-addr/main.go:65-68 | The IPv6 label has 32 characters before `in-addr.arpa.`: every odd position is a dot, and characters 4k and 4k+2 are the low and high hex nibbles of byte 7 - k. |
| Labels.V6LabelByte | cmd/in-addr/main.go:66 | For one byte 7 - k, characters 4k and 4k+2 of the label are its low and high nibble. |
| Labels.V6LabelRoundTrip | cmd/in-addr/main.go:59-70 | Reading an IPv6 label back gives the /64 number (address / 2^64) it was made from. |
| Labels.V6LabelSameBlock | cmd/in-addr/main.go:59-66 | Two IPv6 addresses get the same label if and only if they lie in the same /64. |
| InAddr.Ipv4 | cmd/in-addr/main.go:75-103 | `ipv4` fails exactly on a prefix that is not a valid IPv4 prefix. Otherwise it returns the labels of the prefix's /24 blocks, in order (`Ipv4Result`). |
| InAddr.Ipv4Labels | cmd/in-addr/main.go:75-103 | On a valid /L IPv4 prefix, `ipv4` gives 2^(24 - L) labels, or one when L >= 24. Label i reads back as /24 number n + i, where n is the /24 of the prefix's network. |
| InAddr.Ipv6 | cmd/in-addr/main.go:42-72 | `ipv6` fails exactly on a prefix that is not a valid IPv6 prefix. Otherwise it returns the labels of the prefix's /64 blocks, in order (`Ipv6Result`). |
| InAddr.Ipv6Labels | cmd/in-addr/main.go:42-72 | On a valid /L IPv6 prefix, `ipv6` gives 2^(64 - L) labels, or one when L >= 64. Label i reads back as /64 number n + i. |
| Netip.Masked | cmd/in-addr/main.go:107 | Masking keeps the family and the length, clears exactly the host bits (the result is aligned and within 2^host of the address), and turns an invalid prefix into the zero Prefix. |
| Netip.MaskedIdempotent | cmd/in-addr/main.go:107 | Masking twice is masking once. |
| InAddr.Ipv4MaskIrrelevant | cmd/in-addr/main.go:107-114 | `ipv4` gives the same result on a prefix and on its masked form. |
| InAddr.Ipv6MaskIrrelevant | cmd/in-addr/main.go:107-111 | `ipv6` gives the same result on a prefix and on its masked form. |
| InAddr.CheckPrefixes | cmd/in-addr/main.go:106-118 | Masks the prefix, then dispatches on bit length: 128 to `ipv6`, 32 to `ipv4`, anything else to the bit-size error (`CheckResult`). |
| InAddr.CheckOutcome | cmd/in-addr/main.go:106-118 | `checkPrefixes` succeeds if and only if the prefix is valid, and then agrees with its family's function. The zero prefix gets the bit-size message, and any other invalid prefix gets a library failure. |
| InAddr.Run | cmd/in-addr/main.go:121-145 | Follows `Generate.Run`'s branches: a bare argument, a prefix that fails to parse, then `checkPrefixes` (`RunResult`). |
| InAddr.RunNotAddress | cmd/in-addr/main.go:123-127 | An argument without `/` that is not an address gives `"[FATAL] <arg> invalid input, does not match IP Address or Prefix "`. |
| InAddr.RunBareAddress | cmd/in-addr/main.go:128-136 | A bare address always errors. The suggestion is the argument with `/32` (IPv4) or `/128` (IPv6) appended. |
| InAddr.RunParseError | cmd/in-addr/main.go:138-141 | A malformed prefix gives `fatal` of the parser's message. |
| TestVectors.Rev4Zero | cmd/in-addr/main_test.go:10 | The label of 192.168.0.0 is `0.168.192.in-addr.arpa.`. |
| TestVectors.Rev4One | cmd/in-addr/main_test.go:11 | The label of 192.168.1.0 is `1.168.192.in-addr.arpa.`. |
| TestVectors.Ipv4SingleVector | cmd/in-addr/main_test.go:88-118 | `ipv4` of 192.168.0.1/24 and /28 (any address of 192.168.0.0/24, any length from 24 to 32) is `[rev1921680]`. |
| TestVectors.Ipv4PairVector | cmd/in-addr/main_test.go:98-108 | `ipv4` of 192.168.0.1/23 (any address of 192.168.0.0/23) is `[rev1921680, rev1921681]`. |
| TestVectors.CheckPrefixesVectors | cmd/in-addr/main_test.go:175-212 | `checkPrefixes` of 192.168.0.1/23 is `[rev1921680, rev1921681]`. The zero Prefix that a failed parse of `0.0.0.0` or `::` yields gives an error. |
| TestVectors.Rev64Block | cmd/in-addr/main_test.go:12 | The label of every address of 2001:db8:abcd:1234::/64 is `4.3.2.1.d.c.b.a.8.b.d.0.1.0.0.2.in-addr.arpa.`. |
| TestVectors.Rev65Block | cmd/in-addr/main_test.go:13 | The label of every address of 2001:db8:abcd:1235::/64 is `5.3.2.1.d.c.b.a.8.b.d.0.1.0.0.2.in-addr.arpa.`. |
| TestVectors.Ipv6SingleVector | cmd/in-addr/main_test.go:29-48 | `ipv6` of 2001:db8:abcd:1234::1/128 and /64 (any address of 2001:db8:abcd:1234::/64, any length from 64 to 128) is `[revIPv64]`. |
| TestVectors.Ipv6PairVector | cmd/in-addr/main_test.go:49-59 | `ipv6` of 2001:db8:abcd:1234::1/63 (any address of 2001:db8:abcd:1234::/63) is `[revIPv64, revIPv65]`. |
| TestVectors.CheckPrefixesV6Vector | cmd/in-addr/main_test.go:186-196 | `checkPrefixes` of 2001:db8:abcd:1234::1/63 (any address of that /63) is `[revIPv64, revIPv65]`. |

## Left out

- `main`, the `kong` command-line parsing and the `cli` struct: they only
  wire the argument to `Generate.Run` and print its error.
- InAddr.Run: the loop that prints each label with `fmt.Println` is not
  modelled. The labels come back in an `Ok` result instead, which is the
  list the loop prints, in order.
- InAddr.Run: text parsing by `netip.ParseAddr` and `netip.ParsePrefix` is a
  pair of function parameters. The parse error's wording is whatever that
  parameter returns.
- InAddr.Run: `fmt.Errorf` is given the `fatal` text as its format string,
  so a `%` in the input would be expanded by Go. The model keeps the text
  literally.
- InAddr.Ipv4: the `netaddr-go` parse of `prefix.String()` is modelled as
  failing exactly when the prefix is not a valid prefix of the family. Its
  error wording is `NetaddrFailure`, and IPv4-mapped IPv6 addresses are not
  distinguished. The same holds for InAddr.Ipv6.
- Subnets.Enumerate: `SubnetCount` and `NthSubnet` are replaced by
  arithmetic. At L equal to the block length the model takes the
  single-address branch. Whichever branch the library takes there, the
  label is the same, because a label depends only on the block
  (V4LabelSameBlock, V6LabelSameBlock).
- InAddr.Ipv6: for a /0 prefix the library counts 2^64 subnets in a
  `uint64`, which overflows. The model counts exactly.
- InAddr.Ipv6Labels: its count of 2^(64 - L) labels holds for the model at
  every length. At /0 the program itself is subject to the `uint64`
  overflow above, so there the lemma describes the model, not the program.
- The label strings are Go `string`s of ASCII characters, modelled as
  `seq<char>`. No encoding issues arise.
- `Generate.Run`'s integration cases with concrete strings (for example
  `"192.168.0.99/20"`) depend on the parser parameters, so they are not
  stated as vectors. InAddr.RunNotAddress, InAddr.RunBareAddress and
  InAddr.RunParseError state those outcomes for every argument of each
  kind.
