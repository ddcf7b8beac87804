/**
 * The string formatting the tool relies on: Go's `%d` and `%x` verbs for
 * unsigned values, text built as a run of fields each followed by a separator
 * (what the loops that print each token with a trailing space, or each octet with a
 * trailing dot, produce), and the
 * inverse operations used to read such text back.
 */
module Text {
  import opened Arith

  /** Lowercase hexadecimal digit characters, as Go's `%x` prints them. */
  predicate IsDigitChar(c: char) {
    '0' <= c <= '9' || 'a' <= c <= 'f'
  }

  /** The value of a digit character (0 for any other character). */
  function DigitValue(c: char): (d: nat)
    ensures d < 16
  {
    if '0' <= c <= '9' then c as int - '0' as int
    else if 'a' <= c <= 'f' then c as int - 'a' as int + 10
    else 0
  }

  function DigitChar(d: nat): (c: char)
    requires d < 16
    ensures IsDigitChar(c) && DigitValue(c) == d
  {
    if d < 10 then ('0' as int + d) as char else ('a' as int + d - 10) as char
  }

  /** A digit character of the given base. */
  predicate IsDigitOf(c: char, base: nat) {
    IsDigitChar(c) && DigitValue(c) < base
  }

  /** A non-empty run of digits of the given base. */
  predicate IsNumeral(s: string, base: nat) {
    |s| >= 1 && forall i {:trigger IsDigitOf(s[i], base)} :: 0 <= i < |s| ==> IsDigitOf(s[i], base)
  }

  /** A numeral holds no character that is not a digit. */
  lemma NumeralWithout(s: string, base: nat, c: char)
    requires IsNumeral(s, base) && !IsDigitChar(c)
    ensures c !in s
  {
    forall j | 0 <= j < |s|
      ensures s[j] != c
    {
      assert IsDigitOf(s[j], base);
    }
  }

  function ParseUint(s: string, base: nat): nat
  {
    if s == [] then 0 else ParseUint(s[..|s| - 1], base) * base + DigitValue(s[|s| - 1])
  }

  lemma ParseSnoc(p: string, c: char, base: nat)
    ensures ParseUint(p + [c], base) == ParseUint(p, base) * base + DigitValue(c)
  {
    assert (p + [c])[..|p|] == p;
  }

  lemma NumeralSnoc(p: string, c: char, base: nat)
    requires p == [] || IsNumeral(p, base)
    requires IsDigitOf(c, base)
    ensures IsNumeral(p + [c], base)
  {
    forall i | 0 <= i < |p + [c]|
      ensures IsDigitOf((p + [c])[i], base)
    {
      if i < |p| {
        assert (p + [c])[i] == p[i];
        assert IsDigitOf(p[i], base);
      }
    }
  }

  /**
   * The numeral Go prints for an unsigned value with `%d` (base 10) or `%x`
   * (base 16): most significant digit first, no leading zeros, lowercase
   * digits; reading it back gives the value.
   */
  function FormatUint(n: nat, base: nat): (s: string)
    requires base == 10 || base == 16
    ensures IsNumeral(s, base)
    ensures ParseUint(s, base) == n
    ensures n < base <==> |s| == 1
    ensures s[0] == '0' <==> n == 0
    ensures s[0] == '0' ==> |s| == 1
  {
    if n < base then
      ParseSnoc([], DigitChar(n), base);
      NumeralSnoc([], DigitChar(n), base);
      assert [] + [DigitChar(n)] == [DigitChar(n)];
      [DigitChar(n)]
    else
      var p := FormatUint(n / base, base);
      ParseSnoc(p, DigitChar(n % base), base);
      NumeralSnoc(p, DigitChar(n % base), base);
      assert (p + [DigitChar(n % base)])[0] == p[0];
      p + [DigitChar(n % base)]
  }

  /** Every piece followed by `sep`: `Joined(["a", "b"], '.') == "a.b."`. */
  function Joined(xs: seq<string>, sep: char): string
  {
    if xs == [] then "" else xs[0] + [sep] + Joined(xs[1..], sep)
  }

  lemma {:induction false} JoinedAppend(xs: seq<string>, ys: seq<string>, sep: char)
    ensures Joined(xs + ys, sep) == Joined(xs, sep) + Joined(ys, sep)
  {
    if xs != [] {
      assert (xs + ys)[1..] == xs[1..] + ys;
      JoinedAppend(xs[1..], ys, sep);
    } else {
      assert xs + ys == ys;
    }
  }

  /** The position of the first `c` in `s`. */
  function IndexOf(s: string, c: char): (i: nat)
    requires c in s
    ensures i < |s| && s[i] == c
  {
    if s[0] == c then 0 else 1 + IndexOf(s[1..], c)
  }

  /** `s` cut at every `sep`, as Go's `strings.Split(s, string(sep))` does. */
  function Fields(s: string, sep: char): (fs: seq<string>)
    ensures |fs| >= 1
    decreases |s|
  {
    if sep in s then
      var i := IndexOf(s, sep);
      [s[..i]] + Fields(s[i + 1..], sep)
    else [s]
  }

  lemma {:induction false} IndexOfFirstSep(a: string, sep: char, rest: string)
    requires sep !in a
    ensures sep in a + [sep] + rest && IndexOf(a + [sep] + rest, sep) == |a|
  {
    var s := a + [sep] + rest;
    assert s[|a|] == sep;
    if a != [] {
      assert s[0] == a[0];
      assert s[1..] == a[1..] + [sep] + rest;
      IndexOfFirstSep(a[1..], sep, rest);
    }
  }

  /** A field that holds no separator is cut off whole. */
  lemma FieldsOfFirst(a: string, sep: char, rest: string)
    requires sep !in a
    ensures Fields(a + [sep] + rest, sep) == [a] + Fields(rest, sep)
  {
    var s := a + [sep] + rest;
    IndexOfFirstSep(a, sep, rest);
    assert s[..|a|] == a;
    assert s[|a| + 1..] == rest;
  }

  /** The first piece of joined text is cut off whole. */
  lemma FieldsOfJoinedStep(xs: seq<string>, sep: char, tail: string)
    requires xs != [] && sep !in xs[0]
    ensures Fields(Joined(xs, sep) + tail, sep) == [xs[0]] + Fields(Joined(xs[1..], sep) + tail, sep)
  {
    var rest := Joined(xs[1..], sep) + tail;
    assert Joined(xs, sep) + tail == xs[0] + [sep] + rest;
    FieldsOfFirst(xs[0], sep, rest);
  }

  /** No piece of xs holds sep (stated piece by piece, so that it unfolds one step at a time). */
  predicate Separable(xs: seq<string>, sep: char)
  {
    xs == [] || (sep !in xs[0] && Separable(xs[1..], sep))
  }

  lemma {:induction false} SeparableOf(xs: seq<string>, sep: char)
    requires forall k :: 0 <= k < |xs| ==> sep !in xs[k]
    ensures Separable(xs, sep)
  {
    if xs != [] {
      assert forall k :: 0 <= k < |xs[1..]| ==> xs[1..][k] == xs[k + 1];
      SeparableOf(xs[1..], sep);
    }
  }

  /** Cutting joined text at the separator gives the pieces back. */
  lemma {:induction false} FieldsOfJoined(xs: seq<string>, sep: char, tail: string)
    requires Separable(xs, sep)
    ensures Fields(Joined(xs, sep) + tail, sep) == xs + Fields(tail, sep)
  {
    if xs != [] {
      FieldsOfJoinedStep(xs, sep, tail);
      FieldsOfJoined(xs[1..], sep, tail);
      assert xs == [xs[0]] + xs[1..];
      assert [xs[0]] + (xs[1..] + Fields(tail, sep)) == xs + Fields(tail, sep);
    } else {
      assert Joined(xs, sep) + tail == tail;
    }
  }

  /** Cutting joined text gives the pieces back, then the empty text after the last separator. */
  lemma FieldsOfJoinedAll(xs: seq<string>, sep: char)
    requires forall k :: 0 <= k < |xs| ==> sep !in xs[k]
    ensures Fields(Joined(xs, sep), sep) == xs + [""]
  {
    SeparableOf(xs, sep);
    FieldsOfJoined(xs, sep, "");
    assert Joined(xs, sep) + "" == Joined(xs, sep);
  }

  /** Three pieces joined: each is followed by sep. */
  lemma JoinedThree(x: string, y: string, z: string, sep: char)
    ensures Joined([x, y, z], sep) == x + [sep] + y + [sep] + z + [sep]
  {
    assert [z][1..] == [];
    assert Joined([z], sep) == z + [sep];
    assert [y, z][1..] == [z];
    assert Joined([y, z], sep) == y + [sep] + (z + [sep]);
    assert [x, y, z][1..] == [y, z];
  }

  /** One more piece: it is followed by sep. */
  lemma JoinedSnoc(xs: seq<string>, x: string, sep: char)
    ensures Joined(xs + [x], sep) == Joined(xs, sep) + x + [sep]
  {
    JoinedAppend(xs, [x], sep);
    assert [x][1..] == [];
  }
}
