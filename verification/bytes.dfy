/** Optional values, used wherever the modelled Python code either produces a
    value or raises (or returns None). */
module Options {
  datatype Option<+T> = None | Some(value: T)
}

/** Bytes and the ASCII character classes the framer cares about. */
module Bytes {
  newtype byte = x: int | 0 <= x < 256

  const ZERO: byte := 0x30
  const PLUS: byte := 0x2B
  const MINUS: byte := 0x2D
  const UNDERSCORE: byte := 0x5F
  const SPACE: byte := 0x20

  /** An ASCII decimal digit '0'..'9'. */
  predicate IsDigit(b: byte) {
    0x30 <= b <= 0x39
  }

  /** The bytes CPython's integer parser skips around a literal:
      tab, line feed, vertical tab, form feed, carriage return and space. */
  predicate IsSpace(b: byte) {
    (0x09 <= b <= 0x0D) || b == SPACE
  }

  predicate AllDigits(s: seq<byte>) {
    forall i :: 0 <= i < |s| ==> IsDigit(s[i])
  }

  /** Concatenation of a sequence of byte strings, in order. */
  function Flatten(xs: seq<seq<byte>>): seq<byte> {
    if |xs| == 0 then [] else xs[0] + Flatten(xs[1..])
  }

  lemma FlattenCons(x: seq<byte>, xs: seq<seq<byte>>)
    ensures Flatten([x] + xs) == x + Flatten(xs)
  {
    assert ([x] + xs)[1..] == xs;
  }

  lemma AppendAssoc<X>(a: seq<X>, b: seq<X>, c: seq<X>)
    ensures a + (b + c) == (a + b) + c
  {
  }

  function Min(a: int, b: int): int {
    if a <= b then a else b
  }
}

/** Fixed-width, zero-padded ASCII decimal numerals: the shape of the
    five-byte record length at the start of a MARC 21 leader. */
module Decimal {
  import opened Bytes

  function Pow10(n: nat): (r: nat)
    ensures 1 <= r
  {
    if n == 0 then 1 else 10 * Pow10(n - 1)
  }

  lemma {:induction false} Pow10Monotone(m: nat, n: nat)
    requires m <= n
    ensures Pow10(m) <= Pow10(n)
  {
    if m < n {
      Pow10Monotone(m, n - 1);
    }
  }

  function DigitValue(b: byte): (d: nat)
    requires IsDigit(b)
    ensures d < 10
  {
    (b as int - 0x30) as nat
  }

  function DigitByte(d: nat): (b: byte)
    requires d < 10
    ensures IsDigit(b) && DigitValue(b) == d
  {
    (0x30 + d) as byte
  }

  /** The number a string of ASCII digits denotes, most significant first. */
  function Value(s: seq<byte>): (v: nat)
    requires AllDigits(s)
    ensures v < Pow10(|s|)
  {
    if |s| == 0 then 0
    else
      var p := s[..|s| - 1];
      var hi := Value(p);
      assert hi + 1 <= Pow10(|p|);
      10 * hi + DigitValue(s[|s| - 1])
  }

  /** Appending a digit shifts the value one decimal place up. */
  lemma ValueAppend(p: seq<byte>, b: byte)
    requires AllDigits(p) && IsDigit(b)
    ensures AllDigits(p + [b]) && Value(p + [b]) == 10 * Value(p) + DigitValue(b)
  {
    assert (p + [b])[..|p|] == p;
  }

  /** `n` written with exactly `width` digits, left-padded with '0'
      (the digits above `width` are dropped). */
  function Format(n: nat, width: nat): (r: seq<byte>)
    ensures |r| == width && AllDigits(r)
  {
    if width == 0 then []
    else Format(n / 10, width - 1) + [DigitByte(n % 10)]
  }

  /** Reading back a formatted number gives the number, when it fits. */
  lemma {:induction false} ValueOfFormat(n: nat, width: nat)
    requires n < Pow10(width)
    ensures Value(Format(n, width)) == n
  {
    if width > 0 {
      var f := Format(n, width);
      var p := Format(n / 10, width - 1);
      assert f[..|f| - 1] == p;
      ValueOfFormat(n / 10, width - 1);
    }
  }

  /** Formatting the value of a digit string at its own width gives it back:
      every digit string is the formatting of exactly one number. */
  lemma {:induction false} FormatOfValue(s: seq<byte>)
    requires AllDigits(s)
    ensures Format(Value(s), |s|) == s
  {
    if |s| > 0 {
      var p := s[..|s| - 1];
      var d := DigitValue(s[|s| - 1]);
      var v := Value(s);
      assert v == 10 * Value(p) + d;
      assert v / 10 == Value(p) && v % 10 == d;
      FormatOfValue(p);
      assert s == p + [s[|s| - 1]];
    }
  }
}
