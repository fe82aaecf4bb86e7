/** Python's `int(b)` applied to a bytes object, in base 10: the conversion
    the reader applies to the five-byte length prefix. Like CPython's
    `PyLong_FromString`, it scans left to right: leading ASCII whitespace,
    one optional sign, digits with single underscores between them, and
    trailing whitespace up to the end. Anything else raises `ValueError`,
    modelled as `None`. */
module IntLiteral {
  import opened Options
  import opened Bytes
  import opened Decimal

  /** The bytes that can occur in an accepted literal. */
  predicate IsLiteralByte(b: byte) {
    IsDigit(b) || IsSpace(b) || b == PLUS || b == MINUS || b == UNDERSCORE
  }

  /** `int(s)` on a bytes object `s`; `None` when Python raises `ValueError`. */
  function ParseInt(s: seq<byte>): Option<int> {
    SkipLeading(s, 0)
  }

  /** Skip whitespace, then read an optional sign. */
  function SkipLeading(s: seq<byte>, i: nat): Option<int>
    requires i <= |s|
    decreases |s| - i
  {
    if i < |s| && IsSpace(s[i]) then SkipLeading(s, i + 1)
    else if i < |s| && s[i] == MINUS then FirstDigit(s, i + 1, true)
    else if i < |s| && s[i] == PLUS then FirstDigit(s, i + 1, false)
    else FirstDigit(s, i, false)
  }

  /** A number starts with a digit: no underscore, space or second sign. */
  function FirstDigit(s: seq<byte>, i: nat, negative: bool): Option<int>
    requires i <= |s|
  {
    if i < |s| && IsDigit(s[i]) then MoreDigits(s, i + 1, negative, DigitValue(s[i]))
    else None
  }

  /** Accumulate digits; an underscore is skipped only when a digit follows. */
  function MoreDigits(s: seq<byte>, i: nat, negative: bool, acc: nat): Option<int>
    requires i <= |s|
    decreases |s| - i
  {
    if i < |s| && IsDigit(s[i]) then
      MoreDigits(s, i + 1, negative, 10 * acc + DigitValue(s[i]))
    else if i + 1 < |s| && s[i] == UNDERSCORE && IsDigit(s[i + 1]) then
      MoreDigits(s, i + 2, negative, 10 * acc + DigitValue(s[i + 1]))
    else
      SkipTrailing(s, i, if negative then -(acc as int) else acc)
  }

  /** Only whitespace may follow the digits. */
  function SkipTrailing(s: seq<byte>, i: nat, v: int): Option<int>
    requires i <= |s|
    decreases |s| - i
  {
    if i == |s| then Some(v)
    else if IsSpace(s[i]) then SkipTrailing(s, i + 1, v)
    else None
  }

  // ---------------------------------------------------------------------
  // Only literal bytes are accepted

  predicate LiteralFrom(s: seq<byte>, i: nat) {
    forall j :: i <= j < |s| ==> IsLiteralByte(s[j])
  }

  lemma {:induction false} SkipTrailingLiteral(s: seq<byte>, i: nat, v: int)
    requires i <= |s|
    ensures SkipTrailing(s, i, v).Some? ==> LiteralFrom(s, i)
    decreases |s| - i
  {
    if i < |s| && IsSpace(s[i]) {
      SkipTrailingLiteral(s, i + 1, v);
    }
  }

  lemma {:induction false} MoreDigitsLiteral(s: seq<byte>, i: nat, negative: bool, acc: nat)
    requires i <= |s|
    ensures MoreDigits(s, i, negative, acc).Some? ==> LiteralFrom(s, i)
    decreases |s| - i
  {
    if i < |s| && IsDigit(s[i]) {
      MoreDigitsLiteral(s, i + 1, negative, 10 * acc + DigitValue(s[i]));
    } else if i + 1 < |s| && s[i] == UNDERSCORE && IsDigit(s[i + 1]) {
      MoreDigitsLiteral(s, i + 2, negative, 10 * acc + DigitValue(s[i + 1]));
    } else {
      SkipTrailingLiteral(s, i, if negative then -(acc as int) else acc);
    }
  }

  lemma {:induction false} SkipLeadingLiteral(s: seq<byte>, i: nat)
    requires i <= |s|
    ensures SkipLeading(s, i).Some? ==> LiteralFrom(s, i)
    decreases |s| - i
  {
    if i < |s| && IsSpace(s[i]) {
      SkipLeadingLiteral(s, i + 1);
    } else {
      var k := if i < |s| && (s[i] == MINUS || s[i] == PLUS) then i + 1 else i;
      var negative := i < |s| && s[i] == MINUS;
      if k < |s| && IsDigit(s[k]) {
        MoreDigitsLiteral(s, k + 1, negative, DigitValue(s[k]));
      }
    }
  }

  /** `int()` rejects any byte that is not a digit, whitespace, a sign or an
      underscore: letters, punctuation and non-ASCII bytes raise. */
  lemma ParseIntAcceptsOnlyLiteralBytes(s: seq<byte>)
    ensures ParseInt(s).Some? ==> forall i :: 0 <= i < |s| ==> IsLiteralByte(s[i])
  {
    SkipLeadingLiteral(s, 0);
  }

  // ---------------------------------------------------------------------
  // Bounds

  lemma {:induction false} MoreDigitsBounds(s: seq<byte>, i: nat, negative: bool, acc: nat)
    requires i <= |s| && acc < Pow10(i)
    ensures var r := MoreDigits(s, i, negative, acc);
            r.Some? ==> r.value < Pow10(|s|) && -r.value < Pow10(|s|)
    decreases |s| - i
  {
    if i < |s| && IsDigit(s[i]) {
      MoreDigitsBounds(s, i + 1, negative, 10 * acc + DigitValue(s[i]));
    } else if i + 1 < |s| && s[i] == UNDERSCORE && IsDigit(s[i + 1]) {
      Pow10Monotone(i + 1, i + 2);
      MoreDigitsBounds(s, i + 2, negative, 10 * acc + DigitValue(s[i + 1]));
    } else {
      Pow10Monotone(i, |s|);
      SkipTrailingValue(s, i, if negative then -(acc as int) else acc);
    }
  }

  lemma {:induction false} SkipTrailingValue(s: seq<byte>, i: nat, v: int)
    requires i <= |s|
    ensures SkipTrailing(s, i, v).Some? ==> SkipTrailing(s, i, v).value == v
    decreases |s| - i
  {
    if i < |s| && IsSpace(s[i]) {
      SkipTrailingValue(s, i + 1, v);
    }
  }

  lemma {:induction false} SkipLeadingBounds(s: seq<byte>, i: nat)
    requires i <= |s|
    ensures var r := SkipLeading(s, i);
            r.Some? ==> r.value < Pow10(|s|) && -r.value < Pow10(|s|)
    decreases |s| - i
  {
    if i < |s| && IsSpace(s[i]) {
      SkipLeadingBounds(s, i + 1);
    } else {
      var k := if i < |s| && (s[i] == MINUS || s[i] == PLUS) then i + 1 else i;
      var negative := i < |s| && s[i] == MINUS;
      if k < |s| && IsDigit(s[k]) {
        Pow10Monotone(1, k + 1);
        MoreDigitsBounds(s, k + 1, negative, DigitValue(s[k]));
      }
    }
  }

  /** A literal of `n` bytes denotes a number of fewer than `n` digits:
      five prefix bytes give a length strictly between -100000 and 100000. */
  lemma ParseIntBounds(s: seq<byte>)
    ensures ParseInt(s).Some? ==> ParseInt(s).value < Pow10(|s|) && -ParseInt(s).value < Pow10(|s|)
  {
    SkipLeadingBounds(s, 0);
  }

  // ---------------------------------------------------------------------
  // Digit strings

  /** Scanning a run of digits `s[i..end]` after digits `p` have been
      read ends where the run ends, having read `p` and the run. */
  lemma {:induction false} MoreDigitsRun(s: seq<byte>, i: nat, end: nat, negative: bool, p: seq<byte>)
    requires i <= end <= |s| && AllDigits(p) && AllDigits(s[i..end])
    ensures AllDigits(p + s[i..end])
    ensures MoreDigits(s, i, negative, Value(p)) == MoreDigits(s, end, negative, Value(p + s[i..end]))
    decreases end - i
  {
    if i < end {
      assert s[i..end][0] == s[i];
      ValueAppend(p, s[i]);
      var p' := p + [s[i]];
      assert s[i + 1..end] == s[i..end][1..];
      MoreDigitsRun(s, i + 1, end, negative, p');
      assert p' + s[i + 1..end] == p + s[i..end];
    } else {
      assert p + s[i..end] == p;
    }
  }

  /** From a first digit at `i`, the scan reads the whole run `s[i..end]`. */
  lemma ScanDigits(s: seq<byte>, i: nat, end: nat, negative: bool)
    requires i < end <= |s| && AllDigits(s[i..end])
    ensures MoreDigits(s, i + 1, negative, DigitValue(s[i])) == MoreDigits(s, end, negative, Value(s[i..end]))
  {
    assert s[i..end][0] == s[i];
    ValueAppend([], s[i]);
    assert [] + [s[i]] == [s[i]];
    assert s[i + 1..end] == s[i..end][1..];
    MoreDigitsRun(s, i + 1, end, negative, [s[i]]);
    assert [s[i]] + s[i + 1..end] == s[i..end];
  }

  /** A literal that starts with a run of digits `s[..end]` is scanned to
      the end of the run, having read the run. */
  lemma ParseIntOfRun(s: seq<byte>, end: nat)
    requires 0 < end <= |s| && AllDigits(s[..end])
    ensures ParseInt(s) == MoreDigits(s, end, false, Value(s[..end]))
  {
    assert s[0..end] == s[..end];
    assert IsDigit(s[..end][0]);
    StartsWithDigit(s);
    ScanDigits(s, 0, end, false);
  }

  /** Plain ASCII digits parse to the number they spell. */
  lemma ParseIntOfDigits(s: seq<byte>)
    requires 0 < |s| && AllDigits(s)
    ensures ParseInt(s) == Some(Value(s))
  {
    assert s[..|s|] == s;
    ParseIntOfRun(s, |s|);
  }

  /** Round trip with the writer's side: a number written as `width`
      zero-padded digits parses back to itself. */
  lemma ParseIntOfFormat(n: nat, width: nat)
    requires 0 < width && n < Pow10(width)
    ensures ParseInt(Format(n, width)) == Some(n)
  {
    ParseIntOfDigits(Format(n, width));
    ValueOfFormat(n, width);
  }

  /** One byte in front of a run of digits, then the digits. */
  lemma AfterOneByte(b: byte, n: nat, width: nat, negative: bool)
    requires 0 < width && n < Pow10(width)
    ensures var s := [b] + Format(n, width);
            FirstDigit(s, 1, negative) == Some(if negative then -(n as int) else n)
  {
    var f := Format(n, width);
    var s := [b] + f;
    assert s[1..|s|] == f;
    ScanDigits(s, 1, |s|, negative);
    ValueOfFormat(n, width);
  }

  /** A minus sign in front of digits gives a negative number: `-0001` is -1. */
  lemma ParseIntOfNegative(n: nat, width: nat)
    requires 0 < width && n < Pow10(width)
    ensures ParseInt([MINUS] + Format(n, width)) == Some(-(n as int))
  {
    AfterOneByte(MINUS, n, width, true);
  }

  /** A plus sign in front of digits is accepted: `+0030` is 30. */
  lemma ParseIntOfPlusSigned(n: nat, width: nat)
    requires 0 < width && n < Pow10(width)
    ensures ParseInt([PLUS] + Format(n, width)) == Some(n)
  {
    AfterOneByte(PLUS, n, width, false);
  }

  /** Leading whitespace is skipped: a space-padded ` 030` reads as 30. */
  lemma ParseIntOfSpacePadded(n: nat, width: nat)
    requires 0 < width && n < Pow10(width)
    ensures ParseInt([SPACE] + Format(n, width)) == Some(n)
  {
    AfterOneByte(SPACE, n, width, false);
    var s := [SPACE] + Format(n, width);
    assert SkipLeading(s, 1) == FirstDigit(s, 1, false);
  }

  /** Trailing whitespace is skipped too: `0030 ` reads as 30. */
  lemma ParseIntOfTrailingSpace(s: seq<byte>)
    requires 0 < |s| && AllDigits(s)
    ensures ParseInt(s + [SPACE]) == Some(Value(s))
  {
    var t := s + [SPACE];
    assert t[..|s|] == s;
    ParseIntOfRun(t, |s|);
    assert SkipTrailing(t, |s| + 1, Value(s)) == Some(Value(s));
  }

  /** A literal that starts with a digit has no sign: the scan starts there. */
  lemma StartsWithDigit(s: seq<byte>)
    requires 0 < |s| && IsDigit(s[0])
    ensures ParseInt(s) == MoreDigits(s, 1, false, DigitValue(s[0]))
  {
  }

  /** An underscore followed by a digit is skipped and the digit read. */
  lemma UnderscoreStep(s: seq<byte>, k: nat, negative: bool, p: seq<byte>)
    requires k + 1 < |s| && s[k] == UNDERSCORE && IsDigit(s[k + 1]) && AllDigits(p)
    ensures AllDigits(p + [s[k + 1]])
    ensures MoreDigits(s, k, negative, Value(p)) == MoreDigits(s, k + 2, negative, Value(p + [s[k + 1]]))
  {
    ValueAppend(p, s[k + 1]);
  }

  /** The scan of `head`, an underscore, then the digits `t[k + 2..]`, whose
      digits together spell `whole`. */
  lemma ScanUnderscored(t: seq<byte>, k: nat, head: seq<byte>, next: seq<byte>, whole: seq<byte>)
    requires 0 < k && k + 1 < |t| && t[..k] == head && AllDigits(head)
    requires t[k] == UNDERSCORE && IsDigit(t[k + 1]) && head + [t[k + 1]] == next
    requires AllDigits(t[k + 2..]) && next + t[k + 2..] == whole
    ensures ParseInt(t) == Some(Value(whole))
  {
    ParseIntOfRun(t, k);
    UnderscoreStep(t, k, false, head);
    assert t[k + 2..|t|] == t[k + 2..];
    MoreDigitsRun(t, k + 2, |t|, false, next);
  }

  /** Where the parts of `a _ b` sit. */
  lemma UnderscoredShape(a: seq<byte>, b: seq<byte>)
    requires 0 < |b|
    ensures var t := a + [UNDERSCORE] + b;
            && t[..|a|] == a && t[|a|] == UNDERSCORE && t[|a| + 1] == b[0]
            && t[|a| + 2..] == b[1..] && (a + [b[0]]) + b[1..] == a + b
  {
    var t := a + [UNDERSCORE] + b;
    assert t[|a| + 2..] == b[1..];
    assert (a + [b[0]]) + b[1..] == a + ([b[0]] + b[1..]);
    assert [b[0]] + b[1..] == b;
  }

  /** A single underscore between two digit runs is ignored: `0_030` reads
      as `0030`, that is 30. */
  lemma {:induction false} ParseIntOfUnderscored(a: seq<byte>, b: seq<byte>)
    requires 0 < |a| && 0 < |b| && AllDigits(a) && AllDigits(b)
    ensures ParseInt(a + [UNDERSCORE] + b) == Some(Value(a + b))
  {
    UnderscoredShape(a, b);
    assert b[1..] == b[1..|b|];
    ScanUnderscored(a + [UNDERSCORE] + b, |a|, a, a + [b[0]], a + b);
  }
}
