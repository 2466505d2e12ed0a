/**
 * Decimal and hexadecimal text.  Text is bytes, as in the source: lengths count bytes, and a
 * character outside ASCII is a run of bytes that are no digits.
 */
module Numerals {
  import opened Words

  type Text = seq<Byte>

  /** The byte of an ASCII character. */
  function Ascii(c: char): Byte
    requires c as int < 128
  {
    c as int
  }

  predicate IsDigit(b: Byte) {
    48 <= b <= 57
  }

  predicate AllDigits(s: Text) {
    forall i :: 0 <= i < |s| ==> IsDigit(s[i])
  }

  /** `{n}`: no leading zeros. */
  function Digits(n: nat): (s: Text)
    ensures |s| >= 1
  {
    if n < 10 then [48 + n] else Digits(n / 10) + [48 + n % 10]
  }

  function Value(s: Text): (v: nat)
    requires AllDigits(s)
  {
    if s == [] then 0 else 10 * Value(s[..|s| - 1]) + (s[|s| - 1] - 48)
  }

  lemma {:induction false} DigitsValue(n: nat)
    ensures AllDigits(Digits(n)) && Value(Digits(n)) == n
  {
    if n >= 10 {
      DigitsValue(n / 10);
      var s := Digits(n);
      assert s[..|s| - 1] == Digits(n / 10);
    } else {
      assert Value([48 + n][..0]) == 0;
    }
  }

  function Pow10(k: nat): (p: nat)
    ensures p >= 1
  {
    if k == 0 then 1 else 10 * Pow10(k - 1)
  }

  /** A number below 10^k, and no other, has at most k digits. */
  lemma {:induction false} DigitCount(n: nat, k: nat)
    requires k >= 1
    ensures |Digits(n)| <= k <==> n < Pow10(k)
    decreases k
  {
    if k == 1 {
      assert Pow10(1) == 10 * Pow10(0);
    } else if n >= 10 {
      DigitCount(n / 10, k - 1);
    } else {
      assert Pow10(k) >= 10;
    }
  }

  // ---------------------------------------------------------------- padded numbers

  /** The low w digits of n, leading zeros kept. */
  function Fixed(n: nat, w: nat): (s: Text)
    ensures |s| == w
  {
    if w == 0 then [] else Fixed(n / 10, w - 1) + [48 + n % 10]
  }

  /** `{n:0w$}`: padded with zeros to at least w digits, never cut. */
  function Padded(n: nat, w: nat): Text {
    if |Digits(n)| >= w then Digits(n) else Fixed(n, w)
  }

  lemma {:induction false} FixedValue(n: nat, w: nat)
    ensures AllDigits(Fixed(n, w))
    ensures n < Pow10(w) ==> Value(Fixed(n, w)) == n
  {
    if w != 0 {
      FixedValue(n / 10, w - 1);
      var s := Fixed(n, w);
      assert s[..w - 1] == Fixed(n / 10, w - 1);
    }
  }

  /** Padding to the width a number already has changes nothing. */
  lemma {:induction false} FixedOfOwnWidth(n: nat)
    ensures Fixed(n, |Digits(n)|) == Digits(n)
  {
    if n >= 10 {
      FixedOfOwnWidth(n / 10);
    } else {
      assert Fixed(n, 1) == Fixed(n / 10, 0) + [48 + n % 10];
    }
  }

  lemma PaddedValue(n: nat, w: nat)
    ensures AllDigits(Padded(n, w)) && Value(Padded(n, w)) == n
    ensures |Padded(n, w)| >= w
    ensures w >= 1 && n < Pow10(w) ==> Padded(n, w) == Fixed(n, w)
  {
    hide Digits, Fixed, Value;
    if |Digits(n)| >= w {
      DigitsValue(n);
      if w >= 1 && n < Pow10(w) {
        DigitCount(n, w);
        FixedOfOwnWidth(n);
      }
    } else {
      DigitCount(n, w);
      FixedValue(n, w);
    }
  }

  // ---------------------------------------------------------------- order of text

  /** Byte by byte, the way strings sort. */
  predicate Less(a: Text, b: Text) {
    if a == [] then b != []
    else if b == [] then false
    else a[0] < b[0] || (a[0] == b[0] && Less(a[1..], b[1..]))
  }

  /** After fronts of equal length, the fronts decide, and then the backs. */
  lemma {:induction false} LessOfJoin(a: Text, a': Text, b: Text, b': Text)
    requires |a| == |a'|
    ensures Less(a + b, a' + b') <==> Less(a, a') || (a == a' && Less(b, b'))
    decreases |a|
  {
    if a == [] {
      assert a + b == b && a' + b' == b';
    } else {
      LessOfJoin(a[1..], a'[1..], b, b');
      assert (a + b)[1..] == a[1..] + b && (a' + b')[1..] == a'[1..] + b';
      assert a == [a[0]] + a[1..] && a' == [a'[0]] + a'[1..];
    }
  }

  lemma {:induction false} FixedOrder(m: nat, n: nat, w: nat)
    requires m < Pow10(w) && n < Pow10(w)
    ensures Less(Fixed(m, w), Fixed(n, w)) <==> m < n
    ensures Fixed(m, w) == Fixed(n, w) <==> m == n
    decreases w
  {
    if w != 0 {
      FixedOrder(m / 10, n / 10, w - 1);
      var x: Text, y: Text := [48 + m % 10], [48 + n % 10];
      LessOfJoin(Fixed(m / 10, w - 1), Fixed(n / 10, w - 1), x, y);
      LastDigits(Fixed(m / 10, w - 1), Fixed(n / 10, w - 1), 48 + m % 10, 48 + n % 10);
      hide Less, Fixed;
      assert Fixed(m, w) == Fixed(m / 10, w - 1) + x by { FixedStep(m, w); }
      assert Fixed(n, w) == Fixed(n / 10, w - 1) + y by { FixedStep(n, w); }
    }
  }

  lemma FixedStep(n: nat, w: nat)
    requires w != 0
    ensures Fixed(n, w) == Fixed(n / 10, w - 1) + [48 + n % 10]
  {
  }

  lemma LastDigits(a: Text, b: Text, x: Byte, y: Byte)
    ensures Less([x], [y]) <==> x < y
    ensures a + [x] == b + [y] <==> a == b && x == y
  {
    assert [x][1..] == [] && [y][1..] == [];
    if a + [x] == b + [y] {
      assert (a + [x])[..|a|] == a && (b + [y])[..|b|] == b;
      assert (a + [x])[|a|] == x && (b + [y])[|b|] == y;
    }
  }

  // ---------------------------------------------------------------- parsing

  /** Digits or nothing, and nothing past the end of u64. */
  function Decimal(s: Text): Option<U64> {
    if s == [] || !AllDigits(s) then None
    else if Value(s) < U64_LIMIT then Some(Value(s))
    else None
  }

  /** What is printed parses back. */
  lemma DecimalOfDigits(n: U64)
    ensures Decimal(Digits(n)) == Some(n)
  {
    DigitsValue(n);
  }
}
