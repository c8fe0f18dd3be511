/** Decimal numbers: digit sequences, their values, the text that
    `to_string` prints, and the place-value parsing that the puzzles'
    `*_from_bytes` helpers perform with a table of powers of ten. */
module Decimal {
  import opened Common


  function Pow10(n: nat): (r: nat)
    ensures r >= 1
  {
    if n == 0 then 1 else 10 * Pow10(n - 1)
  }

  lemma {:induction false} Pow10Add(a: nat, b: nat)
    ensures Pow10(a + b) == Pow10(a) * Pow10(b)
    decreases b
  {
    if b > 0 {
      Pow10Add(a, b - 1);
      assert Pow10(a + b) == 10 * Pow10(a + b - 1);
    }
  }

  lemma {:induction false} Pow10Monotone(a: nat, b: nat)
    requires a <= b
    ensures Pow10(a) <= Pow10(b)
    decreases b
  {
    if a < b {
      Pow10Monotone(a, b - 1);
    }
  }

  predicate IsDigitSeq(ds: seq<nat>)
  {
    forall i :: 0 <= i < |ds| ==> ds[i] < 10
  }

  /** Most significant digit first; a leading zero is allowed and
      contributes nothing, as when Rust parses "0012". */
  function Value(ds: seq<nat>): nat
  {
    if |ds| == 0 then 0 else Value(ds[..|ds| - 1]) * 10 + ds[|ds| - 1]
  }

  /** A digit sequence as `to_string` prints a number: no leading zero
      unless the number is zero itself. */
  predicate IsCanonical(ds: seq<nat>)
  {
    IsDigitSeq(ds) && |ds| >= 1 && (ds[0] != 0 || |ds| == 1)
  }

  function Digits(n: nat): (ds: seq<nat>)
    ensures IsCanonical(ds)
    ensures n < 10 <==> |ds| == 1
  {
    if n < 10 then [n] else Digits(n / 10) + [n % 10]
  }

  lemma {:induction false} ValueOfDigits(n: nat)
    ensures Value(Digits(n)) == n
    decreases n
  {
    if n >= 10 {
      ValueOfDigits(n / 10);
      var ds := Digits(n);
      assert ds[..|ds| - 1] == Digits(n / 10);
    }
  }

  lemma {:induction false} ValueBound(ds: seq<nat>)
    requires IsDigitSeq(ds)
    ensures Value(ds) < Pow10(|ds|)
    decreases |ds|
  {
    if |ds| > 0 {
      ValueBound(ds[..|ds| - 1]);
    }
  }

  /** A canonical sequence of k digits denotes a number with exactly k digits. */
  lemma {:induction false} ValueLowerBound(ds: seq<nat>)
    requires IsCanonical(ds) && |ds| >= 2
    ensures Value(ds) >= Pow10(|ds| - 1)
    decreases |ds|
  {
    var init := ds[..|ds| - 1];
    if |ds| == 2 {
      assert init == [ds[0]];
    } else {
      assert init[0] == ds[0];
      ValueLowerBound(init);
    }
  }

  lemma {:induction false} ValueConcat(a: seq<nat>, b: seq<nat>)
    ensures Value(a + b) == Value(a) * Pow10(|b|) + Value(b)
    decreases |b|
  {
    if |b| == 0 {
      assert a + b == a;
    } else {
      var b' := b[..|b| - 1];
      assert (a + b)[..|a + b| - 1] == a + b';
      ValueConcat(a, b');
      assert Value(a + b) == (Value(a) * Pow10(|b'|) + Value(b')) * 10 + b[|b| - 1];
      assert Pow10(|b|) == 10 * Pow10(|b'|);
    }
  }

  /** `Digits` is the inverse of `Value` on canonical sequences. */
  lemma {:induction false} DigitsOfValue(ds: seq<nat>)
    requires IsCanonical(ds)
    ensures Digits(Value(ds)) == ds
    decreases |ds|
  {
    if |ds| > 1 {
      var init := ds[..|ds| - 1];
      assert init[0] == ds[0];
      DigitsOfValue(init);
      ValueLowerBound(ds);
      assert Pow10(|ds| - 1) >= 10 by {
        Pow10Monotone(1, |ds| - 1);
      }
      assert Value(ds) / 10 == Value(init);
      assert Value(ds) % 10 == ds[|ds| - 1];
      assert init + [ds[|ds| - 1]] == ds;
    }
  }

  /** The number of digits of n pins n between two powers of ten. */
  lemma DigitsLengthBounds(n: nat)
    ensures n < Pow10(|Digits(n)|)
    ensures |Digits(n)| >= 2 ==> n >= Pow10(|Digits(n)| - 1)
  {
    ValueOfDigits(n);
    ValueBound(Digits(n));
    if |Digits(n)| >= 2 {
      ValueLowerBound(Digits(n));
    }
  }

  // ----- text -----

  predicate IsDigitChar(c: char)
  {
    '0' <= c <= '9'
  }

  predicate IsDecimalText(bs: seq<char>)
  {
    forall i :: 0 <= i < |bs| ==> IsDigitChar(bs[i])
  }

  function DigitChar(d: nat): (c: char)
    requires d < 10
    ensures IsDigitChar(c)
  {
    ('0' as int + d) as char
  }

  function DigitOf(c: char): (d: nat)
    requires IsDigitChar(c)
    ensures d < 10
  {
    c as int - '0' as int
  }

  function DigitValues(bs: seq<char>): (ds: seq<nat>)
    requires IsDecimalText(bs)
    ensures |ds| == |bs| && IsDigitSeq(ds)
    ensures forall i :: 0 <= i < |bs| ==> ds[i] == DigitOf(bs[i])
  {
    if |bs| == 0 then [] else [DigitOf(bs[0])] + DigitValues(bs[1..])
  }

  /** Decimal text of n, as Rust's `to_string` produces it. */
  function DecimalString(n: nat): (s: seq<char>)
    ensures |s| == |Digits(n)| && IsDecimalText(s)
    ensures forall i :: 0 <= i < |s| ==> s[i] == DigitChar(Digits(n)[i])
  {
    seq(|Digits(n)|, i requires 0 <= i < |Digits(n)| => DigitChar(Digits(n)[i]))
  }

  lemma DigitValuesOfString(n: nat)
    ensures DigitValues(DecimalString(n)) == Digits(n)
  {
  }

  /** Decimal text parsed as Rust's `str::parse::<usize>` does for a
      non-empty run of digits. */
  function Parse(bs: seq<char>): nat
    requires IsDecimalText(bs)
  {
    Value(DigitValues(bs))
  }

  lemma ParseDecimalString(n: nat)
    ensures Parse(DecimalString(n)) == n
  {
    DigitValuesOfString(n);
    ValueOfDigits(n);
  }

  /** `x & 0x0f` on a byte: its low four bits, the digit value for '0'..'9'. */
  function Low4(c: char): (r: nat)
    ensures r < 16
    ensures IsDigitChar(c) ==> r == DigitOf(c)
  {
    (c as int) % 16
  }

  /** The fold of every `*_from_bytes` helper: the last byte is multiplied
      by 1, the one before by 10, and so on, and the products are added.
      Each helper bounds the length by the size of its table. */
  function PlaceValue(bs: seq<char>): nat
  {
    if |bs| == 0 then 0 else Low4(bs[0]) * Pow10(|bs| - 1) + PlaceValue(bs[1..])
  }

  lemma {:induction false} PlaceValueIsValue(bs: seq<char>)
    requires IsDecimalText(bs)
    ensures PlaceValue(bs) == Parse(bs)
    decreases |bs|
  {
    if |bs| > 0 {
      PlaceValueIsValue(bs[1..]);
      var ds := DigitValues(bs);
      assert ds == [ds[0]] + ds[1..];
      assert DigitValues(bs[1..]) == ds[1..];
      ValueConcat([ds[0]], ds[1..]);
      assert Value([ds[0]]) == ds[0] by {
        assert [ds[0]][..0] == [];
      }
    }
  }

  /** Place-value parsing reads back the text of any number. */
  lemma PlaceValueOfString(n: nat)
    ensures PlaceValue(DecimalString(n)) == n
  {
    PlaceValueIsValue(DecimalString(n));
    ParseDecimalString(n);
  }

  lemma PlaceValueBound(bs: seq<char>)
    requires IsDecimalText(bs)
    ensures PlaceValue(bs) < Pow10(|bs|)
  {
    PlaceValueIsValue(bs);
    ValueBound(DigitValues(bs));
  }

  /** What each capped `*_from_bytes` helper computes on a field of at
      most `width` digits: the decimal value, below 10^width. */
  lemma PlaceValueWithin(bs: seq<char>, width: nat)
    requires IsDecimalText(bs) && |bs| <= width
    ensures PlaceValue(bs) == Parse(bs) < Pow10(width)
  {
    PlaceValueIsValue(bs);
    PlaceValueBound(bs);
    Pow10Monotone(|bs|, width);
  }

  /** A number below 10^width prints in at most `width` digits. */
  lemma DigitsWithin(n: nat, width: nat)
    requires n < Pow10(width) && width >= 1
    ensures |Digits(n)| <= width
  {
    DigitsLengthBounds(n);
    if |Digits(n)| > width {
      if |Digits(n)| >= 2 {
        Pow10Monotone(width, |Digits(n)| - 1);
      }
    }
  }

  /** A non-empty run of decimal digits read as its value; `None` for
      any other text. */
  function ParseDigits(bs: seq<char>): (r: Option<nat>)
    ensures r.Some? <==> |bs| >= 1 && IsDecimalText(bs)
    ensures r.Some? ==> r.value < Pow10(|bs|)
  {
    if |bs| >= 1 && IsDecimalText(bs) then
      PlaceValueIsValue(bs);
      PlaceValueBound(bs);
      Some(Parse(bs))
    else None
  }

  /** `str::parse::<usize>()`: a non-empty run of digits, after at most
      one `+`; a sign alone, a `-` or any other byte is an error. The
      64-bit overflow error is not modelled. */
  function ParseNat(bs: seq<char>): (r: Option<nat>)
    ensures r.Some? <==> (|bs| >= 1 && IsDecimalText(bs)) || (|bs| >= 2 && bs[0] == '+' && IsDecimalText(bs[1..]))
    ensures r.Some? && bs[0] != '+' ==> r.value == Parse(bs)
    ensures r.Some? && bs[0] == '+' ==> r.value == Parse(bs[1..])
    ensures r.Some? ==> r.value < Pow10(|bs|)
  {
    if |bs| >= 1 && bs[0] == '+' then
      match ParseDigits(bs[1..])
      case Some(n) => Pow10Monotone(|bs| - 1, |bs|); Some(n)
      case None => None
    else ParseDigits(bs)
  }

  /** `parse` reads back what `to_string` prints. */
  lemma ParseNatDecimalString(n: nat)
    ensures ParseNat(DecimalString(n)) == Some(n)
  {
    ParseDecimalString(n);
  }

  /** One `+` before a number's text reads as the number; a `+` alone,
      a doubled sign and a `-` are errors. */
  lemma ParseNatSigns(n: nat)
    ensures ParseNat(['+'] + DecimalString(n)) == Some(n)
    ensures ParseNat(['+']) == None && ParseNat(['+', '+'] + DecimalString(n)) == None
    ensures ParseNat(['-'] + DecimalString(n)) == None
  {
    var t := DecimalString(n);
    ParseDecimalString(n);
    assert (['+'] + t)[1..] == t;
    assert (['+', '+'] + t)[1..] == ['+'] + t;
    assert !IsDigitChar('+') && !IsDigitChar('-');
  }

  /** Text of an integer as `to_string` prints it: a minus sign before
      the digits of a negative number. */
  function IntString(x: int): (s: seq<char>)
    ensures |s| >= 1
  {
    if x < 0 then ['-'] + DecimalString(-x) else DecimalString(x)
  }

  /** `str::parse::<isize>()`: a non-empty run of digits, after at most
      one `+` or `-`. The 64-bit overflow error is not modelled. */
  function ParseInt(bs: seq<char>): (r: Option<int>)
    ensures r.Some? <==> (|bs| >= 1 && IsDecimalText(bs)) || (|bs| >= 2 && (bs[0] == '-' || bs[0] == '+') && IsDecimalText(bs[1..]))
    ensures r.Some? && bs[0] == '-' ==> r.value == -(Parse(bs[1..]) as int)
    ensures r.Some? && bs[0] == '+' ==> r.value == Parse(bs[1..])
    ensures r.Some? && bs[0] != '-' && bs[0] != '+' ==> r.value == Parse(bs)
  {
    if |bs| >= 1 && bs[0] == '-' then
      match ParseDigits(bs[1..])
      case Some(n) => Some(-(n as int))
      case None => None
    else
      match ParseNat(bs)
      case Some(n) => Some(n as int)
      case None => None
  }

  /** `parse` reads back what `to_string` prints, sign included. */
  lemma ParseIntString(x: int)
    ensures ParseInt(IntString(x)) == Some(x)
  {
    if x < 0 {
      ParseNegative(-x);
    } else {
      ParseNonNegative(x);
    }
  }

  lemma ParseNegative(n: nat)
    ensures ParseInt(['-'] + DecimalString(n)) == Some(-(n as int))
  {
    var t := DecimalString(n);
    DropSign(t);
    ParseDecimalString(n);
    assert ParseInt(['-'] + t).value == -(Parse(t) as int);
  }

  lemma ParseNonNegative(n: nat)
    ensures ParseInt(DecimalString(n)) == Some(n as int)
  {
    var s := DecimalString(n);
    assert IsDigitChar(s[0]);
    ParseDecimalString(n);
  }

  lemma DropSign(t: seq<char>)
    ensures (['-'] + t)[0] == '-' && (['-'] + t)[1..] == t
  {
  }
}
