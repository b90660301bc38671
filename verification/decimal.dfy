/**
  Decimal text for `int32`: `strconv.ParseInt(s, 10, 32)`, which the operand
  parsers use, and the `%d` verb, which the instruction serialiser uses.
*/
module Decimal {
  import opened Wrappers
  import opened Word32

  predicate IsDigit(c: char) {
    '0' <= c <= '9'
  }

  predicate AllDigits(s: string) {
    forall i :: 0 <= i < |s| ==> IsDigit(s[i])
  }

  function DigitValue(c: char): (d: nat)
    requires IsDigit(c)
    ensures d < 10
  {
    c as int - '0' as int
  }

  function DigitChar(d: nat): (c: char)
    requires d < 10
    ensures IsDigit(c) && DigitValue(c) == d
  {
    ('0' as int + d) as char
  }

  /** The number a run of decimal digits denotes, most significant first. */
  function DigitsValue(ds: string): nat
    requires AllDigits(ds)
  {
    if |ds| == 0 then 0
    else DigitsValue(ds[..|ds| - 1]) * 10 + DigitValue(ds[|ds| - 1])
  }

  /** `%d` of a natural number: its shortest run of decimal digits. */
  function FormatNat(n: nat): (s: string)
    ensures |s| >= 1 && AllDigits(s)
    ensures |s| > 1 ==> s[0] != '0'
  {
    if n < 10 then [DigitChar(n)]
    else FormatNat(n / 10) + [DigitChar(n % 10)]
  }

  /** `%d` of an integer: a minus sign for negatives, then the digits of the
      magnitude. */
  function FormatInt(x: int): (s: string)
    ensures |s| >= 1
    ensures forall i :: 0 <= i < |s| ==> IsDigit(s[i]) || s[i] == '-'
  {
    if x < 0 then "-" + FormatNat(-x) else FormatNat(x)
  }

  /** The digits after an optional leading sign. */
  function Unsigned(s: string): string {
    if |s| > 0 && (s[0] == '+' || s[0] == '-') then s[1..] else s
  }

  /** `strconv.ParseInt(s, 10, 32)` with its error folded into `None`. */
  function ParseInt32(s: string): (r: Option<Int32>)
    ensures r.Some? ==> |s| > 0 && (IsDigit(s[0]) || s[0] == '+' || s[0] == '-')
    ensures r.Some? ==> IsDigit(s[|s| - 1])
  {
    if |s| == 0 then None
    else
      var digits := Unsigned(s);
      if |digits| == 0 || !AllDigits(digits) then None
      else
        var v := if s[0] == '-' then -(DigitsValue(digits) as int) else DigitsValue(digits);
        if MinInt32 <= v <= MaxInt32 then Some(v) else None
  }

  /** What `ParseInt32` accepts: an optional `+` or `-`, then one or more decimal
      digits (no underscores in base 10), denoting a value within `int32`; the
      value is the digits' value, negated after a `-`. */
  lemma ParseInt32Accepts(s: string)
    ensures ParseInt32(s).Some? <==>
              && |Unsigned(s)| > 0 && AllDigits(Unsigned(s))
              && (if s[0] == '-' then DigitsValue(Unsigned(s)) <= MaxInt32 + 1
                  else DigitsValue(Unsigned(s)) <= MaxInt32)
    ensures ParseInt32(s).Some? ==>
              ParseInt32(s).value == if s[0] == '-' then -(DigitsValue(Unsigned(s)) as int)
                                     else DigitsValue(Unsigned(s))
  {
  }

  /** Reading back the digits of `n` gives `n`. */
  lemma {:induction false} DigitsValueFormatNat(n: nat)
    ensures DigitsValue(FormatNat(n)) == n
  {
    if n >= 10 {
      var s := FormatNat(n);
      assert s[..|s| - 1] == FormatNat(n / 10);
      DigitsValueFormatNat(n / 10);
    }
  }

  /** Parsing what `%d` prints gives back the `int32` that was printed. */
  lemma ParseFormatInt(x: Int32)
    ensures ParseInt32(FormatInt(x)) == Some(x)
  {
    var s := FormatInt(x);
    if x < 0 {
      assert Unsigned(s) == FormatNat(-(x as int));
      DigitsValueFormatNat(-(x as int));
    } else {
      assert s[0] != '+' && s[0] != '-';
      DigitsValueFormatNat(x);
    }
  }

  /** The text `%d` prints: an optional minus sign and digits with no
      superfluous leading zero, and no "-0". */
  predicate IsCanonical(s: string) {
    var digits := Unsigned(s);
    && |s| > 0 && s[0] != '+'
    && |digits| > 0 && AllDigits(digits)
    && (|digits| > 1 ==> digits[0] != '0')
    && (s[0] == '-' ==> digits != "0")
  }

  /** A run of digits without a superfluous leading zero is the `%d` text of its
      own value. */
  lemma {:induction false} FormatNatDigitsValue(ds: string)
    requires |ds| > 0 && AllDigits(ds)
    requires |ds| > 1 ==> ds[0] != '0'
    ensures FormatNat(DigitsValue(ds)) == ds
    decreases |ds|
  {
    var n := DigitsValue(ds);
    if |ds| > 1 {
      var init := ds[..|ds| - 1];
      assert init[0] == ds[0];
      FormatNatDigitsValue(init);
      LeadingDigitBound(init);
      assert n / 10 == DigitsValue(init);
      assert n % 10 == DigitValue(ds[|ds| - 1]);
      assert ds == init + [ds[|ds| - 1]];
    }
  }

  /** A digit run of length two or more without a leading zero is at least 10,
      and one of length one or more is at least 1. */
  lemma {:induction false} LeadingDigitBound(ds: string)
    requires |ds| > 0 && AllDigits(ds) && ds[0] != '0'
    ensures DigitsValue(ds) >= 1
    ensures |ds| > 1 ==> DigitsValue(ds) >= 10
    decreases |ds|
  {
    if |ds| > 1 {
      var init := ds[..|ds| - 1];
      assert init[0] == ds[0];
      LeadingDigitBound(init);
    }
  }

  /** Printing a parsed value reproduces canonical text, so on canonical text
      parsing and printing are inverse to each other. */
  lemma FormatParseCanonical(s: string)
    requires IsCanonical(s)
    requires ParseInt32(s).Some?
    ensures FormatInt(ParseInt32(s).value) == s
  {
    var digits := Unsigned(s);
    FormatNatDigitsValue(digits);
    if s[0] == '-' {
      if |digits| > 1 {
        LeadingDigitBound(digits);
      }
      assert s == "-" + digits;
    }
  }
}
