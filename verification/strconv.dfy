/** The decimal integer conversions the key-value store relies on: `fmt.Sprintf("%d", n)`
    when writing a number attribute, and `strconv.Atoi` (error discarded) when reading it. */
module Strconv {
  import opened Basics

  const MaxUint64: int := 0xffff_ffff_ffff_ffff

  predicate IsDigit(c: char) {
    '0' <= c <= '9'
  }

  function DigitChar(d: int): (c: char)
    requires 0 <= d < 10
    ensures IsDigit(c)
    ensures DigitValue(c) == d
  {
    ('0' as int + d) as char
  }

  function DigitValue(c: char): (d: nat)
    requires IsDigit(c)
    ensures d < 10
  {
    c as int - '0' as int
  }

  /** The decimal digits of `n`, most significant first, with no leading zero. */
  function Digits(n: nat): (s: string)
    decreases n
    ensures |s| >= 1
    ensures forall i | 0 <= i < |s| :: IsDigit(s[i])
    ensures s[0] == '0' ==> n == 0
  {
    if n < 10 then [DigitChar(n)] else Digits(n / 10) + [DigitChar(n % 10)]
  }

  /** `fmt.Sprintf("%d", n)`: an optional minus sign followed by the digits of `|n|`. */
  function FormatInt(n: int): (s: string)
    ensures n >= 0 ==> |s| >= 1 && forall i | 0 <= i < |s| :: IsDigit(s[i])
    ensures n < 0 ==> |s| >= 2 && s[0] == '-' && forall i | 1 <= i < |s| :: IsDigit(s[i])
    ensures n >= 0 && s[0] == '0' ==> s == "0"
    ensures n < 0 ==> s[1] != '0'
  {
    if n < 0 then "-" + Digits(-n) else Digits(n)
  }

  /** What `strconv.ParseUint(s, 10, 64)` concludes about an unsigned decimal. */
  datatype UintScan = Value(n: nat) | SyntaxError | RangeError

  /** The digit loop of `ParseUint`, left to right, with accumulator `acc`: the first
      non-digit is a syntax error, and the first digit that would take the accumulator
      past `MaxUint64` is a range error, reported before any later character is looked at. */
  function ScanDigits(s: string, acc: nat): (r: UintScan)
    requires acc <= MaxUint64
    ensures r.Value? ==> r.n <= MaxUint64
    decreases |s|
  {
    if |s| == 0 then Value(acc)
    else if !IsDigit(s[0]) then SyntaxError
    else
      var next := acc * 10 + DigitValue(s[0]);
      if next > MaxUint64 then RangeError else ScanDigits(s[1..], next)
  }

  /** `strconv.Atoi(s)` with its error discarded, as `n, _ := strconv.Atoi(s)`: a syntax
      error yields 0 and an out-of-range value is clamped to the nearest `int64` bound. */
  function Atoi(s: string): (r: int64)
    ensures |s| == 0 ==> r == 0
  {
    if |s| == 0 then 0
    else
      var neg := s[0] == '-';
      var body := if s[0] == '-' || s[0] == '+' then s[1..] else s;
      if |body| == 0 then 0
      else
        match ScanDigits(body, 0)
        case SyntaxError => 0
        case RangeError => if neg then MinInt64 else MaxInt64
        case Value(u) =>
          if !neg then (if u > MaxInt64 then MaxInt64 else u)
          else (if u > -MinInt64 then MinInt64 else -(u as int))
  }

  /** Appending one digit to a scanned prefix extends the accumulated value by one decimal place. */
  lemma {:induction false} ScanSnoc(p: string, c: char, acc: nat)
    requires acc <= MaxUint64
    requires IsDigit(c)
    requires ScanDigits(p, acc).Value?
    ensures var v := ScanDigits(p, acc).n * 10 + DigitValue(c);
      ScanDigits(p + [c], acc) == if v > MaxUint64 then RangeError else Value(v)
  {
    if |p| == 0 {
      assert p + [c] == [c];
    } else {
      var next := acc * 10 + DigitValue(p[0]);
      assert (p + [c])[1..] == p[1..] + [c];
      ScanSnoc(p[1..], c, next);
    }
  }

  /** The digits of any unsigned 64-bit value scan back to that value. */
  lemma {:induction false} ScanDigitsOfValue(n: nat)
    requires n <= MaxUint64
    ensures ScanDigits(Digits(n), 0) == Value(n)
    decreases n
  {
    if n >= 10 {
      ScanDigitsOfValue(n / 10);
      ScanSnoc(Digits(n / 10), DigitChar(n % 10), 0);
    }
  }

  /** Decimal round trip for `view_count`: reading back with `Atoi` what `%d` wrote
      yields the original `int64`. */
  lemma AtoiFormatInt(n: int64)
    ensures Atoi(FormatInt(n)) == n
  {
    if n < 0 {
      ScanDigitsOfValue(-(n as int));
      assert FormatInt(n)[1..] == Digits(-(n as int));
    } else {
      ScanDigitsOfValue(n);
    }
  }

  /** A string without a single decimal digit reads as 0. */
  lemma AtoiWithoutDigits(s: string)
    requires forall i | 0 <= i < |s| :: !IsDigit(s[i])
    ensures Atoi(s) == 0
  {
  }
}
