/**
 * The few pieces of java.lang the core relies on: the 32-bit `int`, the
 * narrowing cast from `long`, `String.format("%d")`, `Integer.parseInt` and
 * `String.split` with a one-character separator.
 */
module JavaLang {
  import opened Results

  /** Java's `int` (and the values of `Integer`). */
  newtype int32 = x: int | -0x8000_0000 <= x < 0x8000_0000

  /** The `(int)` cast of a non-negative `long`: keeps the low 32 bits, two's complement. */
  function NarrowToInt(n: nat): (r: int32)
    ensures n < 0x8000_0000 ==> r as int == n
    ensures (r as int - n) % 0x1_0000_0000 == 0
  {
    var low := n % 0x1_0000_0000;
    if low < 0x8000_0000 then low as int32 else (low - 0x1_0000_0000) as int32
  }

  predicate IsDigit(c: char) { '0' <= c <= '9' }

  predicate AllDigits(s: string) { forall k | 0 <= k < |s| :: IsDigit(s[k]) }

  function DigitChar(d: nat): (c: char)
    requires d < 10
    ensures IsDigit(c) && c as int - '0' as int == d
  {
    (48 + d) as char
  }

  /** The number an all-digit string denotes, most significant digit first. */
  function DigitsValue(s: string): nat
    requires AllDigits(s)
  {
    if s == [] then 0
    else DigitsValue(s[..|s| - 1]) * 10 + (s[|s| - 1] as int - 48)
  }

  /** The decimal digits of n without leading zeros. */
  function Digits(n: nat): (s: string)
    ensures |s| >= 1
  {
    if n < 10 then [DigitChar(n)] else Digits(n / 10) + [DigitChar(n % 10)]
  }

  /** `String.format("%d", x)`: a minus sign for negative values, then the digits of |x|. */
  function Format(x: int32): string
  {
    if x < 0 then "-" + Digits(-(x as int)) else Digits(x as int)
  }

  /**
   * `Integer.parseInt(s)` in radix 10: an optional leading '+' or '-', then at
   * least one digit, and a value that fits in an int; anything else throws
   * NumberFormatException.
   */
  function ParseInt(s: string): (r: Result<int32>)
    ensures r.Err? ==> r.error == NumberFormat
    ensures r.Ok? ==> IsDecimal(s)
  {
    if |s| == 0 then Err(NumberFormat)
    else
      var signed := s[0] == '-' || s[0] == '+';
      var body := if signed then s[1..] else s;
      if |body| == 0 || !AllDigits(body) then Err(NumberFormat)
      else
        var v: int := if s[0] == '-' then -(DigitsValue(body) as int) else DigitsValue(body);
        if -0x8000_0000 <= v < 0x8000_0000 then Ok(v as int32) else Err(NumberFormat)
  }

  /** An optional leading '+' or '-' followed by at least one ASCII digit. */
  predicate IsDecimal(s: string) {
    || (|s| >= 1 && AllDigits(s))
    || (|s| >= 2 && (s[0] == '-' || s[0] == '+') && AllDigits(s[1..]))
  }

  /** A run of digits with no sign: its value when it fits in an int, and NumberFormatException otherwise. */
  lemma ParseIntOfDigits(d: string)
    requires |d| >= 1 && AllDigits(d)
    ensures ParseInt(d) == (if DigitsValue(d) < 0x8000_0000 then Ok(DigitsValue(d) as int32) else Err(NumberFormat))
  {
  }

  /** A leading '+' changes nothing. */
  lemma ParseIntOfPlus(d: string)
    requires |d| >= 1 && AllDigits(d)
    ensures ParseInt("+" + d) == ParseInt(d)
  {
  }

  /** A leading '-' negates the value, which may then reach -2^31. */
  lemma ParseIntOfMinus(d: string)
    requires |d| >= 1 && AllDigits(d)
    ensures ParseInt("-" + d) == (if DigitsValue(d) <= 0x8000_0000 then Ok(-(DigitsValue(d) as int) as int32) else Err(NumberFormat))
  {
    var minus := "-" + d;
    assert minus[0] == '-' && minus[1..] == d;
  }

  lemma {:induction false} DigitsAreDigits(n: nat)
    ensures AllDigits(Digits(n)) && DigitsValue(Digits(n)) == n
    decreases n
  {
    if n >= 10 {
      DigitsAreDigits(n / 10);
      var s := Digits(n);
      assert s[..|s| - 1] == Digits(n / 10);
    }
  }

  /** `Integer.parseInt` reads back every value `String.format("%d")` writes. */
  lemma FormatRoundTrip(x: int32)
    ensures ParseInt(Format(x)) == Ok(x)
  {
    if x < 0 {
      DigitsAreDigits(-(x as int));
      ParseIntOfMinus(Digits(-(x as int)));
    } else {
      DigitsAreDigits(x as int);
      ParseIntOfDigits(Digits(x as int));
    }
  }

  /** A formatted int starts with '-' exactly when it is negative; the rest is digits. */
  lemma FormatShape(x: int32)
    ensures |Format(x)| >= 1 && (Format(x)[0] == '-' <==> x < 0)
    ensures AllDigits(Format(x)[1..]) && (x >= 0 ==> AllDigits(Format(x)))
  {
    if x < 0 {
      DigitsAreDigits(-(x as int));
      assert Format(x)[1..] == Digits(-(x as int));
    } else {
      DigitsAreDigits(x as int);
    }
  }

  /** A formatted int is a minus sign and digits: it never holds the separator ','. */
  lemma FormatHasNoComma(x: int32)
    ensures ',' !in Format(x)
  {
    if x < 0 {
      DigitsAreDigits(-(x as int));
    } else {
      DigitsAreDigits(x as int);
    }
  }

  /** Every field of s between occurrences of sep, including empty and trailing ones. */
  function Fields(s: string, sep: char): (r: seq<string>)
    ensures |r| == multiset(s)[sep] + 1
    ensures forall k | 0 <= k < |r| :: sep !in r[k]
  {
    if s == [] then [""]
    else
      var rest := Fields(s[1..], sep);
      assert s == [s[0]] + s[1..];
      if s[0] == sep then [""] + rest
      else [[s[0]] + rest[0]] + rest[1..]
  }

  /** Drops the empty strings at the end of fs. */
  function DropTrailingEmpty(fs: seq<string>): (r: seq<string>)
    ensures r <= fs
    ensures r == [] || r[|r| - 1] != ""
    ensures forall k | |r| <= k < |fs| :: fs[k] == ""
  {
    if fs != [] && fs[|fs| - 1] == "" then DropTrailingEmpty(fs[..|fs| - 1]) else fs
  }

  /**
   * `s.split(sep)` for a one-character, non-special separator and limit 0: a
   * string without the separator gives itself (so "" gives [""]); otherwise
   * the fields between separators with the trailing empty ones removed.
   */
  function Split(s: string, sep: char): (r: seq<string>)
    ensures sep !in s ==> r == [s]
    ensures sep in s ==> r == [] || r[|r| - 1] != ""
    ensures forall k | 0 <= k < |r| :: sep !in r[k]
  {
    if sep !in s then [s] else DropTrailingEmpty(Fields(s, sep))
  }

  lemma {:induction false} FieldsOfPrefix(a: string, b: string, sep: char)
    requires sep !in a
    ensures Fields(a + b, sep) == [a + Fields(b, sep)[0]] + Fields(b, sep)[1..]
    decreases |a|
  {
    if a == [] {
      assert a + b == b;
      var fb := Fields(b, sep);
      assert a + fb[0] == fb[0];
      assert [fb[0]] + fb[1..] == fb;
    } else {
      var s := a + b;
      assert s[0] == a[0] && a[0] != sep;
      assert s[1..] == a[1..] + b;
      FieldsOfPrefix(a[1..], b, sep);
      var rest := Fields(s[1..], sep);
      assert Fields(s, sep) == [[a[0]] + rest[0]] + rest[1..];
      assert [a[0]] + (a[1..] + Fields(b, sep)[0]) == a + Fields(b, sep)[0];
    }
  }

  /** Two separator-free strings joined by one separator split back into the two. */
  lemma SplitOfJoin(a: string, b: string, sep: char)
    requires sep !in a && sep !in b && b != ""
    ensures Split(a + [sep] + b, sep) == [a, b]
  {
    var s := a + [sep] + b;
    assert s[|a|] == sep;
    assert Fields("", sep) == [""];
    FieldsOfPrefix(b, "", sep);
    assert b + "" == b;
    assert Fields(b, sep) == [b];
    var t := [sep] + b;
    assert t[0] == sep && t[1..] == b;
    assert Fields(t, sep) == ["", b];
    FieldsOfPrefix(a, t, sep);
    assert a + t == s;
    assert a + "" == a;
    assert Fields(s, sep) == [a, b];
    assert DropTrailingEmpty([a, b]) == [a, b];
  }
}
