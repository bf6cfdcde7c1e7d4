/**
 * The `"min-max"` age-range string of a department summary and the step that
 * rewrites it for each user. The source keeps the range only as a string:
 * on every user it splits the string on `-`, parses both halves with
 * `parseInt`, combines them with the user's age through `Math.min` and
 * `Math.max`, and prints the pair back. An empty string stands for "no age
 * seen yet" and reads as the sentinels `Infinity` and `-Infinity`.
 *
 * JavaScript numbers are modelled by `JsNum`: the naturals that ages and
 * parsed digit strings produce, `NaN`, and the two infinities.
 */
module AgeRange {

  datatype JsNum = Num(v: nat) | NaN | Infinity | NegInfinity

  predicate IsDigit(c: char)
  {
    '0' <= c <= '9'
  }

  predicate AllDigits(s: string)
  {
    forall i :: 0 <= i < |s| ==> IsDigit(s[i])
  }

  function Digit(d: nat): (c: char)
    requires d < 10
    ensures IsDigit(c)
  {
    ('0' as int + d) as char
  }

  function DigitValue(c: char): (d: nat)
    requires IsDigit(c)
    ensures d < 10
  {
    c as int - '0' as int
  }

  /** Decimal rendering of a natural number without leading zeros; this is how JavaScript prints an integer below 1e21. */
  function NatToString(n: nat): (s: string)
    ensures |s| > 0
    ensures AllDigits(s)
    ensures s[0] == '0' ==> n == 0
    decreases n
  {
    if n < 10 then [Digit(n)] else NatToString(n / 10) + [Digit(n % 10)]
  }

  /** The value of a string of decimal digits, most significant first. */
  function DigitsValue(s: string): nat
    requires AllDigits(s)
  {
    if |s| == 0 then 0 else DigitsValue(s[..|s| - 1]) * 10 + DigitValue(s[|s| - 1])
  }

  /** The longest prefix of `s` made of decimal digits. */
  function LeadingDigits(s: string): (p: string)
    ensures AllDigits(p)
    ensures |p| <= |s| && p == s[..|p|]
    ensures |p| < |s| ==> !IsDigit(s[|p|])
  {
    if |s| == 0 || !IsDigit(s[0]) then "" else [s[0]] + LeadingDigits(s[1..])
  }

  /**
   * `parseInt(s)` on the strings this module can meet: the digits at the
   * front of `s` are read, and a string that does not start with a digit
   * gives `NaN`.
   */
  function ParseInt(s: string): (r: JsNum)
    ensures r.NaN? <==> (|s| == 0 || !IsDigit(s[0]))
  {
    var p := LeadingDigits(s);
    if |p| == 0 then NaN else Num(DigitsValue(p))
  }

  /** `String(x)` for a JavaScript number: digits for a number, the names of the special values otherwise. */
  function NumToString(x: JsNum): (s: string)
    ensures |s| > 0
    ensures IsDigit(s[0]) <==> x.Num?
    ensures x.Num? ==> AllDigits(s) && '-' !in s
  {
    match x
    case Num(v) => DigitsHaveNoDash(v); NatToString(v)
    case NaN => "NaN"
    case Infinity => "Infinity"
    case NegInfinity => "-Infinity"
  }

  /** `s.split(sep)`: the pieces of `s` between occurrences of `sep`, in order; always at least one. */
  function Split(s: string, sep: char): (parts: seq<string>)
    ensures |parts| >= 1
    ensures forall i :: 0 <= i < |parts| ==> sep !in parts[i]
    ensures |parts| == 1 <==> sep !in s
    ensures |s| == 0 || s[0] == sep ==> parts[0] == ""
    ensures |s| > 0 && s[0] != sep ==> |parts[0]| > 0 && parts[0][0] == s[0]
  {
    if |s| == 0 then [""]
    else if s[0] == sep then [""] + Split(s[1..], sep)
    else
      var rest := Split(s[1..], sep);
      [[s[0]] + rest[0]] + rest[1..]
  }

  /** Glues pieces back together with `sep` between neighbours; the inverse of `Split`. */
  function Join(parts: seq<string>, sep: char): string
    requires |parts| >= 1
  {
    if |parts| == 1 then parts[0] else parts[0] + [sep] + Join(parts[1..], sep)
  }

  /** `Math.min(a, b)` for a number `a` and an age `b`. */
  function JsMin(a: JsNum, b: nat): (r: JsNum)
    ensures a.Num? ==> r.Num? && r.v <= a.v && r.v <= b && (r.v == a.v || r.v == b)
    ensures a.Infinity? ==> r == Num(b)
    ensures (a.NaN? || a.NegInfinity?) ==> r == a
  {
    match a
    case Num(v) => Num(if v <= b then v else b)
    case NaN => NaN
    case Infinity => Num(b)
    case NegInfinity => NegInfinity
  }

  /** `Math.max(a, b)` for a number `a` and an age `b`. */
  function JsMax(a: JsNum, b: nat): (r: JsNum)
    ensures a.Num? ==> r.Num? && r.v >= a.v && r.v >= b && (r.v == a.v || r.v == b)
    ensures a.NegInfinity? ==> r == Num(b)
    ensures (a.NaN? || a.Infinity?) ==> r == a
  {
    match a
    case Num(v) => Num(if v >= b then v else b)
    case NaN => NaN
    case Infinity => Infinity
    case NegInfinity => Num(b)
  }

  /** The string the source writes for the range `lo`..`hi`: it splits on `-` into exactly the two printed bounds. */
  function EncodeRange(lo: nat, hi: nat): (r: string)
    ensures Split(r, '-') == [NatToString(lo), NatToString(hi)]
  {
    DigitsHaveNoDash(lo);
    DigitsHaveNoDash(hi);
    SplitAfterPrefix(NatToString(lo), '-', NatToString(hi));
    SplitWithoutSep(NatToString(hi), '-');
    NatToString(lo) + "-" + NatToString(hi)
  }

  /**
   * The current lower bound read back from a stored range: `Infinity` for
   * the empty string, otherwise `parseInt` of the first `-`-separated piece.
   */
  function ReadMin(range: string): (r: JsNum)
    ensures r.Infinity? <==> range == ""
    ensures r.NaN? <==> range != "" && !IsDigit(range[0])
  {
    if range == "" then Infinity else ParseInt(Split(range, '-')[0])
  }

  /**
   * The current upper bound read back from a stored range: `-Infinity` for
   * the empty string, otherwise `parseInt` of the second piece, where a
   * missing piece (`undefined`) parses as `NaN`.
   */
  function ReadMax(range: string): (r: JsNum)
    ensures r.NegInfinity? <==> range == ""
    ensures range != "" && '-' !in range ==> r.NaN?
    ensures r.Num? ==> '-' in range
  {
    if range == "" then NegInfinity
    else
      var parts := Split(range, '-');
      if |parts| >= 2 then ParseInt(parts[1]) else NaN
  }

  /** One age-range update: read the bounds, widen them by `age`, print them back. */
  function AgeStep(range: string, age: nat): (r: string)
    ensures r != ""
  {
    NumToString(JsMin(ReadMin(range), age)) + "-" + NumToString(JsMax(ReadMax(range), age))
  }

  // ---------------------------------------------------------------------
  // Round trip of the decimal rendering

  lemma {:induction false} DigitsValueOfNatToString(n: nat)
    ensures DigitsValue(NatToString(n)) == n
    decreases n
  {
    if n >= 10 {
      var s := NatToString(n / 10);
      var t := s + [Digit(n % 10)];
      assert t[..|t| - 1] == s;
      DigitsValueOfNatToString(n / 10);
    }
  }

  lemma {:induction false} LeadingDigitsOfDigits(s: string)
    requires AllDigits(s)
    ensures LeadingDigits(s) == s
    decreases |s|
  {
    if |s| > 0 {
      LeadingDigitsOfDigits(s[1..]);
    }
  }

  /** `parseInt(String(n)) == n` for every natural `n`. */
  lemma ParseIntOfNatToString(n: nat)
    ensures ParseInt(NatToString(n)) == Num(n)
  {
    LeadingDigitsOfDigits(NatToString(n));
    DigitsValueOfNatToString(n);
  }

  /** Only numbers survive printing and re-parsing: `NaN` and both infinities parse back as `NaN`. */
  lemma ParseIntOfNumToString(x: JsNum)
    ensures ParseInt(NumToString(x)) == if x.Num? then x else NaN
  {
    if x.Num? {
      ParseIntOfNatToString(x.v);
    }
  }

  // ---------------------------------------------------------------------
  // Splitting

  /** A string without the separator splits into itself alone. */
  lemma {:induction false} SplitWithoutSep(s: string, sep: char)
    requires sep !in s
    ensures Split(s, sep) == [s]
    decreases |s|
  {
    if |s| > 0 {
      assert sep !in s[1..];
      SplitWithoutSep(s[1..], sep);
      assert [s[0]] + s[1..] == s;
    }
  }

  /** A separator-free prefix followed by the separator comes off as the first piece. */
  lemma {:induction false} SplitAfterPrefix(a: string, sep: char, b: string)
    requires sep !in a
    ensures Split(a + [sep] + b, sep) == [a] + Split(b, sep)
    decreases |a|
  {
    var s := a + [sep] + b;
    if |a| == 0 {
      assert s[1..] == b;
    } else {
      assert s[0] == a[0];
      assert s[1..] == a[1..] + [sep] + b;
      assert sep !in a[1..];
      SplitAfterPrefix(a[1..], sep, b);
      assert [a[0]] + a[1..] == a;
    }
  }

  /** Splitting and joining on the same separator gives the string back. */
  lemma {:induction false} JoinSplit(s: string, sep: char)
    ensures Join(Split(s, sep), sep) == s
    decreases |s|
  {
    if |s| > 0 {
      JoinSplit(s[1..], sep);
      var rest := Split(s[1..], sep);
      if s[0] == sep {
        assert Split(s, sep)[1..] == rest;
        assert [sep] + s[1..] == s;
      } else {
        var parts := Split(s, sep);
        assert parts[1..] == rest[1..];
        if |rest| == 1 {
          assert [s[0]] + rest[0] == s;
        } else {
          assert [s[0]] + s[1..] == s;
          assert Join(parts, sep) == [s[0]] + rest[0] + [sep] + Join(rest[1..], sep);
        }
      }
    }
  }

  /** Joining separator-free pieces and splitting again gives the pieces back. */
  lemma {:induction false} SplitJoin(parts: seq<string>, sep: char)
    requires |parts| >= 1
    requires forall i :: 0 <= i < |parts| ==> sep !in parts[i]
    ensures Split(Join(parts, sep), sep) == parts
    decreases |parts|
  {
    if |parts| == 1 {
      SplitWithoutSep(parts[0], sep);
    } else {
      var rest := parts[1..];
      assert forall i :: 0 <= i < |rest| ==> sep !in rest[i] by {
        forall i | 0 <= i < |rest|
          ensures sep !in rest[i]
        {
          assert rest[i] == parts[i + 1];
        }
      }
      SplitJoin(rest, sep);
      assert sep !in parts[0];
      SplitAfterPrefix(parts[0], sep, Join(rest, sep));
      assert [parts[0]] + rest == parts;
    }
  }

  /** The printed form of any natural has no `-`. */
  lemma DigitsHaveNoDash(n: nat)
    ensures '-' !in NatToString(n)
  {
    var s := NatToString(n);
    assert forall i :: 0 <= i < |s| ==> s[i] != '-';
  }

  // ---------------------------------------------------------------------
  // Round trip of the range string

  /** Reading a range the step wrote gives back exactly the bounds it was written from. */
  lemma RangeRoundTrip(lo: nat, hi: nat)
    ensures EncodeRange(lo, hi) != ""
    ensures ReadMin(EncodeRange(lo, hi)) == Num(lo)
    ensures ReadMax(EncodeRange(lo, hi)) == Num(hi)
  {
    ParseIntOfNatToString(lo);
    ParseIntOfNatToString(hi);
  }

  /** Two ranges print the same only when their bounds are the same. */
  lemma EncodeRangeInjective(lo: nat, hi: nat, lo': nat, hi': nat)
    requires EncodeRange(lo, hi) == EncodeRange(lo', hi')
    ensures lo == lo' && hi == hi'
  {
    RangeRoundTrip(lo, hi);
    RangeRoundTrip(lo', hi');
  }

  /** The first age seen turns the empty sentinel into the one-point range. */
  lemma AgeStepFromEmpty(age: nat)
    ensures AgeStep("", age) == EncodeRange(age, age)
  {
  }

  /** On a range it wrote itself, the string step is plain min/max tracking. */
  lemma AgeStepTracksMinMax(lo: nat, hi: nat, age: nat)
    ensures AgeStep(EncodeRange(lo, hi), age)
         == EncodeRange(if lo <= age then lo else age, if hi >= age then hi else age)
  {
    RangeRoundTrip(lo, hi);
  }
}
