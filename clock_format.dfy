/**
 * The integer arithmetic and text rendering that every duration display shares:
 * C#'s truncating `/` and `%`, the `hh:mm:ss` decomposition, and the numeric
 * format strings `"00"` and plain `ToString()`.
 */
module ClockFormat {
  import opened Optional

  /** C#'s integer `/`: the quotient truncated toward zero. */
  function Quot(a: int, b: int): (q: int)
    requires b > 0
    ensures a >= 0 ==> q >= 0
    ensures a <= 0 ==> q <= 0
  {
    if a >= 0 then a / b else -((-a) / b)
  }

  /** C#'s integer `%`: the remainder takes the sign of the dividend. */
  function Rem(a: int, b: int): (r: int)
    requires b > 0
    ensures Quot(a, b) * b + r == a
    ensures a >= 0 ==> 0 <= r < b
    ensures a <= 0 ==> -b < r <= 0
  {
    if a >= 0 then a % b else -((-a) % b)
  }

  datatype Clock = Clock(hours: int, minutes: int, seconds: int)

  /**
   * The fields a duration display computes from `d` seconds:
   * `d / 3600`, `(d % 3600) / 60` and `d % 60`, with C#'s operators.
   */
  function Split(d: int): (c: Clock)
    ensures c.hours * 3600 + c.minutes * 60 + c.seconds == d
    ensures -59 <= c.minutes <= 59 && -59 <= c.seconds <= 59
    ensures d >= 0 ==> c.hours >= 0 && 0 <= c.minutes <= 59 && 0 <= c.seconds <= 59
    ensures d <= 0 ==> c.hours <= 0 && c.minutes <= 0 && c.seconds <= 0
  {
    var hourRest := Rem(d, 3600);
    var c := Clock(Quot(d, 3600), Quot(hourRest, 60), Rem(d, 60));
    assert Rem(d, 60) == Rem(hourRest, 60) by {
      if d >= 0 {
        RemOfRem(d);
      } else {
        RemOfRem(-d);
      }
    }
    c
  }

  lemma RemOfRem(a: nat)
    ensures (a % 3600) % 60 == a % 60
  {
    var r := a % 3600;
    assert r == 60 * (r / 60) + r % 60;
    assert a == 3600 * (a / 3600) + r;
    RemainderOfSixty(a, 60 * (a / 3600) + r / 60, r % 60);
  }

  /** Euclidean division by 60 has one remainder. */
  lemma RemainderOfSixty(a: int, k: int, r: int)
    requires 0 <= r < 60 && a == 60 * k + r
    ensures a % 60 == r
  {
  }

  /** For a non-negative duration, `Split` gives the only fields in range that add up to it. */
  lemma SplitUnique(d: nat, c: Clock)
    requires c.hours >= 0 && 0 <= c.minutes <= 59 && 0 <= c.seconds <= 59
    requires c.hours * 3600 + c.minutes * 60 + c.seconds == d
    ensures Split(d) == c
  {
    var e := Split(d);
    assert e.hours == c.hours by {
      assert d / 3600 == c.hours;
      assert d / 3600 == e.hours;
    }
    assert e.minutes == c.minutes by {
      assert (c.minutes * 60 + c.seconds) / 60 == c.minutes;
      assert (e.minutes * 60 + e.seconds) / 60 == e.minutes;
    }
  }

  predicate IsDigit(c: char) {
    '0' <= c <= '9'
  }

  predicate AllDigits(s: string) {
    forall i :: 0 <= i < |s| ==> IsDigit(s[i])
  }

  function DigitChar(n: nat): (c: char)
    requires n < 10
    ensures IsDigit(c)
  {
    "0123456789"[n]
  }

  function DigitValue(c: char): nat
    requires IsDigit(c)
  {
    (c as int) - ('0' as int)
  }

  /** The decimal digits of `n`, without leading zeros. */
  function Digits(n: nat): (s: string)
    ensures |s| >= 1 && AllDigits(s)
  {
    if n < 10 then [DigitChar(n)] else Digits(n / 10) + [DigitChar(n % 10)]
  }

  /** `n.ToString()`: a leading minus sign, then the digits of the magnitude. */
  function Decimal(n: int): string {
    if n < 0 then "-" + Digits(-n) else Digits(n)
  }

  /** The digits of `n`, padded with zeros to at least `width` digits. */
  function Padded(n: nat, width: nat): (s: string)
    ensures |s| >= 1 && |s| >= width && AllDigits(s)
    decreases width
  {
    var digits := Digits(n);
    if |digits| >= width then digits else "0" + Padded(n, width - 1)
  }

  /** `n.ToString("00")`: at least two digits, after a minus sign when negative. */
  function TwoDigits(n: int): string {
    if n < 0 then "-" + Padded(-n, 2) else Padded(n, 2)
  }

  /** `$"{hours:00}:{minutes:00}:{seconds:00}"`. */
  function ClockText(c: Clock): string {
    TwoDigits(c.hours) + ":" + TwoDigits(c.minutes) + ":" + TwoDigits(c.seconds)
  }

  /** The value of a string of decimal digits. */
  function ParseDigits(s: string): nat
    requires AllDigits(s)
  {
    if s == [] then 0 else ParseDigits(s[..|s| - 1]) * 10 + DigitValue(s[|s| - 1])
  }

  lemma {:induction false} ParseDigitsOf(n: nat)
    ensures ParseDigits(Digits(n)) == n
  {
    if n >= 10 {
      var s := Digits(n);
      assert s[..|s| - 1] == Digits(n / 10);
      ParseDigitsOf(n / 10);
    }
  }

  lemma {:induction false} ParseLeadingZero(s: string)
    requires AllDigits(s)
    ensures AllDigits("0" + s) && ParseDigits("0" + s) == ParseDigits(s)
    decreases |s|
  {
    if s != [] {
      assert ("0" + s)[..|"0" + s| - 1] == "0" + s[..|s| - 1];
      ParseLeadingZero(s[..|s| - 1]);
    }
  }

  lemma {:induction false} ParsePadded(n: nat, width: nat)
    ensures ParseDigits(Padded(n, width)) == n
    decreases width
  {
    if |Digits(n)| >= width {
      ParseDigitsOf(n);
    } else {
      ParsePadded(n, width - 1);
      ParseLeadingZero(Padded(n, width - 1));
    }
  }

  /** The position of the first `c` in `s`. */
  function IndexOf(s: string, c: char): (r: Option<nat>)
    ensures r.Some? ==> r.value < |s| && s[r.value] == c && c !in s[..r.value]
    ensures r.None? ==> c !in s
  {
    if s == [] then None
    else if s[0] == c then Some(0)
    else
      match IndexOf(s[1..], c)
      case None => None
      case Some(i) => assert s[..i + 1] == [s[0]] + s[1..][..i]; Some(i + 1)
  }

  /** In `a`, then `c`, then anything, the first `c` is the one after `a` when `a` has none. */
  lemma {:induction false} IndexAfter(a: string, c: char, b: string)
    requires c !in a
    ensures IndexOf(a + [c] + b, c) == Some(|a|)
  {
    if a != [] {
      assert (a + [c] + b)[1..] == a[1..] + [c] + b;
      IndexAfter(a[1..], c, b);
    }
  }

  /** A run of digits holds no character that is not a digit. */
  lemma DigitsLack(s: string, c: char)
    requires AllDigits(s) && !IsDigit(c)
    ensures c !in s
  {
  }

  /** The text before the first `sep` and the text after it. */
  function Fields2(s: string, sep: char): (r: Option<(string, string)>)
    ensures r.Some? ==> sep !in r.value.0 && s == r.value.0 + [sep] + r.value.1
  {
    match IndexOf(s, sep)
    case None => None
    case Some(i) =>
      assert s == s[..i] + [sep] + s[i + 1..];
      Some((s[..i], s[i + 1..]))
  }

  /** The three fields of `a<sep>b<sep>c`, split at the first two separators. */
  function Fields3(s: string, sep: char): Option<(string, string, string)> {
    match Fields2(s, sep)
    case None => None
    case Some((a, rest)) =>
      match Fields2(rest, sep)
      case None => None
      case Some((b, c)) => Some((a, b, c))
  }

  /** Splitting at a separator that the first field does not hold gives the fields back. */
  lemma Fields2Of(a: string, sep: char, b: string)
    requires sep !in a
    ensures Fields2(a + [sep] + b, sep) == Some((a, b))
  {
    IndexAfter(a, sep, b);
    var s := a + [sep] + b;
    assert s[..|a|] == a;
    assert s[|a| + 1..] == b;
  }

  /** Splitting `a<sep>b<sep>c` gives the three fields back when `a` and `b` hold no separator. */
  lemma Fields3Of(a: string, sep: char, b: string, c: string)
    requires sep !in a && sep !in b
    ensures Fields3(a + [sep] + b + [sep] + c, sep) == Some((a, b, c))
  {
    assert a + [sep] + b + [sep] + c == a + [sep] + (b + [sep] + c);
    Fields2Of(a, sep, b + [sep] + c);
    Fields2Of(b, sep, c);
  }

  /** A non-empty run of digits, read as a number. */
  function ParseField(s: string): Option<nat> {
    if s != [] && AllDigits(s) then Some(ParseDigits(s)) else None
  }

  /** Three fields read as a clock, when all three are numbers. */
  function ClockOf(h: Option<nat>, m: Option<nat>, s: Option<nat>): Option<Clock> {
    if h.Some? && m.Some? && s.Some? then Some(Clock(h.value, m.value, s.value)) else None
  }

  /** Reads `hh:mm:ss` with unsigned fields back into its three numbers. */
  function ParseClock(s: string): Option<Clock> {
    match Fields3(s, ':')
    case None => None
    case Some((h, m, sec)) => ClockOf(ParseField(h), ParseField(m), ParseField(sec))
  }

  /** `TwoDigits` writes digits after an optional minus sign, and never a `:`. */
  lemma TwoDigitsHasNoColon(n: int)
    ensures ':' !in TwoDigits(n)
  {
    if n < 0 {
      DigitsLack(Padded(-n, 2), ':');
    } else {
      DigitsLack(Padded(n, 2), ':');
    }
  }

  /** A field reads back as its number, and a negative field, with its minus sign, does not read. */
  lemma TwoDigitsField(n: int)
    ensures ParseField(TwoDigits(n)) == if n >= 0 then Some(n) else None
  {
    if n >= 0 {
      ParsePadded(n, 2);
    } else {
      assert !IsDigit(TwoDigits(n)[0]);
    }
  }

  /** `ToString()` writes digits after an optional minus sign, so it holds no other character. */
  lemma DecimalLacks(n: int, c: char)
    requires !IsDigit(c) && c != '-'
    ensures c !in Decimal(n)
  {
    if n < 0 {
      DigitsLack(Digits(-n), c);
    } else {
      DigitsLack(Digits(n), c);
    }
  }

  /** `ToString()` of a number reads back as that number, unless the number is negative. */
  lemma DecimalField(n: int)
    ensures ParseField(Decimal(n)) == if n >= 0 then Some(n) else None
  {
    if n >= 0 {
      ParseDigitsOf(n);
    } else {
      assert !IsDigit(Decimal(n)[0]);
    }
  }

  /**
   * The display of a non-negative duration reads back as its split, so it
   * determines the duration; a negative duration shows a minus sign in some
   * field (`-05` for -5 seconds), so its display does not read as a clock.
   */
  lemma ClockTextReadsBack(d: int)
    ensures ParseClock(ClockText(Split(d))) == if d >= 0 then Some(Split(d)) else None
  {
    var c := Split(d);
    var h, m, s := TwoDigits(c.hours), TwoDigits(c.minutes), TwoDigits(c.seconds);
    TwoDigitsHasNoColon(c.hours);
    TwoDigitsHasNoColon(c.minutes);
    assert ClockText(c) == h + [':'] + m + [':'] + s;
    Fields3Of(h, ':', m, s);
    TwoDigitsField(c.hours);
    TwoDigitsField(c.minutes);
    TwoDigitsField(c.seconds);
  }

  /** Two non-negative durations with the same display are equal. */
  lemma ClockTextInjective(d1: nat, d2: nat)
    requires ClockText(Split(d1)) == ClockText(Split(d2))
    ensures d1 == d2
  {
    ClockTextReadsBack(d1);
    ClockTextReadsBack(d2);
  }

  /** Each field shows at least two digits, and a minutes or seconds field exactly two. */
  lemma TwoDigitsWidth(n: nat)
    ensures |TwoDigits(n)| >= 2
    ensures n < 100 ==> |TwoDigits(n)| == 2
  {
    if n >= 10 {
      assert |Digits(n)| >= 2;
      if n < 100 {
        assert |Digits(n / 10)| == 1;
      }
    } else {
      assert |Padded(n, 1)| == 1;
    }
  }
}
