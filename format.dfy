/** String building used by both the ingest function and the batch job:
    zero-padded decimal fields (`strftime("%Y")`, `"%m"`, `"%d"`, `"%H"`, …),
    `str.endswith` and `str.rstrip("/")`. */
module Format {

  predicate IsDigit(c: char)
  {
    '0' <= c <= '9'
  }

  predicate AllDigits(s: string)
  {
    forall i :: 0 <= i < |s| ==> IsDigit(s[i])
  }

  function DigitChar(d: nat): (c: char)
    requires d < 10
  {
    ('0' as int + d) as char
  }

  function DigitValue(c: char): nat
    requires IsDigit(c)
  {
    c as int - '0' as int
  }

  function Pow10(n: nat): (p: nat)
    ensures p >= 1
  {
    if n == 0 then 1 else 10 * Pow10(n - 1)
  }

  /** The decimal digits of `n`, left-padded with '0' to at least `width`
      characters (Python's `"%0<width>d"`). */
  function Pad(n: nat, width: nat): (s: string)
    ensures |s| >= 1 && |s| >= width && AllDigits(s)
    decreases n, width
  {
    if n < 10 && width <= 1 then [DigitChar(n)]
    else Pad(n / 10, if width > 0 then width - 1 else 0) + [DigitChar(n % 10)]
  }

  /** The number a string of decimal digits denotes. */
  function Value(s: string): nat
    requires AllDigits(s)
  {
    if s == [] then 0 else 10 * Value(s[..|s| - 1]) + DigitValue(s[|s| - 1])
  }

  /** Reading a padded field back gives the number that was written. */
  lemma {:induction false} ValuePad(n: nat, width: nat)
    ensures Value(Pad(n, width)) == n
    decreases n, width
  {
    var s := Pad(n, width);
    if n < 10 && width <= 1 {
      assert s[..0] == [];
    } else {
      var w := if width > 0 then width - 1 else 0;
      ValuePad(n / 10, w);
      assert s[..|s| - 1] == Pad(n / 10, w);
    }
  }

  /** A number below 10^width fills exactly `width` characters. */
  lemma {:induction false} PadLength(n: nat, width: nat)
    requires 1 <= width && n < Pow10(width)
    ensures |Pad(n, width)| == width
    decreases width
  {
    if !(n < 10 && width <= 1) {
      PadLength(n / 10, width - 1);
    }
  }

  /** `s.endswith(suffix)`. */
  predicate EndsWith(s: string, suffix: string)
  {
    |suffix| <= |s| && s[|s| - |suffix|..] == suffix
  }

  /** `s.rstrip("/")`: `s` without its trailing slashes. */
  function RstripSlash(s: string): (r: string)
    ensures r <= s
    ensures r == [] || r[|r| - 1] != '/'
    ensures forall i :: |r| <= i < |s| ==> s[i] == '/'
  {
    if s != [] && s[|s| - 1] == '/' then RstripSlash(s[..|s| - 1]) else s
  }

  /** The three properties above determine `rstrip`: any prefix of `s` that
      does not end in '/' and is followed only by slashes is `RstripSlash(s)`. */
  lemma RstripSlashUnique(s: string, r: string)
    requires r <= s
    requires r == [] || r[|r| - 1] != '/'
    requires forall i :: |r| <= i < |s| ==> s[i] == '/'
    ensures r == RstripSlash(s)
  {
  }
}
