/** Fixed-width decimal fields of a UTC date-time, as `strftime` and
    `date.__str__` write them, and the fields they read back as. */
module Stamps {
  import opened Format
  import opened Calendar

  /** A calendar date `datetime.date` can hold. */
  type CivilDate = d: Date | ValidDate(d) && 1 <= d.year <= 9999 witness Date(1970, 1, 1)

  /** A field written with `width` digits reads back as its number. */
  lemma FixedField(n: nat, width: nat)
    requires 1 <= width && n < Pow10(width)
    ensures |Pad(n, width)| == width && AllDigits(Pad(n, width)) && Value(Pad(n, width)) == n
  {
    PadLength(n, width);
    ValuePad(n, width);
  }

  /** `str(d)` of a `datetime.date`, "YYYY-MM-DD": ten characters whose
      three digit fields read back as the year, the month and the day. */
  function DateText(d: CivilDate): (s: string)
    ensures |s| == 10 && s[4] == '-' && s[7] == '-'
    ensures AllDigits(s[..4]) && AllDigits(s[5..7]) && AllDigits(s[8..])
    ensures Value(s[..4]) == d.year && Value(s[5..7]) == d.month && Value(s[8..]) == d.day
  {
    FixedField(d.year, 4);
    FixedField(d.month, 2);
    FixedField(d.day, 2);
    var y, m, dd := Pad(d.year, 4), Pad(d.month, 2), Pad(d.day, 2);
    var s := y + "-" + m + "-" + dd;
    assert s[..4] == y && s[5..7] == m && s[8..] == dd;
    s
  }

  /** Distinct dates have distinct texts. */
  lemma DateTextInjective(a: CivilDate, b: CivilDate)
    requires DateText(a) == DateText(b)
    ensures a == b
  {
  }

  /** The date of a civil time, as a `CivilDate`. */
  function DateOf(dt: CivilTime): CivilDate
  {
    dt.date
  }

  /** Three numbers written back to back with `width`, 2 and 2 digits. */
  function Digits3(a: nat, b: nat, c: nat, width: nat): (s: string)
    requires 1 <= width && a < Pow10(width) && b < 100 && c < 100
    ensures |s| == width + 4 && AllDigits(s)
    ensures Value(s[..width]) == a && Value(s[width..width + 2]) == b && Value(s[width + 2..]) == c
  {
    FixedField(a, width);
    FixedField(b, 2);
    FixedField(c, 2);
    var x, y, z := Pad(a, width), Pad(b, 2), Pad(c, 2);
    var s := x + y + z;
    assert s[..width] == x && s[width..width + 2] == y && s[width + 2..] == z;
    s
  }
}
