/** The `dt_no_seconds` Jinja filter with its default format "%d.%m.%Y %H:%M". */
module TemplateFilters {
  import Text

  datatype DateTime = DateTime(year: int, month: int, day: int, hour: int, minute: int, second: int)

  /** The ranges a Python `datetime` guarantees for its fields. */
  predicate ValidDateTime(dt: DateTime) {
    && 1 <= dt.year <= 9999 && 1 <= dt.month <= 12 && 1 <= dt.day <= 31
    && 0 <= dt.hour < 24 && 0 <= dt.minute < 60 && 0 <= dt.second < 60
  }

  /** The values a template can hand to the filter. */
  datatype TemplateValue =
    | Null
    | Str(s: string)
    | DateTimeValue(dt: DateTime)
    | OtherValue(repr: string)

  /** `n` in at least two digits, zero-padded (`%d`, `%m`, `%H`, `%M`). */
  function Pad2(n: nat): (r: string)
    requires n < 100
    ensures |r| == 2 && Text.IsDigit(r[0]) && Text.IsDigit(r[1])
    ensures Text.DigitsValue(r) == n
  {
    var r := [Text.DigitChar(n / 10), Text.DigitChar(n % 10)];
    assert r[..|r| - 1] == [r[0]];
    assert [r[0]][..0] == [];
    assert Text.DigitsValue([r[0]]) == n / 10;
    r
  }

  /** `n` in four digits, zero-padded (`%Y`). */
  function Pad4(n: nat): (r: string)
    requires n < 10000
    ensures |r| == 4 && forall i :: 0 <= i < 4 ==> Text.IsDigit(r[i])
    ensures Text.DigitsValue(r) == n
  {
    var hi := Pad2(n / 100);
    var lo := Pad2(n % 100);
    var r := hi + lo;
    assert r[..3] == hi + [lo[0]];
    assert r[..3][..2] == hi;
    assert lo[..1] == [lo[0]];
    r
  }

  /** "DD.MM.YYYY HH:MM": the date and time of `dt`, its seconds dropped. */
  function FormatNoSeconds(dt: DateTime): (s: string)
    requires ValidDateTime(dt)
    ensures |s| == 16
    ensures s[2] == '.' && s[5] == '.' && s[10] == ' ' && s[13] == ':'
    ensures Text.DigitsValue(s[0..2]) == dt.day && Text.DigitsValue(s[3..5]) == dt.month
    ensures Text.DigitsValue(s[6..10]) == dt.year
    ensures Text.DigitsValue(s[11..13]) == dt.hour && Text.DigitsValue(s[14..16]) == dt.minute
  {
    var s := Pad2(dt.day) + "." + Pad2(dt.month) + "." + Pad4(dt.year) + " " + Pad2(dt.hour) + ":" + Pad2(dt.minute);
    assert s[0..2] == Pad2(dt.day);
    assert s[3..5] == Pad2(dt.month);
    assert s[6..10] == Pad4(dt.year);
    assert s[11..13] == Pad2(dt.hour);
    assert s[14..16] == Pad2(dt.minute);
    s
  }

  /** `dt_no_seconds(value)`. */
  function DtNoSeconds(v: TemplateValue): (r: TemplateValue)
    requires v.DateTimeValue? ==> ValidDateTime(v.dt)
    ensures v.Null? ==> r == Str("")
    ensures !v.Null? && !v.DateTimeValue? ==> r == v
    ensures v.DateTimeValue? ==> r.Str? && |r.s| == 16
  {
    match v
    case Null => Str("")
    case DateTimeValue(dt) => Str(FormatNoSeconds(dt))
    case _ => v
  }

  /** Reads day, month, year, hour and minute back from "DD.MM.YYYY HH:MM". */
  function ParseNoSeconds(s: string): (int, int, int, int, int)
    requires |s| == 16
  {
    (Text.DigitsValue(s[0..2]), Text.DigitsValue(s[3..5]), Text.DigitsValue(s[6..10]),
     Text.DigitsValue(s[11..13]), Text.DigitsValue(s[14..16]))
  }

  /** Two datetimes render the same exactly when they agree on everything but the seconds. */
  lemma DtNoSecondsDropsOnlySeconds(a: DateTime, b: DateTime)
    requires ValidDateTime(a) && ValidDateTime(b)
    ensures DtNoSeconds(DateTimeValue(a)) == DtNoSeconds(DateTimeValue(b)) <==> a.(second := b.second) == b
  {
    var sa := FormatNoSeconds(a);
    var sb := FormatNoSeconds(b);
    assert ParseNoSeconds(sa) == (a.day, a.month, a.year, a.hour, a.minute);
    assert ParseNoSeconds(sb) == (b.day, b.month, b.year, b.hour, b.minute);
  }
}
