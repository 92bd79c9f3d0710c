/**
 * Python `datetime` values and `datetime.isoformat()`.  Parsing
 * (`strptime`, `fromisoformat`) is not modelled here: the operations that
 * parse take the parser as a parameter.
 */
module DateTimes {
  import opened Wrappers

  /**
   * A `datetime` without microseconds.  `offset` is the UTC offset in
   * minutes of an aware value, `None` for a naive one.
   */
  datatype DateTime = DateTime(
    year: nat, month: nat, day: nat,
    hour: nat, minute: nat, second: nat,
    offset: Option<int>)

  function DigitChar(d: nat): char
    requires d < 10
  {
    ('0' as int + d) as char
  }

  /** `"%0*d" % (width, n)` for an `n` below `10^width`. */
  function Digits(n: nat, width: nat): (r: string)
    ensures |r| == width
    ensures forall i :: 0 <= i < |r| ==> '0' <= r[i] <= '9'
  {
    if width == 0 then "" else Digits(n / 10, width - 1) + [DigitChar(n % 10)]
  }

  function OffsetText(offset: Option<int>): string
  {
    match offset
    case None => ""
    case Some(m) =>
      var a := if m < 0 then -m else m;
      (if m < 0 then "-" else "+") + Digits(a / 60, 2) + ":" + Digits(a % 60, 2)
  }

  /** `dt.isoformat()`: `YYYY-MM-DDTHH:MM:SS`, then `+HH:MM` for an aware value. */
  function IsoFormat(d: DateTime): string
  {
    Digits(d.year, 4) + "-" + Digits(d.month, 2) + "-" + Digits(d.day, 2) + "T" +
    Digits(d.hour, 2) + ":" + Digits(d.minute, 2) + ":" + Digits(d.second, 2) +
    OffsetText(d.offset)
  }

  /** The `YYYY-MM-DD` text of a calendar date. */
  function DateText(year: nat, month: nat, day: nat): string
  {
    Digits(year, 4) + "-" + Digits(month, 2) + "-" + Digits(day, 2)
  }

  /** A naive midnight value prints as its date followed by `T00:00:00`. */
  lemma IsoFormatMidnight(year: nat, month: nat, day: nat)
    ensures IsoFormat(DateTime(year, month, day, 0, 0, 0, None)) == DateText(year, month, day) + "T00:00:00"
  {
    assert Digits(0, 2) == "00";
  }
}
