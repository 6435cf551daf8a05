/** `format_bytes` and `get_uptime`: turning a byte count and a number of
    seconds into the units the information rows show. */
module Units {
  import opened Wrappers
  import opened PyStr

  // ---------------------------------------------------------------- format_bytes

  /** The unit names, in the order the widget tries them; the last one is
      used when none of the others fits. */
  const UnitNames: seq<string> := ["B", "KB", "MB", "GB", "TB", "PB"]

  function Pow1024(k: nat): (r: real)
    ensures r >= 1.0
  {
    if k == 0 then 1.0 else 1024.0 * Pow1024(k - 1)
  }

  /** The value is too large for unit j: it reaches 1024^(j+1). */
  predicate Passed(value: real, j: nat) {
    value >= Pow1024(j + 1)
  }

  /** The index of the unit a value is shown in: the first k below 5 with
      value < 1024^(k+1), and 5 (petabytes) when there is none. Searching
      from `from` on. */
  function UnitFrom(value: real, from: nat): (k: nat)
    requires from <= 5
    ensures from <= k <= 5
    ensures forall j :: from <= j < k ==> Passed(value, j)
    ensures k < 5 ==> !Passed(value, k)
    decreases 5 - from
  {
    if from == 5 || value < Pow1024(from + 1) then from else UnitFrom(value, from + 1)
  }

  function UnitIndex(value: real): (k: nat)
    ensures k <= 5
    ensures forall j :: 0 <= j < k ==> Passed(value, j)
    ensures k < 5 ==> !Passed(value, k)
  {
    UnitFrom(value, 0)
  }

  /** The unit choice is unique: it is the only index that has passed every
      earlier threshold and is below its own. */
  lemma UnitIndexUnique(value: real, k: nat)
    requires k <= 5
    requires forall j :: 0 <= j < k ==> Passed(value, j)
    requires k < 5 ==> !Passed(value, k)
    ensures k == UnitIndex(value)
  {
  }

  lemma DivideBelow(v: real, p: real)
    requires p > 0.0
    ensures v / p < 1024.0 <==> v < 1024.0 * p
  {
    assert v == (v / p) * p;
  }

  lemma DivideAgain(v: real, p: real)
    requires p > 0.0
    ensures (v / p) / 1024.0 == v / (1024.0 * p)
  {
  }

  /** The widget's loop: the value is divided by 1024 until it is below 1024,
      at most four times; the quotient is shown with the unit reached, and
      with "PB" after the fifth division. The `%.1f` rounding of the text is
      not part of the model. */
  method FormatBytes(bytesValue: real) returns (shown: real, unit: string)
    ensures unit == UnitNames[UnitIndex(bytesValue)]
    ensures shown == bytesValue / Pow1024(UnitIndex(bytesValue))
  {
    var units := ["B", "KB", "MB", "GB", "TB"];
    var v := bytesValue;
    var i := 0;
    while i < |units|
      invariant 0 <= i <= 5
      invariant v == bytesValue / Pow1024(i)
      invariant forall j :: 0 <= j < i ==> Passed(bytesValue, j)
    {
      DivideBelow(bytesValue, Pow1024(i));
      if v < 1024.0 {
        UnitIndexUnique(bytesValue, i);
        return v, units[i];
      }
      DivideAgain(bytesValue, Pow1024(i));
      v := v / 1024.0;
      i := i + 1;
    }
    UnitIndexUnique(bytesValue, 5);
    return v, "PB";
  }

  /** What is shown: a value below 1024 stays in bytes as it is (negative
      values included, so zero reads "0.0 B"); a non-negative value shown in
      a unit below petabytes is below 1024, and a value shown in any unit
      above bytes is at least 1. */
  lemma FormatBytesRange(value: real)
    ensures value < 1024.0 ==> UnitIndex(value) == 0 && value / Pow1024(0) == value
    ensures 0.0 <= value && UnitIndex(value) < 5 ==> value / Pow1024(UnitIndex(value)) < 1024.0
    ensures UnitIndex(value) > 0 ==> value / Pow1024(UnitIndex(value)) >= 1.0
  {
    var k := UnitIndex(value);
    DivideBelow(value, Pow1024(k));
    if k > 0 {
      assert value >= Pow1024(k);
      assert value == (value / Pow1024(k)) * Pow1024(k);
    }
  }

  // ---------------------------------------------------------------- get_uptime

  /** The three figures `get_uptime` shows. Days can be negative when the
      clock is behind the boot time; hours and minutes never are, since the
      widget takes them with floored `%` and `//`. */
  datatype Uptime = Uptime(days: int, hours: nat, minutes: nat)

  function Seconds(u: Uptime): int {
    86400 * u.days + 3600 * u.hours + 60 * u.minutes
  }

  /** `days = uptime // 86400`, `hours = (uptime % 86400) // 3600`,
      `minutes = (uptime % 3600) // 60`, each truncated to an int. The
      result is the whole minutes of the uptime, split into days, hours and
      minutes. */
  function SplitUptime(uptime: real): (u: Uptime)
    ensures u.hours < 24 && u.minutes < 60
    ensures (Seconds(u) as real) <= uptime < (Seconds(u) + 60) as real
  {
    var s := uptime.Floor;
    var d := s / 86400;
    var h := (s % 86400) / 3600;
    var m := (s % 3600) / 60;
    SplitSeconds(s);
    Uptime(d, h, m)
  }

  lemma SplitSeconds(s: int)
    ensures (s % 86400) / 3600 < 24 && (s % 3600) / 60 < 60
    ensures 86400 * (s / 86400) + 3600 * ((s % 86400) / 3600) + 60 * ((s % 3600) / 60) <= s
    ensures s < 86400 * (s / 86400) + 3600 * ((s % 86400) / 3600) + 60 * ((s % 3600) / 60) + 60
  {
    var r := s % 86400;
    assert s == 86400 * (s / 86400) + r;
    assert r == 3600 * (r / 3600) + r % 3600;
    assert s % 3600 == r % 3600 by {
      assert s == 3600 * (24 * (s / 86400) + r / 3600) + r % 3600;
    }
    var q := s % 3600;
    assert q == 60 * (q / 60) + q % 60;
  }

  /** Only one split fits: any days, hours below 24 and minutes below 60
      whose total lies within the last minute of the uptime are the ones the
      widget shows. */
  lemma SplitUptimeUnique(uptime: real, u: Uptime)
    requires u.hours < 24 && u.minutes < 60
    requires (Seconds(u) as real) <= uptime < (Seconds(u) + 60) as real
    ensures u == SplitUptime(uptime)
  {
    var w := SplitUptime(uptime);
    var a, b := Seconds(u), Seconds(w);
    assert a - 60 < b < a + 60;
    var ra, rb := 3600 * u.hours + 60 * u.minutes, 3600 * w.hours + 60 * w.minutes;
    assert 0 <= ra < 86400 && 0 <= rb < 86400;
    assert u.days < w.days ==> a + 60 <= b;
    assert w.days < u.days ==> b + 60 <= a;
    assert u.days == w.days && u.hours < w.hours ==> a + 60 <= b;
    assert u.days == w.days && w.hours < u.hours ==> b + 60 <= a;
  }

  // ---------------------------------------------------------------- uptime text

  function DigitChar(d: nat): char
    requires d < 10
  {
    ('0' as int + d) as char
  }

  /** `str(n)` for a non-negative int. */
  function Decimal(n: nat): (s: string)
    ensures s != []
    ensures forall i :: 0 <= i < |s| ==> IsDigit(s[i])
  {
    if n < 10 then [DigitChar(n)] else Decimal(n / 10) + [DigitChar(n % 10)]
  }

  predicate IsDigit(c: char) { '0' <= c <= '9' }

  /** Reads a run of digits as a number. */
  function DecimalValue(s: string): nat
    requires forall i :: 0 <= i < |s| ==> IsDigit(s[i])
  {
    if s == [] then 0
    else
      var c := s[|s| - 1];
      assert IsDigit(c);
      10 * DecimalValue(s[..|s| - 1]) + (c as int - '0' as int)
  }

  lemma {:induction false} DecimalRoundTrip(n: nat)
    ensures DecimalValue(Decimal(n)) == n
  {
    if n >= 10 {
      var s := Decimal(n);
      assert s[..|s| - 1] == Decimal(n / 10);
      DecimalRoundTrip(n / 10);
    }
  }

  /** The text of an uptime: "Dd Hh Mm" with at least a day, else "Hh Mm"
      with at least an hour, else "Mm". */
  function UptimeText(u: Uptime): (r: string)
    ensures |r| >= 2 && r[|r| - 1] == 'm'
    ensures 'd' in r <==> u.days > 0
    ensures 'h' in r <==> u.days > 0 || u.hours > 0
  {
    if u.days > 0 then Figure(u.days, 'd') + " " + Figure(u.hours, 'h') + " " + Figure(u.minutes, 'm')
    else if u.hours > 0 then Figure(u.hours, 'h') + " " + Figure(u.minutes, 'm')
    else Figure(u.minutes, 'm')
  }

  /** One figure of the text, as in `f"{hours}h"`. */
  function Figure(n: nat, unit: char): string {
    Decimal(n) + [unit]
  }

  /** Reads one field of the text: digits followed by the unit letter. */
  function ReadField(w: string, unit: char): Option<nat> {
    if |w| >= 2 && w[|w| - 1] == unit && forall i :: 0 <= i < |w| - 1 ==> IsDigit(w[i])
    then Some(DecimalValue(w[..|w| - 1]))
    else None
  }

  /** Reads the uptime text back: the fields are separated by single spaces
      and the fields that are missing count as zero. */
  function ReadUptime(text: string): Option<Uptime> {
    ReadFields(Split(text, " "))
  }

  function ReadFields(w: seq<string>): Option<Uptime> {
    var fields :=
      if |w| == 3 then [ReadField(w[0], 'd'), ReadField(w[1], 'h'), ReadField(w[2], 'm')]
      else if |w| == 2 then [Some(0), ReadField(w[0], 'h'), ReadField(w[1], 'm')]
      else if |w| == 1 then [Some(0), Some(0), ReadField(w[0], 'm')]
      else [None, None, None];
    if fields[0].Some? && fields[1].Some? && fields[2].Some?
    then Some(Uptime(fields[0].value, fields[1].value, fields[2].value))
    else None
  }

  /** The text loses only what the widget leaves out: the days when there is
      not at least one, and the hours as well when there are none. Reading it
      back gives every figure it shows. */
  lemma UptimeTextRoundTrip(u: Uptime)
    ensures ReadUptime(UptimeText(u)) ==
      if u.days > 0 then Some(u)
      else if u.hours > 0 then Some(Uptime(0, u.hours, u.minutes))
      else Some(Uptime(0, 0, u.minutes))
  {
    if u.days > 0 {
      ReadThree(Figure(u.days, 'd'), Figure(u.hours, 'h'), Figure(u.minutes, 'm'), u);
    } else if u.hours > 0 {
      ReadTwo(Figure(u.hours, 'h'), Figure(u.minutes, 'm'), Uptime(0, u.hours, u.minutes));
    } else {
      var m := Figure(u.minutes, 'm');
      FigureRoundTrip(u.minutes, 'm');
      SplitWhole(m, ' ');
    }
  }

  /** `get_uptime` for an uptime of the given seconds (the clock and the
      boot time are inputs of the caller): its text shows the days, hours
      and minutes of the split, leaving out zero days and hours. */
  function GetUptime(uptime: real): (r: string)
    ensures var u := SplitUptime(uptime);
      ReadUptime(r) ==
        if u.days > 0 then Some(u)
        else if u.hours > 0 then Some(Uptime(0, u.hours, u.minutes))
        else Some(Uptime(0, 0, u.minutes))
  {
    UptimeTextRoundTrip(SplitUptime(uptime));
    UptimeText(SplitUptime(uptime))
  }

  lemma ReadThree(d: string, h: string, m: string, u: Uptime)
    requires u.days >= 0
    requires d == Figure(u.days, 'd') && h == Figure(u.hours, 'h') && m == Figure(u.minutes, 'm')
    ensures ReadUptime(d + " " + h + " " + m) == Some(u)
  {
    FigureRoundTrip(u.days, 'd');
    FigureRoundTrip(u.hours, 'h');
    FigureRoundTrip(u.minutes, 'm');
    SplitThree(d, h, m);
  }

  lemma ReadTwo(h: string, m: string, u: Uptime)
    requires h == Figure(u.hours, 'h') && m == Figure(u.minutes, 'm') && u.days == 0
    ensures ReadUptime(h + " " + m) == Some(u)
  {
    FigureRoundTrip(u.hours, 'h');
    FigureRoundTrip(u.minutes, 'm');
    SplitTwo(h, m);
  }

  lemma FigureRoundTrip(n: nat, unit: char)
    requires unit in "dhm"
    ensures ' ' !in Figure(n, unit) && ReadField(Figure(n, unit), unit) == Some(n)
  {
    FieldRoundTrip(n, unit);
    NoSpace(Decimal(n), unit);
  }

  lemma SplitTwo(a: string, b: string)
    requires ' ' !in a && ' ' !in b
    ensures Split(a + " " + b, " ") == [a, b]
  {
    SplitAfterPiece(a, ' ', b);
    SplitWhole(b, ' ');
  }

  lemma SplitThree(a: string, b: string, c: string)
    requires ' ' !in a && ' ' !in b && ' ' !in c
    ensures Split(a + " " + b + " " + c, " ") == [a, b, c]
  {
    assert a + " " + b + " " + c == a + [' '] + (b + " " + c);
    SplitAfterPiece(a, ' ', b + " " + c);
    SplitTwo(b, c);
  }

  lemma FieldRoundTrip(n: nat, unit: char)
    requires !IsDigit(unit)
    ensures ReadField(Decimal(n) + [unit], unit) == Some(n)
  {
    var w := Decimal(n) + [unit];
    assert w[..|w| - 1] == Decimal(n);
    DecimalRoundTrip(n);
  }

  lemma NoSpace(digits: string, unit: char)
    requires forall i :: 0 <= i < |digits| ==> IsDigit(digits[i])
    requires unit != ' '
    ensures ' ' !in digits + [unit]
  {
    var w := digits + [unit];
    forall i | 0 <= i < |w| ensures w[i] != ' ' {
      if i < |digits| { assert w[i] == digits[i]; }
    }
  }
}
