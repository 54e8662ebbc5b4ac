/** The snapshot file name: `swapi_characters_` followed by the local time
    formatted with `%Y%m%d_%H%M%S` and the `.csv` suffix. The clock reading
    is a parameter. */
module Timestamp {
  import opened Records

  /** A wall-clock reading to second precision. */
  datatype DateTime = DateTime(year: nat, month: nat, day: nat, hour: nat, minute: nat, second: nat)

  /** The ranges of the fields that `datetime.now()` produces (years before
      1000 are excluded: the platform `strftime` does not pad them). */
  predicate ValidDateTime(t: DateTime)
  {
    && 1000 <= t.year <= 9999
    && 1 <= t.month <= 12
    && 1 <= t.day <= 31
    && t.hour <= 23
    && t.minute <= 59
    && t.second <= 59
  }

  function Pow10(w: nat): (p: nat)
    ensures p >= 1
  {
    if w == 0 then 1 else 10 * Pow10(w - 1)
  }

  predicate IsDigit(c: char)
  {
    '0' <= c <= '9'
  }

  /** `n` written in decimal with exactly `w` digits, zero-padded on the left. */
  function Digits(n: nat, w: nat): (s: string)
    requires n < Pow10(w)
    ensures |s| == w
    ensures forall i :: 0 <= i < |s| ==> IsDigit(s[i])
  {
    if w == 0 then ""
    else Digits(n / 10, w - 1) + [('0' as int + n % 10) as char]
  }

  /** The number a string of decimal digits denotes. */
  function DigitsValue(s: string): nat
    requires forall i :: 0 <= i < |s| ==> IsDigit(s[i])
  {
    if s == [] then 0
    else
      assert IsDigit(s[|s| - 1]);
      10 * DigitsValue(s[..|s| - 1]) + (s[|s| - 1] as int - '0' as int)
  }

  /** Reading the digits back gives the number that was written. */
  lemma {:induction false} DigitsRoundTrip(n: nat, w: nat)
    requires n < Pow10(w)
    ensures DigitsValue(Digits(n, w)) == n
  {
    if w > 0 {
      var s := Digits(n, w);
      var head := Digits(n / 10, w - 1);
      assert s[..|s| - 1] == head;
      DigitsRoundTrip(n / 10, w - 1);
    }
  }

  /** `strftime("%Y%m%d_%H%M%S")`. */
  function FormatTimestamp(t: DateTime): (s: string)
    requires ValidDateTime(t)
    ensures |s| == 15 && s[8] == '_'
    ensures forall i :: 0 <= i < 15 && i != 8 ==> IsDigit(s[i])
  {
    Digits(t.year, 4) + Digits(t.month, 2) + Digits(t.day, 2) + "_"
      + Digits(t.hour, 2) + Digits(t.minute, 2) + Digits(t.second, 2)
  }

  /** The shape `YYYYMMDD_HHMMSS`. */
  predicate IsTimestamp(s: string)
  {
    |s| == 15 && s[8] == '_' && forall i :: 0 <= i < 15 && i != 8 ==> IsDigit(s[i])
  }

  /** Reads a `YYYYMMDD_HHMMSS` string back into its fields. */
  function ParseTimestamp(s: string): Option<DateTime>
  {
    if !IsTimestamp(s) then None
    else Some(DateTime(DigitsValue(s[0..4]), DigitsValue(s[4..6]), DigitsValue(s[6..8]),
                       DigitsValue(s[9..11]), DigitsValue(s[11..13]), DigitsValue(s[13..15])))
  }

  /** The formatted timestamp determines the clock reading: parsing it gives
      the reading back, so distinct seconds give distinct timestamps. */
  lemma TimestampRoundTrip(t: DateTime)
    requires ValidDateTime(t)
    ensures ParseTimestamp(FormatTimestamp(t)) == Some(t)
  {
    var s := FormatTimestamp(t);
    FieldsAt(Digits(t.year, 4), Digits(t.month, 2), Digits(t.day, 2),
             Digits(t.hour, 2), Digits(t.minute, 2), Digits(t.second, 2));
    assert IsTimestamp(s);
    DigitsRoundTrip(t.year, 4);
    DigitsRoundTrip(t.month, 2);
    DigitsRoundTrip(t.day, 2);
    DigitsRoundTrip(t.hour, 2);
    DigitsRoundTrip(t.minute, 2);
    DigitsRoundTrip(t.second, 2);
  }

  /** Where each field sits in `YYYYMMDD_HHMMSS`. */
  lemma FieldsAt(y: string, mo: string, d: string, h: string, mi: string, se: string)
    requires |y| == 4 && |mo| == 2 && |d| == 2 && |h| == 2 && |mi| == 2 && |se| == 2
    ensures var s := y + mo + d + "_" + h + mi + se;
            s[0..4] == y && s[4..6] == mo && s[6..8] == d && s[9..11] == h && s[11..13] == mi && s[13..15] == se
  {
    var date, clock := y + mo + d, h + mi + se;
    var s := y + mo + d + "_" + h + mi + se;
    assert s == date + "_" + clock;
    assert s[0..4] == date[0..4] == y;
    assert s[4..6] == date[4..6] == mo;
    assert s[6..8] == date[6..8] == d;
    assert s[9..11] == clock[0..2] == h;
    assert s[11..13] == clock[2..4] == mi;
    assert s[13..15] == clock[4..6] == se;
  }

  const Prefix: string := "swapi_characters_"
  const Suffix: string := ".csv"

  /** `f"swapi_characters_{timestamp}.csv"`. */
  function SnapshotName(timestamp: string): (name: string)
    ensures |name| == |Prefix| + |timestamp| + |Suffix|
    ensures name[..|Prefix|] == Prefix && name[|name| - |Suffix|..] == Suffix
    ensures name[|Prefix|..|name| - |Suffix|] == timestamp
  {
    Prefix + timestamp + Suffix
  }

  /** The timestamp inside a snapshot file name, if the name has the shape. */
  function TimestampOfName(name: string): Option<string>
  {
    if |name| >= |Prefix| + |Suffix| && name[..|Prefix|] == Prefix && name[|name| - |Suffix|..] == Suffix
    then Some(name[|Prefix|..|name| - |Suffix|])
    else None
  }

  /** The file name of a run determines its clock reading: the name is a
      snapshot name whose middle parses back to the reading. */
  lemma SnapshotNameRoundTrip(t: DateTime)
    requires ValidDateTime(t)
    ensures |SnapshotName(FormatTimestamp(t))| == 36
    ensures TimestampOfName(SnapshotName(FormatTimestamp(t))) == Some(FormatTimestamp(t))
    ensures ParseTimestamp(FormatTimestamp(t)) == Some(t)
  {
    TimestampRoundTrip(t);
  }

  /** Two runs produce the same file name exactly when their clock readings,
      taken after every page has been fetched, fall in the same second. */
  lemma SnapshotNameInjective(t: DateTime, u: DateTime)
    requires ValidDateTime(t) && ValidDateTime(u)
    ensures SnapshotName(FormatTimestamp(t)) == SnapshotName(FormatTimestamp(u)) <==> t == u
  {
    if SnapshotName(FormatTimestamp(t)) == SnapshotName(FormatTimestamp(u)) {
      SnapshotNameRoundTrip(t);
      SnapshotNameRoundTrip(u);
    }
  }
}
