/** Which texts are timestamps, and which instant each one is: a date, `T`, a time of
    day, an optional fraction and a zone. */
module Stamps {
  import opened Prelude
  import opened Civil
  import opened Decimal
  import opened Rfc3339

  /** `Z`, in either case, or the local time's distance from UTC. */
  datatype Zone = Utc(mark: char) | Shift(ahead: bool, hours: nat, minutes: nat)

  predicate ZoneValid(z: Zone) {
    match z
    case Utc(mark) => mark == 'Z' || mark == 'z'
    case Shift(_, hours, minutes) => hours <= 23 && minutes <= 59
  }

  function ZoneText(z: Zone): string {
    match z
    case Utc(mark) => [mark]
    case Shift(ahead, hours, minutes) => (if ahead then "+" else "-") + Two(hours) + ":" + Two(minutes)
  }

  /** How far the clock stands ahead of UTC. */
  function Lead(z: Zone): int {
    match z
    case Utc(_) => 0
    case Shift(ahead, hours, minutes) => var s := hours * 3600 + minutes * 60; if ahead then s else -s
  }

  function FractionText(digits: string): string {
    if digits == "" then "" else "." + digits
  }

  function Nanos(digits: string): nat
    requires AllDigits(digits) && |digits| <= 9
  {
    ValueOf(digits) * Pow10(9 - |digits|)
  }

  predicate PartsValid(c: Clock, mark: char, digits: string, z: Zone) {
    && 0 <= c.date.year <= 9999 && Valid(c.date) && TimeOfDay(c)
    && (mark == 'T' || mark == 't') && AllDigits(digits) && |digits| <= 9 && ZoneValid(z)
  }

  function Head(c: Clock, mark: char): string {
    DateText(c.date) + [mark] + TimeText(c)
  }

  function StampText(c: Clock, mark: char, digits: string, z: Zone): string {
    Head(c, mark) + FractionText(digits) + ZoneText(z)
  }

  // ---- Every stamp parses ----

  lemma HeadLong(c: Clock, mark: char)
    requires 0 <= c.date.year <= 9999 && 0 <= c.date.month && 0 <= c.date.day
    ensures |Head(c, mark)| == 19 && Head(c, mark)[10] == mark
  {
    DateTextParts(c.date);
    TimeTextParts(c);
  }

  lemma Apart(s: string, t: string, start: nat, len: nat)
    requires |s| == |t| > 10 && (start + len <= 10 || start > 10)
    requires forall i | 0 <= i < |s| && i != 10 :: s[i] == t[i]
    ensures Digits(s, start, len) == Digits(t, start, len)
  {
    if start + len <= |s| {
      assert s[start..start + len] == t[start..start + len];
    }
  }

  lemma MarkReads(c: Clock, mark: char, rest: string)
    requires 0 <= c.date.year <= 9999 && Valid(c.date) && TimeOfDay(c) && |rest| > 0 && (mark == 'T' || mark == 't')
    ensures ClockOf(Head(c, mark) + rest) == Some(c)
  {
    var s, t := Head(c, mark) + rest, ClockText(c) + rest;
    HeadLong(c, mark);
    HeadLong(c, 'T');
    assert ClockText(c) == Head(c, 'T');
    ClockReads(c, rest);
    Apart(s, t, 0, 4);
    Apart(s, t, 5, 2);
    Apart(s, t, 8, 2);
    Apart(s, t, 11, 2);
    Apart(s, t, 14, 2);
    Apart(s, t, 17, 2);
  }

  lemma NoDigitsRead(head: string, rest: string)
    requires |rest| > 0 && rest[0] != '.'
    ensures Fraction(head + "" + rest, |head|) == Some((Nanos(""), |head|))
  {
    assert (head + "" + rest)[|head|] == rest[0];
    assert Nanos("") == 0;
  }

  lemma SomeDigitsRead(head: string, digits: string, rest: string)
    requires AllDigits(digits) && 0 < |digits| <= 9 && |rest| > 0 && !IsDigit(rest[0])
    ensures Fraction(head + ("." + digits) + rest, |head|) == Some((Nanos(digits), |head| + 1 + |digits|))
  {
    var s := head + ("." + digits) + rest;
    var at, end := |head|, |head| + 1 + |digits|;
    assert s[at] == '.' && s[end] == rest[0];
    assert s[at + 1..end] == digits;
    DigitsEndAt(s, at + 1, end);
  }

  lemma DigitsRead(head: string, digits: string, rest: string)
    requires AllDigits(digits) && |digits| <= 9 && |rest| > 0 && !IsDigit(rest[0]) && rest[0] != '.'
    ensures Fraction(head + FractionText(digits) + rest, |head|) ==
            Some((Nanos(digits), |head| + |FractionText(digits)|))
  {
    if digits == "" {
      NoDigitsRead(head, rest);
    } else {
      SomeDigitsRead(head, digits, rest);
    }
  }

  lemma ZoneReads(head: string, z: Zone)
    requires ZoneValid(z)
    ensures Offset(head + ZoneText(z), |head|) == Some(Lead(z))
  {
    match z
    case Utc(mark) => assert (head + [mark])[|head|] == mark;
    case Shift(ahead, hours, minutes) => ShiftReads(head, if ahead then '+' else '-', hours, minutes);
  }

  lemma ShiftReads(head: string, sign: char, hours: nat, minutes: nat)
    requires (sign == '+' || sign == '-') && hours <= 23 && minutes <= 59
    ensures var lead := hours * 3600 + minutes * 60;
            Offset(head + ([sign] + Two(hours) + ":" + Two(minutes)), |head|) ==
                Some(if sign == '+' then lead else -lead)
  {
    var tail := [sign] + Two(hours) + ":" + Two(minutes);
    var s, at := head + tail, |head|;
    assert tail[1..3] == Fixed(hours, 2) && tail[4..6] == Fixed(minutes, 2);
    TailSlices(head, tail);
    Powers();
    DigitsAt(s, at + 1, 2, hours);
    DigitsAt(s, at + 4, 2, minutes);
  }

  lemma TailSlices(head: string, tail: string)
    requires |tail| == 6
    ensures var s, at := head + tail, |head|;
            && s[at] == tail[0] && s[at + 3] == tail[3]
            && s[at + 1..at + 3] == tail[1..3] && s[at + 4..at + 6] == tail[4..6]
  {
  }

  lemma ZoneStarts(z: Zone)
    requires ZoneValid(z)
    ensures |ZoneText(z)| > 0 && !IsDigit(ZoneText(z)[0]) && ZoneText(z)[0] != '.'
  {
  }

  /** The parts, read at their places, make the instant. */
  lemma ParsedFrom(s: string, c: Clock, digits: string, z: Zone)
    requires AllDigits(digits) && |digits| <= 9 && |s| >= 19 && ClockOf(s) == Some(c)
    requires Fraction(s, 19) == Some((Nanos(digits), TailStart(digits)))
    requires Offset(s, TailStart(digits)) == Some(Lead(z))
    ensures Parse(s) == Some(InstantOf(c, digits, z))
  {
  }

  function InstantOf(c: Clock, digits: string, z: Zone): Timestamp
    requires AllDigits(digits) && |digits| <= 9
  {
    Timestamp(LocalSeconds(c) - Lead(z), Nanos(digits))
  }

  lemma StampClock(c: Clock, mark: char, digits: string, z: Zone)
    requires PartsValid(c, mark, digits, z)
    ensures ClockOf(StampText(c, mark, digits, z)) == Some(c)
    ensures |Head(c, mark)| == 19 && |StampText(c, mark, digits, z)| >= 19
  {
    ZoneStarts(z);
    HeadLong(c, mark);
    Joined(Head(c, mark), FractionText(digits), ZoneText(z));
    MarkReads(c, mark, FractionText(digits) + ZoneText(z));
  }

  function TailStart(digits: string): nat {
    19 + |FractionText(digits)|
  }

  lemma StampTail(c: Clock, mark: char, digits: string, z: Zone)
    requires PartsValid(c, mark, digits, z) && |Head(c, mark)| == 19
    ensures Fraction(StampText(c, mark, digits, z), 19) == Some((Nanos(digits), TailStart(digits)))
    ensures Offset(StampText(c, mark, digits, z), TailStart(digits)) == Some(Lead(z))
  {
    ZoneStarts(z);
    DigitsRead(Head(c, mark), digits, ZoneText(z));
    var before := Head(c, mark) + FractionText(digits);
    assert |before| == TailStart(digits);
    ZoneReads(before, z);
  }

  /** A stamp is the instant its clock shows, less the zone's lead over UTC. */
  lemma StampParses(c: Clock, mark: char, digits: string, z: Zone)
    requires PartsValid(c, mark, digits, z)
    ensures Parse(StampText(c, mark, digits, z)) == Some(InstantOf(c, digits, z))
  {
    StampClock(c, mark, digits, z);
    StampTail(c, mark, digits, z);
    ParsedFrom(StampText(c, mark, digits, z), c, digits, z);
  }

  // ---- Nothing else does ----

  lemma {:induction false} FixedOfValue(s: string)
    requires AllDigits(s)
    ensures Fixed(ValueOf(s), |s|) == s
  {
    if |s| > 0 {
      var init := s[..|s| - 1];
      assert s[|s| - 1] in s;
      FixedOfValue(init);
      var d := DigitValue(s[|s| - 1]);
      assert ValueOf(s) == ValueOf(init) * 10 + d;
      assert ValueOf(s) / 10 == ValueOf(init) && ValueOf(s) % 10 == d;
      assert s == init + [s[|s| - 1]];
    }
  }

  lemma DigitsPrint(s: string, start: nat, len: nat)
    requires Digits(s, start, len).Some?
    ensures s[start..start + len] == Fixed(Digits(s, start, len).value, len)
    ensures Digits(s, start, len).value < Pow10(len)
  {
    FixedOfValue(s[start..start + len]);
    ValueOfBound(s[start..start + len]);
  }

  lemma ClockPrints(s: string)
    requires ClockOf(s).Some?
    ensures var c := ClockOf(s).value;
            && 0 <= c.date.year <= 9999 && Valid(c.date) && TimeOfDay(c) && |s| >= 20
            && (s[10] == 'T' || s[10] == 't') && s[..19] == Head(c, s[10])
  {
    var c := ClockOf(s).value;
    Powers();
    DigitsPrint(s, 0, 4);
    DigitsPrint(s, 5, 2);
    DigitsPrint(s, 8, 2);
    DigitsPrint(s, 11, 2);
    DigitsPrint(s, 14, 2);
    DigitsPrint(s, 17, 2);
    DatePrints(s, c.date);
    TimePrints(s, c);
    assert s[..19] == s[..10] + [s[10]] + s[11..19];
  }

  lemma DatePrints(s: string, d: Date)
    requires |s| >= 20 && 0 <= d.year <= 9999 && 0 <= d.month && 0 <= d.day && s[4] == '-' && s[7] == '-'
    requires s[0..4] == Fixed(d.year, 4) && s[5..7] == Fixed(d.month, 2) && s[8..10] == Fixed(d.day, 2)
    ensures s[..10] == DateText(d)
  {
    assert s[..10] == s[0..4] + "-" + s[5..7] + "-" + s[8..10];
  }

  lemma TimePrints(s: string, c: Clock)
    requires |s| >= 20 && s[13] == ':' && s[16] == ':'
    requires s[11..13] == Fixed(c.hour, 2) && s[14..16] == Fixed(c.minute, 2) && s[17..19] == Fixed(c.second, 2)
    ensures s[11..19] == TimeText(c)
  {
    assert s[11..19] == s[11..13] + ":" + s[14..16] + ":" + s[17..19];
  }

  lemma FractionPrints(s: string, at: nat) returns (digits: string)
    requires at <= |s| && Fraction(s, at).Some?
    ensures AllDigits(digits) && |digits| <= 9
    ensures var (nanos, end) := Fraction(s, at).value;
            nanos == Nanos(digits) && at <= end <= |s| && s[at..end] == FractionText(digits)
  {
    if Expect(s, at, '.') {
      var end := DigitsEnd(s, at + 1);
      digits := s[at + 1..end];
      assert s[at..end] == "." + digits;
    } else {
      digits := "";
      assert s[at..at] == "";
    }
  }

  lemma ZonePrints(s: string, at: nat) returns (z: Zone)
    requires at <= |s| && Offset(s, at).Some?
    ensures ZoneValid(z) && Lead(z) == Offset(s, at).value && s[at..] == ZoneText(z)
  {
    if s[at] == 'Z' || s[at] == 'z' {
      z := Utc(s[at]);
      assert s[at..] == [s[at]];
    } else {
      var hours, minutes := Digits(s, at + 1, 2).value, Digits(s, at + 4, 2).value;
      DigitsPrint(s, at + 1, 2);
      DigitsPrint(s, at + 4, 2);
      z := Shift(s[at] == '+', hours, minutes);
      assert s[at..] == [s[at]] + s[at + 1..at + 3] + ":" + s[at + 4..at + 6];
    }
  }

  /** The parts of an accepted stamp. */
  lemma StampOf(s: string) returns (c: Clock, mark: char, digits: string, z: Zone)
    requires Parse(s).Some?
    ensures PartsValid(c, mark, digits, z) && s == StampText(c, mark, digits, z)
  {
    c := ClockOf(s).value;
    mark := s[10];
    ClockPrints(s);
    digits, z := TailOf(s);
    Joined(Head(c, mark), FractionText(digits), ZoneText(z));
    assert s == s[..19] + s[19..];
  }

  lemma TailOf(s: string) returns (digits: string, z: Zone)
    requires Parse(s).Some? && |s| >= 19
    ensures AllDigits(digits) && |digits| <= 9 && ZoneValid(z) && s[19..] == FractionText(digits) + ZoneText(z)
  {
    digits := FractionPrints(s, 19);
    var end := Fraction(s, 19).value.1;
    z := ZonePrints(s, end);
    TwoParts(s, 19, end);
  }

  lemma TwoParts(s: string, i: nat, j: nat)
    requires i <= j <= |s|
    ensures s[i..] == s[i..j] + s[j..]
  {
  }

  lemma Joined(a: string, b: string, c: string)
    ensures a + b + c == a + (b + c)
  {
  }

  /** A text is read as an instant exactly when it is a stamp of that instant: with a
      month, hour, fraction or zone out of form or out of range it is refused. */
  lemma ParseExact(s: string, t: Timestamp)
    ensures Parse(s) == Some(t) <==>
            exists c, mark, digits, z ::
              && PartsValid(c, mark, digits, z) && s == StampText(c, mark, digits, z)
              && t == InstantOf(c, digits, z)
  {
    if Parse(s) == Some(t) {
      var c, mark, digits, z := StampOf(s);
      StampParses(c, mark, digits, z);
    }
    forall c, mark, digits, z | PartsValid(c, mark, digits, z) && s == StampText(c, mark, digits, z)
      ensures Parse(s) == Some(InstantOf(c, digits, z))
    {
      StampParses(c, mark, digits, z);
    }
  }

  // ---- The printer's choice ----

  lemma {:induction false} TrimmedEnd(s: string)
    requires AllDigits(s)
    ensures var t := TrimZeros(s); t <= s && AllDigits(t) && (t != "" ==> t[|t| - 1] != '0')
  {
    if |s| > 0 && s[|s| - 1] == '0' {
      TrimmedEnd(s[..|s| - 1]);
    }
  }

  /** Of the stamps of an instant the printer writes the one in UTC, with capital letters
      and with no zero at the end of its fraction. */
  lemma FormatCanonical(seconds: int, nanos: nat) returns (digits: string)
    requires nanos < 1000000000 && 0 <= YearOf(seconds) <= 9999
    ensures PartsValid(ClockAt(seconds), 'T', digits, Utc('Z'))
    ensures Format(seconds, nanos) == StampText(ClockAt(seconds), 'T', digits, Utc('Z'))
    ensures digits != "" ==> digits[|digits| - 1] != '0'
    ensures digits == "" <==> nanos == 0
  {
    digits := TrimmedFraction(nanos);
    ClockAtInstant(seconds);
    Joined(ClockText(ClockAt(seconds)), FractionText(digits), "Z");
  }

  lemma TrimmedFraction(nanos: nat) returns (digits: string)
    requires nanos < 1000000000
    ensures AllDigits(digits) && |digits| <= 9 && (digits != "" ==> digits[|digits| - 1] != '0')
    ensures digits == "" <==> nanos == 0
    ensures Tail(nanos) == FractionText(digits) + "Z"
  {
    if nanos == 0 {
      digits := "";
    } else {
      digits := TrimZeros(Fixed(nanos, 9));
      TrimmedEnd(Fixed(nanos, 9));
      SomethingLeft(nanos);
    }
  }

  lemma SomethingLeft(nanos: nat)
    requires 0 < nanos < 1000000000
    ensures |TrimZeros(Fixed(nanos, 9))| > 0
  {
    Powers();
    ValueOfFixed(nanos, 9);
    TrimKeepsValue(Fixed(nanos, 9));
  }
}
