/** RFC 3339 timestamps: the printer behind `env.now` and the parser behind the time
    functions. Text is a sequence of bytes, written as characters. */
module Rfc3339 {
  import opened Prelude
  import opened Civil
  import opened Decimal

  datatype Timestamp = Timestamp(seconds: int, nanos: nat)

  predicate Before(a: Timestamp, b: Timestamp) {
    a.seconds < b.seconds || (a.seconds == b.seconds && a.nanos < b.nanos)
  }

  // ---- Parsing ----

  function Digits(s: string, start: nat, len: nat): Option<nat> {
    if start + len <= |s| && AllDigits(s[start..start + len]) then Some(ValueOf(s[start..start + len])) else None
  }

  method ParseDigits(s: string, start: nat, len: nat) returns (r: Option<nat>)
    ensures r == Digits(s, start, len)
  {
    if start + len > |s| {
      return None;
    }
    var bytes := s[start..start + len];
    var value := 0;
    for i := 0 to |bytes|
      invariant AllDigits(bytes[..i]) && value == ValueOf(bytes[..i])
    {
      if !IsDigit(bytes[i]) {
        assert bytes[i] in bytes;
        return None;
      }
      assert bytes[..i + 1] == bytes[..i] + [bytes[i]];
      value := value * 10 + DigitValue(bytes[i]);
    }
    assert bytes[..|bytes|] == bytes;
    r := Some(value);
  }

  predicate Expect(s: string, index: nat, c: char) {
    index < |s| && s[index] == c
  }

  /** The end of the run of digits that starts at `at`. */
  function DigitsEnd(s: string, at: nat): (end: nat)
    requires at <= |s|
    ensures at <= end <= |s| && AllDigits(s[at..end])
    ensures end < |s| ==> !IsDigit(s[end])
    decreases |s| - at
  {
    if at < |s| && IsDigit(s[at]) then
      var end := DigitsEnd(s, at + 1);
      assert s[at..end] == [s[at]] + s[at + 1..end];
      end
    else at
  }

  /** An optional fraction of one to nine digits: its nanoseconds, and where it ends. */
  function Fraction(s: string, at: nat): Option<(nat, nat)>
    requires at <= |s|
  {
    if !Expect(s, at, '.') then Some((0, at)) else
      var end := DigitsEnd(s, at + 1);
      var count := end - at - 1;
      if count == 0 || count > 9 then None
      else Some((ValueOf(s[at + 1..end]) * Pow10(9 - count), end))
  }

  method ScaleUp(value: nat, times: nat) returns (scaled: nat)
    ensures scaled == value * Pow10(times)
  {
    scaled := value;
    for i := 0 to times
      invariant scaled == value * Pow10(i)
    {
      scaled := scaled * 10;
    }
  }

  lemma DigitsSnoc(s: string, start: nat, at: nat)
    requires start <= at < |s| && IsDigit(s[at]) && AllDigits(s[start..at])
    ensures AllDigits(s[start..at + 1]) && ValueOf(s[start..at + 1]) == ValueOf(s[start..at]) * 10 + DigitValue(s[at])
  {
    var more := s[start..at + 1];
    assert more == s[start..at] + [s[at]];
    assert more[..|more| - 1] == s[start..at];
  }

  method ParseFraction(s: string, from: nat) returns (r: Option<(nat, nat)>)
    requires from <= |s|
    ensures r == Fraction(s, from)
  {
    var at := from;
    if !Expect(s, at, '.') {
      return Some((0, at));
    }
    at := at + 1;
    var start := at;
    var value: nat := 0;
    while at < |s| && IsDigit(s[at])
      invariant start <= at <= |s| && at - start <= 9
      invariant AllDigits(s[start..at]) && value == ValueOf(s[start..at])
      invariant DigitsEnd(s, start) == DigitsEnd(s, at)
    {
      if at - start >= 9 {
        return None;
      }
      DigitsSnoc(s, start, at);
      value := value * 10 + DigitValue(s[at]);
      at := at + 1;
    }
    if at == start {
      return None;
    }
    var scaled := ScaleUp(value, 9 - (at - start));
    r := Some((scaled, at));
  }

  function Offset(s: string, at: nat): Option<int> {
    if at >= |s| then None
    else if (s[at] == 'Z' || s[at] == 'z') && at + 1 == |s| then Some(0)
    else if (s[at] == '+' || s[at] == '-') && at + 6 == |s| then
      var hour := Digits(s, at + 1, 2);
      var minute := Digits(s, at + 4, 2);
      if hour.None? || !Expect(s, at + 3, ':') || minute.None? || hour.value > 23 || minute.value > 59 then None
      else Some((if s[at] == '+' then 1 else -1) * (hour.value * 3600 + minute.value * 60))
    else None
  }

  datatype Clock = Clock(date: Date, hour: nat, minute: nat, second: nat)

  /** The nineteen bytes of date and time of day. */
  function ClockOf(s: string): Option<Clock> {
    var year, month, day := Digits(s, 0, 4), Digits(s, 5, 2), Digits(s, 8, 2);
    var hour, minute, second := Digits(s, 11, 2), Digits(s, 14, 2), Digits(s, 17, 2);
    if |s| < 20 || year.None? || !Expect(s, 4, '-') || month.None? || !Expect(s, 7, '-') || day.None?
       || !(Expect(s, 10, 'T') || Expect(s, 10, 't'))
       || hour.None? || !Expect(s, 13, ':') || minute.None? || !Expect(s, 16, ':') || second.None? then None
    else
      var date := Date(year.value, month.value, day.value);
      if !Valid(date) || hour.value > 23 || minute.value > 59 || second.value > 59 then None
      else Some(Clock(date, hour.value, minute.value, second.value))
  }

  function LocalSeconds(c: Clock): int {
    DaysFromCivil(c.date) * 86400 + c.hour * 3600 + c.minute * 60 + c.second
  }

  function Parse(s: string): Option<Timestamp> {
    var clock := ClockOf(s);
    if clock.None? then None else
      var fraction := Fraction(s, 19);
      if fraction.None? then None else
        var offset := Offset(s, fraction.value.1);
        if offset.None? then None
        else Some(Timestamp(LocalSeconds(clock.value) - offset.value, fraction.value.0))
  }

  // ---- Printing ----

  /** Decimal digits without padding. */
  function Natural(n: nat): (s: string)
    ensures |s| > 0 && AllDigits(s)
  {
    if n < 10 then [Digit(n)] else Natural(n / 10) + [Digit(n % 10)]
  }

  /** `{:04}`: zero-padded to four, the sign included. */
  function YearText(year: int): string {
    if 0 <= year <= 9999 then Fixed(year, 4)
    else if year > 9999 then Natural(year)
    else if year >= -999 then "-" + Fixed(-year, 3)
    else "-" + Natural(-year)
  }

  function TrimZeros(s: string): string {
    if |s| > 0 && s[|s| - 1] == '0' then TrimZeros(s[..|s| - 1]) else s
  }

  function DateText(d: Date): string {
    YearText(d.year) + "-" + Two(d.month) + "-" + Two(d.day)
  }

  function TimeText(c: Clock): string {
    Two(c.hour) + ":" + Two(c.minute) + ":" + Two(c.second)
  }

  function ClockText(c: Clock): string {
    DateText(c.date) + "T" + TimeText(c)
  }

  /** A fraction only when there is one, and the UTC mark. */
  function Tail(nanos: nat): string {
    (if nanos != 0 then "." + TrimZeros(Fixed(nanos, 9)) else "") + "Z"
  }

  function Two(n: int): (s: string)
    ensures |s| == 2 && AllDigits(s)
  {
    if n >= 0 then Fixed(n, 2) else "00"
  }

  function ClockAt(seconds: int): Clock {
    var second := seconds % 86400;
    Clock(CivilFromDays(seconds / 86400), second / 3600, (second % 3600) / 60, second % 60)
  }

  function Format(seconds: int, nanos: nat): string {
    ClockText(ClockAt(seconds)) + Tail(nanos)
  }

  /** Builds the stamp up from the clock text. */
  method AppendTail(clock: string, nanos: nat) returns (stamp: string)
    ensures stamp == clock + Tail(nanos)
  {
    stamp := clock;
    ghost var fractionText := "";
    if nanos != 0 {
      var fraction := TrimZeros(Fixed(nanos, 9));
      stamp := stamp + ".";
      stamp := stamp + fraction;
      fractionText := "." + fraction;
      Concat(clock, ".", fraction);
    }
    Concat(clock, fractionText, "Z");
    stamp := stamp + "Z";
  }

  lemma Concat(a: string, b: string, c: string)
    ensures a + b + c == a + (b + c)
    ensures a + "" == a
  {
  }

  method FormatRfc3339(seconds: int, nanos: nat) returns (stamp: string)
    ensures stamp == Format(seconds, nanos)
  {
    stamp := AppendTail(ClockText(ClockAt(seconds)), nanos);
  }

  // ---- Round trip ----

  lemma DigitsAt(s: string, start: nat, len: nat, n: nat)
    requires n < Pow10(len) && start + len <= |s| && s[start..start + len] == Fixed(n, len)
    ensures Digits(s, start, len) == Some(n)
  {
    ValueOfFixed(n, len);
  }

  lemma Powers()
    ensures Pow10(2) == 100 && Pow10(4) == 10000 && Pow10(9) == 1000000000
  {
    assert Pow10(2) == 10 * Pow10(1) && Pow10(4) == 100 * Pow10(2);
    assert Pow10(9) == 10 * Pow10(8) && Pow10(8) == 100 * Pow10(6) && Pow10(6) == 100 * Pow10(4);
  }

  lemma DateTextParts(d: Date)
    requires 0 <= d.year <= 9999 && 0 <= d.month && 0 <= d.day
    ensures var s := DateText(d);
            && |s| == 10 && s[4] == '-' && s[7] == '-'
            && s[0..4] == Fixed(d.year, 4) && s[5..7] == Fixed(d.month, 2) && s[8..10] == Fixed(d.day, 2)
  {
    var y, m, day := Fixed(d.year, 4), Fixed(d.month, 2), Fixed(d.day, 2);
    assert DateText(d) == (y + "-") + m + ("-" + day);
  }

  lemma TimeTextParts(c: Clock)
    ensures var s := TimeText(c);
            && |s| == 8 && s[2] == ':' && s[5] == ':'
            && s[0..2] == Fixed(c.hour, 2) && s[3..5] == Fixed(c.minute, 2) && s[6..8] == Fixed(c.second, 2)
  {
    var h, m, second := Fixed(c.hour, 2), Fixed(c.minute, 2), Fixed(c.second, 2);
    assert TimeText(c) == (h + ":") + m + (":" + second);
  }

  lemma Inside(date: string, time: string, rest: string, i: nat, j: nat)
    requires |date| == 10 && |time| == 8
    ensures i <= j <= 10 ==> (date + "T" + time + rest)[i..j] == date[i..j]
    ensures i <= j <= 8 ==> (date + "T" + time + rest)[11 + i..11 + j] == time[i..j]
  {
  }

  lemma DateSlices(c: Clock, rest: string)
    requires 0 <= c.date.year <= 9999 && 0 <= c.date.month && 0 <= c.date.day
    ensures var s := ClockText(c) + rest;
            && |ClockText(c)| == 19 && s[4] == '-' && s[7] == '-' && s[10] == 'T'
            && s[0..4] == Fixed(c.date.year, 4) && s[5..7] == Fixed(c.date.month, 2) && s[8..10] == Fixed(c.date.day, 2)
  {
    var date, time := DateText(c.date), TimeText(c);
    DateTextParts(c.date);
    TimeTextParts(c);
    Inside(date, time, rest, 0, 4);
    Inside(date, time, rest, 5, 7);
    Inside(date, time, rest, 8, 10);
  }

  lemma TimeSlices(c: Clock, rest: string)
    requires |DateText(c.date)| == 10
    ensures var s := ClockText(c) + rest;
            && |ClockText(c)| == 19 && s[13] == ':' && s[16] == ':'
            && s[11..13] == Fixed(c.hour, 2) && s[14..16] == Fixed(c.minute, 2) && s[17..19] == Fixed(c.second, 2)
  {
    var date, time := DateText(c.date), TimeText(c);
    TimeTextParts(c);
    Inside(date, time, rest, 0, 2);
    Inside(date, time, rest, 3, 5);
    Inside(date, time, rest, 6, 8);
  }

  lemma ClockTextSlices(c: Clock, rest: string)
    requires 0 <= c.date.year <= 9999 && 0 <= c.date.month && 0 <= c.date.day
    ensures var s := ClockText(c) + rest;
            && |ClockText(c)| == 19
            && s[0..4] == Fixed(c.date.year, 4) && s[5..7] == Fixed(c.date.month, 2) && s[8..10] == Fixed(c.date.day, 2)
            && s[11..13] == Fixed(c.hour, 2) && s[14..16] == Fixed(c.minute, 2) && s[17..19] == Fixed(c.second, 2)
            && s[4] == '-' && s[7] == '-' && s[10] == 'T' && s[13] == ':' && s[16] == ':'
  {
    DateTextParts(c.date);
    DateSlices(c, rest);
    TimeSlices(c, rest);
  }

  predicate TimeOfDay(c: Clock) {
    c.hour <= 23 && c.minute <= 59 && c.second <= 59
  }

  lemma ClockReads(c: Clock, rest: string)
    requires 0 <= c.date.year <= 9999 && Valid(c.date) && TimeOfDay(c) && |rest| > 0
    ensures ClockOf(ClockText(c) + rest) == Some(c)
  {
    var s := ClockText(c) + rest;
    Powers();
    ClockTextSlices(c, rest);
    DigitsAt(s, 0, 4, c.date.year);
    DigitsAt(s, 5, 2, c.date.month);
    DigitsAt(s, 8, 2, c.date.day);
    DigitsAt(s, 11, 2, c.hour);
    DigitsAt(s, 14, 2, c.minute);
    DigitsAt(s, 17, 2, c.second);
  }

  lemma {:induction false} TrimKeepsValue(s: string)
    requires AllDigits(s)
    ensures var t := TrimZeros(s);
            && AllDigits(t) && |t| <= |s|
            && ValueOf(s) == ValueOf(t) * Pow10(|s| - |t|)
  {
    if |s| > 0 && s[|s| - 1] == '0' {
      var init := s[..|s| - 1];
      TrimKeepsValue(init);
      var t := TrimZeros(init);
      assert ValueOf(s) == 10 * ValueOf(init);
      assert Pow10(|s| - |t|) == 10 * Pow10(|init| - |t|);
      Reassociate(ValueOf(t), Pow10(|init| - |t|));
    }
  }

  lemma Reassociate(a: nat, b: nat)
    ensures 10 * (a * b) == a * (10 * b)
  {
  }

  lemma {:induction false} DigitsEndAt(s: string, at: nat, end: nat)
    requires at <= end < |s| && AllDigits(s[at..end]) && !IsDigit(s[end])
    ensures DigitsEnd(s, at) == end
    decreases end - at
  {
    if at < end {
      assert s[at] in s[at..end];
      assert forall c | c in s[at + 1..end] :: c in s[at..end];
      DigitsEndAt(s, at + 1, end);
    }
  }

  lemma FractionReads(head: string, nanos: nat)
    requires nanos < 1000000000
    ensures Fraction(head + Tail(nanos), |head|) == Some((nanos, |head| + |Tail(nanos)| - 1))
  {
    if nanos == 0 {
      assert (head + ("" + "Z"))[|head|] == 'Z';
    } else {
      var t := TrimZeros(Fixed(nanos, 9));
      Powers();
      ValueOfFixed(nanos, 9);
      TrimKeepsValue(Fixed(nanos, 9));
      assert |t| > 0;
      var s := head + ("." + t + "Z");
      var at := |head|;
      var end := at + 1 + |t|;
      assert s[at] == '.';
      assert s[at + 1..end] == t;
      assert s[end] == 'Z';
      DigitsEndAt(s, at + 1, end);
    }
  }

  lemma ClockAtInstant(seconds: int)
    ensures var c := ClockAt(seconds);
            Valid(c.date) && TimeOfDay(c) && LocalSeconds(c) == seconds
  {
    DaysRoundTrip(seconds / 86400);
    SecondsOfDay(seconds % 86400);
  }

  lemma SecondsOfDay(second: int)
    requires 0 <= second < 86400
    ensures second / 3600 <= 23 && (second % 3600) / 60 <= 59
    ensures second / 3600 * 3600 + (second % 3600) / 60 * 60 + second % 60 == second
  {
    var rest := second % 3600;
    assert rest % 60 == second % 60 by {
      assert second == 60 * (60 * (second / 3600)) + rest;
    }
  }

  function YearOf(seconds: int): int {
    CivilFromDays(seconds / 86400).year
  }

  lemma InRangeReads(seconds: int, nanos: nat)
    requires nanos < 1000000000 && 0 <= YearOf(seconds) <= 9999
    ensures Parse(Format(seconds, nanos)) == Some(Timestamp(seconds, nanos))
  {
    var c := ClockAt(seconds);
    ClockAtInstant(seconds);
    ClockReads(c, Tail(nanos));
    ClockTextSlices(c, Tail(nanos));
    FractionReads(ClockText(c), nanos);
    PartsParse(Format(seconds, nanos), c, nanos);
  }

  lemma PartsParse(s: string, c: Clock, nanos: nat)
    requires |s| >= 20 && s[|s| - 1] == 'Z'
    requires ClockOf(s) == Some(c) && Fraction(s, 19) == Some((nanos, |s| - 1))
    ensures Parse(s) == Some(Timestamp(LocalSeconds(c), nanos))
  {
    assert Offset(s, |s| - 1) == Some(0);
  }

  lemma {:induction false} NaturalLong(n: nat)
    requires n > 9999
    ensures |Natural(n)| >= 5
  {
    assert Natural(n) == Natural(n / 10) + [Digit(n % 10)];
    assert |Natural(n / 10)| >= 4 by {
      assert n / 10 > 999;
      assert Natural(n / 10) == Natural(n / 100) + [Digit(n / 10 % 10)];
      assert Natural(n / 100) == Natural(n / 1000) + [Digit(n / 100 % 10)];
      assert n / 1000 > 9 - 1;
      assert |Natural(n / 1000)| >= 1;
      assert n / 100 > 99 - 1 && n / 1000 >= 9;
    }
  }

  lemma LongYearRefused(year: int, rest: string)
    requires !(0 <= year <= 9999)
    ensures ClockOf(YearText(year) + rest).None?
  {
    var text := YearText(year);
    var s := text + rest;
    if year > 9999 {
      NaturalLong(year);
      assert s[4] == text[4] && text[4] in text;
    } else {
      assert s[0] == text[0] == '-';
      if |s| >= 4 {
        assert s[0..4][0] == '-' && s[0..4][0] in s[0..4];
      }
    }
  }

  lemma TextStartsWithYear(c: Clock, rest: string) returns (tail: string)
    ensures ClockText(c) + rest == YearText(c.date.year) + tail
  {
    var after := "-" + Two(c.date.month) + "-" + Two(c.date.day);
    assert DateText(c.date) == YearText(c.date.year) + after;
    tail := after + "T" + TimeText(c) + rest;
  }

  /** A year outside four digits is printed in a form the parser refuses. */
  lemma OutOfRangeRefused(seconds: int, nanos: nat)
    requires !(0 <= YearOf(seconds) <= 9999)
    ensures Parse(Format(seconds, nanos)).None?
  {
    var tail := TextStartsWithYear(ClockAt(seconds), Tail(nanos));
    LongYearRefused(YearOf(seconds), tail);
  }

  /** Parsing what was printed gives back exactly the instant, trimmed fractions
      included, precisely when the year has four digits. */
  lemma FormatParses(seconds: int, nanos: nat)
    requires nanos < 1000000000
    ensures Parse(Format(seconds, nanos)) ==
            if 0 <= YearOf(seconds) <= 9999 then Some(Timestamp(seconds, nanos)) else None
  {
    if 0 <= YearOf(seconds) <= 9999 {
      InRangeReads(seconds, nanos);
    } else {
      OutOfRangeRefused(seconds, nanos);
    }
  }

  lemma {:induction false} PowersMultiply(a: nat, b: nat)
    ensures Pow10(a) * Pow10(b) == Pow10(a + b)
  {
    if a > 0 {
      PowersMultiply(a - 1, b);
      Reassociate(Pow10(b), Pow10(a - 1));
    }
  }

  lemma ParsedNanosBelowSecond(s: string)
    requires Parse(s).Some?
    ensures Parse(s).value.nanos < 1000000000
  {
    Powers();
    if Expect(s, 19, '.') {
      var end := DigitsEnd(s, 20);
      var digits := s[20..end];
      ValueOfBound(digits);
      PowersMultiply(|digits|, 9 - |digits|);
      Scale(ValueOf(digits), Pow10(|digits|), Pow10(9 - |digits|));
    }
  }

  lemma Scale(a: nat, b: nat, k: nat)
    requires a < b && k > 0
    ensures a * k < b * k
  {
  }

  /** Reprinting any accepted stamp in UTC, whatever its offset, keeps its instant
      precisely while the UTC year has four digits. */
  lemma ReprintKeepsInstant(s: string)
    requires Parse(s).Some?
    ensures var t := Parse(s).value;
            Parse(Format(t.seconds, t.nanos)) == (if 0 <= YearOf(t.seconds) <= 9999 then Some(t) else None)
  {
    ParsedNanosBelowSecond(s);
    FormatParses(Parse(s).value.seconds, Parse(s).value.nanos);
  }
}
