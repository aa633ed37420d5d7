/** The timestamp codec of src/time.rs: RFC 3339 text to whole seconds since
    the epoch and back. */
module Rfc3339 {
  import opened Text
  import opened Calendar
  import opened Decimal

  const DAY := 86_400

  // ---------------------------------------------------------------------
  // Parsing
  // ---------------------------------------------------------------------

  /** `digits`: the number written in the `len` bytes at `pos`. */
  function DigitsAt(b: seq<Byte>, pos: nat, len: nat): Option<int> {
    if pos + len > |b| || !AllDigits(b[pos..pos + len]) then None
    else Some(Number(b[pos..pos + len]))
  }

  method Digits(b: seq<Byte>, pos: nat, len: nat) returns (r: Option<int>)
    ensures r == DigitsAt(b, pos, len)
    ensures r.Some? ==> pos + len <= |b|
  {
    if pos + len > |b| {
      return None;
    }
    ghost var run := b[pos..pos + len];
    var v := 0;
    for i := 0 to len
      invariant AllDigits(run[..i]) && v == Number(run[..i])
    {
      assert run[..i + 1][..i] == run[..i];
      assert run[i] == b[pos + i];
      if !IsDigit(b[pos + i]) {
        return None;
      }
      v := v * 10 + (b[pos + i] - '0' as int);
    }
    assert run[..len] == run;
    return Some(v);
  }

  predicate IsSeparator(c: Byte) {
    c == 'T' as int || c == 't' as int || c == ' ' as int
  }

  function SkipDigits(b: seq<Byte>): seq<Byte> {
    if b != [] && IsDigit(b[0]) then SkipDigits(b[1..]) else b
  }

  function SkipFraction(b: seq<Byte>): seq<Byte> {
    if b != [] && b[0] == '.' as int then SkipDigits(b[1..]) else b
  }

  function DatePart(b: seq<Byte>): Option<Date> {
    if |b| < 10 then None
    else
      var year :- DigitsAt(b, 0, 4);
      if b[4] != '-' as int then None
      else
        var month :- DigitsAt(b, 5, 2);
        if b[7] != '-' as int then None
        else
          var day :- DigitsAt(b, 8, 2);
          if Valid(Date(year, month, day)) then Some(Date(year, month, day)) else None
  }

  /** The seconds of the day and what follows the clock. */
  function ClockPart(b: seq<Byte>): Option<(int, seq<Byte>)> {
    if b == [] || !IsSeparator(b[0]) then Some((0, b))
    else if |b| < 9 then None
    else
      var time :- TimePart(b[1..9]);
      Some((time, SkipFraction(b[9..])))
  }

  function TimePart(b: seq<Byte>): Option<int>
    requires |b| == 8
  {
    var hour :- DigitsAt(b, 0, 2);
    if b[2] != ':' as int then None
    else
      var min :- DigitsAt(b, 3, 2);
      if b[5] != ':' as int then None
      else
        var sec :- DigitsAt(b, 6, 2);
        if hour > 23 || min > 59 || sec > 59 then None
        else Some(hour * 3_600 + min * 60 + sec)
  }

  /** The zone's offset from UTC; the zone must end the text. */
  function ZonePart(b: seq<Byte>): Option<int> {
    if b == [] then Some(0)
    else if b[0] == 'Z' as int || b[0] == 'z' as int then
      if |b| == 1 then Some(0) else None
    else if b[0] == '+' as int || b[0] == '-' as int then
      var sign := if b[0] == '-' as int then -1 else 1;
      var oh :- DigitsAt(b, 1, 2);
      var om :- MinutePart(b[3..]);
      if oh > 23 || om > 59 then None else Some(sign * (oh * 3_600 + om * 60))
    else None
  }

  /** The minutes that end a numeric zone, after an optional colon. */
  function MinutePart(b: seq<Byte>): Option<int> {
    if b != [] && b[0] == ':' as int then (if |b| == 3 then DigitsAt(b, 1, 2) else None)
    else (if |b| == 2 then DigitsAt(b, 0, 2) else None)
  }

  function ParseBytes(b: seq<Byte>): Option<int> {
    var date :- DatePart(b);
    var clock :- ClockPart(b[10..]);
    var offset :- ZonePart(clock.1);
    Some(DaysFromCivil(date) * DAY + clock.0 - offset)
  }

  /** `Timestamp::parse`, as a function of the text. */
  function Parse(input: string): Option<int> {
    ParseBytes(Utf8(input))
  }

  lemma DigitsInSlice(b: seq<Byte>, from: nat, to: nat, pos: nat, len: nat)
    requires from <= to <= |b| && (to == |b| || from + pos + len <= to)
    ensures DigitsAt(b[from..to], pos, len) == DigitsAt(b, from + pos, len)
  {
    if from + pos + len <= to {
      var c := b[..to];
      assert b[from..to] == c[from..] && c[from..][pos..pos + len] == c[from + pos..from + pos + len];
      assert c[from + pos..from + pos + len] == b[from + pos..from + pos + len];
    }
  }

  /** `Timestamp::parse`: a cursor that moves over the bytes. */
  method ParseTimestamp(input: string) returns (r: Option<int>)
    ensures r == Parse(input)
  {
    hide DatePart, ClockPart, ZonePart, DaysFromCivil;
    var b := Utf8(input);
    var date := ReadDate(b);
    if date.None? {
      return None;
    }
    var pos := 10;
    var clock;
    clock, pos := ReadClock(b, pos);
    if clock.None? {
      return None;
    }
    var offset := ReadZone(b, pos);
    if offset.None? {
      return None;
    }
    return Some(DaysFromCivil(date.value) * DAY + clock.value - offset.value);
  }

  method ReadDate(b: seq<Byte>) returns (r: Option<Date>)
    ensures r == DatePart(b)
    ensures r.Some? ==> |b| >= 10
  {
    if |b| < 10 {
      return None;
    }
    var year := Digits(b, 0, 4);
    if year.None? || b[4] != '-' as int {
      return None;
    }
    var month := Digits(b, 5, 2);
    if month.None? || b[7] != '-' as int {
      return None;
    }
    var day := Digits(b, 8, 2);
    if day.None? || !(1 <= month.value <= 12) {
      return None;
    }
    if day.value < 1 || day.value > DaysInMonth(year.value, month.value) {
      return None;
    }
    return Some(Date(year.value, month.value, day.value));
  }

  /** The clock at `start`, and the cursor after it. */
  method ReadClock(b: seq<Byte>, start: nat) returns (r: Option<int>, pos: nat)
    requires start <= |b|
    ensures r.Some? ==> start <= pos <= |b| && ClockPart(b[start..]) == Some((r.value, b[pos..]))
    ensures r.None? ==> ClockPart(b[start..]).None?
  {
    hide DigitsAt;
    ghost var tail := b[start..];
    pos := start;
    var hour, min, sec := 0, 0, 0;
    if |b| > pos && IsSeparator(b[pos]) {
      if |b| < pos + 9 {
        return None, pos;
      }
      assert tail[1..9] == b[start + 1..start + 9];
      DigitsInSlice(b, start + 1, start + 9, 0, 2);
      var h := Digits(b, pos + 1, 2);
      if h.None? || b[pos + 3] != ':' as int {
        return None, pos;
      }
      DigitsInSlice(b, start + 1, start + 9, 3, 2);
      var m := Digits(b, pos + 4, 2);
      if m.None? || b[pos + 6] != ':' as int {
        return None, pos;
      }
      DigitsInSlice(b, start + 1, start + 9, 6, 2);
      var s := Digits(b, pos + 7, 2);
      if s.None? || h.value > 23 || m.value > 59 || s.value > 59 {
        return None, pos;
      }
      hour, min, sec := h.value, m.value, s.value;
      pos := pos + 9;
      assert tail[9..] == b[pos..];
      pos := ReadFraction(b, pos);
    }
    r := Some(hour * 3_600 + min * 60 + sec);
  }

  method ReadFraction(b: seq<Byte>, start: nat) returns (pos: nat)
    requires start <= |b|
    ensures start <= pos <= |b| && SkipFraction(b[start..]) == b[pos..]
  {
    pos := start;
    if |b| > pos && b[pos] == '.' as int {
      pos := pos + 1;
      assert b[start..][1..] == b[pos..];
      while pos < |b| && IsDigit(b[pos])
        invariant start < pos <= |b|
        invariant SkipDigits(b[start..][1..]) == SkipDigits(b[pos..])
      {
        assert b[pos..][1..] == b[pos + 1..];
        pos := pos + 1;
      }
    }
  }

  method ReadZone(b: seq<Byte>, start: nat) returns (r: Option<int>)
    requires start <= |b|
    ensures r == ZonePart(b[start..])
  {
    hide DigitsAt;
    assert b[start..|b|] == b[start..];
    var pos := start;
    var offset := 0;
    if pos < |b| {
      if b[pos] == 'Z' as int || b[pos] == 'z' as int {
        pos := pos + 1;
      } else if b[pos] == '+' as int || b[pos] == '-' as int {
        var sign := if b[pos] == '-' as int then -1 else 1;
        pos := pos + 1;
        DigitsInSlice(b, start, |b|, 1, 2);
        var oh := Digits(b, pos, 2);
        if oh.None? {
          return None;
        }
        pos := pos + 2;
        if pos < |b| && b[pos] == ':' as int {
          pos := pos + 1;
        }
        assert b[start..][3..] == b[start + 3..|b|];
        DigitsInSlice(b, start + 3, |b|, pos - start - 3, 2);
        var om := Digits(b, pos, 2);
        if om.None? {
          return None;
        }
        pos := pos + 2;
        if oh.value > 23 || om.value > 59 {
          return None;
        }
        offset := sign * (oh.value * 3_600 + om.value * 60);
      } else {
        return None;
      }
      if pos != |b| {
        return None;
      }
    }
    return Some(offset);
  }

  // ---------------------------------------------------------------------
  // The grammar
  // ---------------------------------------------------------------------

  datatype Clock =
    | NoClock
    | Clock(separator: char, hour: nat, minute: nat, second: nat, fraction: Option<string>)

  datatype Zone =
    | NoZone
    | Zulu(mark: char)
    | Offset(negative: bool, hours: nat, minutes: nat, colon: bool)

  /** A timestamp as written: what section 5.6 of RFC 3339 calls date-time,
      with the relaxations the parser makes (a lone date, no zone, a zone
      without a colon, an empty fraction). */
  datatype Stamp = Stamp(date: Date, clock: Clock, zone: Zone)

  predicate DigitText(s: string) {
    Ascii(s) && AllDigits(Codes(s))
  }

  predicate DateOk(d: Date) {
    0 <= d.year <= 9999 && Valid(d)
  }

  predicate ClockOk(c: Clock) {
    c.Clock? ==>
      && IsSeparator'(c.separator)
      && c.hour <= 23 && c.minute <= 59 && c.second <= 59
      && (c.fraction.Some? ==> DigitText(c.fraction.value))
  }

  predicate ZoneOk(z: Zone) {
    match z
    case NoZone => true
    case Zulu(mark) => mark == 'Z' || mark == 'z'
    case Offset(_, hours, minutes, _) => hours <= 23 && minutes <= 59
  }

  predicate WellFormed(st: Stamp) {
    DateOk(st.date) && ClockOk(st.clock) && ZoneOk(st.zone)
  }

  predicate IsSeparator'(c: char) {
    c == 'T' || c == 't' || c == ' '
  }

  function DateText(d: Date): string
    requires DateOk(d)
  {
    Fixed(d.year, 4) + "-" + Fixed(d.month, 2) + "-" + Fixed(d.day, 2)
  }

  function ClockText(c: Clock): string {
    match c
    case NoClock => ""
    case Clock(separator, hour, minute, second, fraction) =>
      [separator] + TimeText(hour, minute, second)
      + if fraction.Some? then "." + fraction.value else ""
  }

  function TimeText(hour: nat, minute: nat, second: nat): (s: string)
    ensures |s| == 8
  {
    Fixed(hour, 2) + ":" + Fixed(minute, 2) + ":" + Fixed(second, 2)
  }

  function ZoneText(z: Zone): string {
    match z
    case NoZone => ""
    case Zulu(mark) => [mark]
    case Offset(negative, hours, minutes, colon) =>
      (if negative then "-" else "+") + Fixed(hours, 2) + MinuteText(minutes, colon)
  }

  function Written(st: Stamp): string
    requires WellFormed(st)
  {
    DateText(st.date) + ClockText(st.clock) + ZoneText(st.zone)
  }

  function ClockSeconds(c: Clock): int {
    if c.NoClock? then 0 else c.hour * 3_600 + c.minute * 60 + c.second
  }

  function ZoneSeconds(z: Zone): int {
    if z.Offset? then (if z.negative then -1 else 1) * (z.hours * 3_600 + z.minutes * 60) else 0
  }

  /** Local time minus offset. */
  function Instant(st: Stamp): int {
    DaysFromCivil(st.date) * DAY + ClockSeconds(st.clock) - ZoneSeconds(st.zone)
  }

  lemma Powers()
    ensures Power10(2) == 100 && Power10(4) == 10_000
  {
    assert Power10(2) == 10 * Power10(1) && Power10(4) == 10 * Power10(3);
  }

  lemma CodesOfSlice(s: string, i: nat, j: nat)
    requires Ascii(s) && i <= j <= |s|
    ensures Ascii(s[i..j]) && Codes(s)[i..j] == Codes(s[i..j])
  {
  }

  lemma CodesConcat(s: string, t: string)
    requires Ascii(s) && Ascii(t)
    ensures Ascii(s + t) && Codes(s + t) == Codes(s) + Codes(t)
  {
  }

  lemma CodesOfOne(c: char)
    requires c as int < 128
    ensures Ascii([c]) && Codes([c]) == [c as int]
  {
  }

  /** A field between two others is read where it stands. */
  lemma ReadFixed(s: string, pos: nat, n: nat, w: nat)
    requires Ascii(s) && pos + w <= |s| && s[pos..pos + w] == Fixed(n, w) && n < Power10(w)
    ensures DigitsAt(Codes(s), pos, w) == Some(n)
  {
    NumberOfFixed(n, w);
    FixedIsAscii(n, w);
    CodesOfSlice(s, pos, pos + w);
  }

  lemma DateReads(d: Date, rest: string)
    requires DateOk(d) && Ascii(rest)
    ensures |DateText(d)| == 10 && Ascii(DateText(d) + rest)
    ensures DatePart(Codes(DateText(d) + rest)) == Some(d)
  {
    hide DigitsAt, Fixed;
    FixedIsAscii(d.year, 4);
    FixedIsAscii(d.month, 2);
    FixedIsAscii(d.day, 2);
    var s := DateText(d) + rest;
    Powers();
    assert s[0..4] == Fixed(d.year, 4) && s[5..7] == Fixed(d.month, 2) && s[8..10] == Fixed(d.day, 2);
    ReadFixed(s, 0, d.year, 4);
    ReadFixed(s, 5, d.month, 2);
    ReadFixed(s, 8, d.day, 2);
  }

  lemma {:induction false} SkipsDigits(digits: string, rest: string)
    requires DigitText(digits) && Ascii(rest)
    requires rest == "" || !IsDigit(rest[0] as int)
    ensures SkipDigits(Codes(digits + rest)) == Codes(rest)
  {
    if digits == "" {
      assert digits + rest == rest;
    } else {
      var tail := digits[1..];
      assert Codes(tail) == Codes(digits)[1..];
      assert Codes(digits + rest)[1..] == Codes(tail + rest);
      assert Codes(digits)[0] == Codes(digits + rest)[0];
      SkipsDigits(tail, rest);
    }
  }

  predicate StartsZone(rest: string) {
    rest == "" || rest[0] == 'Z' || rest[0] == 'z' || rest[0] == '+' || rest[0] == '-'
  }

  lemma TimeReads(hour: nat, minute: nat, second: nat)
    requires hour <= 23 && minute <= 59 && second <= 59
    ensures Ascii(TimeText(hour, minute, second))
    ensures TimePart(Codes(TimeText(hour, minute, second))) == Some(hour * 3_600 + minute * 60 + second)
  {
    hide DigitsAt, Fixed;
    FixedIsAscii(hour, 2);
    FixedIsAscii(minute, 2);
    FixedIsAscii(second, 2);
    var s := TimeText(hour, minute, second);
    Powers();
    assert s[0..2] == Fixed(hour, 2) && s[3..5] == Fixed(minute, 2) && s[6..8] == Fixed(second, 2);
    ReadFixed(s, 0, hour, 2);
    ReadFixed(s, 3, minute, 2);
    ReadFixed(s, 6, second, 2);
  }

  lemma FractionReads(fraction: Option<string>, rest: string)
    requires fraction.Some? ==> DigitText(fraction.value)
    requires Ascii(rest) && StartsZone(rest)
    ensures var s := (if fraction.Some? then "." + fraction.value else "") + rest;
      Ascii(s) && SkipFraction(Codes(s)) == Codes(rest)
  {
    if fraction.Some? {
      var f := fraction.value;
      SkipsDigits(f, rest);
      assert Codes("." + f + rest)[1..] == Codes(f + rest);
    } else {
      assert "" + rest == rest;
    }
  }

  lemma ClockPartOf(separator: Byte, time: seq<Byte>, rest: seq<Byte>)
    requires IsSeparator(separator) && |time| == 8
    ensures var b := [separator] + time + rest;
      ClockPart(b) == if TimePart(time).None? then None else Some((TimePart(time).value, SkipFraction(rest)))
  {
    hide TimePart, SkipFraction;
    var b := [separator] + time + rest;
    assert b[1..9] == time && b[9..] == rest;
  }

  lemma ClockReads(c: Clock, rest: string)
    requires ClockOk(c) && Ascii(rest) && StartsZone(rest)
    ensures Ascii(ClockText(c) + rest)
    ensures ClockPart(Codes(ClockText(c) + rest)) == Some((ClockSeconds(c), Codes(rest)))
  {
    hide ClockPart, TimePart, TimeText, SkipFraction, DigitText, Ascii, Codes;
    if c.NoClock? {
      NoClockReads(rest);
      assert ClockText(c) + rest == rest;
    } else {
      var time := TimeText(c.hour, c.minute, c.second);
      CodesOfOne(c.separator);
      TimeReads(c.hour, c.minute, c.second);
      FractionReads(c.fraction, rest);
      var f := (if c.fraction.Some? then "." + c.fraction.value else "") + rest;
      assert ClockText(c) + rest == [c.separator] + time + f;
      CodesConcat([c.separator], time);
      CodesConcat([c.separator] + time, f);
      ClockPartOf(c.separator as int, Codes(time), Codes(f));
    }
  }

  lemma NoClockReads(rest: string)
    requires Ascii(rest) && StartsZone(rest)
    ensures ClockPart(Codes(rest)) == Some((0, Codes(rest)))
  {
  }

  lemma ReadMiddle(before: string, n: nat, w: nat, after: string)
    requires Ascii(before) && Ascii(after) && n < Power10(w)
    ensures Ascii(before + Fixed(n, w) + after)
    ensures DigitsAt(Codes(before + Fixed(n, w) + after), |before|, w) == Some(n)
  {
    FixedIsAscii(n, w);
    hide DigitsAt, Fixed;
    var s := before + Fixed(n, w) + after;
    assert s[|before|..|before| + w] == Fixed(n, w);
    ReadFixed(s, |before|, n, w);
  }

  function MinuteText(minutes: nat, colon: bool): string {
    (if colon then ":" else "") + Fixed(minutes, 2)
  }

  lemma MinutesRead(minutes: nat, colon: bool)
    requires minutes <= 59
    ensures Ascii(MinuteText(minutes, colon))
    ensures MinutePart(Codes(MinuteText(minutes, colon))) == Some(minutes)
  {
    FixedIsAscii(minutes, 2);
    assert IsDigit(Codes(Fixed(minutes, 2))[0]);
    hide DigitsAt, Fixed;
    Powers();
    var mark := if colon then ":" else "";
    ReadMiddle(mark, minutes, 2, "");
    assert MinuteText(minutes, colon) == mark + Fixed(minutes, 2) + "";
  }

  lemma ZoneReads(z: Zone)
    requires ZoneOk(z)
    ensures Ascii(ZoneText(z)) && StartsZone(ZoneText(z))
    ensures ZonePart(Codes(ZoneText(z))) == Some(ZoneSeconds(z))
  {
    if z.Offset? {
      OffsetReads(z);
    }
  }

  lemma OffsetReads(z: Zone)
    requires z.Offset? && ZoneOk(z)
    ensures Ascii(ZoneText(z))
    ensures ZonePart(Codes(ZoneText(z))) == Some(ZoneSeconds(z))
  {
    hide DigitsAt, Fixed, MinutePart, MinuteText;
    var sign, h, m := if z.negative then "-" else "+", Fixed(z.hours, 2), MinuteText(z.minutes, z.colon);
    FixedIsAscii(z.hours, 2);
    Powers();
    MinutesRead(z.minutes, z.colon);
    ReadMiddle(sign, z.hours, 2, m);
    CodesConcat(sign, h);
    CodesConcat(sign + h, m);
    CodesOfOne(sign[0]);
    var b, front := Codes(ZoneText(z)), Codes(sign + h);
    assert sign == [sign[0]] && ZoneText(z) == sign + h + m;
    hide Codes, Ascii;
    assert |front| == 3 && b == front + Codes(m) && b[3..] == Codes(m) && b[0] == sign[0] as int;
  }

  /** The grammar, number by number: which stamps there are, how they are
      written and what they denote. */
  lemma StampMeans(st: Stamp)
    ensures WellFormed(st) <==>
      && 0 <= st.date.year && st.date.year < 10_000 && 1 <= st.date.month && st.date.month < 13
      && 1 <= st.date.day && st.date.day <= LengthsOfMonths(st.date.year)[st.date.month - 1]
      && (match st.clock
          case NoClock => true
          case Clock(separator, hour, minute, second, fraction) =>
            && separator in "Tt " && hour < 24 && minute < 60 && second < 60
            && (match fraction case None => true case Some(f) => forall i :: 0 <= i < |f| ==> f[i] in "0123456789"))
      && (match st.zone
          case NoZone => true
          case Zulu(mark) => mark in "Zz"
          case Offset(_, hours, minutes, _) => hours < 24 && minutes < 60)
    ensures WellFormed(st) ==>
      Written(st)
      == Fixed(st.date.year, 4) + "-" + Fixed(st.date.month, 2) + "-" + Fixed(st.date.day, 2)
         + (match st.clock
            case NoClock => ""
            case Clock(separator, hour, minute, second, fraction) =>
              [separator] + (Fixed(hour, 2) + ":" + Fixed(minute, 2) + ":" + Fixed(second, 2))
              + (match fraction case None => "" case Some(f) => "." + f))
         + (match st.zone
            case NoZone => ""
            case Zulu(mark) => [mark]
            case Offset(negative, hours, minutes, colon) =>
              (if negative then "-" else "+") + Fixed(hours, 2) + ((if colon then ":" else "") + Fixed(minutes, 2)))
    ensures Instant(st) == DaysFromCivil(st.date) * 86_400
      + (match st.clock
         case NoClock => 0
         case Clock(_, hour, minute, second, _) => hour * 3_600 + minute * 60 + second)
      - (match st.zone
         case Offset(negative, hours, minutes, _) => (if negative then -1 else 1) * (hours * 3_600 + minutes * 60)
         case _ => 0)
  {
    hide Fixed, DaysFromCivil;
    MonthTable(st.date);
    if st.clock.Clock? && st.clock.fraction.Some? {
      DigitTable(st.clock.fraction.value);
    }
  }

  /** The lengths of the months, January first. */
  function LengthsOfMonths(y: int): (l: seq<int>)
    ensures |l| == 12
  {
    [31, if LeapBy(y) then 29 else 28, 31, 30, 31, 30, 31, 31, 30, 31, 30, 31]
  }

  predicate LeapBy(y: int) {
    if y % 100 == 0 then y % 400 == 0 else y % 4 == 0
  }

  lemma MonthTable(d: Date)
    ensures 1 <= d.month <= 12 ==> DaysInMonth(d.year, d.month) == LengthsOfMonths(d.year)[d.month - 1]
  {
  }

  lemma DigitTable(f: string)
    ensures DigitText(f) <==> forall i :: 0 <= i < |f| ==> f[i] in "0123456789"
  {
    var table := "0123456789";
    assert forall j :: 0 <= j < 10 ==> table[j] as int == 48 + j;
    if DigitText(f) {
      forall i | 0 <= i < |f|
        ensures f[i] in table
      {
        assert IsDigit(Codes(f)[i]);
        assert table[f[i] as int - 48] == f[i];
      }
    }
    if forall i :: 0 <= i < |f| ==> f[i] in table {
      forall i | 0 <= i < |f|
        ensures f[i] as int < 128 && IsDigit(f[i] as int)
      {
        var j :| 0 <= j < 10 && table[j] == f[i];
      }
      assert Ascii(f);
      assert forall i :: 0 <= i < |f| ==> Codes(f)[i] == f[i] as int;
    }
  }

  /** Every written timestamp is read as the instant it denotes. */
  lemma WrittenReads(st: Stamp)
    requires WellFormed(st)
    ensures Ascii(Written(st)) && ParseBytes(Codes(Written(st))) == Some(Instant(st))
  {
    hide DatePart, ClockPart, ZonePart, DateText, ClockText, ZoneText, DaysFromCivil, DateOk, ClockOk, ZoneOk;
    ZoneReads(st.zone);
    var z := ZoneText(st.zone);
    ClockReads(st.clock, z);
    var cz := ClockText(st.clock) + z;
    DateReads(st.date, cz);
    assert Written(st) == DateText(st.date) + cz;
    assert Codes(Written(st))[10..] == Codes(cz);
  }

  /** The bytes are the characters of the text. */
  predicate Spelt(s: string, b: seq<Byte>) {
    Ascii(s) && Codes(s) == b
  }

  lemma SpeltJoin(s: string, b: seq<Byte>, t: string, c: seq<Byte>)
    requires Spelt(s, b) && Spelt(t, c)
    ensures Spelt(s + t, b + c)
  {
    CodesConcat(s, t);
  }

  lemma SpeltOne(c: char)
    requires c as int < 128
    ensures Spelt([c], [c as int]) && Spelt("", [])
  {
  }

  lemma ReadsFixed(b: seq<Byte>, pos: nat, w: nat)
    requires DigitsAt(b, pos, w).Some?
    ensures var n := DigitsAt(b, pos, w).value;
      && 0 <= n < Power10(w) && pos + w <= |b| && Spelt(Fixed(n, w), b[pos..pos + w])
  {
    FixedOfNumber(b[pos..pos + w]);
  }

  /** Three fields with a separator between each two. */
  lemma SpeltFields(x: string, b: seq<Byte>, y: string, c: seq<Byte>, z: string, d: seq<Byte>, separator: char)
    requires Spelt(x, b) && Spelt(y, c) && Spelt(z, d) && separator as int < 128
    ensures Spelt(x + [separator] + y + [separator] + z, b + [separator as int] + c + [separator as int] + d)
  {
    hide Spelt;
    var s, t := [separator], [separator as int];
    SpeltOne(separator);
    SpeltJoin(x, b, s, t);
    SpeltJoin(x + s, b + t, y, c);
    SpeltJoin(x + s + y, b + t + c, s, t);
    SpeltJoin(x + s + y + s, b + t + c + t, z, d);
  }

  /** Bytes around two single separators. */
  lemma FieldsOf(b: seq<Byte>, i: nat, j: nat)
    requires i + 1 <= j < |b|
    ensures b == b[0..i] + [b[i]] + b[i + 1..j] + [b[j]] + b[j + 1..|b|]
  {
  }

  lemma DateRead(b: seq<Byte>)
    requires DatePart(b).Some?
    ensures var d := DatePart(b).value;
      && DateOk(d) && |b| >= 10
      && Ascii(DateText(d)) && Codes(DateText(d)) == b[..10]
  {
    var d := DatePart(b).value;
    ReadsFixed(b, 0, 4);
    ReadsFixed(b, 5, 2);
    ReadsFixed(b, 8, 2);
    Powers();
    hide DigitsAt, Fixed, Spelt;
    var front := b[..10];
    FieldsOf(front, 4, 7);
    assert front[0..4] == b[0..4] && front[5..7] == b[5..7] && front[8..10] == b[8..10];
    SpeltFields(Fixed(d.year, 4), b[0..4], Fixed(d.month, 2), b[5..7], Fixed(d.day, 2), b[8..10], '-');
    assert Spelt(DateText(d), front);
    SpeltMeans(DateText(d), front);
  }

  lemma SpeltMeans(s: string, b: seq<Byte>)
    requires Spelt(s, b)
    ensures Ascii(s) && Codes(s) == b
  {
  }

  lemma {:induction false} DigitsSkipped(b: seq<Byte>) returns (s: string)
    ensures DigitText(s) && b == Codes(s) + SkipDigits(b)
  {
    if b != [] && IsDigit(b[0]) {
      var t := DigitsSkipped(b[1..]);
      s := DigitPut(b[0], t);
      var rest := SkipDigits(b[1..]);
      assert SkipDigits(b) == rest;
      hide Codes, SkipDigits, DigitText;
      assert b == [b[0]] + b[1..];
      assert [b[0]] + (Codes(t) + rest) == ([b[0]] + Codes(t)) + rest;
    } else {
      s := "";
      assert Codes(s) == [] && [] + b == b;
    }
  }

  lemma DigitPut(b: Byte, t: string) returns (s: string)
    requires IsDigit(b) && DigitText(t)
    ensures DigitText(s) && Codes(s) == [b] + Codes(t)
  {
    s := [b as char] + t;
    CodesOfOne(b as char);
    CodesConcat([b as char], t);
    hide Codes;
  }

  lemma TimeRead(b: seq<Byte>) returns (hour: nat, minute: nat, second: nat)
    requires |b| == 8 && TimePart(b).Some?
    ensures hour <= 23 && minute <= 59 && second <= 59
    ensures Ascii(TimeText(hour, minute, second)) && Codes(TimeText(hour, minute, second)) == b
    ensures TimePart(b).value == hour * 3_600 + minute * 60 + second
  {
    ReadsFixed(b, 0, 2);
    ReadsFixed(b, 3, 2);
    ReadsFixed(b, 6, 2);
    hide DigitsAt, Fixed, Spelt;
    hour, minute, second := DigitsAt(b, 0, 2).value, DigitsAt(b, 3, 2).value, DigitsAt(b, 6, 2).value;
    FieldsOf(b, 2, 5);
    SpeltFields(Fixed(hour, 2), b[0..2], Fixed(minute, 2), b[3..5], Fixed(second, 2), b[6..8], ':');
    SpeltMeans(TimeText(hour, minute, second), b);
  }

  lemma FractionRead(b: seq<Byte>) returns (fraction: Option<string>)
    ensures fraction.Some? ==> DigitText(fraction.value)
    ensures var s := if fraction.Some? then "." + fraction.value else "";
      Ascii(s) && b == Codes(s) + SkipFraction(b)
  {
    fraction := None;
    if b != [] && b[0] == '.' as int {
      var f := DigitsSkipped(b[1..]);
      fraction := Some(f);
      CodesConcat(".", f);
    }
  }

  lemma ClockRead(b: seq<Byte>) returns (c: Clock)
    requires ClockPart(b).Some?
    ensures ClockOk(c) && Ascii(ClockText(c))
    ensures b == Codes(ClockText(c)) + ClockPart(b).value.1
    ensures ClockPart(b).value.0 == ClockSeconds(c)
  {
    if b == [] || !IsSeparator(b[0]) {
      c := NoClock;
    } else {
      c := ClockReadAt(b);
    }
  }

  lemma ClockReadAt(b: seq<Byte>) returns (c: Clock)
    requires ClockPart(b).Some? && b != [] && IsSeparator(b[0])
    ensures ClockOk(c) && Ascii(ClockText(c))
    ensures b == Codes(ClockText(c)) + ClockPart(b).value.1
    ensures ClockPart(b).value.0 == ClockSeconds(c)
  {
    hide TimePart, TimeText, SkipFraction, DigitText, Ascii, Codes, ClockText;
    var time, after := b[1..9], b[9..];
    var hour, minute, second := TimeRead(time);
    var fraction := FractionRead(after);
    c := Clock(b[0] as char, hour, minute, second, fraction);
    ClockJoins(c);
    var f, rest := Codes(if fraction.Some? then "." + fraction.value else ""), SkipFraction(after);
    assert b == [b[0]] + time + after;
    assert [b[0]] + time + (f + rest) == ([b[0]] + time + f) + rest;
  }

  lemma ClockJoins(c: Clock)
    requires c.Clock? && c.separator as int < 128 && Ascii(TimeText(c.hour, c.minute, c.second))
    requires c.fraction.Some? ==> DigitText(c.fraction.value)
    ensures var f := if c.fraction.Some? then "." + c.fraction.value else "";
      && Ascii(f) && Ascii(ClockText(c))
      && Codes(ClockText(c)) == [c.separator as int] + Codes(TimeText(c.hour, c.minute, c.second)) + Codes(f)
  {
    var f := if c.fraction.Some? then "." + c.fraction.value else "";
    var t := TimeText(c.hour, c.minute, c.second);
    assert Ascii(f);
    CodesOfOne(c.separator);
    hide TimeText, Codes, Ascii;
    CodesConcat([c.separator], t);
    CodesConcat([c.separator] + t, f);
  }

  lemma ZoneRead(b: seq<Byte>) returns (z: Zone)
    requires ZonePart(b).Some?
    ensures ZoneOk(z) && Ascii(ZoneText(z))
    ensures b == Codes(ZoneText(z)) && ZonePart(b).value == ZoneSeconds(z)
  {
    if b == [] {
      z := NoZone;
    } else if b[0] == 'Z' as int || b[0] == 'z' as int {
      z := Zulu(b[0] as char);
    } else {
      z := OffsetRead(b);
    }
  }

  lemma MinuteRead(b: seq<Byte>) returns (minutes: nat, colon: bool)
    requires MinutePart(b).Some?
    ensures Spelt(MinuteText(minutes, colon), b) && MinutePart(b).value == minutes
  {
    colon := b[0] == ':' as int;
    var p := if colon then 1 else 0;
    ReadsFixed(b, p, 2);
    SpeltOne(':');
    hide DigitsAt, Fixed, Spelt;
    minutes := DigitsAt(b, p, 2).value;
    SpeltJoin(if colon then ":" else "", b[..p], Fixed(minutes, 2), b[p..p + 2]);
    assert b == b[..p] + b[p..p + 2];
  }

  lemma OffsetRead(b: seq<Byte>) returns (z: Zone)
    requires ZonePart(b).Some? && b != [] && (b[0] == '+' as int || b[0] == '-' as int)
    ensures z.Offset? && ZoneOk(z) && Ascii(ZoneText(z))
    ensures b == Codes(ZoneText(z)) && ZonePart(b).value == ZoneSeconds(z)
  {
    ReadsFixed(b, 1, 2);
    hide DigitsAt, Fixed, MinutePart, MinuteText, Spelt, ZoneText;
    var om, colon := MinuteRead(b[3..]);
    z := Offset(b[0] == '-' as int, DigitsAt(b, 1, 2).value, om, colon);
    OffsetSpelt(z, b);
    SpeltMeans(ZoneText(z), b);
  }

  lemma OffsetSpelt(z: Zone, b: seq<Byte>)
    requires z.Offset? && |b| >= 3 && b[0] == (if z.negative then '-' else '+') as int && 0 <= z.hours
    requires Spelt(Fixed(z.hours, 2), b[1..3]) && Spelt(MinuteText(z.minutes, z.colon), b[3..])
    ensures Spelt(ZoneText(z), b)
  {
    hide Fixed, MinuteText, Spelt;
    var sign, h, m := if z.negative then "-" else "+", Fixed(z.hours, 2), MinuteText(z.minutes, z.colon);
    SpeltOne(sign[0]);
    assert sign == [sign[0]];
    SpeltJoin(sign, [b[0]], h, b[1..3]);
    SpeltJoin(sign + h, [b[0]] + b[1..3], m, b[3..]);
    assert b == [b[0]] + b[1..3] + b[3..];
  }

  ghost predicate Denotes(b: seq<Byte>, secs: int) {
    exists st: Stamp :: WellFormed(st) && Spells(st, b) && Instant(st) == secs
  }

  predicate Spells(st: Stamp, b: seq<Byte>)
    requires WellFormed(st)
  {
    Ascii(Written(st)) && Codes(Written(st)) == b
  }

  /** The parser accepts exactly the texts of the grammar, and each at the
      instant it denotes: local time minus offset, whatever the fraction. */
  lemma ParseDenotes(b: seq<Byte>, secs: int)
    ensures ParseBytes(b) == Some(secs) <==> Denotes(b, secs)
  {
    hide DatePart, ClockPart, ZonePart, DateText, ClockText, ZoneText, DaysFromCivil;
    if ParseBytes(b) == Some(secs) {
      DateRead(b);
      var d := DatePart(b).value;
      var c := ClockRead(b[10..]);
      var rest := ClockPart(b[10..]).value.1;
      var z := ZoneRead(rest);
      var st := Stamp(d, c, z);
      assert Codes(Written(st)) == Codes(DateText(d)) + Codes(ClockText(c)) + Codes(ZoneText(z));
      assert b == b[..10] + b[10..];
      assert Spells(st, b);
    }
    if Denotes(b, secs) {
      var st :| WellFormed(st) && Spells(st, b) && Instant(st) == secs;
      WrittenReads(st);
    }
  }

  // ---------------------------------------------------------------------
  // Printing
  // ---------------------------------------------------------------------

  /** `Display for Timestamp`. */
  function Display(secs: int): string {
    var d := CivilFromDays(secs / DAY);
    var rem := secs % DAY;
    Padded(d.year, 4) + "-" + Padded(d.month, 2) + "-" + Padded(d.day, 2) + "T"
    + Padded(rem / 3_600, 2) + ":" + Padded(rem % 3_600 / 60, 2) + ":" + Padded(rem % 60, 2) + "Z"
  }

  const FIRST := -62_167_219_200
  const LAST := 253_402_300_799

  /** The instants of the years 0000 to 9999. */
  predicate Printable(secs: int) {
    FIRST <= secs <= LAST
  }

  function Canonical(secs: int): Stamp {
    var rem := secs % DAY;
    Stamp(CivilFromDays(secs / DAY), Clock('T', rem / 3_600, rem % 3_600 / 60, rem % 60, None), Zulu('Z'))
  }

  lemma YearLimits(d: Date)
    requires Valid(d)
    ensures 0 <= d.year <= 9999 <==> -719_528 <= DaysFromCivil(d) <= 2_932_896
  {
    var first, last := Date(0, 1, 1), Date(9999, 12, 31);
    assert DaysFromCivil(first) == -719_528 && DaysFromCivil(last) == 2_932_896;
    OrderAgrees(d, first);
    OrderAgrees(last, d);
    hide DaysFromCivil;
    assert 0 <= d.year <= 9999 <==> !Before(d, first) && !Before(last, d);
  }

  lemma PrintableYears(secs: int)
    ensures Printable(secs) <==> 0 <= CivilFromDays(secs / DAY).year <= 9999
  {
    hide CivilFromDays, DaysFromCivil;
    var n := secs / DAY;
    DayRoundTrip(n);
    YearLimits(CivilFromDays(n));
  }

  lemma CanonicalIsDisplayed(secs: int)
    requires Printable(secs)
    ensures WellFormed(Canonical(secs)) && Written(Canonical(secs)) == Display(secs)
    ensures Instant(Canonical(secs)) == secs && |Display(secs)| == 20
  {
    hide CivilFromDays, DaysFromCivil, Padded, Fixed;
    PrintableYears(secs);
    DayRoundTrip(secs / DAY);
    CanonicalText(CivilFromDays(secs / DAY), secs % DAY);
    ClockIsRemainder(secs % DAY);
    assert secs == secs / DAY * DAY + secs % DAY;
  }

  lemma CanonicalText(d: Date, rem: int)
    requires Valid(d) && 0 <= d.year <= 9999 && 0 <= rem < DAY
    ensures var st := Stamp(d, Clock('T', rem / 3_600, rem % 3_600 / 60, rem % 60, None), Zulu('Z'));
      && WellFormed(st)
      && Written(st) == Padded(d.year, 4) + "-" + Padded(d.month, 2) + "-" + Padded(d.day, 2) + "T"
         + Padded(rem / 3_600, 2) + ":" + Padded(rem % 3_600 / 60, 2) + ":" + Padded(rem % 60, 2) + "Z"
      && |Written(st)| == 20
  {
    hide Padded, Fixed;
    Powers();
    PaddedFits(d.year, 4);
    PaddedFits(d.month, 2);
    PaddedFits(d.day, 2);
    PaddedFits(rem / 3_600, 2);
    PaddedFits(rem % 3_600 / 60, 2);
    PaddedFits(rem % 60, 2);
  }

  /** The epoch, as printed. */
  lemma EpochText()
    ensures Display(0) == "1970-01-01T00:00:00Z"
  {
    CanonicalIsDisplayed(0);
    CanonicalEpoch();
    hide Display, Written;
    EpochSpelt();
  }

  const EPOCH_STAMP := Stamp(Date(1970, 1, 1), Clock('T', 0, 0, 0, None), Zulu('Z'))

  lemma CanonicalEpoch()
    ensures Printable(0) && Canonical(0) == EPOCH_STAMP
  {
    hide CivilFromDays;
    CivilOfEpoch();
  }

  lemma EpochSpelt()
    ensures WellFormed(EPOCH_STAMP) && Written(EPOCH_STAMP) == "1970-01-01T00:00:00Z"
  {
    hide Fixed;
    TwoDigits(0);
    TwoDigits(1);
    Nineteen70();
    assert DateText(EPOCH_STAMP.date) == "1970-01-01";
    assert TimeText(0, 0, 0) == "00:00:00";
    assert ClockText(EPOCH_STAMP.clock) == "T" + "00:00:00" + "";
    assert ZoneText(EPOCH_STAMP.zone) == "Z";
  }

  lemma Nineteen70()
    ensures Fixed(1970, 4) == "1970"
  {
    TwoDigits(19);
    assert Fixed(1970, 4) == Fixed(197, 3) + [DigitChar(0)] && Fixed(197, 3) == Fixed(19, 2) + [DigitChar(7)];
  }

  /** Printing can be undone exactly for the years 0000 to 9999; outside
      them the parser refuses what was printed. */
  lemma DisplayRoundTrip(secs: int)
    ensures Parse(Display(secs)) == if Printable(secs) then Some(secs) else None
  {
    if Printable(secs) {
      CanonicalIsDisplayed(secs);
      WrittenReads(Canonical(secs));
      Utf8OfAscii(Display(secs));
    } else {
      PrintableYears(secs);
      OutOfRangeYear(secs);
    }
  }

  lemma Utf8Head(s: string, t: string)
    requires Ascii(s)
    ensures Utf8(s + t) == Codes(s) + Utf8(t)
    decreases |s|
  {
    if s == "" {
      assert s + t == t;
    } else {
      Utf8Head(s[1..], t);
      assert (s + t)[1..] == s[1..] + t;
      assert Codes(s) == [s[0] as int] + Codes(s[1..]);
    }
  }

  lemma OutOfRangeYear(secs: int)
    requires !(0 <= CivilFromDays(secs / DAY).year <= 9999)
    ensures Parse(Display(secs)).None?
  {
    hide CivilFromDays, Padded;
    var year := CivilFromDays(secs / DAY).year;
    var head := Padded(year, 4);
    var s := Display(secs);
    assert head <= s;
    assert s == head + s[|head|..];
    NoDateStarts(year, s[|head|..]);
  }

  lemma NoDateStarts(year: int, tail: string)
    requires !(0 <= year <= 9999)
    ensures DatePart(Utf8(Padded(year, 4) + tail)).None?
  {
    hide ZeroFill;
    var head := Padded(year, 4);
    var b := Utf8(head + tail);
    if year < 0 {
      assert head + tail == "-" + (ZeroFill(Numeral(-year), 3) + tail);
      Utf8Head("-", ZeroFill(Numeral(-year), 3) + tail);
      assert b[0] == '-' as int;
      assert |b| >= 4 ==> !IsDigit(b[0..4][0]);
    } else {
      FiveDigitYear(year);
      Utf8Head(head, tail);
      assert IsDigit(b[4]);
    }
  }

  lemma FiveDigitYear(year: int)
    requires year > 9999
    ensures var head := Padded(year, 4); Ascii(head) && |head| > 4 && IsDigit(Codes(head)[4])
  {
    NumeralLength(year, 4);
    Powers();
    NumeralIsDigits(year);
  }

  lemma TimeOrder(a: Clock, b: Clock, zone: string)
    requires ClockOk(a) && ClockOk(b) && a.Clock? && b.Clock?
    ensures Less(TimeText(a.hour, a.minute, a.second) + zone, TimeText(b.hour, b.minute, b.second) + zone)
       <==> ClockSeconds(a) < ClockSeconds(b)
  {
    hide Less, Fixed;
    Powers();
    var s0, t0 := Fixed(a.second, 2) + zone, Fixed(b.second, 2) + zone;
    FieldOrder(a.second, b.second, 2, "", zone, zone);
    assert s0 == Fixed(a.second, 2) + "" + zone && t0 == Fixed(b.second, 2) + "" + zone;
    LessTrichotomy(zone, zone);
    var s1, t1 := Fixed(a.minute, 2) + ":" + s0, Fixed(b.minute, 2) + ":" + t0;
    FieldOrder(a.minute, b.minute, 2, ":", s0, t0);
    FieldOrder(a.hour, b.hour, 2, ":", s1, t1);
    assert TimeText(a.hour, a.minute, a.second) + zone == Fixed(a.hour, 2) + ":" + s1;
    assert TimeText(b.hour, b.minute, b.second) + zone == Fixed(b.hour, 2) + ":" + t1;
  }

  lemma DateOrder(a: Date, b: Date, x: string, y: string)
    requires DateOk(a) && DateOk(b)
    ensures Less(DateText(a) + x, DateText(b) + y) <==> Before(a, b) || (a == b && Less(x, y))
  {
    hide Less, Fixed;
    Powers();
    var s0, t0 := Fixed(a.day, 2) + x, Fixed(b.day, 2) + y;
    FieldOrder(a.day, b.day, 2, "", x, y);
    assert s0 == Fixed(a.day, 2) + "" + x && t0 == Fixed(b.day, 2) + "" + y;
    var s1, t1 := Fixed(a.month, 2) + "-" + s0, Fixed(b.month, 2) + "-" + t0;
    FieldOrder(a.month, b.month, 2, "-", s0, t0);
    FieldOrder(a.year, b.year, 4, "-", s1, t1);
    assert DateText(a) + x == Fixed(a.year, 4) + "-" + s1;
    assert DateText(b) + y == Fixed(b.year, 4) + "-" + t1;
  }

  lemma TextOrder(a: Stamp, b: Stamp)
    requires WellFormed(a) && WellFormed(b) && a.zone == b.zone
    requires a.clock.Clock? && b.clock.Clock? && a.clock.separator == b.clock.separator
    requires a.clock.fraction.None? && b.clock.fraction.None?
    ensures Less(Written(a), Written(b))
       <==> Before(a.date, b.date) || (a.date == b.date && ClockSeconds(a.clock) < ClockSeconds(b.clock))
  {
    hide Less, TimeText, DateText, DateOk;
    var zone, sep := ZoneText(a.zone), [a.clock.separator];
    var x := TimeText(a.clock.hour, a.clock.minute, a.clock.second) + zone;
    var y := TimeText(b.clock.hour, b.clock.minute, b.clock.second) + zone;
    TimeOrder(a.clock, b.clock, zone);
    LessConcat(sep, x, sep, y);
    LessTrichotomy(sep, sep);
    DateOrder(a.date, b.date, sep + x, sep + y);
    assert Written(a) == DateText(a.date) + (sep + x);
    assert Written(b) == DateText(b.date) + (sep + y);
  }

  lemma FieldOrder(m: nat, n: nat, w: nat, sep: string, x: string, y: string)
    requires m < Power10(w) && n < Power10(w)
    ensures Less(Fixed(m, w) + sep + x, Fixed(n, w) + sep + y) <==> m < n || (m == n && Less(x, y))
  {
    FixedOrder(m, n, w);
    LessConcat(Fixed(m, w), sep + x, Fixed(n, w), sep + y);
    LessConcat(sep, x, sep, y);
    LessTrichotomy(sep, sep);
    assert Fixed(m, w) + sep + x == Fixed(m, w) + (sep + x);
    assert Fixed(n, w) + sep + y == Fixed(n, w) + (sep + y);
  }

  /** Sorting the printed instants as text sorts them in time. */
  lemma DisplayOrder(a: int, b: int)
    requires Printable(a) && Printable(b)
    ensures Less(Display(a), Display(b)) <==> a < b
  {
    hide CivilFromDays, DaysFromCivil, Less, Display;
    CanonicalIsDisplayed(a);
    CanonicalIsDisplayed(b);
    TextOrder(Canonical(a), Canonical(b));
    var m, n := a / DAY, b / DAY;
    DayRoundTrip(m);
    DayRoundTrip(n);
    OrderAgrees(CivilFromDays(m), CivilFromDays(n));
    hide CivilFromDays, DaysFromCivil;
    assert ClockSeconds(Canonical(a).clock) == a % DAY && ClockSeconds(Canonical(b).clock) == b % DAY by {
      ClockIsRemainder(a % DAY);
      ClockIsRemainder(b % DAY);
    }
    assert a == m * DAY + a % DAY && b == n * DAY + b % DAY;
  }

  lemma ClockIsRemainder(rem: int)
    requires 0 <= rem < DAY
    ensures rem / 3_600 * 3_600 + rem % 3_600 / 60 * 60 + rem % 60 == rem
  {
  }

  const BEYOND := Stamp(Date(9999, 12, 31), Clock('T', 23, 59, 59, None), Offset(true, 0, 1, true))

  lemma BeyondSpelt()
    ensures WellFormed(BEYOND) && Written(BEYOND) == "9999-12-31T23:59:59-00:01"
  {
    hide Fixed;
    TwoDigits(12);
    TwoDigits(31);
    TwoDigits(23);
    TwoDigits(59);
    TwoDigits(0);
    TwoDigits(1);
    FourNines();
    assert DateText(BEYOND.date) == "9999-12-31";
    assert TimeText(23, 59, 59) == "23:59:59";
    assert ZoneText(BEYOND.zone) == "-00:01";
  }

  lemma FourNines()
    ensures Fixed(9999, 4) == "9999"
  {
    TwoDigits(99);
    assert Fixed(9999, 4) == Fixed(999, 3) + [DigitChar(9)];
  }

  lemma BeyondInstant()
    ensures Instant(BEYOND) == LAST + 60
  {
    assert DaysFromCivil(Date(9999, 12, 31)) == 2_932_896;
  }

  /** A text that the parser accepts and whose instant it cannot print. */
  lemma OffsetLeavesRange()
    ensures Parse("9999-12-31T23:59:59-00:01") == Some(LAST + 60) && !Printable(LAST + 60)
    ensures Parse(Display(LAST + 60)) == None
  {
    BeyondSpelt();
    BeyondInstant();
    hide Written, Instant, WellFormed, ParseBytes, Display;
    WrittenReads(BEYOND);
    Utf8OfAscii(Written(BEYOND));
    DisplayRoundTrip(LAST + 60);
  }

  lemma TwoDigits(n: nat)
    requires n < 100
    ensures Fixed(n, 2) == [DigitChar(n / 10), DigitChar(n % 10)]
  {
    var q := n / 10;
    assert q < 10 && q / 10 == 0 && q % 10 == q;
    assert Fixed(q, 1) == Fixed(0, 0) + [DigitChar(q)] && Fixed(0, 0) == "";
    assert Fixed(n, 2) == Fixed(q, 1) + [DigitChar(n % 10)];
  }

  /** A zone can carry a result out of the printable range, by less than a
      day; nothing a parser returns comes near the 64-bit limits. */
  lemma ParseBounds(b: seq<Byte>)
    requires ParseBytes(b).Some?
    ensures FIRST - 86_340 <= ParseBytes(b).value <= LAST + 86_340
  {
    hide DaysFromCivil, DatePart, ClockPart, ZonePart, DateText, ClockText, ZoneText;
    DateRead(b);
    var c := ClockRead(b[10..]);
    var z := ZoneRead(ClockPart(b[10..]).value.1);
    YearLimits(DatePart(b).value);
  }
}
