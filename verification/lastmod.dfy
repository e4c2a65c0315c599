/**
 * The sitemap <lastmod> validator: a profile of the W3C Datetime format
 * (ISO 8601) written as one anchored regular expression.
 */
module SitemapLastmod {
  import opened Wrappers
  import opened PhpStrings
  import opened Validators

  const NOT_VALID: string := "sitemapLastmodNotValid"
  const INVALID: string := "sitemapLastmodInvalid"

  // ---------------------------------------------------------------------
  // The recogniser: LASTMOD_REGEX transcribed character by character.
  // ---------------------------------------------------------------------

  /** 0[1-9]|1[0-2] */
  predicate MonthChars(a: char, b: char) {
    (a == '0' && '1' <= b <= '9') || (a == '1' && '0' <= b <= '2')
  }

  /** 0[1-9]|[1-2][0-9]|3[0-1] */
  predicate DayChars(a: char, b: char) {
    (a == '0' && '1' <= b <= '9') || ('1' <= a <= '2' && '0' <= b <= '9') || (a == '3' && '0' <= b <= '1')
  }

  /** [0-1][0-9]|2[0-3] */
  predicate HourChars(a: char, b: char) {
    ('0' <= a <= '1' && '0' <= b <= '9') || (a == '2' && '0' <= b <= '3')
  }

  /** [0-5][0-9] */
  predicate SexagesimalChars(a: char, b: char) {
    '0' <= a <= '5' && '0' <= b <= '9'
  }

  /** [0-9]{4}-(0[1-9]|1[0-2])-(0[1-9]|[1-2][0-9]|3[0-1]) */
  predicate DateMatches(s: string) {
    && |s| == 10
    && IsDigit(s[0]) && IsDigit(s[1]) && IsDigit(s[2]) && IsDigit(s[3])
    && s[4] == '-' && MonthChars(s[5], s[6])
    && s[7] == '-' && DayChars(s[8], s[9])
  }

  /** (\+|-)([0-1][0-9]|2[0-3]):[0-5][0-9] */
  predicate OffsetMatches(s: string) {
    && |s| == 6
    && (s[0] == '+' || s[0] == '-')
    && HourChars(s[1], s[2]) && s[3] == ':' && SexagesimalChars(s[4], s[5])
  }

  /** T([0-1][0-9]|2[0-3])(:[0-5][0-9])(:[0-5][0-9])? followed by the offset */
  predicate TimeMatches(s: string) {
    && (|s| == 12 || |s| == 15)
    && s[0] == 'T' && HourChars(s[1], s[2])
    && s[3] == ':' && SexagesimalChars(s[4], s[5])
    && (|s| == 15 ==> s[6] == ':' && SexagesimalChars(s[7], s[8]))
    && OffsetMatches(s[|s| - 6..])
  }

  /** The date, then the optional time group, up to the end of s. */
  predicate BodyMatches(s: string) {
    |s| >= 10 && DateMatches(s[..10]) && (|s| == 10 || TimeMatches(s[10..]))
  }

  /**
   * preg_match(LASTMOD_REGEX, $value) == 1. The pattern has no D modifier,
   * so its final $ also matches before one trailing "\n".
   */
  predicate MatchLastmod(s: string)
    ensures MatchLastmod(s) ==> 10 <= |s| <= 26
  {
    BodyMatches(s) || (0 < |s| && s[|s| - 1] == '\n' && BodyMatches(s[..|s| - 1]))
  }

  // ---------------------------------------------------------------------
  // The grammar: the values the format denotes, and how they are written.
  // ---------------------------------------------------------------------

  datatype Sign = Plus | Minus
  datatype Offset = Offset(sign: Sign, hours: nat, minutes: nat)
  datatype TimeOfDay = TimeOfDay(hour: nat, minute: nat, second: Option<nat>, offset: Offset)
  datatype W3cDatetime = W3cDatetime(year: nat, month: nat, day: nat, time: Option<TimeOfDay>)

  predicate OffsetValid(o: Offset) {
    o.hours <= 23 && o.minutes <= 59
  }

  predicate TimeValid(t: TimeOfDay) {
    t.hour <= 23 && t.minute <= 59 && (t.second.Some? ==> t.second.value <= 59) && OffsetValid(t.offset)
  }

  /** The day is checked against 1..31 only, never against the month's length. */
  predicate DatetimeValid(d: W3cDatetime) {
    d.year <= 9999 && 1 <= d.month <= 12 && 1 <= d.day <= 31 && (d.time.Some? ==> TimeValid(d.time.value))
  }

  /** A number below 100 as two decimal digits. */
  function Pad2(n: nat): string
    requires n < 100
  {
    [DigitChar(n / 10), DigitChar(n % 10)]
  }

  function TwoDigits(a: char, b: char): nat
    requires IsDigit(a) && IsDigit(b)
  {
    10 * DigitValue(a) + DigitValue(b)
  }

  function FormatOffset(o: Offset): string
    requires OffsetValid(o)
  {
    [if o.sign == Plus then '+' else '-'] + Pad2(o.hours) + ":" + Pad2(o.minutes)
  }

  function FormatTime(t: TimeOfDay): string
    requires TimeValid(t)
  {
    "T" + Pad2(t.hour) + ":" + Pad2(t.minute)
    + (if t.second.Some? then ":" + Pad2(t.second.value) else "")
    + FormatOffset(t.offset)
  }

  function FormatDate(d: W3cDatetime): string
    requires DatetimeValid(d)
  {
    Pad2(d.year / 100) + Pad2(d.year % 100) + "-" + Pad2(d.month) + "-" + Pad2(d.day)
  }

  function Format(d: W3cDatetime): string
    requires DatetimeValid(d)
  {
    FormatDate(d) + if d.time.Some? then FormatTime(d.time.value) else ""
  }

  /** The strings the format allows: a written datetime, possibly followed by one "\n". */
  ghost predicate InLastmodGrammar(s: string) {
    exists d :: DatetimeValid(d) && (s == Format(d) || s == Format(d) + "\n")
  }

  // ---------------------------------------------------------------------
  // Reading a matched string back into the value it writes.
  // ---------------------------------------------------------------------

  function DecodeOffset(s: string): Offset
    requires OffsetMatches(s)
  {
    Offset(if s[0] == '+' then Plus else Minus, TwoDigits(s[1], s[2]), TwoDigits(s[4], s[5]))
  }

  function DecodeTime(s: string): TimeOfDay
    requires TimeMatches(s)
  {
    TimeOfDay(TwoDigits(s[1], s[2]), TwoDigits(s[4], s[5]),
              if |s| == 15 then Some(TwoDigits(s[7], s[8])) else None,
              DecodeOffset(s[|s| - 6..]))
  }

  function DecodeDate(s: string): W3cDatetime
    requires DateMatches(s)
  {
    W3cDatetime(100 * TwoDigits(s[0], s[1]) + TwoDigits(s[2], s[3]), TwoDigits(s[5], s[6]), TwoDigits(s[8], s[9]), None)
  }

  function Decode(s: string): W3cDatetime
    requires BodyMatches(s)
  {
    DecodeDate(s[..10]).(time := if |s| == 10 then None else Some(DecodeTime(s[10..])))
  }

  // ---------------------------------------------------------------------
  // Each alternation of the pattern is a numeric range.
  // ---------------------------------------------------------------------

  lemma TwoDigitsPad(a: char, b: char)
    requires IsDigit(a) && IsDigit(b)
    ensures TwoDigits(a, b) < 100 && Pad2(TwoDigits(a, b)) == [a, b]
  {
  }

  lemma PadTwoDigits(n: nat)
    requires n < 100
    ensures IsDigit(Pad2(n)[0]) && IsDigit(Pad2(n)[1]) && TwoDigits(Pad2(n)[0], Pad2(n)[1]) == n
  {
  }

  lemma FieldRanges(a: char, b: char)
    ensures MonthChars(a, b) <==> IsDigit(a) && IsDigit(b) && 1 <= TwoDigits(a, b) <= 12
    ensures DayChars(a, b) <==> IsDigit(a) && IsDigit(b) && 1 <= TwoDigits(a, b) <= 31
    ensures HourChars(a, b) <==> IsDigit(a) && IsDigit(b) && TwoDigits(a, b) <= 23
    ensures SexagesimalChars(a, b) <==> IsDigit(a) && IsDigit(b) && TwoDigits(a, b) <= 59
  {
  }

  // ---------------------------------------------------------------------
  // Recogniser and grammar agree.
  // ---------------------------------------------------------------------

  lemma OffsetRoundTrip(o: Offset)
    requires OffsetValid(o)
    ensures OffsetMatches(FormatOffset(o)) && DecodeOffset(FormatOffset(o)) == o
  {
    PadTwoDigits(o.hours);
    PadTwoDigits(o.minutes);
    FieldRanges(Pad2(o.hours)[0], Pad2(o.hours)[1]);
    FieldRanges(Pad2(o.minutes)[0], Pad2(o.minutes)[1]);
  }

  lemma OffsetDecodeFormat(s: string)
    requires OffsetMatches(s)
    ensures OffsetValid(DecodeOffset(s)) && FormatOffset(DecodeOffset(s)) == s
  {
    FieldRanges(s[1], s[2]);
    FieldRanges(s[4], s[5]);
    TwoDigitsPad(s[1], s[2]);
    TwoDigitsPad(s[4], s[5]);
  }

  lemma TimeRoundTrip(t: TimeOfDay)
    requires TimeValid(t)
    ensures TimeMatches(FormatTime(t)) && DecodeTime(FormatTime(t)) == t
  {
    var f := FormatTime(t);
    PadTwoDigits(t.hour);
    PadTwoDigits(t.minute);
    FieldRanges(Pad2(t.hour)[0], Pad2(t.hour)[1]);
    FieldRanges(Pad2(t.minute)[0], Pad2(t.minute)[1]);
    OffsetRoundTrip(t.offset);
    if t.second.Some? {
      PadTwoDigits(t.second.value);
      FieldRanges(Pad2(t.second.value)[0], Pad2(t.second.value)[1]);
      assert f[|f| - 6..] == FormatOffset(t.offset);
    } else {
      assert f[|f| - 6..] == FormatOffset(t.offset);
    }
  }

  lemma TimeDecodeFormat(s: string)
    requires TimeMatches(s)
    ensures TimeValid(DecodeTime(s)) && FormatTime(DecodeTime(s)) == s
  {
    var t := DecodeTime(s);
    FieldRanges(s[1], s[2]);
    FieldRanges(s[4], s[5]);
    TwoDigitsPad(s[1], s[2]);
    TwoDigitsPad(s[4], s[5]);
    OffsetDecodeFormat(s[|s| - 6..]);
    if |s| == 15 {
      FieldRanges(s[7], s[8]);
      TwoDigitsPad(s[7], s[8]);
      assert s == s[..9] + s[9..];
    } else {
      assert s == s[..6] + s[6..];
    }
  }

  lemma DateRoundTrip(d: W3cDatetime)
    requires DatetimeValid(d)
    ensures DateMatches(FormatDate(d)) && DecodeDate(FormatDate(d)) == d.(time := None)
  {
    PadTwoDigits(d.year / 100);
    PadTwoDigits(d.year % 100);
    PadTwoDigits(d.month);
    PadTwoDigits(d.day);
    FieldRanges(Pad2(d.month)[0], Pad2(d.month)[1]);
    FieldRanges(Pad2(d.day)[0], Pad2(d.day)[1]);
  }

  lemma DateDecodeFormat(s: string)
    requires DateMatches(s)
    ensures DatetimeValid(DecodeDate(s)) && FormatDate(DecodeDate(s)) == s
  {
    var d := DecodeDate(s);
    FieldRanges(s[5], s[6]);
    FieldRanges(s[8], s[9]);
    TwoDigitsPad(s[0], s[1]);
    TwoDigitsPad(s[2], s[3]);
    TwoDigitsPad(s[5], s[6]);
    TwoDigitsPad(s[8], s[9]);
    assert d.year / 100 == TwoDigits(s[0], s[1]);
    assert d.year % 100 == TwoDigits(s[2], s[3]);
  }

  /** Every valid datetime is written as a string the pattern matches, and reads back as itself. */
  lemma FormatRoundTrip(d: W3cDatetime)
    requires DatetimeValid(d)
    ensures BodyMatches(Format(d)) && Decode(Format(d)) == d
  {
    var f := Format(d);
    DateRoundTrip(d);
    assert f[..10] == FormatDate(d);
    if d.time.Some? {
      TimeRoundTrip(d.time.value);
      assert f[10..] == FormatTime(d.time.value);
    }
  }

  /** Every string the pattern matches (before the end) is the writing of the datetime it reads as. */
  lemma DecodeFormatRoundTrip(s: string)
    requires BodyMatches(s)
    ensures DatetimeValid(Decode(s)) && Format(Decode(s)) == s
  {
    var d := Decode(s);
    DateDecodeFormat(s[..10]);
    assert FormatDate(d) == s[..10];
    if |s| > 10 {
      TimeDecodeFormat(s[10..]);
      assert s == s[..10] + s[10..];
    }
  }

  /** Every string the recogniser accepts belongs to the grammar. */
  lemma MatchedIsInGrammar(s: string)
    requires MatchLastmod(s)
    ensures InLastmodGrammar(s)
  {
    if BodyMatches(s) {
      DecodeFormatRoundTrip(s);
      var d := Decode(s);
      assert DatetimeValid(d) && s == Format(d);
    } else {
      var body := s[..|s| - 1];
      DecodeFormatRoundTrip(body);
      var d := Decode(body);
      assert s == body + "\n";
      assert DatetimeValid(d) && s == Format(d) + "\n";
    }
  }

  /** Every string of the grammar is accepted by the recogniser. */
  lemma GrammarIsMatched(s: string)
    requires InLastmodGrammar(s)
    ensures MatchLastmod(s)
  {
    var d :| DatetimeValid(d) && (s == Format(d) || s == Format(d) + "\n");
    FormatRoundTrip(d);
    if s != Format(d) {
      assert s[..|s| - 1] == Format(d);
    }
  }

  /**
   * The hand-written recogniser accepts exactly the strings of the grammar:
   * a written date, optionally with a time and a mandatory offset, and at
   * most one trailing "\n".
   */
  lemma RecogniserMatchesGrammar(s: string)
    ensures MatchLastmod(s) <==> InLastmodGrammar(s)
  {
    if MatchLastmod(s) {
      MatchedIsInGrammar(s);
    }
    if InLastmodGrammar(s) {
      GrammarIsMatched(s);
    }
  }

  /** A written datetime has 10 characters (date), 22 (with time) or 25 (with seconds). */
  lemma FormatLength(d: W3cDatetime)
    requires DatetimeValid(d)
    ensures |Format(d)| == if d.time.None? then 10 else if d.time.value.second.None? then 22 else 25
  {
  }

  /** Ignoring one trailing newline, every accepted string has length 10, 22 or 25. */
  lemma AcceptedLengths(s: string)
    requires MatchLastmod(s)
    ensures var body := if s[|s| - 1] == '\n' then s[..|s| - 1] else s;
            |body| == 10 || |body| == 22 || |body| == 25
  {
  }

  /** Characters that can occur in an accepted string. */
  predicate LastmodChar(c: char) {
    IsDigit(c) || c == '-' || c == 'T' || c == ':' || c == '+' || c == '\n'
  }

  /** No accepted string holds a 'Z' designator or a decimal point: UTC suffixes and fractional seconds are rejected. */
  lemma AcceptedAlphabet(s: string)
    requires MatchLastmod(s)
    ensures forall i | 0 <= i < |s| :: LastmodChar(s[i])
  {
    var body := if BodyMatches(s) then s else s[..|s| - 1];
    assert forall i | 0 <= i < 10 :: LastmodChar(body[..10][i]);
    if |body| > 10 {
      var t := body[10..];
      var o := t[|t| - 6..];
      assert forall i | 0 <= i < 6 :: LastmodChar(o[i]);
      assert forall i | 0 <= i < |t| - 6 :: LastmodChar(t[i]);
      assert forall i | |t| - 6 <= i < |t| :: t[i] == o[i - (|t| - 6)];
    }
    assert forall i | 0 <= i < |body| :: LastmodChar(body[i]);
  }

  /** Day 31 is accepted in any month, and one trailing newline is accepted. */
  lemma AcceptedExamples()
    ensures MatchLastmod("2012-02-31")
    ensures MatchLastmod("2012-02-31\n")
    ensures MatchLastmod("2005-01-01T12:00+01:00")
    ensures MatchLastmod("2005-01-01T12:00:59-23:59")
  {
    assert "2012-02-31\n"[..10] == "2012-02-31";
    assert "2005-01-01T12:00+01:00"[..10] == "2005-01-01";
    assert "2005-01-01T12:00+01:00"[10..] == "T12:00+01:00";
    assert "T12:00+01:00"[6..] == "+01:00";
    assert "2005-01-01T12:00:59-23:59"[..10] == "2005-01-01";
    assert "2005-01-01T12:00:59-23:59"[10..] == "T12:00:59-23:59";
    assert "T12:00:59-23:59"[9..] == "-23:59";
  }

  /** Out-of-range fields, a UTC designator, fractional seconds and a missing offset are rejected. */
  lemma RejectedExamples()
    ensures !MatchLastmod("2012-13-01")
    ensures !MatchLastmod("2012-02-00")
    ensures !MatchLastmod("2005-01-01T12:00:00Z")
    ensures !MatchLastmod("2005-01-01T12:00:00.5+01:00")
    ensures !MatchLastmod("2005-01-01T12:00")
  {
  }

  /**
   * The validator. The state it keeps is that of its abstract base: the
   * value last recorded by setValue and the error keys recorded by error().
   */
  class Lastmod {
    var value: Option<string>
    var errorKeys: seq<string>

    constructor()
      ensures value == None && errorKeys == []
    {
      value := None;
      errorKeys := [];
    }

    /**
     * isValid: a non-string is rejected with INVALID and never recorded; a
     * string is recorded, then rejected with NOT_VALID unless the pattern
     * matches it.
     */
    method IsValid(input: Input) returns (valid: bool)
      modifies this
      ensures valid <==> input.Str? && MatchLastmod(input.s)
      ensures value == if input.Str? then Some(input.s) else old(value)
      ensures errorKeys == old(errorKeys) +
        if input.NonString? then [INVALID] else if valid then [] else [NOT_VALID]
    {
      if !input.Str? {
        errorKeys := errorKeys + [INVALID];
        return false;
      }
      value := Some(input.s);
      var matched := MatchLastmod(input.s);
      if !matched {
        errorKeys := errorKeys + [NOT_VALID];
        return false;
      }
      return true;
    }
  }
}
