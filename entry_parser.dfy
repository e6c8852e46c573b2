/**
 * The per-line parse of Program.CheckMessages: `month:day:name`, with the month
 * scaled by 32 and cast to `short` before it is range-checked.
 */
module EntryParser {
  import opened Wrappers
  import opened Models
  import opened DotNetText

  /** Why a line was rejected; each case is one of the exceptions the line's try block catches. */
  datatype ParseError =
    | NotANumber(field: nat)       // short.Parse threw on this field
    | MissingField(index: nat)     // the split gave no field at this index
    | MonthOutOfRange(partA: int)  // the wrapped month*32 is outside 0..400
    | DayOutOfRange(partB: int)    // the day is outside 0..32

  /** What an accepted line contributes to a Birthday record (the chat id comes from the sender). */
  datatype ParsedLine = ParsedLine(birthDate: Short, name: string)

  /**
   * The body of the per-line try block, in the order the source evaluates it. An accepted name is
   * one colon-separated field, so it never contains a colon.
   */
  function ParseLine(line: string): (r: Result<ParsedLine, ParseError>)
    ensures r.Success? ==> ':' !in r.value.name
  {
    var fields := Split(line, ':');
    match ParseShort(fields[0])
    case None => Failure(NotANumber(0))
    case Some(month) =>
      var partA := WrapShort(month * 32);
      if |fields| < 2 then Failure(MissingField(1))
      else
        match ParseShort(fields[1])
        case None => Failure(NotANumber(1))
        case Some(partB) =>
          if partA < 0 || partA > 400 then Failure(MonthOutOfRange(partA))
          else if partB < 0 || partB > 32 then Failure(DayOutOfRange(partB))
          else if |fields| < 3 then Failure(MissingField(2))
          else
            FieldWithoutSeparator(line, ':', 2);
            Success(ParsedLine(WrapShort(partA + partB), fields[2]))
  }

  /** A line as a user is told to write it. */
  function FormatLine(month: int, day: int, name: string): string
  {
    DecimalString(month) + ":" + DecimalString(day) + ":" + name
  }

  lemma ShiftByWrap(x: int, q: int)
    ensures (x + 0x1_0000 * q) % 0x1_0000 == x % 0x1_0000
  {
    var y := x + 0x1_0000 * q;
    assert y == 0x1_0000 * (x / 0x1_0000 + q) + x % 0x1_0000;
  }

  /**
   * The month passes the range check exactly when it is 0..12 modulo 2048, because
   * `(short)(month*32)` keeps month*32 only modulo 65536; the part it contributes is then
   * that residue times 32 (so month 2048 is read as month 0, and 2060 as 12).
   */
  lemma MonthPart(month: Short)
    ensures 0 <= WrapShort(month * 32) <= 400 <==> month % 2048 <= 12
    ensures month % 2048 <= 12 ==> WrapShort(month * 32) == month % 2048 * 32
  {
    var k := month % 2048;
    var q := month / 2048;
    assert month == 2048 * q + k;
    assert month * 32 - ShortMin == (32 * k + 0x8000) + 0x1_0000 * q;
    ShiftByWrap(32 * k + 0x8000, q);
    if k < 1024 {
      assert (32 * k + 0x8000) % 0x1_0000 == 32 * k + 0x8000;
      assert WrapShort(month * 32) == 32 * k;
    } else {
      assert (32 * k + 0x8000) % 0x1_0000 == 32 * k + 0x8000 - 0x1_0000;
      assert WrapShort(month * 32) == 32 * k - 0x1_0000;
    }
  }

  /**
   * A line is accepted exactly when it has three fields, the first two are `short`s, the month is
   * 0..12 modulo 2048 and the day is 0..32; the record then holds month*32+day (no further wrap)
   * and exactly the third field as the name.
   */
  lemma LineAccepted(line: string)
    ensures var f := Split(line, ':');
      ParseLine(line).Success? <==>
        |f| >= 3 && ParseShort(f[0]).Some? && ParseShort(f[1]).Some?
        && ParseShort(f[0]).value % 2048 <= 12 && 0 <= ParseShort(f[1]).value <= 32
    ensures var f := Split(line, ':');
      ParseLine(line).Success? ==>
        ParseLine(line).value
          == ParsedLine(ParseShort(f[0]).value % 2048 * 32 + ParseShort(f[1]).value, f[2])
  {
    var f := Split(line, ':');
    if ParseShort(f[0]).Some? {
      MonthPart(ParseShort(f[0]).value);
    }
  }

  /** Every accepted birth date lies in 0..416, so the cast at the record is the identity. */
  lemma AcceptedDateRange(line: string)
    requires ParseLine(line).Success?
    ensures 0 <= ParseLine(line).value.birthDate <= 416
  {
    LineAccepted(line);
  }

  lemma NoColonInDecimal(n: int)
    ensures ':' !in DecimalString(n)
  {
    NaturalStringValue(if n < 0 then -n else n);
    if n < 0 {
      assert DecimalString(n)[1..] == NaturalString(-n);
      assert DecimalString(n) == "-" + NaturalString(-n);
    }
  }

  /** The fields of a formatted line: the two numbers, then the fields of the rest. */
  lemma FormattedLineFields(month: int, day: int, rest: string)
    ensures Split(FormatLine(month, day, rest), ':')
      == [DecimalString(month), DecimalString(day)] + Split(rest, ':')
  {
    var m, d := DecimalString(month), DecimalString(day);
    NoColonInDecimal(month);
    NoColonInDecimal(day);
    SplitWithoutSeparator(m, ':');
    SplitWithoutSeparator(d, ':');
    SplitConcat(d, rest, ':');
    SplitConcat(m, d + ":" + rest, ':');
    assert FormatLine(month, day, rest) == m + [':'] + (d + [':'] + rest);
  }

  /** The outcome of a line whose first two fields are numbers and which has a third field. */
  lemma ParseThreeFields(line: string, month: Short, day: Short)
    requires |Split(line, ':')| >= 3
    requires ParseShort(Split(line, ':')[0]) == Some(month)
    requires ParseShort(Split(line, ':')[1]) == Some(day)
    ensures ParseLine(line) ==
      if month % 2048 > 12 then Failure(MonthOutOfRange(WrapShort(month * 32)))
      else if day < 0 || day > 32 then Failure(DayOutOfRange(day))
      else Success(ParsedLine(month % 2048 * 32 + day, Split(line, ':')[2]))
  {
    MonthPart(month);
    var partA := WrapShort(month * 32);
    ParseChecks(line, month, day);
    if month % 2048 <= 12 && 0 <= day <= 32 {
      assert partA == month % 2048 * 32;
      assert WrapShort(partA + day) == partA + day;
    }
  }

  /** With both numbers parsed, what is left of the line's parse is the two range checks. */
  lemma ParseChecks(line: string, month: Short, day: Short)
    requires |Split(line, ':')| >= 3
    requires ParseShort(Split(line, ':')[0]) == Some(month)
    requires ParseShort(Split(line, ':')[1]) == Some(day)
    ensures var partA := WrapShort(month * 32);
      ParseLine(line) ==
        if partA < 0 || partA > 400 then Failure(MonthOutOfRange(partA))
        else if day < 0 || day > 32 then Failure(DayOutOfRange(day))
        else Success(ParsedLine(WrapShort(partA + day), Split(line, ':')[2]))
  {
  }

  /**
   * What the parser makes of a well-formed `month:day:rest` line, for every pair of `short`s:
   * the month check, then the day check, and otherwise the record with the first field of
   * `rest` as the name (anything after a further colon is dropped).
   */
  lemma ParseFormattedLine(month: Short, day: Short, rest: string)
    ensures ParseLine(FormatLine(month, day, rest)) ==
      if month % 2048 > 12 then Failure(MonthOutOfRange(WrapShort(month * 32)))
      else if day < 0 || day > 32 then Failure(DayOutOfRange(day))
      else Success(ParsedLine(month % 2048 * 32 + day, Split(rest, ':')[0]))
  {
    var line := FormatLine(month, day, rest);
    FormattedLineFields(month, day, rest);
    var f := Split(line, ':');
    assert f[0] == DecimalString(month) && f[1] == DecimalString(day);
    assert f[2] == Split(rest, ':')[0];
    ParseShortOfDecimalString(month);
    ParseShortOfDecimalString(day);
    ParseThreeFields(line, month, day);
  }

  /** A name without colons survives the round trip through the text form unchanged. */
  lemma FormatLineRoundTrip(month: Short, day: Short, name: string)
    requires 0 <= month <= 12 && 0 <= day <= 32 && ':' !in name
    ensures ParseLine(FormatLine(month, day, name)) == Success(ParsedLine(month * 32 + day, name))
  {
    assert month % 2048 == month;
    SplitWithoutSeparator(name, ':');
    ParseFormattedLine(month, day, name);
  }

  /** Month 2048 wraps: `(short)(2048 * 32)` is 0, so the line is accepted as month 0. */
  lemma MonthWrapsAt2048(day: Short, name: string)
    requires 0 <= day <= 32 && ':' !in name
    ensures ParseLine(FormatLine(2048, day, name)) == Success(ParsedLine(day, name))
  {
    SplitWithoutSeparator(name, ':');
    ParseFormattedLine(2048, day, name);
  }

  /** Day 32 of a month is stored as day 0 of the next month: "1:32" and "2:0" both store 64. */
  lemma DayThirtyTwoAliasesNextMonth(month: Short, name: string)
    requires 0 <= month < 12 && ':' !in name
    ensures ParseLine(FormatLine(month, 32, name)) == Success(ParsedLine((month + 1) * 32 + 0, name))
  {
    assert month * 32 + 32 == (month + 1) * 32 + 0;
    FormatLineRoundTrip(month, 32, name);
  }

  /** An empty line, such as the one after a trailing line break, is rejected. */
  lemma EmptyLineRejected()
    ensures ParseLine("") == Failure(NotANumber(0))
  {
    BlankIsNotANumber("");
  }
}
