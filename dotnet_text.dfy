/**
 * The .NET string operations the message processor relies on, written out:
 * `string.Split`, `string.Replace("\r\n", "\n")`, `short.Parse` and `int.ToString()`
 * (invariant culture).
 */
module DotNetText {
  import opened Wrappers
  import opened Models

  // ---------------------------------------------------------------- Split

  /** `s.Split(sep)`: the fields between separators, empty fields included. */
  function Split(s: string, sep: char): (fields: seq<string>)
    ensures |fields| >= 1
    decreases |s|
  {
    if s == [] then [""]
    else
      var rest := Split(s[1..], sep);
      if s[0] == sep then [""] + rest
      else [[s[0]] + rest[0]] + rest[1..]
  }

  /** `string.Join(sep, fields)`. */
  function Join(fields: seq<string>, sep: string): string
    decreases |fields|
  {
    if fields == [] then ""
    else if |fields| == 1 then fields[0]
    else fields[0] + sep + Join(fields[1..], sep)
  }

  /** Number of occurrences of `c` in `s`. */
  function Occurrences(s: string, c: char): nat
    decreases |s|
  {
    if s == [] then 0 else (if s[0] == c then 1 else 0) + Occurrences(s[1..], c)
  }

  /** Splitting loses nothing: joining the fields back gives the text, and no field holds the separator. */
  lemma {:induction false} SplitJoin(s: string, sep: char)
    ensures Join(Split(s, sep), [sep]) == s
    ensures forall i :: 0 <= i < |Split(s, sep)| ==> sep !in Split(s, sep)[i]
    decreases |s|
  {
    if s != [] {
      SplitJoin(s[1..], sep);
      var rest := Split(s[1..], sep);
      if s[0] == sep {
        assert Split(s, sep) == [""] + rest;
        assert s == [] + [sep] + s[1..];
      } else {
        var fields := Split(s, sep);
        assert fields == [[s[0]] + rest[0]] + rest[1..];
        if |rest| == 1 {
          assert Join(fields, [sep]) == [s[0]] + rest[0];
        } else {
          assert rest == [rest[0]] + rest[1..];
          assert Join(rest, [sep]) == rest[0] + [sep] + Join(rest[1..], [sep]);
          assert Join(fields, [sep]) == [s[0]] + rest[0] + [sep] + Join(rest[1..], [sep]);
        }
        assert s == [s[0]] + s[1..];
        forall i | 0 <= i < |fields| ensures sep !in fields[i] {
          if i > 0 { assert fields[i] == rest[i]; }
        }
      }
    }
  }

  /** No field of a split holds the separator. */
  lemma FieldWithoutSeparator(s: string, sep: char, i: int)
    requires 0 <= i < |Split(s, sep)|
    ensures sep !in Split(s, sep)[i]
  {
    SplitJoin(s, sep);
  }

  /** A text with one more separator has exactly one more field. */
  lemma {:induction false} SplitCount(s: string, sep: char)
    ensures |Split(s, sep)| == 1 + Occurrences(s, sep)
    decreases |s|
  {
    if s != [] {
      SplitCount(s[1..], sep);
    }
  }

  /** One step of Split: the first character either is a separator or extends the first field. */
  lemma SplitStep(s: string, sep: char)
    requires s != []
    ensures Split(s, sep)
      == if s[0] == sep then [""] + Split(s[1..], sep) else [[s[0]] + Split(s[1..], sep)[0]] + Split(s[1..], sep)[1..]
  {
  }

  /** A separator cuts the text in two independent halves. */
  lemma {:induction false} SplitConcat(a: string, b: string, sep: char)
    ensures Split(a + [sep] + b, sep) == Split(a, sep) + Split(b, sep)
    decreases |a|
  {
    var w := a + [sep] + b;
    if a == [] {
      assert w[0] == sep && w[1..] == b;
      SplitStep(w, sep);
    } else {
      assert w[1..] == a[1..] + [sep] + b;
      SplitConcat(a[1..], b, sep);
      SplitConcatStep(a, b, sep);
    }
  }

  /** The inductive step of SplitConcat: one more character in front of the first half. */
  lemma SplitConcatStep(a: string, b: string, sep: char)
    requires a != []
    requires Split(a[1..] + [sep] + b, sep) == Split(a[1..], sep) + Split(b, sep)
    ensures Split(a + [sep] + b, sep) == Split(a, sep) + Split(b, sep)
  {
    var w := a + [sep] + b;
    assert w[0] == a[0] && w[1..] == a[1..] + [sep] + b;
    SplitStep(w, sep);
    SplitStep(a, sep);
    if a[0] == sep {
      ConcatAssociative([""], Split(a[1..], sep), Split(b, sep));
    } else {
      SplitFirstFieldGrows(a[0], Split(a[1..], sep), Split(b, sep));
    }
  }

  lemma ConcatAssociative<T>(a: seq<T>, b: seq<T>, c: seq<T>)
    ensures a + b + c == a + (b + c)
  {
  }

  /** Prefixing a character to the first field commutes with appending fields at the end. */
  lemma SplitFirstFieldGrows(c: char, tail: seq<string>, right: seq<string>)
    requires tail != []
    ensures var rest := tail + right;
      [[c] + rest[0]] + rest[1..] == ([[c] + tail[0]] + tail[1..]) + right
  {
    var rest := tail + right;
    assert rest[0] == tail[0];
    assert rest[1..] == tail[1..] + right;
  }

  /** A text without the separator is a single field. */
  lemma {:induction false} SplitWithoutSeparator(s: string, sep: char)
    requires sep !in s
    ensures Split(s, sep) == [s]
    decreases |s|
  {
    if s != [] {
      assert sep !in s[1..];
      SplitWithoutSeparator(s[1..], sep);
      assert [s[0]] + s[1..] == s;
    }
  }

  // ---------------------------------------------------------------- Replace("\r\n", "\n")

  /** `s.Replace("\r\n", "\n")`: a left-to-right scan that replaces non-overlapping matches. */
  function NormalizeNewlines(s: string): (r: string)
    ensures |r| <= |s|
    decreases |s|
  {
    if |s| >= 2 && s[0] == '\r' && s[1] == '\n' then "\n" + NormalizeNewlines(s[2..])
    else if s == [] then []
    else [s[0]] + NormalizeNewlines(s[1..])
  }

  /** `s` with every carriage return removed. */
  function WithoutCarriageReturns(s: string): string
    decreases |s|
  {
    if s == [] then [] else (if s[0] == '\r' then [] else [s[0]]) + WithoutCarriageReturns(s[1..])
  }

  /** `s` with every line feed written as a CR LF pair, as a Windows client sends it. */
  function WithCrLf(s: string): string
    decreases |s|
  {
    if s == [] then [] else (if s[0] == '\n' then "\r\n" else [s[0]]) + WithCrLf(s[1..])
  }

  /** Normalizing only drops carriage returns, and keeps every line feed. */
  lemma {:induction false} NormalizeDropsOnlyCarriageReturns(s: string)
    ensures WithoutCarriageReturns(NormalizeNewlines(s)) == WithoutCarriageReturns(s)
    ensures Occurrences(NormalizeNewlines(s), '\n') == Occurrences(s, '\n')
    decreases |s|
  {
    if |s| >= 2 && s[0] == '\r' && s[1] == '\n' {
      NormalizeDropsOnlyCarriageReturns(s[2..]);
      assert s[1..][1..] == s[2..];
    } else if s != [] {
      NormalizeDropsOnlyCarriageReturns(s[1..]);
    }
  }

  /** A text written with CR LF line ends normalizes back to the same text with LF line ends. */
  lemma {:induction false} NormalizeUndoesCrLf(s: string)
    requires '\r' !in s
    ensures NormalizeNewlines(WithCrLf(s)) == s
    decreases |s|
  {
    if s != [] {
      assert '\r' !in s[1..];
      NormalizeUndoesCrLf(s[1..]);
      var w := WithCrLf(s);
      if s[0] == '\n' {
        assert w == "\r\n" + WithCrLf(s[1..]);
        assert w[2..] == WithCrLf(s[1..]);
      } else {
        assert w == [s[0]] + WithCrLf(s[1..]);
        assert w[1..] == WithCrLf(s[1..]);
      }
      assert [s[0]] + s[1..] == s;
    }
  }

  /** The lines of a message text: `text.Replace("\r\n", "\n").Split("\n")`. */
  function Lines(text: string): (lines: seq<string>)
    ensures |lines| == 1 + Occurrences(text, '\n')
  {
    var normalized := NormalizeNewlines(text);
    NormalizeDropsOnlyCarriageReturns(text);
    SplitCount(normalized, '\n');
    Split(normalized, '\n')
  }

  lemma {:induction false} NormalizeKeepsFinalLineFeed(s: string)
    requires s != [] && s[|s| - 1] == '\n'
    ensures NormalizeNewlines(s) != [] && NormalizeNewlines(s)[|NormalizeNewlines(s)| - 1] == '\n'
    decreases |s|
  {
    if |s| >= 2 && s[0] == '\r' && s[1] == '\n' {
      if |s| > 2 { NormalizeKeepsFinalLineFeed(s[2..]); }
    } else if |s| > 1 {
      NormalizeKeepsFinalLineFeed(s[1..]);
    }
  }

  /** A message ending in a line break has an empty last line. */
  lemma TrailingLineBreakGivesEmptyLine(text: string)
    requires text != [] && text[|text| - 1] == '\n'
    ensures Lines(text)[|Lines(text)| - 1] == ""
  {
    var r := NormalizeNewlines(text);
    NormalizeKeepsFinalLineFeed(text);
    SplitConcat(r[..|r| - 1], "", '\n');
    assert r[..|r| - 1] + ['\n'] + "" == r;
  }

  /**
   * Without a line feed there is nothing to replace: every carriage return is kept, so the
   * replacement is not the same as dropping carriage returns.
   */
  lemma {:induction false} NoLineFeedUnchanged(s: string)
    requires '\n' !in s
    ensures NormalizeNewlines(s) == s
    decreases |s|
  {
    if s != [] {
      assert '\n' !in s[1..];
      NoLineFeedUnchanged(s[1..]);
      assert [s[0]] + s[1..] == s;
    }
  }

  /** A name such as "A\r3" keeps its lone carriage return, where dropping them would give "A3". */
  lemma LoneCarriageReturnKept()
    ensures NormalizeNewlines("A\r3") == "A\r3"
    ensures WithoutCarriageReturns("A\r3") == "A3"
  {
    NoLineFeedUnchanged("A\r3");
  }

  /** A text without a line feed is a single line, whatever carriage returns it holds. */
  lemma SingleLine(text: string)
    requires '\n' !in text
    ensures Lines(text) == [text]
  {
    NoLineFeedUnchanged(text);
    SplitWithoutSeparator(text, '\n');
  }

  // ---------------------------------------------------------------- short.Parse

  /** White space that `NumberStyles.Integer` skips at either end: U+0009..U+000D and U+0020. */
  predicate IsWhite(c: char) { c == ' ' || '\t' <= c <= '\r' }

  predicate IsDigit(c: char) { '0' <= c <= '9' }

  predicate AllDigits(s: string) { forall i :: 0 <= i < |s| ==> IsDigit(s[i]) }

  function TrimStart(s: string): string
    decreases |s|
  {
    if s != [] && IsWhite(s[0]) then TrimStart(s[1..]) else s
  }

  function TrimEnd(s: string): string
    decreases |s|
  {
    if s != [] && IsWhite(s[|s| - 1]) then TrimEnd(s[..|s| - 1]) else s
  }

  /** The value of a string of decimal digits. */
  function DigitsValue(s: string): nat
    requires AllDigits(s)
    decreases |s|
  {
    if s == [] then 0 else DigitsValue(s[..|s| - 1]) * 10 + (s[|s| - 1] as int - '0' as int)
  }

  /** The integer grammar of `NumberStyles.Integer`: white space, an optional sign, one or more digits, white space. */
  function ParseInteger(s: string): Option<int>
  {
    var t := TrimEnd(TrimStart(s));
    var digits := if t != [] && (t[0] == '-' || t[0] == '+') then t[1..] else t;
    if digits == [] || !AllDigits(digits) then None
    else
      var magnitude: int := DigitsValue(digits);
      Some(if t[0] == '-' then -magnitude else magnitude)
  }

  /**
   * `s` spells `n` with its parts at the given positions: white space before `i`, an optional
   * sign in `i..j`, one or more digits in `j..k`, and white space from `k` on.
   */
  predicate IntegerTextAt(s: string, n: int, i: int, j: int, k: int)
  {
    && 0 <= i <= j < k <= |s|
    && (forall p :: 0 <= p < i ==> IsWhite(s[p]))
    && (forall p :: k <= p < |s| ==> IsWhite(s[p]))
    && (j == i || (j == i + 1 && (s[i] == '+' || s[i] == '-')))
    && AllDigits(s[j..k])
    && n == (if j == i + 1 && s[i] == '-' then -(DigitsValue(s[j..k]) as int) else DigitsValue(s[j..k]) as int)
  }

  /** `s` is an integer in the `NumberStyles.Integer` form, and its value is `n`. */
  ghost predicate IntegerText(s: string, n: int)
  {
    exists i, j, k :: IntegerTextAt(s, n, i, j, k)
  }

  /** Where `TrimStart` cuts: everything before is white space, and the character there is not. */
  lemma {:induction false} TrimStartIndex(s: string) returns (i: nat)
    ensures i <= |s| && TrimStart(s) == s[i..]
    ensures forall p :: 0 <= p < i ==> IsWhite(s[p])
    ensures i < |s| ==> !IsWhite(s[i])
    decreases |s|
  {
    if s != [] && IsWhite(s[0]) {
      var i' := TrimStartIndex(s[1..]);
      i := i' + 1;
      assert s[1..][i'..] == s[i..];
      forall p | 0 <= p < i ensures IsWhite(s[p]) {
        if p > 0 {
          assert s[p] == s[1..][p - 1];
        }
      }
    } else {
      i := 0;
    }
  }

  /** Where `TrimEnd` cuts: everything after is white space, and the character before is not. */
  lemma {:induction false} TrimEndIndex(s: string) returns (k: nat)
    ensures k <= |s| && TrimEnd(s) == s[..k]
    ensures forall p :: k <= p < |s| ==> IsWhite(s[p])
    ensures 0 < k ==> !IsWhite(s[k - 1])
    decreases |s|
  {
    if s != [] && IsWhite(s[|s| - 1]) {
      var init := s[..|s| - 1];
      k := TrimEndIndex(init);
      assert init[..k] == s[..k];
      forall p | k <= p < |s| ensures IsWhite(s[p]) {
        if p < |s| - 1 {
          assert s[p] == init[p];
        }
      }
    } else {
      k := |s|;
    }
  }

  /** The integer `ParseInteger` reads is exactly the one the text spells. */
  lemma ParseIntegerGrammar(s: string)
    ensures forall n :: ParseInteger(s) == Some(n) <==> IntegerText(s, n)
  {
    forall n ensures ParseInteger(s) == Some(n) <==> IntegerText(s, n) {
      ParseIntegerReads(s, n);
    }
  }

  lemma ParseIntegerReads(s: string, n: int)
    ensures ParseInteger(s) == Some(n) <==> IntegerText(s, n)
  {
    if ParseInteger(s) == Some(n) {
      ParseIntegerSpells(s, n);
    }
    if IntegerText(s, n) {
      var i, j, k :| IntegerTextAt(s, n, i, j, k);
      IntegerTextParses(s, n, i, j, k);
    }
  }

  /** What `ParseInteger` accepts has the form of the grammar. */
  lemma ParseIntegerSpells(s: string, n: int)
    requires ParseInteger(s) == Some(n)
    ensures IntegerText(s, n)
  {
    var i := TrimStartIndex(s);
    var ts := s[i..];
    var k' := TrimEndIndex(ts);
    var k := i + k';
    var t := TrimEnd(TrimStart(s));
    assert t == s[i..k];
    var signed := t[0] == '-' || t[0] == '+';
    var j := if signed then i + 1 else i;
    assert (if signed then t[1..] else t) == s[j..k];
    forall p | k <= p < |s| ensures IsWhite(s[p]) {
      assert s[p] == ts[p - i];
    }
    assert IntegerTextAt(s, n, i, j, k);
  }

  /** Text of the grammar's form is read by `ParseInteger`, with the value it spells. */
  lemma IntegerTextParses(s: string, n: int, i0: int, j0: int, k0: int)
    requires IntegerTextAt(s, n, i0, j0, k0)
    ensures ParseInteger(s) == Some(n)
  {
    var i := TrimStartIndex(s);
    var ts := s[i..];
    var k' := TrimEndIndex(ts);
    var k := i + k';
    var t := TrimEnd(TrimStart(s));
    assert t == s[i..k];
    var digits := s[j0..k0];
    assert IsDigit(digits[0]) && digits[0] == s[j0];
    assert !IsWhite(s[i0]);
    assert i < |s| ==> !IsWhite(s[i]);
    assert i0 == i;
    assert IsDigit(digits[k0 - 1 - j0]) && digits[k0 - 1 - j0] == s[k0 - 1];
    assert ts[0] == s[i];
    assert ts[k0 - 1 - i] == s[k0 - 1];
    assert 0 < k' && ts[k' - 1] == s[k - 1];
    assert k0 == k;
    assert t[0] == s[i];
    if j0 == i + 1 {
      assert t[1..] == digits;
    } else {
      assert t == digits;
    }
  }

  /**
   * `short.Parse(s)`; `None` stands for the FormatException or OverflowException it throws.
   * It yields `n` exactly when the text spells `n` and `n` is within the 16-bit range.
   */
  function ParseShort(s: string): (r: Option<Short>)
    ensures forall n :: (r.Some? && r.value == n) <==> (IntegerText(s, n) && ShortMin <= n <= ShortMax)
  {
    ParseIntegerGrammar(s);
    match ParseInteger(s)
    case Some(v) => if ShortMin <= v <= ShortMax then Some(v) else None
    case None => None
  }

  // ---------------------------------------------------------------- int.ToString()

  function DigitChar(d: int): char
    requires 0 <= d < 10
  {
    ('0' as int + d) as char
  }

  function NaturalString(n: nat): string
    decreases n
  {
    if n < 10 then [DigitChar(n)] else NaturalString(n / 10) + [DigitChar(n % 10)]
  }

  /** `n.ToString()` in the invariant culture: a minus sign exactly for a negative `n`, then digits. */
  function DecimalString(n: int): (r: string)
    ensures r != [] && (r[0] == '-' <==> n < 0)
    ensures forall i :: (if n < 0 then 1 else 0) <= i < |r| ==> IsDigit(r[i])
  {
    NaturalStringValue(if n < 0 then -n else n);
    if n < 0 then "-" + NaturalString(-n) else NaturalString(n)
  }

  lemma {:induction false} NaturalStringValue(n: nat)
    ensures NaturalString(n) != [] && AllDigits(NaturalString(n))
    ensures DigitsValue(NaturalString(n)) == n
    decreases n
  {
    if n >= 10 {
      NaturalStringValue(n / 10);
      var s := NaturalString(n);
      assert s[..|s| - 1] == NaturalString(n / 10);
    }
  }

  /** Parsing reads back what `ToString` writes, so the decimal form of an integer identifies it. */
  lemma ParseDecimalString(n: int)
    ensures ParseInteger(DecimalString(n)) == Some(n)
  {
    var s := DecimalString(n);
    NaturalStringValue(if n < 0 then -n else n);
    assert TrimStart(s) == s;
    assert TrimEnd(s) == s;
    if n < 0 {
      assert s[1..] == NaturalString(-n);
    }
  }

  lemma DecimalStringInjective(m: int, n: int)
    requires DecimalString(m) == DecimalString(n)
    ensures m == n
  {
    ParseDecimalString(m);
    ParseDecimalString(n);
  }

  /** `short.Parse` reads back every `short` written with `ToString`. */
  lemma ParseShortOfDecimalString(n: Short)
    ensures ParseShort(DecimalString(n)) == Some(n)
  {
    ParseDecimalString(n);
  }

  /** An empty line, or one holding only white space, is not a number. */
  lemma BlankIsNotANumber(s: string)
    requires forall i :: 0 <= i < |s| ==> IsWhite(s[i])
    ensures ParseInteger(s) == None
  {
    BlankTrimsToEmpty(s);
  }

  lemma {:induction false} BlankTrimsToEmpty(s: string)
    requires forall i :: 0 <= i < |s| ==> IsWhite(s[i])
    ensures TrimStart(s) == []
    decreases |s|
  {
    if s != [] { BlankTrimsToEmpty(s[1..]); }
  }
}
