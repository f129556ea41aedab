/**
 * The three printer(..., TrimZerosTag<true>) overloads, from the rendered
 * text to the string written to the stream: render, trim trailing zeros,
 * and (for the char and wchar_t overloads) apply the locale's point and
 * digit grouping. The rendering itself is an input.
 */
module Printer {
  import opened Text
  import opened Policy
  import opened Grouping
  import opened LocaleFmt
  import opened Trim
  import opened ToChars
  import opened PrintfFormat

  /**
   * The generic stream overload: `rendered` is what an ostringstream with
   * fixed notation, the stream's showpos, showpoint and uppercase and the
   * requested precision wrote; `decimalPoint` is the locale's numpunct
   * decimal_point. The trimmed text is written as it is.
   */
  method PrintStream(rendered: seq<char>, p: PrPrint, flags: FmtFlags, decimalPoint: char) returns (out: seq<char>)
    requires p.precision != 0 ==> HasNonZero(rendered)
    ensures out == Trimmed(rendered, p.precision, decimalPoint, flags.showpoint)
  {
    var s := new CharString.FromText(rendered);
    TrimZeros(s, p.precision, decimalPoint, flags.showpoint);
    out := s.Contents();
  }

  /**
   * The char overload when std::to_chars is available: toChars renders with
   * '.' as the point, the trailing zeros are trimmed, and applyLocaleFmt
   * puts in the locale's point and separators.
   */
  method PrintNarrow(num: FloatClass, body: seq<char>, len: nat, p: PrPrint, flags: FmtFlags, np: Numpunct)
    returns (out: seq<char>)
    requires |SignPrefix(num, flags)| + |body| <= len
    requires p.precision != 0 ==> HasNonZero(ToCharsText(num, body, flags))
    requires ValidGrouping(np.grouping)
    ensures out == Grouping.LocaleFmt(Trimmed(ToCharsText(num, body, flags), p.precision, '.', flags.showpoint), '.', np)
  {
    var decimalPoint := '.';
    var text := ToChars.ToChars(num, body, len, flags);
    var s := new CharString.FromText(text);
    TrimZeros(s, p.precision, decimalPoint, flags.showpoint);
    ApplyLocaleFmt(s, np, decimalPoint);
    out := s.Contents();
  }

  /**
   * The char overload without std::to_chars: the format from printfFmtFloat
   * is built in a char[8], snprintf renders `rendered` into a buffer one
   * longer than its length, the terminating NUL is popped, and the text is
   * trimmed and localised with `decimalPoint`, the point of the current C
   * locale as `localeconv` reports it.
   */
  method PrintNarrowPrintf(rendered: seq<char>, decimalPoint: char, p: PrPrint, flags: FmtFlags, np: Numpunct)
    returns (out: seq<char>, format: array<char>)
    requires p.precision != 0 ==> HasNonZero(rendered)
    requires ValidGrouping(np.grouping)
    ensures fresh(format) && format.Length == FormatBufferSize
    ensures format[..|FormatSpec(flags)|] == FormatSpec(flags)
    ensures out == Grouping.LocaleFmt(Trimmed(rendered, p.precision, decimalPoint, flags.showpoint), decimalPoint, np)
  {
    format := new char[FormatBufferSize](_ => '\0');
    FormatShape(flags);
    PrintfFmtFloat(format, flags);
    var s := Snprintf(rendered);
    TrimZeros(s, p.precision, decimalPoint, flags.showpoint);
    ApplyLocaleFmt(s, np, decimalPoint);
    out := s.Contents();
  }

  /**
   * The snprintf rendering: a string of the reported length plus one for the
   * NUL, filled by snprintf with the text and its NUL, which is then popped.
   */
  method Snprintf(rendered: seq<char>) returns (s: CharString)
    ensures fresh(s) && fresh(s.buf) && s.Valid()
    ensures s.Contents() == rendered
  {
    var len := |rendered| + 1;
    s := new CharString.Filled(len, '\0');
    s.Overwrite(0, rendered + ['\0']);
    s.PopBack();
    assert (rendered + ['\0'])[..|rendered|] == rendered;
  }

  /** 1234567.2500 at precision 4 with the "en_US" grouping prints as 1,234,567.25. */
  lemma PrintExample()
    ensures Grouping.LocaleFmt(Trimmed("1234567.2500", 4, '.', false), '.', Numpunct(',', '.', [3])) == "1,234,567.25"
  {
    TrimmedExample();
    GroupedExample();
  }

  lemma TrimmedExample()
    ensures Trimmed("1234567.2500", 4, '.', false) == "1234567.25"
  {
    var s := "1234567.2500";
    assert LastNotOf(s, '0') == Some(9) by {
      assert s[..11] == "1234567.250" && s[..11][..10] == "1234567.25";
    }
    assert s[..10] == "1234567.25";
  }

  lemma GroupedExample()
    ensures Grouping.LocaleFmt("1234567.25", '.', Numpunct(',', '.', [3])) == "1,234,567.25"
  {
    var s := "1234567.25";
    assert IntegerEnd(s, '.') == 7 && SubstitutePoint(s, '.', '.') == s by {
      assert FindFrom(s, '.', 1) == Some(7);
    }
    assert s[..0] == [] && s[0..7] == "1234567" && s[7..] == ".25";
    ThousandsDigits();
  }

}
