/**
 * detail::printfFmtFloat, used when std::to_chars is unavailable: it writes
 * the printf conversion specification "%[+][#].*f" (or 'F' for uppercase)
 * into a char[8] buffer, choosing the flags from the stream's showpos,
 * showpoint and uppercase, and terminates it with NUL. The precision is
 * passed as the int argument that '*' asks for (section 7.21.6.1 of ISO C11).
 */
module PrintfFormat {
  import opened Text
  import opened Policy

  /** The size of the buffer the narrow and wide printers declare for the format. */
  const FormatBufferSize: nat := 8

  /** The characters printfFmtFloat writes, terminating NUL included. */
  function FormatSpec(flags: FmtFlags): (f: seq<char>)
    ensures 5 <= |f| < FormatBufferSize
    ensures f[0] == '%' && f[|f| - 1] == '\0'
    ensures f[|f| - 4] == '.' && f[|f| - 3] == '*'
  {
    ['%'] + (if flags.showpos then ['+'] else []) + (if flags.showpoint then ['#'] else [])
      + ['.'] + ['*'] + [if flags.uppercase then 'F' else 'f'] + ['\0']
  }

  /** A flag character of a conversion specification (section 7.21.6.1, paragraph 6 of ISO C11). */
  predicate IsFlagChar(c: char)
  {
    c == '-' || c == '+' || c == ' ' || c == '#' || c == '0'
  }

  /**
   * A NUL-terminated conversion specification of the form
   * '%' flags ".*" ('f' | 'F'): flags, a precision taken from an int
   * argument, no width and no length modifier, and a double conversion in
   * fixed notation.
   */
  predicate IsFixedConversion(s: seq<char>)
  {
    && |s| >= 5
    && s[0] == '%'
    && (forall j :: 1 <= j < |s| - 4 ==> IsFlagChar(s[j]))
    && s[|s| - 4] == '.' && s[|s| - 3] == '*'
    && (s[|s| - 2] == 'f' || s[|s| - 2] == 'F')
    && s[|s| - 1] == '\0'
  }

  /** The flags a printf conversion specification of the form printfFmtFloat writes stands for, or None. */
  function ParseFormat(s: seq<char>): (r: Option<FmtFlags>)
    ensures r.Some? ==> IsFixedConversion(s)
  {
    if |s| < 5 || s[0] != '%' then None
    else
      var plus := s[1] == '+';
      var i := if plus then 2 else 1;
      var hash := s[i] == '#';
      var j := if hash then i + 1 else i;
      if |s| == j + 4 && s[j] == '.' && s[j + 1] == '*' && (s[j + 2] == 'f' || s[j + 2] == 'F') && s[j + 3] == '\0'
      then Some(FmtFlags(plus, hash, s[j + 2] == 'F'))
      else None
  }

  /**
   * The format is a fixed-notation conversion specification with '+'
   * exactly for showpos, '#' exactly for showpoint and 'F' exactly for
   * uppercase, and it fits the printers' char[8] buffer with room to spare.
   */
  lemma FormatShape(flags: FmtFlags)
    ensures var f := FormatSpec(flags);
      && IsFixedConversion(f)
      && |f| == 5 + (if flags.showpos then 1 else 0) + (if flags.showpoint then 1 else 0)
      && |f| < FormatBufferSize
      && (flags.showpos <==> '+' in f)
      && (flags.showpoint <==> '#' in f)
      && (flags.uppercase <==> 'F' in f)
  {
  }

  /** Reading the flags back from the format gives the flags it was made from. */
  lemma ParseFormatSpec(flags: FmtFlags)
    ensures ParseFormat(FormatSpec(flags)) == Some(flags)
  {
  }

  /** A format that reads back as some flags is the one printfFmtFloat writes for them. */
  lemma FormatSpecParse(s: seq<char>)
    requires ParseFormat(s).Some?
    ensures FormatSpec(ParseFormat(s).value) == s
  {
    var f := ParseFormat(s).value;
    var conv := if f.uppercase then 'F' else 'f';
    if f.showpos && f.showpoint {
      assert s == ['%', '+', '#', '.', '*', conv, '\0'];
    } else if f.showpos {
      assert s == ['%', '+', '.', '*', conv, '\0'];
    } else if f.showpoint {
      assert s == ['%', '#', '.', '*', conv, '\0'];
    } else {
      assert s == ['%', '.', '*', conv, '\0'];
    }
  }


  /** Different flags give different formats. */
  lemma FormatSpecInjective(a: FmtFlags, b: FmtFlags)
    requires FormatSpec(a) == FormatSpec(b)
    ensures a == b
  {
    ParseFormatSpec(a);
    ParseFormatSpec(b);
  }

  /**
   * printfFmtFloat(fPtr, osFlags): writes the format at the position `p`
   * (the C code's `fPtr`), which is advanced before every write after the first.
   */
  method PrintfFmtFloat(format: array<char>, flags: FmtFlags)
    requires |FormatSpec(flags)| <= format.Length
    modifies format
    ensures format[..|FormatSpec(flags)|] == FormatSpec(flags)
    ensures format[|FormatSpec(flags)|..] == old(format[|FormatSpec(flags)|..])
  {
    ghost var initial := format[..];
    ghost var written: seq<char> := [];
    var p := 0;
    Put(format, p, '%', written, initial);
    written := ['%'];
    if flags.showpos {
      p := p + 1;
      Put(format, p, '+', written, initial);
    }
    written := written + (if flags.showpos then ['+'] else []);
    if flags.showpoint {
      p := p + 1;
      Put(format, p, '#', written, initial);
    }
    written := written + (if flags.showpoint then ['#'] else []);
    p := p + 1;
    Put(format, p, '.', written, initial);
    written := written + ['.'];
    p := p + 1;
    Put(format, p, '*', written, initial);
    written := written + ['*'];
    if flags.uppercase {
      p := p + 1;
      Put(format, p, 'F', written, initial);
    } else {
      p := p + 1;
      Put(format, p, 'f', written, initial);
    }
    written := written + [if flags.uppercase then 'F' else 'f'];
    p := p + 1;
    Put(format, p, '\0', written, initial);
    written := written + ['\0'];
  }

  /**
   * `*fPtr = c` at the write position `p`: the characters written so far
   * grow by `c`, and the buffer after it still holds what it held at first.
   */
  method Put(format: array<char>, p: nat, c: char, ghost written: seq<char>, ghost initial: seq<char>)
    requires p < format.Length == |initial| && |written| == p
    requires format[..p] == written && format[p..] == initial[p..]
    modifies format
    ensures format[..p + 1] == written + [c] && format[p + 1..] == initial[p + 1..]
  {
    format[p] := c;
    assert format[..p + 1] == format[..p] + [c];
  }

}
