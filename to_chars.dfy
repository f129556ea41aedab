/**
 * detail::toChars, the C++17 rendering path: a buffer of the length snprintf
 * reports for "%+#.*f" is filled with an optional '+' and the text of
 * std::to_chars, cut to what was written, and then either the last three
 * characters of a non-finite value have their case flipped or a point is
 * appended for showpoint.
 */
module ToChars {
  import opened Text
  import opened Policy

  /** What toChars asks of the value: std::signbit and std::isfinite. */
  datatype FloatClass = FloatClass(signbit: bool, finite: bool)

  /** 2^64: std::size_t arithmetic wraps modulo this. */
  const SizeModulus: int := 0x1_0000_0000_0000_0000

  /**
   * `c ^ 0x20`: bit 5 of the character code flipped, that is, the code moves
   * by 32 within its block of 64.
   */
  function FlipCase(c: char): (d: char)
    ensures d as int - d as int % 64 == c as int - c as int % 64
    ensures d as int % 64 == (c as int % 64 + 32) % 64
  {
    var x := c as int;
    if x % 64 < 32 then (x + 32) as char else (x - 32) as char
  }

  /** Flipping twice gives the character back. */
  lemma FlipCaseInvolution(c: char)
    ensures FlipCase(FlipCase(c)) == c
  {
  }

  /** On the letters of "inf" and "nan" the flip is the change to upper case. */
  lemma FlipCaseUppercases(c: char)
    requires 'a' <= c <= 'z'
    ensures FlipCase(c) as int == c as int - 32 && 'A' <= FlipCase(c) <= 'Z'
  {
  }

  /** The characters std::to_chars writes for a value in fixed notation. */
  predicate ToCharsAlphabet(c: char)
  {
    '0' <= c <= '9' || c == '-' || c == '.' || 'a' <= c <= 'z'
  }

  /** Flipping a character to_chars writes never yields '+', the only character that flips to '+' being 0x0B. */
  lemma FlipNeverPlus(c: char)
    requires ToCharsAlphabet(c)
    ensures FlipCase(c) != '+' && c != '+'
  {
  }

  /** The '+' toChars writes before the digits. */
  function SignPrefix(num: FloatClass, flags: FmtFlags): (p: seq<char>)
    ensures p == "" || p == "+"
    ensures p == "+" <==> flags.showpos && !num.signbit
  {
    if flags.showpos && !num.signbit then "+" else ""
  }

  /** `t` with the characters at indices lo..hi-1 flipped. */
  function FlipRange(t: seq<char>, lo: int, hi: int): (r: seq<char>)
    ensures |r| == |t|
    ensures forall j :: 0 <= j < |t| && (j < lo || hi <= j) ==> r[j] == t[j]
    ensures forall j :: 0 <= j < |t| && lo <= j < hi ==> FlipCase(r[j]) == t[j]
  {
    seq(|t|, j requires 0 <= j < |t| => if lo <= j < hi then FlipCase(t[j]) else t[j])
  }

  /** Flipping one more character extends the flipped range by one. */
  lemma FlipRangeStep(t: seq<char>, lo: nat, i0: nat, i: nat, flipped: seq<char>)
    requires lo <= i0 < |t| && i == i0 + 1
    requires flipped == FlipRange(t, lo, i0)[i0 := FlipCase(FlipRange(t, lo, i0)[i0])]
    ensures flipped == FlipRange(t, lo, i)
  {
  }

  /** s.size() - 3 as std::size_t: a string shorter than three makes it wrap past the size. */
  function FlipStart(size: nat): (start: nat)
    ensures size >= 3 ==> start == size - 3
    ensures size < 3 ==> size < start
  {
    if size >= 3 then size - 3 else size - 3 + SizeModulus
  }

  /** The string toChars returns, for the to_chars text `body`. */
  function ToCharsText(num: FloatClass, body: seq<char>, flags: FmtFlags): (r: seq<char>)
    ensures |SignPrefix(num, flags)| + |body| <= |r| <= |SignPrefix(num, flags)| + |body| + 1
    ensures !num.finite ==> |r| == |SignPrefix(num, flags)| + |body|
    ensures !flags.showpoint ==> |r| == |SignPrefix(num, flags)| + |body|
  {
    var t := SignPrefix(num, flags) + body;
    if !num.finite then
      if flags.uppercase then FlipRange(t, FlipStart(|t|), |t|) else t
    else if flags.showpoint && FindFrom(t, '.', 0).None? then t + ['.']
    else t
  }

  /**
   * toChars(num, precision, osFlags), for a value classified as `num` whose
   * to_chars text is `body`; `len` is what snprintf reports for "%+#.*f",
   * which always has room for the sign and the body.
   */
  method ToChars(num: FloatClass, body: seq<char>, len: nat, flags: FmtFlags) returns (r: seq<char>)
    requires |SignPrefix(num, flags)| + |body| <= len
    ensures r == ToCharsText(num, body, flags)
  {
    var s := new CharString.Filled(len, '\0');
    var first: nat;
    if flags.showpos && !num.signbit {
      s.SetAt(0, '+');
      first := 1;
    } else {
      first := 0;
    }
    s.Overwrite(first, body);
    s.Erase(first + |body|);
    ghost var t := s.Contents();
    assert t == SignPrefix(num, flags) + body;

    if !num.finite {
      if flags.uppercase {
        var i := FlipStart(s.size);
        ghost var start := i;
        while i < s.size
          invariant s.Valid() && s.size == |t| && fresh(s.buf)
          invariant start <= i && (i <= |t| || i == start)
          invariant s.Contents() == FlipRange(t, start, i)
          decreases s.size - i
        {
          var c := s.At(i);
          ghost var i0 := i;
          s.SetAt(i, FlipCase(c));
          i := i + 1;
          FlipRangeStep(t, start, i0, i, s.Contents());
        }
        assert FlipRange(t, start, i) == FlipRange(t, start, |t|);
      }
    } else if flags.showpoint {
      var dot := s.Find('.', 0);
      if dot.None? {
        s.PushBack('.');
      }
    }
    r := s.Contents();
  }

  /**
   * A '+' leads the result exactly when showpos is set and the sign bit is
   * clear, provided the body is text to_chars can write.
   */
  lemma ToCharsPlusSign(num: FloatClass, body: seq<char>, flags: FmtFlags)
    requires forall j :: 0 <= j < |body| ==> ToCharsAlphabet(body[j])
    requires !num.finite ==> |body| >= 3
    ensures var r := ToCharsText(num, body, flags);
      (|r| > 0 && r[0] == '+') <==> (flags.showpos && !num.signbit)
  {
    if |body| > 0 {
      FlipNeverPlus(body[0]);
    }
  }

  /**
   * A finite value is rendered as the sign prefix and the body, followed by
   * one '.' exactly when showpoint is set and the body has no point.
   */
  lemma ToCharsFinite(num: FloatClass, body: seq<char>, flags: FmtFlags)
    requires num.finite
    ensures var r, t := ToCharsText(num, body, flags), SignPrefix(num, flags) + body;
      && r[..|t|] == t
      && (|r| == |t| + 1 <==> flags.showpoint && forall j :: 0 <= j < |body| ==> body[j] != '.')
      && (|r| != |t| ==> |r| == |t| + 1 && r[|t|] == '.')
  {
    var t := SignPrefix(num, flags) + body;
    NoPointAfterSign(SignPrefix(num, flags), body);
    assert (t + ['.'])[..|t|] == t;
  }

  /** The sign prefix holds no point, so the signed text has one exactly when the body has. */
  lemma NoPointAfterSign(p: seq<char>, body: seq<char>)
    requires p == "" || p == "+"
    ensures FindFrom(p + body, '.', 0).None? <==> forall j :: 0 <= j < |body| ==> body[j] != '.'
  {
    var t := p + body;
    if FindFrom(t, '.', 0).None? {
      forall j | 0 <= j < |body|
        ensures body[j] != '.'
      {
        assert t[|p| + j] == body[j];
      }
    } else {
      var k := FindFrom(t, '.', 0).value;
      assert body[k - |p|] == '.';
    }
  }


  /**
   * A non-finite value keeps its length; only the last three characters can
   * change, and each of them is flipped exactly when uppercase is set. A text
   * shorter than three makes s.size() - 3 wrap, and nothing is flipped.
   */
  lemma ToCharsNonFinite(num: FloatClass, body: seq<char>, flags: FmtFlags)
    requires !num.finite
    ensures var r, t := ToCharsText(num, body, flags), SignPrefix(num, flags) + body;
      && |r| == |t|
      && (forall j :: 0 <= j < |t| && j + 3 < |t| ==> r[j] == t[j])
      && (|t| >= 3 ==> forall j :: 0 <= j < |t| && |t| <= j + 3 ==>
            r[j] == if flags.uppercase then FlipCase(t[j]) else t[j])
      && (|t| < 3 ==> r == t)
  {
    var t := SignPrefix(num, flags) + body;
    if |t| < 3 {
      assert FlipStart(|t|) >= |t|;
    } else {
      assert FlipStart(|t|) == |t| - 3;
    }
  }

  /** "inf" with uppercase becomes "INF". */
  lemma InfinityUppercase()
    ensures ToCharsText(FloatClass(false, false), "inf", FmtFlags(false, false, true)) == "INF"
  {
    assert FlipStart(3) == 0;
    assert FlipCase('i') == 'I' && FlipCase('n') == 'N' && FlipCase('f') == 'F';
    assert FlipRange("inf", 0, 3) == "INF";
  }

  /** "-nan" with uppercase becomes "-NAN": the sign is not among the last three. */
  lemma NegativeNanUppercase()
    ensures ToCharsText(FloatClass(true, false), "-nan", FmtFlags(true, false, true)) == "-NAN"
  {
    assert FlipStart(4) == 1;
    assert FlipCase('n') == 'N' && FlipCase('a') == 'A';
    assert FlipRange("-nan", 1, 4) == "-NAN";
  }

  /** A not-a-number whose sign bit is clear gets the '+' of showpos like any other value: "+NAN". */
  lemma PositiveNanSigned()
    ensures ToCharsText(FloatClass(false, false), "nan", FmtFlags(true, false, true)) == "+NAN"
  {
    assert FlipStart(4) == 1;
    assert FlipCase('n') == 'N' && FlipCase('a') == 'A';
    assert FlipRange("+nan", 1, 4) == "+NAN";
  }

  /** With showpos and showpoint, a whole number 12 is rendered "+12.". */
  lemma ShowposShowpointExample()
    ensures ToCharsText(FloatClass(false, true), "12", FmtFlags(true, true, false)) == "+12."
  {
    assert FindFrom("+12", '.', 0) == None;
  }
}
