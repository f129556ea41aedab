/**
 * detail::applyLocaleFmt as the header writes it: the point is replaced in
 * place, separators are counted by a subtraction loop, and a new string of
 * the final length is filled from the right by a do-while loop before it is
 * moved into the argument.
 */
module LocaleFmt {
  import opened Text
  import opened Grouping

  /**
   * What the fill loop still has to write in front of what it has written:
   * the digits `e`, of which `left` more complete the current group (entry `i`)
   * before a separator is due.
   */
  ghost function Fill(e: seq<char>, g: seq<nat>, i: nat, left: nat, sep: char): (r: seq<char>)
    requires ValidGrouping(g) && i < |g| && 1 <= left <= g[i]
    ensures |e| <= |r|
    ensures e == [] ==> r == []
    decreases |e|
  {
    if |e| == 0 then []
    else if left > 1 then Fill(e[..|e| - 1], g, i, left - 1, sep) + [e[|e| - 1]]
    else if |e| == 1 then e
    else Fill(e[..|e| - 1], g, Next(g, i), g[Next(g, i)], sep) + [sep, e[|e| - 1]]
  }

  /**
   * Finishing the fill in front of `w`, the part of the current group already
   * written, gives the grouped digits.
   */
  lemma {:induction false} FillCompletesGrouping(e: seq<char>, w: seq<char>, g: seq<nat>, i: nat, left: nat, sep: char)
    requires ValidGrouping(g) && i < |g| && 1 <= left <= g[i] && |w| == g[i] - left
    ensures Fill(e, g, i, left, sep) + w == Grouped(e + w, g, i, sep)
    decreases |e|
  {
    if |e| == 0 {
      assert e + w == w;
    } else if left > 1 {
      FillCompletesGrouping(e[..|e| - 1], [e[|e| - 1]] + w, g, i, left - 1, sep);
      FillDigitCase(e, w, g, i, left, sep);
    } else if |e| > 1 {
      FillCompletesGrouping(e[..|e| - 1], [], g, Next(g, i), g[Next(g, i)], sep);
      FillGroupCase(e, w, g, i, sep);
    }
  }

  /** The inductive step of FillCompletesGrouping inside a group. */
  lemma FillDigitCase(e: seq<char>, w: seq<char>, g: seq<nat>, i: nat, left: nat, sep: char)
    requires ValidGrouping(g) && i < |g| && 1 < left <= g[i] && |e| > 0
    requires var x, rest := e[|e| - 1], e[..|e| - 1];
      Fill(rest, g, i, left - 1, sep) + ([x] + w) == Grouped(rest + ([x] + w), g, i, sep)
    ensures Fill(e, g, i, left, sep) + w == Grouped(e + w, g, i, sep)
  {
    var x, rest := e[|e| - 1], e[..|e| - 1];
    assert rest + ([x] + w) == e + w;
  }

  /** Cutting `a + b` inside `a`. */
  lemma SplitAppend(a: seq<char>, b: seq<char>, k: nat)
    requires 0 < k + 1 == |a|
    ensures (a + b)[..k] == a[..k]
    ensures (a + b)[k..] == [a[k]] + b
  {
    assert a == a[..k] + [a[k]];
  }

  /** A separator and a digit written in one step, or one after the other. */
  lemma SeparatorThenDigit(h: seq<char>, sep: char, x: char, w: seq<char>)
    ensures h + [sep, x] + w == h + [sep] + ([x] + w)
  {
    assert [sep, x] == [sep] + [x];
  }

  /** The inductive step of FillCompletesGrouping where a group is completed. */
  lemma FillGroupCase(e: seq<char>, w: seq<char>, g: seq<nat>, i: nat, sep: char)
    requires ValidGrouping(g) && i < |g| && |e| > 1 && |w| == g[i] - 1
    requires var rest, j := e[..|e| - 1], Next(g, i);
      Fill(rest, g, j, g[j], sep) + [] == Grouped(rest + [], g, j, sep)
    ensures Fill(e, g, i, 1, sep) + w == Grouped(e + w, g, i, sep)
  {
    var x, rest, j := e[|e| - 1], e[..|e| - 1], Next(g, i);
    var head := Fill(rest, g, j, g[j], sep);
    assert head == Grouped(rest, g, j, sep) by {
      assert rest + [] == rest;
    }
    assert Fill(e, g, i, 1, sep) + w == head + [sep] + ([x] + w) by {
      assert Fill(e, g, i, 1, sep) == head + [sep, x];
      SeparatorThenDigit(head, sep, x, w);
    }
    assert Grouped(e + w, g, i, sep) == Grouped(rest, g, j, sep) + [sep] + ([x] + w) by {
      SplitAppend(e, w, |e| - 1);
    }
  }

  /** One digit, at index k, written inside a group; `k0` and `left0` are the values before the step. */
  lemma FillStepDigit(t: seq<char>, sl: nat, k0: nat, k: nat, g: seq<nat>, i: nat, left0: nat, left: nat, sep: char,
                      w: seq<char>, written: seq<char>, target: seq<char>)
    requires ValidGrouping(g) && i < |g| && 1 <= left < g[i] && sl <= k < |t|
    requires k0 == k + 1 && left0 == left + 1
    requires Fill(t[sl..k0], g, i, left0, sep) + w == target
    requires written == [t[k]] + w
    ensures Fill(t[sl..k], g, i, left, sep) + written == target
  {
    var e := t[sl..k0];
    assert e[..|e| - 1] == t[sl..k];
  }

  /** The digit at index k completes a group, and the separator is written in front of it. */
  lemma FillStepGroup(t: seq<char>, sl: nat, k0: nat, k: nat, g: seq<nat>, i: nat, j: nat, sep: char,
                      w: seq<char>, written: seq<char>, target: seq<char>)
    requires ValidGrouping(g) && i < |g| && j == Next(g, i) && sl < k < |t| && k0 == k + 1
    requires Fill(t[sl..k0], g, i, 1, sep) + w == target
    requires written == [sep] + ([t[k]] + w)
    ensures Fill(t[sl..k], g, j, g[j], sep) + written == target
  {
    var e := t[sl..k0];
    assert e[..|e| - 1] == t[sl..k];
    assert [sep, t[k]] + w == written;
  }

  /**
   * The digit at index k completes a group when only index 0 of the result
   * is left to write: it is the first digit, and the sign is all that is left.
   */
  lemma FillStepLast(t: seq<char>, sl: nat, k0: nat, k: nat, g: seq<nat>, i: nat, sep: char,
                     w: seq<char>, written: seq<char>, target: seq<char>)
    requires ValidGrouping(g) && i < |g| && sl <= 1 && sl <= k < |t| && k0 == k + 1
    requires Fill(t[sl..k0], g, i, 1, sep) + w == target
    requires written == [t[k]] + w
    requires |written| + 1 - sl == |target|
    ensures k == 1 && t[sl..1] + written == target
  {
    var e := t[sl..k0];
    if |e| == 1 {
      assert t[sl..k] == [];
    }
  }

  /** A single remaining digit is written as it is. */
  lemma FillOne(e: seq<char>, g: seq<nat>, i: nat, left: nat, sep: char)
    requires ValidGrouping(g) && i < |g| && 1 <= left <= g[i] && |e| == 1
    ensures Fill(e, g, i, left, sep) == e
  {
    if left > 1 {
      assert e[..0] == [];
    }
  }

  /**
   * When the fill has reached index 1 of the result, exactly the first
   * character of the string is left: the sign, or the first digit.
   */
  lemma FillExit(t: seq<char>, sl: nat, k: nat, g: seq<nat>, i: nat, left: nat, sep: char, w: seq<char>, target: seq<char>)
    requires ValidGrouping(g) && i < |g| && 1 <= left <= g[i] && sl <= 1 && sl <= k <= |t|
    requires Fill(t[sl..k], g, i, left, sep) + w == target
    requires |w| + 1 - sl == |target|
    ensures k == 1 && t[sl..1] + w == target
  {
    if sl == 0 {
      if k == 1 {
        FillOne(t[0..1], g, i, left, sep);
      }
    }
  }

  /** Writing index k of a string changes its suffix from k on in the first place only. */
  lemma SuffixAfterWrite(a: seq<char>, k: nat, c: char, w: seq<char>, tail: seq<char>)
    requires k < |a| && a[k + 1..] == w + tail
    ensures a[k := c][k..] == ([c] + w) + tail
  {
    assert a[k := c][k..] == [c] + a[k + 1..];
  }

  /** What the loop has written is everything but the first character of the grouped string. */
  lemma FillFirst(written: seq<char>, t: seq<char>, sl: nat, target: seq<char>, n: nat)
    requires sl <= 1 && 1 <= n <= |t|
    requires t[sl..1] + written == target
    ensures written + t[n..] == (t[..sl] + target + t[n..])[1..]
    ensures (t[..sl] + target + t[n..])[0] == t[0]
  {
    if sl == 0 {
      assert target == [t[0]] + written;
      assert t[..sl] + target + t[n..] == [t[0]] + (written + t[n..]);
    } else {
      assert t[..sl] == [t[0]];
      assert t[..sl] + target + t[n..] == [t[0]] + (written + t[n..]);
    }
  }

  /** The separator-counting loop of applyLocaleFmt. */
  method CountSeparators(digits: nat, grouping: seq<nat>) returns (sepsTotal: nat)
    requires ValidGrouping(grouping) && |grouping| > 0
    ensures sepsTotal == SepCount(digits, grouping, 0)
    ensures sepsTotal == 0 || Span(grouping, 0, sepsTotal) < digits
    ensures digits <= Span(grouping, 0, sepsTotal + 1)
  {
    sepsTotal := 0;
    var gItr := 0;
    var rest := digits;
    while rest > grouping[gItr]
      invariant gItr < |grouping|
      invariant sepsTotal + SepCount(rest, grouping, gItr) == SepCount(digits, grouping, 0)
      decreases rest
    {
      rest := rest - grouping[gItr];
      sepsTotal := sepsTotal + 1;
      if gItr != |grouping| - 1 {
        gItr := gItr + 1;
      }
    }
    SepCountIsGroupBoundary(digits, grouping, 0, sepsTotal);
  }

  /**
   * The do-while loop of applyLocaleFmt: the integer part of `s` (a sign of
   * length `sl`, then digits up to index `n`) is written backwards into
   * `result` in front of the already copied tail, with a separator after each
   * completed group, until only index 0 is left.
   */
  method FillGroups(s: CharString, result: array<char>, n: nat, sepsTotal: nat,
                     grouping: seq<nat>, sep: char, ghost sl: nat)
    requires s.Valid() && result != s.buf
    requires ValidGrouping(grouping) && |grouping| > 0
    requires sl <= 1 && sl < n <= s.size && result.Length == s.size + sepsTotal
    requires 0 < sepsTotal == SepCount(n - sl, grouping, 0)
    requires result[n + sepsTotal..] == s.Contents()[n..]
    modifies result
    ensures result[1..] ==
              (s.Contents()[..sl] + Grouped(s.Contents()[sl..n], grouping, 0, sep) + s.Contents()[n..])[1..]
  {
    ghost var t := s.Contents();
    ghost var target := Grouped(t[sl..n], grouping, 0, sep);
    ghost var written: seq<char> := [];
    assert |target| == n - sl + sepsTotal;
    var last, sItr := n + sepsTotal, n;
    var gItr := 0;
    var groupCount := grouping[gItr];
    FillCompletesGrouping(t[sl..n], [], grouping, 0, groupCount, sep);
    assert t[sl..n] + [] == t[sl..n];
    while true
      invariant s.Contents() == t
      invariant sl <= sItr <= n && 1 < last <= n + sepsTotal
      invariant gItr < |grouping| && 1 <= groupCount <= grouping[gItr]
      invariant result[last..] == written + t[n..]
      invariant Fill(t[sl..sItr], grouping, gItr, groupCount, sep) + written == target
      invariant |written| == n + sepsTotal - last
      decreases last
    {
      ghost var w, k0, left0 := written, sItr, groupCount;
      assert sItr > sl;
      last, sItr := last - 1, sItr - 1;
      var c := s.At(sItr);
      ghost var before := result[..];
      assert before[last + 1..] == w + t[n..];
      result[last] := c;
      written := [c] + written;
      assert result[last..] == written + t[n..] by {
        assert result[..] == before[last := c];
        SuffixAfterWrite(before, last, c, w, t[n..]);
      }
      groupCount := groupCount - 1;
      if groupCount == 0 {
        if last <= 1 {
          FillStepLast(t, sl, k0, sItr, grouping, gItr, sep, w, written, target);
          assert last == 1;
          break;
        }
        ghost var i0 := gItr;
        last := last - 1;
        before := result[..];
        ghost var w' := written;
        assert before[last + 1..] == w' + t[n..];
        result[last] := sep;
        written := [sep] + written;
        assert result[last..] == written + t[n..] by {
          assert result[..] == before[last := sep];
          SuffixAfterWrite(before, last, sep, w', t[n..]);
        }
        if gItr != |grouping| - 1 {
          gItr := gItr + 1;
        }
        groupCount := grouping[gItr];
        FillStepGroup(t, sl, k0, sItr, grouping, i0, gItr, sep, w, written, target);
      } else {
        FillStepDigit(t, sl, k0, sItr, grouping, gItr, left0, groupCount, sep, w, written, target);
      }
      if last <= 1 {
        FillExit(t, sl, sItr, grouping, gItr, groupCount, sep, written, target);
        assert last == 1;
        break;
      }
    }
    assert result[1..] == written + t[n..];
    FillFirst(written, t, sl, target, n);
  }

  /**
   * The part of applyLocaleFmt from the allocation of the result on: the
   * digits after the point are copied to the end, the do-while loop fills
   * the grouped integer part, and the first character is copied last.
   */
  method Regroup(s: CharString, pointPos: Option<nat>, n: nat, sepsTotal: nat,
                 grouping: seq<nat>, sep: char, ghost sl: nat) returns (result: array<char>)
    requires s.Valid()
    requires ValidGrouping(grouping) && |grouping| > 0
    requires sl <= 1 && sl < n <= s.size
    requires pointPos.Some? ==> pointPos.value == n
    requires pointPos.None? ==> n == s.size
    requires 0 < sepsTotal == SepCount(n - sl, grouping, 0)
    ensures fresh(result)
    ensures result[..] ==
              s.Contents()[..sl] + Grouped(s.Contents()[sl..n], grouping, 0, sep) + s.Contents()[n..]
  {
    ghost var expected := s.Contents()[..sl] + Grouped(s.Contents()[sl..n], grouping, 0, sep) + s.Contents()[n..];
    result := new char[s.size + sepsTotal](_ => '\0');
    if pointPos.Some? {
      forall i | n + sepsTotal <= i < result.Length {
        result[i] := s.buf[i - sepsTotal];
      }
    }
    assert result[n + sepsTotal..] == s.Contents()[n..];
    FillGroups(s, result, n, sepsTotal, grouping, sep, sl);
    var c := s.At(0);
    ghost var before := result[..];
    result[0] := c;
    assert result[..] == [c] + before[1..];
    RegroupedHead(s.Contents(), sl, n, grouping, sep);
  }

  /** The regrouped string starts with the original's first character: the sign, or the first digit. */
  lemma RegroupedHead(t: seq<char>, sl: nat, n: nat, g: seq<nat>, sep: char)
    requires ValidGrouping(g) && |g| > 0 && sl <= 1 && sl < n <= |t|
    ensures var e := t[..sl] + Grouped(t[sl..n], g, 0, sep) + t[n..];
      |e| > 0 && e == [t[0]] + e[1..]
  {
    var e := t[..sl] + Grouped(t[sl..n], g, 0, sep) + t[n..];
    GroupedStartsWithDigit(t[sl..n], g, 0, sep);
    assert e[0] == t[0];
    assert e == [e[0]] + e[1..];
  }

  /**
   * The first part of applyLocaleFmt: the point is looked for from index 1
   * on and replaced by the locale's glyph; the integer part ends there, or
   * at the end of the string.
   */
  method ReplacePoint(s: CharString, decimalPoint: char, point: char) returns (pointPos: Option<nat>, digits: nat)
    requires s.Valid()
    modifies s.buf
    ensures s.Valid()
    ensures pointPos == FindFrom(old(s.Contents()), decimalPoint, 1)
    ensures s.Contents() == SubstitutePoint(old(s.Contents()), decimalPoint, point)
    ensures digits == IntegerEnd(old(s.Contents()), decimalPoint)
  {
    pointPos := s.Find(decimalPoint, 1);
    if pointPos.Some? {
      s.SetAt(pointPos.value, point);
      digits := pointPos.value;
    } else {
      digits := s.size;
    }
  }

  /** applyLocaleFmt(s, loc, decimalPoint), for a locale whose numpunct facet is `np`. */
  method ApplyLocaleFmt(s: CharString, np: Numpunct, decimalPoint: char)
    requires s.Valid() && ValidGrouping(np.grouping)
    modifies s, s.buf
    ensures s.Valid()
    ensures s.Contents() == LocaleFmt(old(s.Contents()), decimalPoint, np)
  {
    if s.size <= 1 {
      return;
    }
    ghost var s0 := s.Contents();
    var sep, point, grouping := np.thousandsSep, np.decimalPoint, np.grouping;
    var pointPos, digits := ReplacePoint(s, decimalPoint, point);
    ghost var t := s.Contents();
    var n := digits;

    if |grouping| == 0 {
      assert LocaleFmt(s0, decimalPoint, np) == t;
      return;
    }

    var first := s.At(0);
    ghost var sl := if first == '-' || first == '+' then 1 else 0;
    assert sl == SignLength(s0);
    if first == '-' || first == '+' {
      digits := digits - 1;
    }
    assert LocaleFmt(s0, decimalPoint, np) == t[..sl] + Grouped(t[sl..n], grouping, 0, sep) + t[n..];

    var sepsTotal := CountSeparators(digits, grouping);
    if sepsTotal == 0 {
      assert t[..sl] + Grouped(t[sl..n], grouping, 0, sep) + t[n..] == t by {
        assert Grouped(t[sl..n], grouping, 0, sep) == t[sl..n];
        SplitThree(t, sl, n);
      }
      return;
    }

    var result := Regroup(s, pointPos, n, sepsTotal, grouping, sep, sl);
    ghost var expected := result[..];
    assert expected == LocaleFmt(s0, decimalPoint, np);
    s.Assign(result);
    assert s.Contents() == expected;
  }
}
