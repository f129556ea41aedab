/**
 * What applyLocaleFmt computes, stated on sequences: the locale decimal
 * point replaces the first point at index 1 or later, and thousands
 * separators are placed in the integer digits according to the
 * numpunct grouping sequence, read from the point leftwards with the
 * last entry repeating (ISO C++17 [locale.numpunct], section 25.4.3.1).
 */
module Grouping {
  import opened Text

  /** What the formatter reads from std::numpunct<CharT>. */
  datatype Numpunct = Numpunct(thousandsSep: char, decimalPoint: char, grouping: seq<nat>)

  /** Every group size is at least one (a zero entry would never terminate the count). */
  predicate ValidGrouping(g: seq<nat>)
  {
    forall i :: 0 <= i < |g| ==> 1 <= g[i]
  }

  /** Advancing the grouping iterator: it stays on the last entry once there. */
  function Next(g: seq<nat>, i: nat): (j: nat)
    requires i < |g|
    ensures i <= j < |g|
  {
    if i < |g| - 1 then i + 1 else i
  }

  /** The entry the iterator rests on after `steps` advances from entry `i`. */
  function Advance(g: seq<nat>, i: nat, steps: nat): (j: nat)
    requires i < |g|
    ensures j < |g|
    decreases steps
  {
    if steps == 0 then i else Advance(g, Next(g, i), steps - 1)
  }

  /** Advancing saturates: the last entry repeats for ever. */
  lemma {:induction false} AdvanceSaturates(g: seq<nat>, i: nat, steps: nat)
    requires i < |g|
    ensures Advance(g, i, steps) == if i + steps < |g| then i + steps else |g| - 1
    decreases steps
  {
    if steps > 0 {
      AdvanceSaturates(g, Next(g, i), steps - 1);
    }
  }

  /** Total width of `k` consecutive groups, the first of them entry `i`. */
  function Span(g: seq<nat>, i: nat, k: nat): (w: nat)
    requires ValidGrouping(g) && i < |g|
    decreases k
  {
    if k == 0 then 0 else g[i] + Span(g, Next(g, i), k - 1)
  }

  /**
   * The separator count: subtract the current group size while the digit
   * count strictly exceeds it, moving to the next entry each time.
   */
  function SepCount(digits: nat, g: seq<nat>, i: nat): (k: nat)
    requires ValidGrouping(g) && i < |g|
    decreases digits
  {
    if digits > g[i] then 1 + SepCount(digits - g[i], g, Next(g, i)) else 0
  }

  /**
   * No separator exactly when the digits fit the first group, and always
   * fewer separators than digits, since every group holds at least one.
   */
  lemma {:induction false} SepCountBounds(digits: nat, g: seq<nat>, i: nat)
    requires ValidGrouping(g) && i < |g|
    ensures SepCount(digits, g, i) == 0 <==> digits <= g[i]
    ensures 0 < digits ==> SepCount(digits, g, i) < digits
    decreases digits
  {
    if digits > g[i] {
      SepCountBounds(digits - g[i], g, Next(g, i));
    }
  }

  /**
   * The count is the number k of complete groups that leave at least one
   * digit over: the first k groups are narrower than the digits, the
   * first k + 1 are not. Both directions, so the count is determined.
   */
  lemma {:induction false} SepCountIsGroupBoundary(digits: nat, g: seq<nat>, i: nat, k: nat)
    requires ValidGrouping(g) && i < |g|
    ensures SepCount(digits, g, i) == k <==>
              (k == 0 || Span(g, i, k) < digits) && digits <= Span(g, i, k + 1)
    decreases digits
  {
    if digits > g[i] {
      if k > 0 {
        SepCountIsGroupBoundary(digits - g[i], g, Next(g, i), k - 1);
      }
    } else if k > 0 {
      assert Span(g, i, k) >= g[i];
    }
  }

  /**
   * The digits `d` with separators inserted, reading groups from the right:
   * the rightmost group has entry `i`'s size, the next one the following
   * entry's, and the leftmost group holds whatever remains.
   */
  function Grouped(d: seq<char>, g: seq<nat>, i: nat, sep: char): (r: seq<char>)
    requires ValidGrouping(g) && i < |g|
    ensures |r| == |d| + SepCount(|d|, g, i)
    decreases |d|
  {
    if |d| <= g[i] then d
    else Grouped(d[..|d| - g[i]], g, Next(g, i), sep) + [sep] + d[|d| - g[i]..]
  }

  /** The digit groups, rightmost first. */
  function Groups(d: seq<char>, g: seq<nat>, i: nat): (gs: seq<seq<char>>)
    requires ValidGrouping(g) && i < |g|
    ensures |gs| == SepCount(|d|, g, i) + 1
    decreases |d|
  {
    if |d| <= g[i] then [d]
    else [d[|d| - g[i]..]] + Groups(d[..|d| - g[i]], g, Next(g, i))
  }

  /** Groups given rightmost first, written out left to right with `sep` between neighbours. */
  function Join(gs: seq<seq<char>>, sep: char): (r: seq<char>)
    requires |gs| >= 1
    decreases |gs|
  {
    if |gs| == 1 then gs[0] else Join(gs[1..], sep) + [sep] + gs[0]
  }

  /** Groups given rightmost first, written out left to right with nothing between them. */
  function Concat(gs: seq<seq<char>>): (r: seq<char>)
    decreases |gs|
  {
    if gs == [] then [] else Concat(gs[1..]) + gs[0]
  }

  /** Put back together, the groups are the digits. */
  lemma {:induction false} GroupsRebuildDigits(d: seq<char>, g: seq<nat>, i: nat)
    requires ValidGrouping(g) && i < |g|
    ensures Concat(Groups(d, g, i)) == d
    decreases |d|
  {
    if |d| > g[i] {
      var rest := d[..|d| - g[i]];
      GroupsRebuildDigits(rest, g, Next(g, i));
      var gs := Groups(d, g, i);
      assert gs[1..] == Groups(rest, g, Next(g, i));
      assert rest + d[|d| - g[i]..] == d;
    }
  }

  /** The grouped text is the groups with one separator between each two neighbours. */
  lemma {:induction false} GroupedJoinsGroups(d: seq<char>, g: seq<nat>, i: nat, sep: char)
    requires ValidGrouping(g) && i < |g|
    ensures Grouped(d, g, i, sep) == Join(Groups(d, g, i), sep)
    decreases |d|
  {
    if |d| > g[i] {
      var rest := d[..|d| - g[i]];
      GroupedJoinsGroups(rest, g, Next(g, i), sep);
      var gs := Groups(d, g, i);
      assert gs[1..] == Groups(rest, g, Next(g, i));
    }
  }

  /**
   * Read from the right, the groups have exactly the sizes g[i], g[i+1], ...
   * with the last entry repeating; only the leftmost group may be narrower,
   * and it is never empty unless there are no digits at all.
   */
  lemma {:induction false} GroupSizes(d: seq<char>, g: seq<nat>, i: nat)
    requires ValidGrouping(g) && i < |g|
    ensures var gs := Groups(d, g, i);
      && (forall j :: 0 <= j < |gs| - 1 ==> |gs[j]| == g[Advance(g, i, j)])
      && |gs[|gs| - 1]| <= g[Advance(g, i, |gs| - 1)]
      && (|d| > 0 ==> 1 <= |gs[|gs| - 1]|)
    decreases |d|
  {
    var gs := Groups(d, g, i);
    if |d| > g[i] {
      var rest := d[..|d| - g[i]];
      var j0 := Next(g, i);
      GroupSizes(rest, g, j0);
      var gs' := Groups(rest, g, j0);
      assert gs[1..] == gs';
      forall j | 0 <= j < |gs| - 1
        ensures |gs[j]| == g[Advance(g, i, j)]
      {
        if j > 0 {
          assert gs[j] == gs'[j - 1];
        }
      }
      assert gs[|gs| - 1] == gs'[|gs'| - 1];
    }
  }

  /** Sizes from the decimal point leftwards are g[0], g[1], ..., then the last entry again and again. */
  lemma GroupSizesFromPoint(d: seq<char>, g: seq<nat>)
    requires ValidGrouping(g) && |g| > 0
    ensures var gs := Groups(d, g, 0);
      && (forall j :: 0 <= j < |gs| - 1 ==> |gs[j]| == g[if j < |g| then j else |g| - 1])
      && |gs[|gs| - 1]| <= g[if |gs| - 1 < |g| then |gs| - 1 else |g| - 1]
      && (|d| > 0 ==> 1 <= |gs[|gs| - 1]|)
  {
    var gs := Groups(d, g, 0);
    GroupSizes(d, g, 0);
    forall j | 0 <= j < |gs|
      ensures Advance(g, 0, j) == if j < |g| then j else |g| - 1
    {
      AdvanceSaturates(g, 0, j);
    }
  }

  /** Drop the character between each two groups, reading groups from the right. */
  function Ungroup(x: seq<char>, g: seq<nat>, i: nat): (d: seq<char>)
    requires ValidGrouping(g) && i < |g|
    decreases |x|
  {
    if |x| <= g[i] then x
    else Ungroup(x[..|x| - g[i] - 1], g, Next(g, i)) + x[|x| - g[i]..]
  }

  /** The two sides of one separator. */
  lemma SplitSeparated(y: seq<char>, sep: char, z: seq<char>)
    ensures (y + [sep] + z)[..|y|] == y
    ensures (y + [sep] + z)[|y| + 1..] == z
  {
    var x := y + [sep] + z;
    assert x[..|y|] == y;
  }

  /** Deleting the inserted separators gives back the digits, in order. */
  lemma {:induction false} UngroupGrouped(d: seq<char>, g: seq<nat>, i: nat, sep: char)
    requires ValidGrouping(g) && i < |g|
    ensures Ungroup(Grouped(d, g, i, sep), g, i) == d
    decreases |d|
  {
    if |d| > g[i] {
      var rest, tail := d[..|d| - g[i]], d[|d| - g[i]..];
      var y := Grouped(rest, g, Next(g, i), sep);
      UngroupSeparated(y, sep, tail, g, i);
      UngroupGrouped(rest, g, Next(g, i), sep);
      assert rest + tail == d;
    }
  }

  /** One step of Ungroup: the group after the last separator is kept and the separator dropped. */
  lemma UngroupSeparated(y: seq<char>, sep: char, tail: seq<char>, g: seq<nat>, i: nat)
    requires ValidGrouping(g) && i < |g| && |tail| == g[i]
    ensures Ungroup(y + [sep] + tail, g, i) == Ungroup(y, g, Next(g, i)) + tail
  {
    SplitSeparated(y, sep, tail);
  }


  /** `x` with every occurrence of `c` deleted. */
  function RemoveAll(x: seq<char>, c: char): (r: seq<char>)
    decreases |x|
  {
    if x == [] then [] else (if x[0] == c then [] else [x[0]]) + RemoveAll(x[1..], c)
  }

  lemma {:induction false} RemoveAllAppend(a: seq<char>, b: seq<char>, c: char)
    ensures RemoveAll(a + b, c) == RemoveAll(a, c) + RemoveAll(b, c)
    decreases |a|
  {
    if a != [] {
      assert (a + b)[1..] == a[1..] + b;
      RemoveAllAppend(a[1..], b, c);
    } else {
      assert a + b == b;
    }
  }

  lemma {:induction false} RemoveAllAbsent(x: seq<char>, c: char)
    requires forall j :: 0 <= j < |x| ==> x[j] != c
    ensures RemoveAll(x, c) == x
    decreases |x|
  {
    if x != [] {
      RemoveAllAbsent(x[1..], c);
    }
  }

  /** When the digits do not contain the separator glyph, deleting every separator gives them back. */
  lemma {:induction false} RemoveSeparators(d: seq<char>, g: seq<nat>, i: nat, sep: char)
    requires ValidGrouping(g) && i < |g|
    requires forall j :: 0 <= j < |d| ==> d[j] != sep
    ensures RemoveAll(Grouped(d, g, i, sep), sep) == d
    decreases |d|
  {
    if |d| <= g[i] {
      RemoveAllAbsent(d, sep);
    } else {
      var rest, tail, j := d[..|d| - g[i]], d[|d| - g[i]..], Next(g, i);
      var gr := Grouped(rest, g, j, sep);
      assert RemoveAll(gr + [sep], sep) == rest by {
        RemoveSeparators(rest, g, j, sep);
        RemoveAllAppend(gr, [sep], sep);
        assert RemoveAll([sep], sep) == [];
      }
      assert RemoveAll(tail, sep) == tail by {
        RemoveAllAbsent(tail, sep);
      }
      RemoveAllAppend(gr + [sep], tail, sep);
      assert rest + tail == d;
    }
  }

  /** A non-empty group sequence begins with the first digit. */
  lemma {:induction false} GroupedStartsWithDigit(d: seq<char>, g: seq<nat>, i: nat, sep: char)
    requires ValidGrouping(g) && i < |g| && |d| > 0
    ensures Grouped(d, g, i, sep)[0] == d[0]
    decreases |d|
  {
    if |d| > g[i] {
      GroupedStartsWithDigit(d[..|d| - g[i]], g, Next(g, i), sep);
    }
  }

  // ----- the whole string -----

  /** `i` is where applyLocaleFmt finds the point: the first `dp` at index 1 or later. */
  predicate IsFirstPoint(s: seq<char>, dp: char, i: nat)
  {
    1 <= i < |s| && s[i] == dp && forall j :: 1 <= j < i ==> s[j] != dp
  }

  /** Where the integer part ends: the point's index, or the length when there is none. */
  function IntegerEnd(s: seq<char>, dp: char): (n: nat)
    ensures n <= |s|
    ensures 1 <= |s| ==> 1 <= n
    ensures n < |s| <==> IsFirstPoint(s, dp, n)
    ensures forall j :: 1 <= j < n ==> s[j] != dp
  {
    match FindFrom(s, dp, 1)
    case Some(p) => p
    case None => |s|
  }

  /** Where there is a point at index 1 or later, the integer part ends at the first one. */
  lemma IntegerEndIsFirstPoint(s: seq<char>, dp: char, p: nat)
    requires IsFirstPoint(s, dp, p)
    ensures IntegerEnd(s, dp) == p
  {
  }

  /** The first point at index 1 or later, replaced by the locale's point glyph. */
  function SubstitutePoint(s: seq<char>, dp: char, point: char): (t: seq<char>)
    ensures |t| == |s|
    ensures forall i :: 0 <= i < |s| ==> t[i] == if IsFirstPoint(s, dp, i) then point else s[i]
  {
    match FindFrom(s, dp, 1)
    case Some(p) => s[p := point]
    case None => s
  }

  /** One when the string starts with a sign, which does not count as a digit. */
  function SignLength(s: seq<char>): (n: nat)
    ensures n <= 1 && n <= |s|
    ensures n == 1 <==> 0 < |s| && (s[0] == '-' || s[0] == '+')
  {
    if |s| > 0 && (s[0] == '-' || s[0] == '+') then 1 else 0
  }

  /** The digits between the sign and the point. */
  function IntegerDigits(s: seq<char>, dp: char): (d: seq<char>)
    requires |s| > 1
  {
    s[SignLength(s)..IntegerEnd(s, dp)]
  }

  /** The result of applyLocaleFmt(s, loc, dp) for a locale whose numpunct facet is `np`. */
  function LocaleFmt(s: seq<char>, dp: char, np: Numpunct): (r: seq<char>)
    requires ValidGrouping(np.grouping)
    ensures |s| <= 1 ==> r == s
    ensures np.grouping == [] ==> r == SubstitutePoint(s, dp, np.decimalPoint)
  {
    if |s| <= 1 then s
    else
      var t := SubstitutePoint(s, dp, np.decimalPoint);
      if np.grouping == [] then t
      else
        var n, sl := IntegerEnd(s, dp), SignLength(s);
        t[..sl] + Grouped(t[sl..n], np.grouping, 0, np.thousandsSep) + t[n..]
  }

  /** How many separators applyLocaleFmt inserts. */
  function SeparatorCount(s: seq<char>, dp: char, np: Numpunct): (k: nat)
    requires ValidGrouping(np.grouping)
    ensures |s| <= 1 || np.grouping == [] ==> k == 0
    ensures 0 < k ==> np.grouping[0] < IntegerEnd(s, dp) - SignLength(s)
  {
    if |s| <= 1 || np.grouping == [] then 0
    else SepCount(IntegerEnd(s, dp) - SignLength(s), np.grouping, 0)
  }

  /** A string is its three slices at `a` and `b` put back together. */
  lemma SplitThree(t: seq<char>, a: nat, b: nat)
    requires a <= b <= |t|
    ensures t[..a] + t[a..b] + t[b..] == t
  {
    assert t[..a] + t[a..b] == t[..b];
  }

  /** The substitution leaves the integer digits as they were. */
  lemma DigitsUnchangedBySubstitution(s: seq<char>, dp: char, point: char)
    requires |s| > 1
    ensures SubstitutePoint(s, dp, point)[SignLength(s)..IntegerEnd(s, dp)] == IntegerDigits(s, dp)
  {
  }

  /**
   * A string of length at most one, or a locale without grouping, gets only
   * the point substitution; so does a string whose digits fit the first group.
   * Otherwise the output is the input plus the separators, its length the
   * input's plus the separator count.
   */
  lemma {:induction false} LocaleFmtLength(s: seq<char>, dp: char, np: Numpunct)
    requires ValidGrouping(np.grouping)
    ensures var r, t := LocaleFmt(s, dp, np), SubstitutePoint(s, dp, np.decimalPoint);
      && |r| == |s| + SeparatorCount(s, dp, np)
      && (SeparatorCount(s, dp, np) == 0 ==> r == t)
  {
    var t := SubstitutePoint(s, dp, np.decimalPoint);
    if |s| <= 1 {
      assert t == s;
    } else if np.grouping != [] {
      var n, sl := IntegerEnd(s, dp), SignLength(s);
      if SeparatorCount(s, dp, np) == 0 {
        assert Grouped(t[sl..n], np.grouping, 0, np.thousandsSep) == t[sl..n];
        SplitThree(t, sl, n);
      }
    }
  }

  /** The fraction tail, from the point on, is copied unchanged, shifted right by the separator count. */
  lemma LocaleFmtTail(s: seq<char>, dp: char, np: Numpunct)
    requires ValidGrouping(np.grouping)
    ensures var r, t, k := LocaleFmt(s, dp, np), SubstitutePoint(s, dp, np.decimalPoint), SeparatorCount(s, dp, np);
      forall i :: IntegerEnd(s, dp) <= i < |s| ==> i + k < |r| && r[i + k] == t[i]
  {
    LocaleFmtLength(s, dp, np);
  }

  /**
   * The leading character stays at index 0, so no separator is ever put
   * first; after a sign comes the first digit, never a separator.
   */
  lemma LocaleFmtSign(s: seq<char>, dp: char, np: Numpunct)
    requires ValidGrouping(np.grouping) && |s| > 0
    ensures var r := LocaleFmt(s, dp, np);
      && |r| > 0 && r[0] == s[0]
      && (SignLength(s) == 1 && IntegerEnd(s, dp) > 1 ==> r[1] == s[1])
  {
    LocaleFmtLength(s, dp, np);
    var t := SubstitutePoint(s, dp, np.decimalPoint);
    if |s| > 1 && np.grouping != [] {
      var n, sl := IntegerEnd(s, dp), SignLength(s);
      if sl < n {
        GroupedStartsWithDigit(t[sl..n], np.grouping, 0, np.thousandsSep);
      }
    }
  }

  /**
   * With grouping, the output is the sign, then the integer digits as groups
   * joined by the separator glyph, then the fraction tail.
   */
  lemma LocaleFmtGroups(s: seq<char>, dp: char, np: Numpunct)
    requires ValidGrouping(np.grouping) && |s| > 1 && np.grouping != []
    ensures var t := SubstitutePoint(s, dp, np.decimalPoint);
      LocaleFmt(s, dp, np) ==
        s[..SignLength(s)] + Join(Groups(IntegerDigits(s, dp), np.grouping, 0), np.thousandsSep)
        + t[IntegerEnd(s, dp)..]
  {
    GroupedJoinsGroups(IntegerDigits(s, dp), np.grouping, 0, np.thousandsSep);
  }

  /**
   * Deleting the inserted separators from the output gives back the
   * point-substituted input, in order.
   */
  lemma LocaleFmtUngroup(s: seq<char>, dp: char, np: Numpunct)
    requires ValidGrouping(np.grouping) && |s| > 1 && np.grouping != []
    ensures var r, t := LocaleFmt(s, dp, np), SubstitutePoint(s, dp, np.decimalPoint);
      var n, sl, k := IntegerEnd(s, dp), SignLength(s), SeparatorCount(s, dp, np);
      r[..sl] + Ungroup(r[sl..n + k], np.grouping, 0) + r[n + k..] == t
  {
    var r, t := LocaleFmt(s, dp, np), SubstitutePoint(s, dp, np.decimalPoint);
    var n, sl, k := IntegerEnd(s, dp), SignLength(s), SeparatorCount(s, dp, np);
    var gr := Grouped(t[sl..n], np.grouping, 0, np.thousandsSep);
    assert r[..sl] == t[..sl] && r[sl..n + k] == gr && r[n + k..] == t[n..] by {
      assert r == t[..sl] + gr + t[n..];
    }
    UngroupGrouped(t[sl..n], np.grouping, 0, np.thousandsSep);
    SplitThree(t, sl, n);
  }

  /**
   * When the separator glyph does not occur in the point-substituted input,
   * removing every separator glyph from the output gives that input back.
   */
  lemma LocaleFmtRemoveSeparators(s: seq<char>, dp: char, np: Numpunct)
    requires ValidGrouping(np.grouping)
    requires forall j :: 0 <= j < |s| ==> SubstitutePoint(s, dp, np.decimalPoint)[j] != np.thousandsSep
    ensures RemoveAll(LocaleFmt(s, dp, np), np.thousandsSep) == SubstitutePoint(s, dp, np.decimalPoint)
  {
    var r, t, sep := LocaleFmt(s, dp, np), SubstitutePoint(s, dp, np.decimalPoint), np.thousandsSep;
    if |s| <= 1 || np.grouping == [] {
      RemoveAllAbsent(t, sep);
    } else {
      var n, sl := IntegerEnd(s, dp), SignLength(s);
      var gr := Grouped(t[sl..n], np.grouping, 0, sep);
      RemoveSeparators(t[sl..n], np.grouping, 0, sep);
      RemoveAllAppend(t[..sl] + gr, t[n..], sep);
      RemoveAllAppend(t[..sl], gr, sep);
      RemoveAllAbsent(t[..sl], sep);
      RemoveAllAbsent(t[n..], sep);
      SplitThree(t, sl, n);
    }
  }

  /** "1234567" has no point and no sign: all seven characters are integer digits. */
  lemma SevenDigits()
    ensures SubstitutePoint("1234567", '.', '.') == "1234567"
    ensures IntegerEnd("1234567", '.') == 7 && SignLength("1234567") == 0
  {
    assert FindFrom("1234567", '.', 1) == None;
  }

  /** The classic rule {3}: "1234567" becomes "1,234,567". */
  lemma ThousandsExample()
    ensures LocaleFmt("1234567", '.', Numpunct(',', '.', [3])) == "1,234,567"
  {
    var s := "1234567";
    SevenDigits();
    ThousandsDigits();
    assert s[0..7] == s && s[..0] == [] && s[7..] == [];
  }

  lemma ThousandsDigits()
    ensures Grouped("1234567", [3], 0, ',') == "1,234,567"
  {
    var s := "1234567";
    assert s[..4] == "1234" && s[4..] == "567";
    assert Grouped("1234", [3], 0, ',') == "1,234" by {
      assert "1234"[..1] == "1" && "1234"[1..] == "234";
    }
  }


  /** The mixed rule {3, 2}: the first group from the point has three digits, the others two. */
  lemma MixedGroupingExample()
    ensures LocaleFmt("1234567", '.', Numpunct(',', '.', [3, 2])) == "12,34,567"
  {
    var s := "1234567";
    SevenDigits();
    MixedDigits();
    assert s[0..7] == s && s[..0] == [] && s[7..] == [];
  }

  lemma MixedDigits()
    ensures Grouped("1234567", [3, 2], 0, ',') == "12,34,567"
  {
    var s := "1234567";
    assert s[..4] == "1234" && s[4..] == "567";
    assert Grouped("1234", [3, 2], 1, ',') == "12,34" by {
      assert "1234"[..2] == "12" && "1234"[2..] == "34";
    }
  }


  /** A sign stays in front and the fraction keeps its digits behind the locale point. */
  lemma SignedFractionExample()
    ensures LocaleFmt("-1234567.25", '.', Numpunct(' ', ',', [3])) == "-1 234 567,25"
  {
    var t := SubstitutePoint("-1234567.25", '.', ',');
    SignedFractionPoint();
    SignedFractionDigits();
    assert t[..1] + Grouped(t[1..8], [3], 0, ' ') + t[8..] == "-1 234 567,25";
  }

  /** The point of SignedFractionExample is found at index 8 and replaced. */
  lemma SignedFractionPoint()
    ensures IntegerEnd("-1234567.25", '.') == 8 && SignLength("-1234567.25") == 1
    ensures var t := SubstitutePoint("-1234567.25", '.', ',');
      t[..1] == "-" && t[1..8] == "1234567" && t[8..] == ",25"
  {
    var s := "-1234567.25";
    assert FindFrom(s, '.', 1) == Some(8);
    assert SubstitutePoint(s, '.', ',') == "-1234567,25";
  }

  /** The integer digits of SignedFractionExample, grouped by threes. */
  lemma SignedFractionDigits()
    ensures Grouped("1234567", [3], 0, ' ') == "1 234 567"
  {
    assert "1234567"[..4] == "1234" && "1234567"[4..] == "567";
    assert "1234"[..1] == "1" && "1234"[1..] == "234";
    assert Grouped("1234", [3], 0, ' ') == "1 234";
  }

  /**
   * Applying the transformation twice is not the same as once: the
   * separators of the first pass are counted as digits by the second.
   */
  lemma NotIdempotent()
    ensures LocaleFmt("1234", '.', Numpunct(',', '.', [3])) == "1,234"
    ensures LocaleFmt("1,234", '.', Numpunct(',', '.', [3])) == "1,,234"
  {
    OnceGrouped();
    TwiceGrouped();
  }

  /** The first pass of NotIdempotent. */
  lemma OnceGrouped()
    ensures LocaleFmt("1234", '.', Numpunct(',', '.', [3])) == "1,234"
  {
    var s := "1234";
    assert SubstitutePoint(s, '.', '.') == s && IntegerEnd(s, '.') == 4 by {
      assert FindFrom(s, '.', 1) == None;
    }
    assert Grouped(s[0..4], [3], 0, ',') == "1,234" by {
      assert s[0..4] == s;
      assert s[..1] == "1" && s[1..] == "234";
    }
    assert s[..0] + "1,234" + s[4..] == "1,234";
  }

  /** The second pass of NotIdempotent. */
  lemma TwiceGrouped()
    ensures LocaleFmt("1,234", '.', Numpunct(',', '.', [3])) == "1,,234"
  {
    var s := "1,234";
    assert SubstitutePoint(s, '.', '.') == s && IntegerEnd(s, '.') == 5 by {
      assert FindFrom(s, '.', 1) == None;
    }
    assert Grouped(s[0..5], [3], 0, ',') == "1,,234" by {
      assert s[0..5] == s;
      assert s[..2] == "1," && s[2..] == "234";
      assert "1,"[..1] == "1" && "1,"[1..] == ",";
    }
    assert s[..0] + "1,,234" + s[5..] == "1,,234";
  }

  /**
   * A non-finite token is grouped like digits when the first group is
   * narrower than the token.
   */
  lemma NonFiniteTokenGrouped()
    ensures LocaleFmt("-inf", '.', Numpunct(',', '.', [2])) == "-i,nf"
  {
    var s := "-inf";
    assert SubstitutePoint(s, '.', '.') == s && IntegerEnd(s, '.') == 4 by {
      assert FindFrom(s, '.', 1) == None;
    }
    assert SignLength(s) == 1;
    assert Grouped(s[1..4], [2], 0, ',') == "i,nf" by {
      assert s[1..4] == "inf";
      assert "inf"[..1] == "i" && "inf"[1..] == "nf";
    }
    assert s[..1] + "i,nf" + s[4..] == "-i,nf";
  }
}
