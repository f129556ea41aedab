/**
 * The trailing-zero trim that the three zero-trimming printers apply to the
 * rendered number: with a non-zero precision, everything after the last
 * character that is not '0' is erased, and then a decimal point left at the
 * end is popped unless showpoint is set.
 */
module Trim {
  import opened Text
  import opened Policy

  /** The string has a character other than '0', so find_last_not_of('0') does not return npos. */
  predicate HasNonZero(s: seq<char>)
  {
    exists j :: 0 <= j < |s| && s[j] != '0'
  }

  /** The number of times `c` occurs in `s`. */
  function Occurrences(s: seq<char>, c: char): (k: nat)
    ensures k <= |s|
    ensures k == 0 <==> forall j :: 0 <= j < |s| ==> s[j] != c
  {
    if s == [] then 0 else (if s[|s| - 1] == c then 1 else 0) + Occurrences(s[..|s| - 1], c)
  }

  /**
   * The trimmed string. find_last_not_of returning npos would make the erase
   * position npos + 1, which wraps to 0 and empties the string; the function
   * follows that wrap-around.
   */
  function Trimmed(s: seq<char>, precision: uint16, point: char, showpoint: bool): (r: seq<char>)
    ensures precision == 0 ==> r == s
    ensures |r| <= |s| && r == s[..|r|]
    ensures forall i :: |r| <= i < |s| ==> s[i] == '0' || (i == |r| && s[i] == point && !showpoint)
    ensures precision != 0 && HasNonZero(s) && !(|r| < |s| && s[|r|] == point && !showpoint) ==>
              0 < |r| && r[|r| - 1] != '0'
    ensures precision != 0 && 0 < |r| && r[|r| - 1] == point && (forall i :: |r| <= i < |s| ==> s[i] == '0') ==>
              showpoint
  {
    if precision == 0 then s
    else
      var cut := match LastNotOf(s, '0')
        case Some(k) => s[..k + 1]
        case None => s[..0];
      if |cut| > 0 && cut[|cut| - 1] == point && !showpoint then cut[..|cut| - 1] else cut
  }

  /**
   * The trim as the printers write it: erase(find_last_not_of('0') + 1),
   * then back() and pop_back(). back() on the empty string is undefined, so
   * with a non-zero precision the string must hold a character other than '0'.
   */
  method TrimZeros(s: CharString, precision: uint16, point: char, showpoint: bool)
    requires s.Valid()
    requires precision != 0 ==> HasNonZero(s.Contents())
    modifies s
    ensures s.Valid() && s.buf == old(s.buf)
    ensures s.Contents() == Trimmed(old(s.Contents()), precision, point, showpoint)
  {
    if precision != 0 {
      var last := s.FindLastNotOf('0');
      var pos := match last
        case Some(k) => k + 1
        case None => 0;
      s.Erase(pos);
      var b := s.Back();
      if b == point && !showpoint {
        s.PopBack();
      }
    }
  }

  /**
   * A character before the point is never removed: the trim stops at the
   * point at the latest, since the point is not '0'.
   */
  lemma TrimKeepsIntegerPart(s: seq<char>, precision: uint16, point: char, showpoint: bool, q: nat)
    requires point != '0' && q < |s| && s[q] == point
    ensures q <= |Trimmed(s, precision, point, showpoint)|
    ensures s[..q] == Trimmed(s, precision, point, showpoint)[..q]
  {
  }

  /**
   * When the point occurs once and survives the trim, the fraction left
   * behind it does not end in '0'.
   */
  lemma TrimLeavesNoTrailingZero(s: seq<char>, precision: uint16, point: char, showpoint: bool)
    requires precision != 0 && HasNonZero(s) && point != '0'
    requires Occurrences(s, point) == 1
    requires Occurrences(Trimmed(s, precision, point, showpoint), point) == 1
    ensures var r := Trimmed(s, precision, point, showpoint); r[|r| - 1] != '0'
  {
    var r := Trimmed(s, precision, point, showpoint);
    OccurrencesBeforeAnother(s, |r|, point);
  }

  /** Occurrences in a prefix are at most those in the whole. */
  lemma {:induction false} OccurrencesPrefix(s: seq<char>, n: nat, c: char)
    requires n <= |s|
    ensures Occurrences(s[..n], c) <= Occurrences(s, c)
    decreases |s|
  {
    if n < |s| {
      assert s[..|s| - 1][..n] == s[..n];
      OccurrencesPrefix(s[..|s| - 1], n, c);
    } else {
      assert s[..n] == s;
    }
  }

  /** A prefix that stops just before an occurrence of `c` holds fewer occurrences than the whole. */
  lemma OccurrencesBeforeAnother(s: seq<char>, n: nat, c: char)
    requires n <= |s|
    ensures n < |s| && s[n] == c ==> Occurrences(s[..n], c) < Occurrences(s, c)
  {
    if n < |s| && s[n] == c {
      OccurrencesPrefix(s, n + 1, c);
      assert s[..n + 1] == s[..n] + [c];
      OccurrencesAppend(s[..n], c);
    }
  }

  /** Appending `c` adds one occurrence of it. */
  lemma OccurrencesAppend(s: seq<char>, c: char)
    ensures Occurrences(s + [c], c) == Occurrences(s, c) + 1
  {
    assert (s + [c])[..|s|] == s;
  }

  /** A point left at the end is popped without showpoint and kept with it. */
  lemma TrimPopsPoint()
    ensures Trimmed("1.0", 1, '.', false) == "1"
    ensures Trimmed("1.0", 1, '.', true) == "1."
  {
    assert LastNotOf("1.0", '0') == Some(1) by {
      assert "1.0"[..2] == "1.";
    }
    assert "1.0"[..2] == "1." && "1."[..1] == "1";
  }

  /**
   * The trim is not idempotent: "10.00" trims to "10", and trimming that
   * again would remove the integer zero as well.
   */
  lemma TrimNotIdempotent()
    ensures Trimmed("10.00", 2, '.', false) == "10"
    ensures Trimmed("10", 2, '.', false) == "1"
  {
    assert LastNotOf("10.00", '0') == Some(2) by {
      assert "10.00"[..4] == "10.0" && "10.0"[..3] == "10.";
    }
    assert "10.00"[..3] == "10." && "10."[..2] == "10";
    assert LastNotOf("10", '0') == Some(0) by {
      assert "10"[..1] == "1";
    }
    assert "10"[..1] == "1";
  }
}
