/**
 * The part of std::basic_string<CharT> that the formatter relies on: a
 * character buffer with a size, element access, find, find_last_not_of,
 * erase, back, pop_back, push_back, a write of characters into the buffer
 * (what std::to_chars and snprintf do) and move assignment.
 * `npos` is `None`.
 */
module Text {

  datatype Option<T> = None | Some(value: T)

  /** basic_string::find(c, from): the first index at or after `from` holding `c`. */
  function FindFrom(s: seq<char>, c: char, from: nat): (r: Option<nat>)
    ensures r.Some? ==> from <= r.value < |s| && s[r.value] == c
    ensures r.Some? ==> forall j :: from <= j < r.value ==> s[j] != c
    ensures r.None? ==> forall j :: from <= j < |s| ==> s[j] != c
    decreases |s| - from
  {
    if from >= |s| then None
    else if s[from] == c then Some(from)
    else FindFrom(s, c, from + 1)
  }

  /** basic_string::find_last_not_of(c): the last index whose character is not `c`. */
  function LastNotOf(s: seq<char>, c: char): (r: Option<nat>)
    ensures r.Some? ==> r.value < |s| && s[r.value] != c
    ensures r.Some? ==> forall j :: r.value < j < |s| ==> s[j] == c
    ensures r.None? ==> forall j :: 0 <= j < |s| ==> s[j] == c
  {
    if |s| == 0 then None
    else if s[|s| - 1] != c then Some(|s| - 1)
    else LastNotOf(s[..|s| - 1], c)
  }

  class CharString {
    var buf: array<char>
    var size: nat

    ghost predicate Valid()
      reads this
    {
      size <= buf.Length
    }

    /** The characters of the string. */
    function Contents(): (s: seq<char>)
      reads this, buf
      requires Valid()
      ensures |s| == size
    {
      buf[..size]
    }

    /** basic_string(n, c): `n` copies of `c`. */
    constructor Filled(n: nat, c: char)
      ensures Valid() && fresh(buf)
      ensures Contents() == seq(n, _ => c)
    {
      buf := new char[n](_ => c);
      size := n;
    }

    /** A string holding the given characters. */
    constructor FromText(s: seq<char>)
      ensures Valid() && fresh(buf)
      ensures Contents() == s
    {
      buf := new char[|s|](i requires 0 <= i < |s| => s[i]);
      size := |s|;
    }

    /** operator[] for reading. */
    method At(i: nat) returns (c: char)
      requires Valid() && i < size
      ensures c == Contents()[i]
    {
      c := buf[i];
    }

    /** operator[] for writing. */
    method SetAt(i: nat, c: char)
      requires Valid() && i < size
      modifies buf
      ensures Valid()
      ensures Contents() == old(Contents())[i := c]
    {
      buf[i] := c;
    }

    /** back(); calling it on an empty string is undefined behaviour. */
    method Back() returns (c: char)
      requires Valid() && 0 < size
      ensures c == Contents()[size - 1]
    {
      c := buf[size - 1];
    }

    /** pop_back(); calling it on an empty string is undefined behaviour. */
    method PopBack()
      requires Valid() && 0 < size
      modifies this
      ensures Valid() && buf == old(buf)
      ensures Contents() == old(Contents())[..old(size) - 1]
    {
      size := size - 1;
    }

    /** erase(pos): drop everything from `pos` on; `pos` beyond the size throws. */
    method Erase(pos: nat)
      requires Valid() && pos <= size
      modifies this
      ensures Valid() && buf == old(buf)
      ensures Contents() == old(Contents())[..pos]
    {
      size := pos;
    }

    /** push_back(c), growing the buffer when it is full. */
    method PushBack(c: char)
      requires Valid()
      modifies this, buf
      ensures Valid()
      ensures buf == old(buf) || fresh(buf)
      ensures Contents() == old(Contents()) + [c]
    {
      if size == buf.Length {
        var grown := new char[2 * size + 1];
        forall i | 0 <= i < size {
          grown[i] := buf[i];
        }
        buf := grown;
      }
      buf[size] := c;
      size := size + 1;
    }

    /** find(c, from). */
    method Find(c: char, from: nat) returns (r: Option<nat>)
      requires Valid()
      ensures r == FindFrom(Contents(), c, from)
    {
      var i := from;
      while i < size
        invariant from <= i
        invariant FindFrom(Contents(), c, i) == FindFrom(Contents(), c, from)
      {
        if buf[i] == c {
          return Some(i);
        }
        i := i + 1;
      }
      return None;
    }

    /** find_last_not_of(c). */
    method FindLastNotOf(c: char) returns (r: Option<nat>)
      requires Valid()
      ensures r == LastNotOf(Contents(), c)
    {
      var i := size;
      assert Contents()[..i] == Contents();
      while 0 < i
        invariant i <= size
        invariant LastNotOf(Contents()[..i], c) == LastNotOf(Contents(), c)
      {
        if buf[i - 1] != c {
          return Some(i - 1);
        }
        assert Contents()[..i][..i - 1] == Contents()[..i - 1];
        i := i - 1;
      }
      return None;
    }

    /** Writes `text` over the characters from `pos` on, as std::to_chars writes into a buffer. */
    method Overwrite(pos: nat, text: seq<char>)
      requires Valid() && pos + |text| <= size
      modifies buf
      ensures Valid()
      ensures Contents() == old(Contents())[..pos] + text + old(Contents())[pos + |text|..]
    {
      forall i | pos <= i < pos + |text| {
        buf[i] := text[i - pos];
      }
      assert Contents() == old(Contents())[..pos] + text + old(Contents())[pos + |text|..] by {
        forall i | 0 <= i < size
          ensures Contents()[i] == (old(Contents())[..pos] + text + old(Contents())[pos + |text|..])[i]
        {
        }
      }
    }

    /** Move assignment from a string built in the buffer `a`: this string takes the buffer over. */
    method Assign(a: array<char>)
      modifies this
      ensures Valid() && buf == a
      ensures Contents() == a[..]
    {
      buf, size := a, a.Length;
    }
  }
}
