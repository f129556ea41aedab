# precision_print.hpp in Dafny

This project models the string surgery that `prprint` (the header
`precision_print.hpp`) performs after a floating-point value has been turned
into fixed-notation text. It proves what that surgery guarantees.

The modelled parts are these:

- **`detail::applyLocaleFmt`** (`Text`, `Grouping`, `LocaleFmt`).
  - It replaces the first decimal point found at index 1 or later with the
    locale's point.
  - It then regroups the integer digits with the locale's thousands separator.
    It counts the separators in one loop, then fills a fresh buffer from the
    right in a `do … while` loop.
  - Group sizes are read from the locale's `grouping()` string. They are read
    from the point leftwards, and the last entry repeats, as in
    `numpunct::grouping()` (section 25.4.3.1 of ISO C++17, [locale.numpunct]).
  - `Grouping.LocaleFmt` is the specification on sequences.
    `LocaleFmt.ApplyLocaleFmt` is the imperative procedure on a
    `std::basic_string` model (`Text.CharString`). It is proved equal to that
    specification.
- **The trailing-zero trim** (`Trim`). The three trimming printers share the
  same code. With a non-zero precision, the trim:
  - erases everything after the last character that is not `'0'`;
  - then pops a decimal point left at the end, unless `showpoint` is set.
- **`detail::toChars`** (`ToChars`). It works in four steps:
  1. write an optional `'+'`;
  2. write the `std::to_chars` text behind it;
  3. cut the buffer to what was written;
  4. then one of two things happens. For a non-finite value with
     `uppercase`, the last three characters are XORed with `0x20`. For a
     finite value with `showpoint` and no point in the text, a `'.'` is
     appended.
- **`detail::printfFmtFloat`** (`PrintfFormat`). It writes
  `%[+][#].*f` (or `F`) and a NUL into a `char[8]`, advancing the write
  position `fPtr` before each write after the first. This is a conversion specification of section 7.21.6.1 of ISO C11.
- **The three `printer(..., TrimZerosTag<true>)` overloads** (`Printer`). Each
  renders, trims and (for `char`/`wchar_t`) localises, composing the parts
  above.

`std::basic_string` is a class whose `Contents()` is the character sequence.
`npos` is `None`. Every method is proved against a function on sequences. The
properties the header promises are proved as lemmas about those functions.

## Model

| member | source | states |
|---|---|---|
| `Text.FindFrom` | precision_print.hpp:83 | `find(c, from)`: the index found holds `c`, and no earlier index at or after `from` does. `None` exactly when no index from `from` on holds `c`. |
| `Text.LastNotOf` | precision_print.hpp:71 | `find_last_not_of(c)`: the index found does not hold `c`, and every later index does. `None` exactly when every character is `c`. |
| `Text.CharString.Find` | precision_print.hpp:166 | The scanning loop returns exactly `FindFrom` of the contents. |
| `Text.CharString.FindLastNotOf` | precision_print.hpp:203 | The backward loop returns exactly `LastNotOf` of the contents. |
| `Text.CharString.Erase` | precision_print.hpp:157 | `erase(pos)` keeps exactly the first `pos` characters, in the same buffer. |
| `Text.CharString.PopBack` | precision_print.hpp:73 | `pop_back()` drops exactly the last character. |
| `Text.CharString.PushBack` | precision_print.hpp:167 | `push_back(c)` appends exactly `c`, growing the buffer when it is full. |
| `Text.CharString.Overwrite` | precision_print.hpp:156 | A write into the buffer from `pos`: the written characters replace the same number of characters, and everything before and after them is unchanged. |
| `Text.CharString.Assign` | precision_print.hpp:140 | `s = std::move(result)`: the string takes over the buffer and holds exactly its characters. |
| `Text.CharString.Filled` | precision_print.hpp:147 | `basic_string(n, c)` holds `n` copies of `c`. |
| `Text.CharString.FromText` | precision_print.hpp:68 | A string built from a text holds exactly that text. |
| `Text.CharString.At` | precision_print.hpp:100 | `s[i]` for reading gives the `i`-th character. |
| `Text.CharString.SetAt` | precision_print.hpp:151 | `s[i] = c` changes the `i`-th character to `c` and nothing else. |
| `Text.CharString.Back` | precision_print.hpp:204 | `back()` gives the last character. |
| `Grouping.Next` | precision_print.hpp:109 | The grouping index never moves back and stays within the grouping, so the last entry repeats. |
| `Grouping.SepCount` | precision_print.hpp:103-110 | The separator count by the subtraction loop. Its meaning is stated by `Grouping.SepCountBounds` and `Grouping.SepCountIsGroupBoundary`. |
| `Grouping.SepCountBounds` | precision_print.hpp:106-111 | The count is 0 exactly when the digits fit the first group, and it is below the digit count whenever there is a digit. |
| `Grouping.AdvanceSaturates` | precision_print.hpp:134 | After `k` steps the grouping index is `min(i + k, L - 1)` for a grouping of length `L`. |
| `Grouping.SepCountIsGroupBoundary` | precision_print.hpp:106-110 | The separator count is `k` exactly when `k` groups hold fewer digits than there are (or `k = 0`) and `k + 1` groups hold them all. Both directions are proved. |
| `Grouping.Grouped` | precision_print.hpp:127-137 | The grouped digits are longer than the digits by exactly the separator count. |
| `Grouping.Groups` | precision_print.hpp:129-137 | The digits split into one more group than there are separators. |
| `Grouping.GroupsRebuildDigits` | precision_print.hpp:130 | Concatenating the groups gives back the digits, in order. |
| `Grouping.GroupedJoinsGroups` | precision_print.hpp:133 | The grouped text is the groups joined by the separator. |
| `Grouping.GroupSizes` | precision_print.hpp:131-135 | Each group but the leftmost has exactly the size of its (saturating) grouping entry. The leftmost group is no larger than its entry, and holds at least one digit when there are digits. |
| `Grouping.GroupSizesFromPoint` | precision_print.hpp:127-128 | Read from the point, the group sizes are `g[0], g[1], …` with the last entry repeated. Only the leftmost group may be shorter, and it is non-empty when there are digits. |
| `Grouping.UngroupGrouped` | precision_print.hpp:129-137 | Dropping one character before each full group from the right inverts the grouping: this recovers the digits. |
| `Grouping.RemoveSeparators` | precision_print.hpp:133 | When the digits contain no separator, deleting every separator from the grouped text gives back the digits. |
| `Grouping.GroupedStartsWithDigit` | precision_print.hpp:132 | The grouped text starts with the first digit, never with a separator. |
| `Grouping.IntegerEnd` | precision_print.hpp:92-96 | `digits` is at most the length and at least 1 for non-empty text. It is below the length exactly when it is the first point at index 1 or later. No index from 1 up to it holds the point, so it is the index of the first point when there is one and the length otherwise. |
| `Grouping.IntegerEndIsFirstPoint` | precision_print.hpp:83-94 | When the first point at index 1 or later is at `p`, the integer part ends exactly at `p`. |
| `Grouping.SubstitutePoint` | precision_print.hpp:83-93 | The length is kept. Only the first point at index 1 or later changes, and it becomes the locale's point. |
| `Grouping.SignLength` | precision_print.hpp:100-101 | A leading `'-'` or `'+'`, and only that, is not counted as a digit. |
| `Grouping.SeparatorCount` | precision_print.hpp:98-111 | No separator for text of length at most 1 or an empty grouping. Any separator means the integer digits exceed the first group. |
| `Grouping.LocaleFmt` | precision_print.hpp:78-141 | `applyLocaleFmt` on sequences. Text of length at most 1 is returned as it is. An empty grouping only substitutes the point. The lemmas below state the rest. |
| `Grouping.DigitsUnchangedBySubstitution` | precision_print.hpp:100-101 | The digits between the sign and the point are untouched by the point substitution. |
| `Grouping.LocaleFmtLength` | precision_print.hpp:111-113 | The output is longer than the input by exactly the separator count. With no separator it is the point-substituted input. |
| `Grouping.LocaleFmtTail` | precision_print.hpp:117-121 | The fraction tail, from the point on, is copied unchanged, shifted right by exactly the separator count. |
| `Grouping.LocaleFmtSign` | precision_print.hpp:100-101 | The first character is kept: the sign, or the first digit. After a sign comes the first digit when there is one, never a separator. |
| `Grouping.LocaleFmtGroups` | precision_print.hpp:127-138 | With a non-empty grouping, the output is the sign, the integer digits' groups joined by the separator, and the point-substituted tail. |
| `Grouping.LocaleFmtUngroup` | precision_print.hpp:129-138 | Un-grouping the integer part of the output gives back the point-substituted input. |
| `Grouping.LocaleFmtRemoveSeparators` | precision_print.hpp:98-138 | When the point-substituted input has no separator character, deleting the separators from the output gives back the point-substituted input, in order. |
| `Grouping.ThousandsExample` | precision_print.hpp:106-110 | `"1234567"` with grouping `{3}` becomes `"1,234,567"`. |
| `Grouping.MixedGroupingExample` | precision_print.hpp:134-135 | `"1234567"` with grouping `{3, 2}` becomes `"12,34,567"`. |
| `Grouping.SignedFractionExample` | precision_print.hpp:117-120 | `"-1234567.25"` with separator `' '`, point `','` and `{3}` becomes `"-1 234 567,25"`. |
| `Grouping.NotIdempotent` | precision_print.hpp:82-111 | Grouping `"1234"` gives `"1,234"`. Applied again, it gives `"1,,234"`. |
| `Grouping.NonFiniteTokenGrouped` | precision_print.hpp:100-106 | `"-inf"` with grouping `{2}` becomes `"-i,nf"`: the token is grouped like digits. |
| `LocaleFmt.FillCompletesGrouping` | precision_print.hpp:129-137 | From any loop state, the characters the backward fill writes, followed by what it has written already, are the grouped digits. |
| `LocaleFmt.FillStepDigit` | precision_print.hpp:130-131 | A digit copied while the group is incomplete keeps the loop's invariant. |
| `LocaleFmt.FillStepGroup` | precision_print.hpp:133-135 | A completed group followed by a separator keeps the invariant, with the next grouping entry. |
| `LocaleFmt.FillStepLast` | precision_print.hpp:132 | A group completed at index 1 leaves exactly the first character to write. |
| `LocaleFmt.FillExit` | precision_print.hpp:137 | Leaving the loop at index 1 leaves exactly the first character to write. |
| `LocaleFmt.FillFirst` | precision_print.hpp:138 | The last write, the sign or first digit at index 0, completes the grouped string. |
| `LocaleFmt.RegroupedHead` | precision_print.hpp:138 | The regrouped string starts with the input's first character. |
| `LocaleFmt.CountSeparators` | precision_print.hpp:103-110 | The counting loop returns `SepCount`: `k` groups hold fewer digits than there are (or `k = 0`) and `k + 1` hold them all. |
| `LocaleFmt.FillGroups` | precision_print.hpp:127-137 | The `do … while` writes every character but the first of the regrouped string into `result`. |
| `LocaleFmt.Regroup` | precision_print.hpp:113-138 | The fresh buffer holds the sign, the grouped integer digits and the tail copied at the shifted offset. |
| `LocaleFmt.ReplacePoint` | precision_print.hpp:83-96 | The point is found from index 1 and replaced in place. `digits` is its index, or the size when there is none. |
| `LocaleFmt.ApplyLocaleFmt` | precision_print.hpp:78-141 | The string becomes exactly `LocaleFmt` of its old contents. Text of length at most 1 is untouched. An empty grouping or a zero separator count leaves the point-substituted text. |
| `Trim.Trimmed` | precision_print.hpp:70-74 | Precision 0 keeps the text. Otherwise the result is a prefix of the input. What is removed is only `'0'`s plus, right after the kept prefix, at most one point, removed only without `showpoint`. A point left at the end after only `'0'`s were erased is popped unless `showpoint` is set. If a character other than `'0'` exists and no point was popped, the result does not end in `'0'`. |
| `Trim.TrimZeros` | precision_print.hpp:202-205 | `erase(find_last_not_of('0') + 1)` followed by the conditional `pop_back()` turns the string into exactly `Trimmed` of its old contents. |
| `Trim.TrimKeepsIntegerPart` | precision_print.hpp:238-241 | When the input holds the point, no character before it is removed. |
| `Trim.TrimLeavesNoTrailingZero` | precision_print.hpp:71-73 | When the single point survives the trim, the result does not end in `'0'`. |
| `Trim.TrimPopsPoint` | precision_print.hpp:72-73 | `"1.0"` at precision 1 trims to `"1"` without `showpoint` and to `"1."` with it. |
| `Trim.TrimNotIdempotent` | precision_print.hpp:71 | `"10.00"` trims to `"10"`, and trimming that again gives `"1"`. |
| `ToChars.FlipCase` | precision_print.hpp:162 | `c ^ 0x20` keeps the character's block of 64 and moves it by 32 within the block. |
| `ToChars.FlipCaseInvolution` | precision_print.hpp:161-163 | Flipping twice gives the character back. |
| `ToChars.FlipCaseUppercases` | precision_print.hpp:160 | On lower-case letters the flip is the change to upper case. |
| `ToChars.FlipStart` | precision_print.hpp:161 | `s.size() - 3` in `size_t` arithmetic: for text of length at least three it is the size minus 3; for shorter text it wraps past the size, so the loop does not run. |
| `ToChars.SignPrefix` | precision_print.hpp:150-154 | The prefix is empty or `"+"`, and it is `"+"` exactly when `showpos` is set and the sign bit is clear. |
| `ToChars.FlipRange` | precision_print.hpp:161-163 | The length is kept. Characters outside the range are unchanged, and each one inside flips back to the original. |
| `ToChars.ToCharsText` | precision_print.hpp:145-169 | The result is as long as the sign and the body, or one character longer. A non-finite value, or no `showpoint`, keeps the length. `ToChars.ToCharsFinite` and `ToChars.ToCharsNonFinite` state the characters. |
| `ToChars.ToChars` | precision_print.hpp:145-169 | The buffer procedure returns exactly `ToCharsText`. |
| `ToChars.ToCharsPlusSign` | precision_print.hpp:150-154 | For text `to_chars` can write, a `'+'` leads the result exactly when `showpos` is set and the sign bit is clear. |
| `ToChars.ToCharsFinite` | precision_print.hpp:166-168 | For a finite value the result is the sign and the body, then exactly one `'.'` exactly when `showpoint` is set and the body has no point. |
| `ToChars.ToCharsNonFinite` | precision_print.hpp:159-165 | For a non-finite value the length is kept, and all but the last three characters are unchanged. Each of the last three is flipped exactly when `uppercase` is set. Text shorter than three is left as it is. |
| `ToChars.InfinityUppercase` | precision_print.hpp:160-163 | `"inf"` with `uppercase` becomes `"INF"`. |
| `ToChars.NegativeNanUppercase` | precision_print.hpp:161 | `"-nan"` becomes `"-NAN"`: the sign is not among the last three. |
| `ToChars.PositiveNanSigned` | precision_print.hpp:150-153 | A not-a-number with a clear sign bit gets the `'+'` of `showpos`: `"nan"` with `showpos` and `uppercase` becomes `"+NAN"`. |
| `ToChars.ShowposShowpointExample` | precision_print.hpp:150-167 | `12` with `showpos` and `showpoint` is rendered `"+12."`. |
| `PrintfFormat.FormatSpec` | precision_print.hpp:172-181 | The format has 5 to 7 characters, so it fits the `char[8]`. It starts with `'%'`, has `".*"` before the conversion character and ends with NUL. |
| `PrintfFormat.ParseFormat` | precision_print.hpp:173-180 | Any format that reads back as flags is a fixed-notation conversion specification: `'%'`, flag characters, `".*"`, `'f'`/`'F'`, and NUL. |
| `PrintfFormat.FormatShape` | precision_print.hpp:194 | The format is such a conversion specification. Its length is 5 plus one each for `showpos` and `showpoint`, so at most 7, which fits the `char[8]`. `'+'`, `'#'` and `'F'` occur exactly for `showpos`, `showpoint` and `uppercase`. |
| `PrintfFormat.ParseFormatSpec` | precision_print.hpp:174-179 | Reading the flags back from the format gives the flags it was made from. |
| `PrintfFormat.FormatSpecParse` | precision_print.hpp:173-180 | A format that reads back as flags is exactly the one written for them. |
| `PrintfFormat.FormatSpecInjective` | precision_print.hpp:175-178 | Different flags give different formats. |
| `PrintfFormat.PrintfFmtFloat` | precision_print.hpp:172-181 | The writes through `fPtr` leave exactly the format at the start of the buffer and nothing changed after it. |
| `PrintfFormat.Put` | precision_print.hpp:175 | One write at the advanced position `fPtr` extends the written prefix by one character and leaves the rest untouched. |
| `Printer.PrintStream` | precision_print.hpp:57-76 | The stream printer writes exactly the trim of what the string stream rendered, with the locale's point. |
| `Printer.PrintNarrow` | precision_print.hpp:184-208 | With `to_chars`, the output is `LocaleFmt` of the trim of `ToCharsText`, with `'.'` as the point. |
| `Printer.PrintNarrowPrintf` | precision_print.hpp:192-199 | Without `to_chars`, the format buffer holds the printf format. The output is `LocaleFmt` of the trim of the snprintf text, with the point of the current C locale (`localeconv`). |
| `Printer.Snprintf` | precision_print.hpp:196-199 | A buffer one longer than the text, filled by snprintf and with its NUL popped, holds exactly the text. |
| `Printer.PrintExample` | precision_print.hpp:202-206 | `1234567.2500` at precision 4 with grouping `{3}` prints as `"1,234,567.25"`. |

## Left out

- Rounding (`Rounding`, lines 246-266) is floating-point arithmetic (`pow`, `ceil`, `floor`, `round`, `trunc`). The policy's `trimZeros` chooses the printer (lines 265-266) and `roundMode` the rounding (lines 249-264). No modelled member reads either.
- The conversion of a value to text is an input of the model: `std::to_chars`, `snprintf`, `swprintf` and `ostringstream`. `ToChars.ToChars` takes the `to_chars` text and the `snprintf` length, and requires that the sign and the text fit that length, as they do for `"%+#.*f"`. The value itself is reduced to its sign bit and finiteness.
- Locale lookup is not modelled: `use_facet<numpunct>`, `localeconv`, `btowc`. The separator, point and grouping are parameters (`Grouping.Numpunct`).
- Grouping entries are naturals of at least 1. An entry of 0 makes the counting loop at line 106 run forever. The cast to `size_t` at lines 106, 128 and 135 turns a negative entry into a group size no digit count reaches, so it stops further grouping, as the standard's terminator does. Such entries are outside the model's domain. `CHAR_MAX` is read as an ordinary group of that many digits.
- The trim's `back()` on an empty string is undefined behaviour. `Trim.TrimZeros` therefore requires a character other than `'0'` when the precision is non-zero; `find_last_not_of` then never returns `npos`. The function `Trim.Trimmed` still follows the `npos + 1 == 0` wrap-around.
- The non-trimming `printer` (lines 47-55) only saves, sets and restores stream flags around `os << num`. It and every final `os << s` are stream I/O.
- `prprint_proxy`, `print` and `operator<<` (lines 268 onwards) are operator-chaining glue.
- The `wchar_t` overload (lines 210-244) is the narrow one with `mbsrtowcs`/`swprintf` converting characters. With a single character type in the model, it is the same as `Printer.PrintNarrow` and `Printer.PrintNarrowPrintf`. The `CharT`/`Traits` genericity is modelled with `char` throughout.
- `Trim.TrimLeavesNoTrailingZero` assumes that the point occurs once in the input and once in the result. The code promises nothing about a point that is removed, or about text with several points.
- `ToChars.ToCharsPlusSign` is stated for bodies made of the characters `to_chars` writes in fixed notation (digits, `'-'`, `'.'`, lower-case letters). It also needs non-finite bodies to be at least three long, since flipping an arbitrary character could produce `'+'`.

## Notes

- Grouping is not idempotent. `"1,234"` regroups to `"1,,234"`, because separators are counted as digits (`Grouping.NotIdempotent`).
- Under `showpos`, a not-a-number whose sign bit is clear gets a `'+'` (line 150). It prints as `"+nan"`, or `"+NAN"` with `uppercase` (`ToChars.PositiveNanSigned`).
- The sign test at lines 100-101 looks only at `'-'` and `'+'`. A non-finite token is therefore grouped like digits when its length exceeds the first group size. For example, `"-inf"` with `{2}` becomes `"-i,nf"` (`Grouping.NonFiniteTokenGrouped`).
- The trim is not idempotent: `"10.00"` trims to `"10"`, and `"10"` trims to `"1"` (`Trim.TrimNotIdempotent`).
