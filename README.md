# Text normalisation helpers of genshin-resources

This project models the pure string logic of `src/common/util.py` in the
genshin-resources scraper, and proves properties about it. The scraper
pulls game data (characters, ascension materials) from a CDN and a wiki and
writes it to JSON files. Scraped text is cleaned with two helpers, and
element names are checked against a fixed enumeration:

- `remove_ascii_chars` is a fixed chain of eleven `str.replace` calls. They
  rewrite eight non-ASCII characters and one three-character mojibake
  sequence. The mojibake is the UTF-8 encoding of U+2212 MINUS SIGN read
  as Windows-1252. The replacements are ASCII look-alikes, nothing, or
  (for º) the two non-ASCII characters U+00C2 U+00B0 ("Â°").
- `remove_extra_whitespace` collapses every run of U+0020 spaces into one space.
- `Elements.has_value` is a case-sensitive test of membership in the seven element names.

Modules:

- `StrReplace` (`str_replace.dfy`) models Python's `str.replace` for a non-empty
  pattern: `ReplaceAll` scans left to right and replaces non-overlapping
  occurrences. The module also proves the general facts the chain needs.
- `TextCleanup` (`text_cleanup.dfy`) holds `RemoveAsciiChars`.
  - Lines 69-77 are kept as a nine-row table `CharReplacements`, in
    source order. The NBSP row appears twice, as it does in the source.
  - Lines 78 and 79 are two more `ReplaceAll` calls with the same pattern.
  - `Translate` is an independent per-character reference for the
    first nine rows.
  - The literals are copied exactly. U+00BA (º) becomes U+00C2 U+00B0
    ("Â°"). U+2013 (en dash) becomes ":", even though the comment on
    line 75 calls it a left-to-right mark.
- `Whitespace` (`whitespace.dfy`) holds `RemoveExtraWhitespace`, modelled on
  the regex `" +"` (leftmost, greedy). `KeepFirstSpaces` is a
  character-by-character reference for it.
- `Elements` (`elements.dfy`) holds the enumeration as a datatype, its
  value-to-member table, and `HasValue`.

Line 78 spells the mojibake pattern as the raw literal `âˆ’`, and line 79
spells it with `\u` escapes. In the UTF-8 source file both are the
characters U+00E2 U+02C6 U+2019, so the model uses one constant,
`MOJIBAKE_MINUS`, for both lines. `Line79NoOp` proves that line 79 then
never changes anything.

## Model

| member | source | states |
|---|---|---|
| `StrReplace.ReplaceAll` | src/common/util.py:69-79 | `str.replace` with a non-empty pattern. The result never grows when the replacement is no longer than the pattern. Every output character comes from the input or from the replacement. |
| `StrReplace.ShortNotOccurs` | src/common/util.py:78-79 | A string shorter than the pattern does not contain it. |
| `StrReplace.OccursChars` | src/common/util.py:78-79 | If a pattern occurs in a string, every character of the pattern is in the string. |
| `StrReplace.OccursSingle` | src/common/util.py:69-77 | A one-character pattern occurs exactly when that character is in the string. |
| `StrReplace.ReplaceAllAbsent` | src/common/util.py:69-79 | A replace call on a string that lacks the pattern returns the string unchanged. |
| `StrReplace.ReplaceCharAppend` | src/common/util.py:69-77 | Replacing one character distributes over concatenation. |
| `StrReplace.ReplaceCharSingleton` | src/common/util.py:69-77 | On a one-character string, replacing one character is a lookup. |
| `StrReplace.NotOccursPrepend` | src/common/util.py:78 | Prefixing characters that are foreign to the pattern cannot create an occurrence. |
| `StrReplace.CopiedPrefix` | src/common/util.py:78 | Suppose the replacement starts with a character foreign to the pattern. Then an output prefix made only of pattern characters was copied verbatim from the input. |
| `StrReplace.ReplaceAllRemoves` | src/common/util.py:69-79 | After the replace, the pattern no longer occurs. This needs two conditions: the replacement shares no character with the pattern, and a multi-character pattern has a non-empty replacement. |
| `StrReplace.ReplaceAllSplit` | src/common/util.py:69-79 | A character foreign to the pattern is never part of a match: it is copied in its place, and the text before and after it is replaced independently. |
| `StrReplace.DeletionCanRecreate` | src/common/util.py:78-79 | The non-empty condition is needed: deleting "ab" from "aabb" leaves "ab". |
| `StrReplace.NonOverlappingExample` | src/common/util.py:69-79 | Occurrences are taken left to right without overlap: "aaa".replace("aa", "b") is "ba". |
| `TextCleanup.ReplaceEach` | src/common/util.py:69-77 | Applies the rows of a replacement table in order, as lines 69-77 do with `CharReplacements`. Every character it introduces comes from some row's replacement. `CharReplacementsTranslate` ties it to `Translate`. |
| `TextCleanup.TranslateChar` | src/common/util.py:69-77 | Per-character table. A character outside the eight targets maps to itself. Every target changes, and nothing it maps to is a target. ZWSP and LRM map to nothing, º maps to two characters, and every other character maps to one. |
| `TextCleanup.Translate` | src/common/util.py:69-77 | The result holds no target character. Its length is the input length, minus the ZWSP and LRM count, plus the º count. |
| `TextCleanup.TranslateAppend` | src/common/util.py:69-77 | Translation distributes over concatenation. |
| `TextCleanup.TranslateKeeps` | src/common/util.py:69-77 | A character outside the table is kept in its place, between the translations of what comes before and after it. |
| `TextCleanup.TranslateIdentity` | src/common/util.py:69-77 | A string without target characters translates to itself. |
| `TextCleanup.ReplaceEachAbsent` | src/common/util.py:69-77 | A chain of replacements leaves unchanged a string that has none of the chain's characters. |
| `TextCleanup.ReplaceEachAppend` | src/common/util.py:69-77 | A chain of single-character replacements distributes over concatenation. |
| `TextCleanup.ReplaceEachFrom` | src/common/util.py:69-77 | Once a row of the chain matches a character, later rows leave its replacement alone. |
| `TextCleanup.CharReplacementsOnChar` | src/common/util.py:69-77 | On one character, the nine replace calls of lines 69-77 agree with `TranslateChar`. |
| `TextCleanup.CharReplacementsTranslate` | src/common/util.py:69-77 | Lines 69-77 together equal the per-character reference `Translate`. |
| `TextCleanup.Line79NoOp` | src/common/util.py:78-79 | Line 79 repeats line 78's pattern, so applying it after line 78 changes nothing. |
| `TextCleanup.RemoveAsciiChars` | src/common/util.py:68-82 | `remove_ascii_chars`. It equals `Translate` followed by one mojibake replacement. The output contains none of U+00A0, U+300C, U+300D, U+00BA, U+200B, U+200E, U+2013, U+FF06. It contains no U+00E2 U+02C6 U+2019 sequence. |
| `TextCleanup.RemoveAsciiCharsKeeps` | src/common/util.py:69-79 | A character outside the replacement table and outside the mojibake sequence survives all eleven calls in its place: the text before and after it is cleaned independently. |
| `TextCleanup.CleanUnchanged` | src/common/util.py:68-82 | A string with no target character and no mojibake sequence is returned unchanged. |
| `TextCleanup.FixedPointIffClean` | src/common/util.py:68-82 | The output equals the input exactly when the input is clean (both directions). |
| `TextCleanup.RemoveAsciiCharsIdempotent` | src/common/util.py:68-82 | Applying `remove_ascii_chars` twice gives the same result as applying it once. |
| `TextCleanup.AsciiUnchanged` | src/common/util.py:68-82 | Pure-ASCII text is returned unchanged. |
| `TextCleanup.RemoveAsciiCharsLength` | src/common/util.py:69-79 | The output length is at most the input length, minus the ZWSP and LRM count, plus the º count. When no mojibake sequence arises, the output is exactly `Translate` of the input. |
| `Whitespace.DropLeadingSpaces` | src/common/util.py:86 | One match of `" +"`: what remains is a suffix of the input that does not start with a space, and everything removed was a space. |
| `Whitespace.RemoveExtraWhitespace` | src/common/util.py:85-86 | `remove_extra_whitespace`. The output is no longer than the input. It is empty only for empty input and starts with the input's first character. It never has two adjacent U+0020 characters. |
| `Whitespace.KeepFirstSpacesSkip` | src/common/util.py:86 | Once a space has been seen, the reference skips the spaces that follow it. |
| `Whitespace.RemoveExtraWhitespaceReference` | src/common/util.py:86 | `re.sub(" +", " ", s)` equals the per-character reference, which drops a space exactly when the character before it is a space. |
| `Whitespace.NonSpacesDrop` | src/common/util.py:86 | A leading space run contains no non-space character. |
| `Whitespace.NonSpacesPreserved` | src/common/util.py:86 | Every character other than U+0020 survives in order. This includes tabs, newlines and NBSP. |
| `Whitespace.SpacePresence` | src/common/util.py:86 | The output contains a space exactly when the input does. |
| `Whitespace.NoDoubleSpaceUnchanged` | src/common/util.py:86 | Text without two adjacent spaces is unchanged, so single spaces between words survive. |
| `Whitespace.FixedPointIffNoDoubleSpace` | src/common/util.py:86 | The output equals the input exactly when the input has no two adjacent spaces. |
| `Whitespace.RemoveExtraWhitespaceIdempotent` | src/common/util.py:86 | Applying `remove_extra_whitespace` twice gives the same result as applying it once. |
| `Elements.HasValue` | src/common/util.py:25-36 | `has_value(v)` is true exactly when some member of the enumeration has the value `v`. |
| `Elements.ValueToMemberRoundTrip` | src/common/util.py:25-36 | Looking up a member's value in the value-to-member table gives that member back. |
| `Elements.ValueInjective` | src/common/util.py:25-32 | Distinct members have distinct values. |
| `Elements.HasValueExamples` | src/common/util.py:34-36 | "Pyro" is a value. The test is case-sensitive, so "PYRO" and "pyro" are not values, and neither is "Traveler". |

## Left out

- `StrReplace.ReplaceAll` requires a non-empty pattern. Python's `str.replace` with an empty pattern inserts the replacement between characters. No call site in the modelled code passes an empty pattern.
- `GenshinCDN.get` (src/common/util.py:39-50) is left out. It is an HTTP request through `requests`, and its branches depend on the response object.
- `ResponseTypes` (src/common/util.py:19-22) is left out. It only names the response formats that `GenshinCDN.get` understands.
- `download_asset` (src/common/util.py:53-58) is left out. It is a network fetch plus a binary file write.
- `EnhancedJSONEncoder` (src/common/util.py:61-65) is left out. It delegates to `json` and `dataclasses.asdict`.
- The path constants (src/common/util.py:10-16) are left out. They depend on where the file sits at run time.
- The code commented out on lines 80-81 (encoding to ASCII) is not executed, so it is not modelled.
- `src/characters/characters.py` is left out. It is a network-driven fetch loop plus directory creation and JSON dumps.
- `src/materials/ascension/ascension.py` is left out. It only prints the result of `GenshinWiki.get_released_character_ascension_materials`.
- `GenshinWiki` and its wiki-table parser are not part of this model. They are imported from `src/common/util.py` but not defined there.
- `components/Footer/Footer.tsx` and `components/Layout/Layout.tsx` are left out. They are React markup; the footer reads the wall-clock year.
- Characters are Unicode scalar values (Dafny's `char`). A Python `str` can also hold lone surrogates (for example text decoded with `surrogateescape`), which cannot be represented here. All three functions treat such a character like any other character outside their tables, so no behaviour is lost.
