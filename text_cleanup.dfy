/**
 * `remove_ascii_chars` of src/common/util.py: a fixed chain of
 * `str.replace` calls that rewrites a handful of non-ASCII characters
 * scraped from wiki pages into ASCII look-alikes, into nothing, or (for the
 * masculine ordinal) into the two non-ASCII characters U+00C2 U+00B0.
 */
module TextCleanup {
  import opened StrReplace

  const NBSP: char := '\U{00A0}'
  const LEFT_CORNER_BRACKET: char := '\U{300C}'
  const RIGHT_CORNER_BRACKET: char := '\U{300D}'
  const MASCULINE_ORDINAL: char := '\U{00BA}'
  const ZERO_WIDTH_SPACE: char := '\U{200B}'
  const LEFT_TO_RIGHT_MARK: char := '\U{200E}'
  const EN_DASH: char := '\U{2013}'
  const FULLWIDTH_AMPERSAND: char := '\U{FF06}'

  /**
   * The replacement for the masculine ordinal, kept exactly as the source
   * writes it: U+00C2 U+00B0, the UTF-8 bytes of a degree sign read as
   * Latin-1.
   */
  const ORDINAL_REPLACEMENT: string := "\U{00C2}\U{00B0}"

  /**
   * U+00E2 U+02C6 U+2019, the UTF-8 bytes of U+2212 MINUS SIGN read as
   * Windows-1252. Line 78 spells it as a raw literal and line 79 with
   * escapes; in a UTF-8 source file both are these three characters.
   */
  const MOJIBAKE_MINUS: string := "\U{00E2}\U{02C6}\U{2019}"

  /** The single characters the chain replaces (lines 69-77). */
  const TargetChars: set<char> := {
    NBSP, LEFT_CORNER_BRACKET, RIGHT_CORNER_BRACKET, MASCULINE_ORDINAL,
    ZERO_WIDTH_SPACE, LEFT_TO_RIGHT_MARK, EN_DASH, FULLWIDTH_AMPERSAND
  }

  /**
   * Lines 69-77 in source order: each row is one `text.replace(c, rep)`.
   * The NBSP row appears twice, as in the source.
   */
  const CharReplacements: seq<(char, string)> := [
    (NBSP, " "),
    (LEFT_CORNER_BRACKET, "["),
    (RIGHT_CORNER_BRACKET, "]"),
    (MASCULINE_ORDINAL, ORDINAL_REPLACEMENT),
    (ZERO_WIDTH_SPACE, ""),
    (LEFT_TO_RIGHT_MARK, ""),
    (EN_DASH, ":"),
    (NBSP, " "),
    (FULLWIDTH_AMPERSAND, "&")
  ]

  /**
   * Applies `s.replace(c, rep)` for each row of `table`, first row first.
   * Every character it introduces comes from some row's replacement.
   */
  function ReplaceEach(s: string, table: seq<(char, string)>): (r: string)
    ensures forall x :: x in r && x !in s ==> exists i :: 0 <= i < |table| && x in table[i].1
    decreases |table|
  {
    if table == [] then s
    else
      var t := ReplaceAll(s, [table[0].0], table[0].1);
      var r := ReplaceEach(t, table[1..]);
      assert forall x :: x in r && x !in s ==> exists i :: 0 <= i < |table| && x in table[i].1 by {
        forall x | x in r && x !in s
          ensures exists i :: 0 <= i < |table| && x in table[i].1
        {
          if x in t {
            assert x in table[0].1;
          } else {
            var i :| 0 <= i < |table[1..]| && x in table[1..][i].1;
            assert table[1..][i] == table[i + 1];
          }
        }
      }
      r
  }

  /**
   * What the first nine replacements do to one character, written as a
   * table lookup independent of the chain.
   */
  function TranslateChar(x: char): (r: string)
    ensures x !in TargetChars ==> r == [x]
    ensures x in TargetChars ==> r != [x]
    ensures forall y :: y in r ==> y !in TargetChars
    ensures |r| == if x == ZERO_WIDTH_SPACE || x == LEFT_TO_RIGHT_MARK then 0
                   else if x == MASCULINE_ORDINAL then 2
                   else 1
  {
    if x == NBSP then " "
    else if x == LEFT_CORNER_BRACKET then "["
    else if x == RIGHT_CORNER_BRACKET then "]"
    else if x == MASCULINE_ORDINAL then ORDINAL_REPLACEMENT
    else if x == ZERO_WIDTH_SPACE || x == LEFT_TO_RIGHT_MARK then ""
    else if x == EN_DASH then ":"
    else if x == FULLWIDTH_AMPERSAND then "&"
    else [x]
  }

  /** The per-character reference: every character translated on its own. */
  function Translate(s: string): (r: string)
    ensures forall y :: y in r ==> y !in TargetChars
    ensures |r| == |s| - multiset(s)[ZERO_WIDTH_SPACE] - multiset(s)[LEFT_TO_RIGHT_MARK]
                  + multiset(s)[MASCULINE_ORDINAL]
    decreases |s|
  {
    if s == [] then []
    else
      assert s == [s[0]] + s[1..];
      assert multiset(s) == multiset{s[0]} + multiset(s[1..]);
      TranslateChar(s[0]) + Translate(s[1..])
  }

  /** Translation works character by character. */
  lemma {:induction false} TranslateAppend(a: string, b: string)
    ensures Translate(a + b) == Translate(a) + Translate(b)
    decreases |a|
  {
    if a == [] {
      assert a + b == b;
    } else {
      assert (a + b)[0] == a[0];
      assert (a + b)[1..] == a[1..] + b;
      TranslateAppend(a[1..], b);
    }
  }

  /**
   * A character outside the replacement table keeps its place: it comes
   * out unchanged, between the translations of what precedes and follows it.
   */
  lemma TranslateKeeps(a: string, x: char, b: string)
    requires x !in TargetChars
    ensures Translate(a + [x] + b) == Translate(a) + [x] + Translate(b)
  {
    var ax := a + [x];
    TranslateAppend(ax, b);
    TranslateAppend(a, [x]);
    assert [x][1..] == [];
    assert Translate([x]) == [x];
  }

  /** A string with no target character is left alone by the translation. */
  lemma {:induction false} TranslateIdentity(s: string)
    requires forall x :: x in s ==> x !in TargetChars
    ensures Translate(s) == s
    decreases |s|
  {
    if s != [] {
      assert s[0] in s;
      TranslateIdentity(s[1..]);
      assert s == [s[0]] + s[1..];
    }
  }

  /** A replacement chain finds nothing to do in a string without its characters. */
  lemma {:induction false} ReplaceEachAbsent(s: string, table: seq<(char, string)>)
    requires forall i :: 0 <= i < |table| ==> table[i].0 !in s
    ensures ReplaceEach(s, table) == s
    decreases |table|
  {
    if table != [] {
      OccursSingle(table[0].0, s);
      ReplaceAllAbsent(s, [table[0].0], table[0].1);
      ReplaceEachAbsent(s, table[1..]);
    }
  }

  /** A chain of single-character replacements distributes over concatenation. */
  lemma {:induction false} ReplaceEachAppend(a: string, b: string, table: seq<(char, string)>)
    ensures ReplaceEach(a + b, table) == ReplaceEach(a, table) + ReplaceEach(b, table)
    decreases |table|
  {
    if table != [] {
      ReplaceCharAppend(a, b, table[0].0, table[0].1);
      ReplaceEachAppend(ReplaceAll(a, [table[0].0], table[0].1),
                        ReplaceAll(b, [table[0].0], table[0].1), table[1..]);
    }
  }

  /**
   * Once row `k` of the chain has matched character `x`, no later row
   * touches its replacement.
   */
  lemma ReplaceEachFrom(x: char, table: seq<(char, string)>, k: nat)
    requires k < |table| && table[k].0 == x
    requires forall i :: 0 <= i < k ==> table[i].0 != x
    requires forall i :: k < i < |table| ==> table[i].0 !in table[k].1
    ensures ReplaceEach([x], table) == table[k].1
    decreases k
  {
    ReplaceCharSingleton(x, table[0].0, table[0].1);
    if k == 0 {
      ReplaceEachAbsent(table[0].1, table[1..]);
    } else {
      ReplaceEachFrom(x, table[1..], k - 1);
    }
  }

  /** The first nine replacements agree with the lookup on one character. */
  lemma CharReplacementsOnChar(x: char)
    ensures ReplaceEach([x], CharReplacements) == TranslateChar(x)
  {
    var t := CharReplacements;
    if x == NBSP {
      ReplaceEachFrom(x, t, 0);
    } else if x == LEFT_CORNER_BRACKET {
      ReplaceEachFrom(x, t, 1);
    } else if x == RIGHT_CORNER_BRACKET {
      ReplaceEachFrom(x, t, 2);
    } else if x == MASCULINE_ORDINAL {
      ReplaceEachFrom(x, t, 3);
    } else if x == ZERO_WIDTH_SPACE {
      ReplaceEachFrom(x, t, 4);
    } else if x == LEFT_TO_RIGHT_MARK {
      ReplaceEachFrom(x, t, 5);
    } else if x == EN_DASH {
      ReplaceEachFrom(x, t, 6);
    } else if x == FULLWIDTH_AMPERSAND {
      ReplaceEachFrom(x, t, 8);
    } else {
      ReplaceEachAbsent([x], t);
    }
  }

  /** Lines 69-77 together are the per-character translation. */
  lemma {:induction false} CharReplacementsTranslate(s: string)
    ensures ReplaceEach(s, CharReplacements) == Translate(s)
    decreases |s|
  {
    if s != [] {
      assert s == [s[0]] + s[1..];
      ReplaceEachAppend([s[0]], s[1..], CharReplacements);
      CharReplacementsOnChar(s[0]);
      CharReplacementsTranslate(s[1..]);
    } else {
      ReplaceEachAbsent(s, CharReplacements);
    }
  }

  /** Line 79 names the same pattern as line 78, which has already replaced every occurrence. */
  lemma Line79NoOp(t: string)
    ensures ReplaceAll(ReplaceAll(t, MOJIBAKE_MINUS, "-"), MOJIBAKE_MINUS, "-")
         == ReplaceAll(t, MOJIBAKE_MINUS, "-")
  {
    ReplaceAllRemoves(t, MOJIBAKE_MINUS, "-");
    ReplaceAllAbsent(ReplaceAll(t, MOJIBAKE_MINUS, "-"), MOJIBAKE_MINUS, "-");
  }

  /**
   * `remove_ascii_chars(text)`: the eleven replacements of lines 69-79, in
   * order. The result is the per-character translation followed by one
   * replacement of the mojibake minus; it holds no target character and no
   * mojibake minus.
   */
  function RemoveAsciiChars(text: string): (r: string)
    ensures r == ReplaceAll(Translate(text), MOJIBAKE_MINUS, "-")
    ensures forall x :: x in r ==> x !in TargetChars
    ensures !Occurs(MOJIBAKE_MINUS, r)
  {
    var t := ReplaceEach(text, CharReplacements);     // lines 69-77
    var t' := ReplaceAll(t, MOJIBAKE_MINUS, "-");      // line 78
    CharReplacementsTranslate(text);
    Line79NoOp(t);
    ReplaceAllRemoves(t, MOJIBAKE_MINUS, "-");
    ReplaceAll(t', MOJIBAKE_MINUS, "-")                // line 79
  }

  /**
   * A character outside the replacement table and outside the mojibake
   * minus survives all eleven replacements in its place: the text before
   * and after it is cleaned independently.
   */
  lemma RemoveAsciiCharsKeeps(a: string, x: char, b: string)
    requires x !in TargetChars && x !in MOJIBAKE_MINUS
    ensures RemoveAsciiChars(a + [x] + b) == RemoveAsciiChars(a) + [x] + RemoveAsciiChars(b)
  {
    TranslateKeeps(a, x, b);
    ReplaceAllSplit(Translate(a), x, Translate(b), MOJIBAKE_MINUS, "-");
  }

  /** A string the chain has nothing to replace in. */
  predicate Clean(s: string) {
    (forall x :: x in s ==> x !in TargetChars) && !Occurs(MOJIBAKE_MINUS, s)
  }

  /** A clean string comes back unchanged. */
  lemma CleanUnchanged(s: string)
    requires Clean(s)
    ensures RemoveAsciiChars(s) == s
  {
    TranslateIdentity(s);
    ReplaceAllAbsent(s, MOJIBAKE_MINUS, "-");
  }

  /** The strings `remove_ascii_chars` leaves unchanged are exactly the clean ones. */
  lemma FixedPointIffClean(s: string)
    ensures RemoveAsciiChars(s) == s <==> Clean(s)
  {
    if Clean(s) {
      CleanUnchanged(s);
    }
  }

  /** Cleaning twice is cleaning once. */
  lemma RemoveAsciiCharsIdempotent(s: string)
    ensures RemoveAsciiChars(RemoveAsciiChars(s)) == RemoveAsciiChars(s)
  {
    CleanUnchanged(RemoveAsciiChars(s));
  }

  /** Pure-ASCII text is returned unchanged. */
  lemma AsciiUnchanged(s: string)
    requires forall x :: x in s ==> x < '\U{0080}'
    ensures RemoveAsciiChars(s) == s
  {
    assert '\U{00E2}' in MOJIBAKE_MINUS;
    if Occurs(MOJIBAKE_MINUS, s) {
      OccursChars(MOJIBAKE_MINUS, s);
      assert false;
    }
    CleanUnchanged(s);
  }

  /**
   * Only the masculine ordinal grows the text (by one character per
   * occurrence); zero-width spaces and left-to-right marks are deleted, and
   * each mojibake minus shrinks by two. When no mojibake minus arises, the
   * result is exactly the per-character translation.
   */
  lemma RemoveAsciiCharsLength(s: string)
    ensures |RemoveAsciiChars(s)| <= |s| - multiset(s)[ZERO_WIDTH_SPACE]
                                       - multiset(s)[LEFT_TO_RIGHT_MARK]
                                       + multiset(s)[MASCULINE_ORDINAL]
    ensures !Occurs(MOJIBAKE_MINUS, Translate(s)) ==> RemoveAsciiChars(s) == Translate(s)
  {
    if !Occurs(MOJIBAKE_MINUS, Translate(s)) {
      ReplaceAllAbsent(Translate(s), MOJIBAKE_MINUS, "-");
    }
  }
}
