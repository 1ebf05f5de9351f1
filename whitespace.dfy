/**
 * `remove_extra_whitespace` of src/common/util.py: `re.sub(r" +", " ", text)`,
 * which rewrites every maximal run of U+0020 spaces as one space. Only
 * U+0020 is touched; tabs, newlines and no-break spaces are ordinary
 * characters here.
 */
module Whitespace {

  /** No space is immediately followed by another space. */
  predicate NoDoubleSpace(s: string) {
    forall i :: 1 <= i < |s| && s[i] == ' ' ==> s[i - 1] != ' '
  }

  /** The characters of `s` other than U+0020, in order. */
  function NonSpaces(s: string): string
    decreases |s|
  {
    if s == [] then []
    else if s[0] == ' ' then NonSpaces(s[1..])
    else [s[0]] + NonSpaces(s[1..])
  }

  /** `s` without its leading run of spaces: the end of the regex match `" +"`. */
  function DropLeadingSpaces(s: string): (r: string)
    ensures |r| <= |s| && r == s[|s| - |r|..]
    ensures r == [] || r[0] != ' '
    ensures forall i :: 0 <= i < |s| - |r| ==> s[i] == ' '
    decreases |s|
  {
    if s != [] && s[0] == ' ' then DropLeadingSpaces(s[1..]) else s
  }

  /**
   * `remove_extra_whitespace(text)`: scanning left to right, a run of one or
   * more spaces is replaced by a single space; other characters are copied.
   */
  function RemoveExtraWhitespace(text: string): (r: string)
    ensures |r| <= |text|
    ensures |r| == 0 <==> |text| == 0
    ensures |r| > 0 ==> r[0] == text[0]
    ensures NoDoubleSpace(r)
    decreases |text|
  {
    if text == [] then []
    else if text[0] == ' ' then [' '] + RemoveExtraWhitespace(DropLeadingSpaces(text))
    else [text[0]] + RemoveExtraWhitespace(text[1..])
  }

  /**
   * Reference definition, one character at a time: a space is dropped
   * exactly when the character before it was a space too.
   */
  function KeepFirstSpaces(s: string, afterSpace: bool): string
    decreases |s|
  {
    if s == [] then []
    else if s[0] == ' ' && afterSpace then KeepFirstSpaces(s[1..], true)
    else [s[0]] + KeepFirstSpaces(s[1..], s[0] == ' ')
  }

  /** Leading spaces are invisible to the reference once a space has been seen. */
  lemma {:induction false} KeepFirstSpacesSkip(s: string)
    ensures KeepFirstSpaces(s, true) == KeepFirstSpaces(DropLeadingSpaces(s), true)
    decreases |s|
  {
    if s != [] && s[0] == ' ' {
      KeepFirstSpacesSkip(s[1..]);
    }
  }

  /** `remove_extra_whitespace` agrees with the reference on every input. */
  lemma {:induction false} RemoveExtraWhitespaceReference(s: string)
    ensures RemoveExtraWhitespace(s) == KeepFirstSpaces(s, false)
    decreases |s|
  {
    if s == [] {
    } else if s[0] == ' ' {
      var d := DropLeadingSpaces(s);
      assert d == DropLeadingSpaces(s[1..]);
      KeepFirstSpacesSkip(s[1..]);
      // `d` does not start with a space, so having seen one makes no difference
      assert KeepFirstSpaces(d, true) == KeepFirstSpaces(d, false);
      RemoveExtraWhitespaceReference(d);
    } else {
      RemoveExtraWhitespaceReference(s[1..]);
    }
  }

  /** Leading spaces hold no non-space character. */
  lemma {:induction false} NonSpacesDrop(s: string)
    ensures NonSpaces(DropLeadingSpaces(s)) == NonSpaces(s)
    decreases |s|
  {
    if s != [] && s[0] == ' ' {
      NonSpacesDrop(s[1..]);
    }
  }

  /** Every character other than U+0020 survives, in its original order. */
  lemma {:induction false} NonSpacesPreserved(s: string)
    ensures NonSpaces(RemoveExtraWhitespace(s)) == NonSpaces(s)
    decreases |s|
  {
    if s == [] {
    } else if s[0] == ' ' {
      var d := DropLeadingSpaces(s);
      NonSpacesDrop(s);
      NonSpacesPreserved(d);
      assert ([' '] + RemoveExtraWhitespace(d))[1..] == RemoveExtraWhitespace(d);
    } else {
      NonSpacesPreserved(s[1..]);
      assert ([s[0]] + RemoveExtraWhitespace(s[1..]))[1..] == RemoveExtraWhitespace(s[1..]);
    }
  }

  /** A space run never disappears completely: the output has a space exactly when the input has one. */
  lemma {:induction false} SpacePresence(s: string)
    ensures ' ' in RemoveExtraWhitespace(s) <==> ' ' in s
    decreases |s|
  {
    if s != [] && s[0] != ' ' {
      SpacePresence(s[1..]);
      assert s == [s[0]] + s[1..];
    }
  }

  /** Text without two adjacent spaces, single spaces between words included, is unchanged. */
  lemma {:induction false} NoDoubleSpaceUnchanged(s: string)
    requires NoDoubleSpace(s)
    ensures RemoveExtraWhitespace(s) == s
    decreases |s|
  {
    if s != [] {
      assert NoDoubleSpace(s[1..]) by {
        forall i | 1 <= i < |s[1..]| && s[1..][i] == ' ' ensures s[1..][i - 1] != ' ' {
          assert s[i + 1] == ' ';
        }
      }
      if s[0] == ' ' {
        assert |s| > 1 ==> s[1] != ' ';
        assert DropLeadingSpaces(s) == s[1..];
      }
      NoDoubleSpaceUnchanged(s[1..]);
      assert s == [s[0]] + s[1..];
    }
  }

  /** The strings left unchanged are exactly those without two adjacent spaces. */
  lemma FixedPointIffNoDoubleSpace(s: string)
    ensures RemoveExtraWhitespace(s) == s <==> NoDoubleSpace(s)
  {
    if NoDoubleSpace(s) {
      NoDoubleSpaceUnchanged(s);
    }
  }

  /** Collapsing twice is collapsing once. */
  lemma RemoveExtraWhitespaceIdempotent(s: string)
    ensures RemoveExtraWhitespace(RemoveExtraWhitespace(s)) == RemoveExtraWhitespace(s)
  {
    NoDoubleSpaceUnchanged(RemoveExtraWhitespace(s));
  }
}
