/**
 * Python's `str.replace(old, new)` for a non-empty `old`: every
 * non-overlapping occurrence of the pattern, found scanning left to right,
 * is replaced by the replacement text.
 */
module StrReplace {

  /** `pat` is a prefix of `s`. */
  predicate IsPrefix(pat: string, s: string) {
    |pat| <= |s| && s[..|pat|] == pat
  }

  /** `pat` occurs in `s` as a contiguous block (Python's `pat in s`). */
  predicate Occurs(pat: string, s: string)
    decreases |s|
  {
    IsPrefix(pat, s) || (|s| > 0 && Occurs(pat, s[1..]))
  }

  /**
   * `s.replace(pat, rep)`: at each position either the pattern matches, and
   * is consumed and replaced, or one character is copied and the scan
   * moves on by one.
   */
  function ReplaceAll(s: string, pat: string, rep: string): (r: string)
    requires |pat| > 0
    ensures |rep| <= |pat| ==> |r| <= |s|
    ensures forall x :: x in r ==> x in s || x in rep
    decreases |s|
  {
    if |s| < |pat| then s
    else if s[..|pat|] == pat then rep + ReplaceAll(s[|pat|..], pat, rep)
    else [s[0]] + ReplaceAll(s[1..], pat, rep)
  }

  /** A string shorter than the pattern cannot contain it. */
  lemma {:induction false} ShortNotOccurs(pat: string, s: string)
    requires |s| < |pat|
    ensures !Occurs(pat, s)
    decreases |s|
  {
    if |s| > 0 {
      ShortNotOccurs(pat, s[1..]);
    }
  }

  /** Every character of an occurring pattern is a character of the string. */
  lemma {:induction false} OccursChars(pat: string, s: string)
    requires Occurs(pat, s)
    ensures forall x :: x in pat ==> x in s
    decreases |s|
  {
    if IsPrefix(pat, s) {
      forall x | x in pat ensures x in s {
        var i :| 0 <= i < |pat| && pat[i] == x;
        assert s[i] == s[..|pat|][i];
      }
    } else {
      OccursChars(pat, s[1..]);
      forall x | x in pat ensures x in s {
        assert x in s[1..];
      }
    }
  }

  /** A one-character pattern occurs exactly when the character is present. */
  lemma {:induction false} OccursSingle(c: char, s: string)
    ensures Occurs([c], s) <==> c in s
    decreases |s|
  {
    if |s| > 0 {
      OccursSingle(c, s[1..]);
      assert s == [s[0]] + s[1..];
    }
  }

  /** Replacing finds nothing to do in a string that lacks the pattern. */
  lemma {:induction false} ReplaceAllAbsent(s: string, pat: string, rep: string)
    requires |pat| > 0
    requires !Occurs(pat, s)
    ensures ReplaceAll(s, pat, rep) == s
    decreases |s|
  {
    if |s| >= |pat| {
      ReplaceAllAbsent(s[1..], pat, rep);
      assert s == [s[0]] + s[1..];
    }
  }

  /**
   * Replacing a single character works character by character, so it
   * distributes over concatenation.
   */
  lemma {:induction false} ReplaceCharAppend(a: string, b: string, c: char, rep: string)
    ensures ReplaceAll(a + b, [c], rep) == ReplaceAll(a, [c], rep) + ReplaceAll(b, [c], rep)
    decreases |a|
  {
    if a == [] {
      assert a + b == b;
    } else {
      assert (a + b)[1..] == a[1..] + b;
      assert (a + b)[..1] == a[..1];
      ReplaceCharAppend(a[1..], b, c, rep);
    }
  }

  /** On a one-character string, replacing a character is a lookup. */
  lemma ReplaceCharSingleton(x: char, c: char, rep: string)
    ensures ReplaceAll([x], [c], rep) == if x == c then rep else [x]
  {
    assert [x][..1] == [x];
    assert ReplaceAll([], [c], rep) == [];
  }

  /** A string that starts with a character foreign to the pattern, followed by one free of it, is free of it. */
  lemma {:induction false} NotOccursPrepend(pat: string, a: string, u: string)
    requires |pat| > 0
    requires forall x :: x in a ==> x !in pat
    requires !Occurs(pat, u)
    ensures !Occurs(pat, a + u)
    decreases |a|
  {
    if a == [] {
      assert a + u == u;
    } else {
      assert (a + u)[1..] == a[1..] + u;
      assert a[0] in a && pat[0] in pat;
      assert !IsPrefix(pat, a + u) by {
        if |pat| <= |a + u| {
          assert (a + u)[..|pat|][0] == a[0];
        }
      }
      NotOccursPrepend(pat, a[1..], u);
    }
  }

  /**
   * When the replacement starts with a character foreign to the pattern,
   * an output prefix made only of pattern characters was copied verbatim
   * from the input.
   */
  lemma {:induction false} CopiedPrefix(t: string, pat: string, rep: string, k: nat)
    requires |pat| > 0 && |rep| > 0 && rep[0] !in pat
    requires k <= |ReplaceAll(t, pat, rep)|
    requires forall j :: 0 <= j < k ==> ReplaceAll(t, pat, rep)[j] in pat
    ensures k <= |t| && ReplaceAll(t, pat, rep)[..k] == t[..k]
    decreases |t|
  {
    var r := ReplaceAll(t, pat, rep);
    if k > 0 && |t| >= |pat| {
      assert r[0] in pat;
      assert t[..|pat|] != pat;
      var r' := ReplaceAll(t[1..], pat, rep);
      assert r == [t[0]] + r';
      forall j | 0 <= j < k - 1 ensures r'[j] in pat {
        assert r'[j] == r[j + 1];
      }
      CopiedPrefix(t[1..], pat, rep, k - 1);
      assert r[..k] == [t[0]] + r'[..k - 1];
      assert t[..k] == [t[0]] + t[1..][..k - 1];
    }
  }

  /**
   * After replacing, the pattern no longer occurs, provided the
   * replacement shares no character with the pattern and, for a pattern
   * of two or more characters, is not empty (deleting a pattern could
   * otherwise join its neighbours into a new occurrence).
   */
  lemma {:induction false} ReplaceAllRemoves(s: string, pat: string, rep: string)
    requires |pat| > 0
    requires forall x :: x in rep ==> x !in pat
    requires |pat| == 1 || |rep| > 0
    ensures !Occurs(pat, ReplaceAll(s, pat, rep))
    decreases |s|
  {
    var m := |pat|;
    var r := ReplaceAll(s, pat, rep);
    if |s| < m {
      ShortNotOccurs(pat, s);
    } else if s[..m] == pat {
      ReplaceAllRemoves(s[m..], pat, rep);
      NotOccursPrepend(pat, rep, ReplaceAll(s[m..], pat, rep));
    } else {
      var r' := ReplaceAll(s[1..], pat, rep);
      ReplaceAllRemoves(s[1..], pat, rep);
      assert r == [s[0]] + r';
      assert r[1..] == r';
      if IsPrefix(pat, r) {
        if m == 1 {
          assert false;
        } else {
          assert rep[0] in rep;
          forall j | 0 <= j < m - 1 ensures r'[j] in pat {
            assert r'[j] == r[..m][j + 1];
          }
          assert s[..m] == [s[0]] + s[1..][..m - 1];
          assert r[..m] == [s[0]] + r'[..m - 1];
          CopiedPrefix(s[1..], pat, rep, m - 1);
          assert false;
        }
      }
    }
  }

  /**
   * A character foreign to the pattern can never be part of a match, so it
   * is copied to the output in its place and splits the scan in two.
   */
  lemma {:induction false} ReplaceAllSplit(a: string, x: char, b: string, pat: string, rep: string)
    requires |pat| > 0 && x !in pat
    ensures ReplaceAll(a + [x] + b, pat, rep)
         == ReplaceAll(a, pat, rep) + [x] + ReplaceAll(b, pat, rep)
    decreases |a|
  {
    var m := |pat|;
    var s := a + [x] + b;
    if |s| < m {
      assert ReplaceAll(b, pat, rep) == b;
    } else {
      // a match starting inside `a` cannot reach `x`
      assert |a| < m ==> s[..m][|a|] == x;
      if |a| >= m && a[..m] == pat {
        assert s[..m] == a[..m];
        assert s[m..] == a[m..] + [x] + b;
        assert ReplaceAll(s, pat, rep) == rep + ReplaceAll(s[m..], pat, rep);
        ReplaceAllSplit(a[m..], x, b, pat, rep);
      } else {
        assert s[..m] != pat;
        assert ReplaceAll(s, pat, rep) == [s[0]] + ReplaceAll(s[1..], pat, rep);
        if a == [] {
          assert s[1..] == b;
        } else {
          assert s[1..] == a[1..] + [x] + b;
          assert ReplaceAll(a, pat, rep) == [a[0]] + ReplaceAll(a[1..], pat, rep);
          ReplaceAllSplit(a[1..], x, b, pat, rep);
        }
      }
    }
  }

  /** Deleting a two-character pattern can create a fresh occurrence of it. */
  lemma DeletionCanRecreate()
    ensures Occurs("ab", ReplaceAll("aabb", "ab", ""))
  {
    assert "aabb"[..2][1] == 'a';
    assert "aabb"[1..][..2] == "ab";
    assert "aabb"[1..][2..] == "b";
    assert ReplaceAll("aabb", "ab", "") == "a" + ReplaceAll("abb", "ab", "");
    assert ReplaceAll("abb", "ab", "") == ReplaceAll("b", "ab", "");
    assert ReplaceAll("aabb", "ab", "") == "ab";
    assert IsPrefix("ab", "ab");
  }

  /** Occurrences are taken left to right and do not overlap. */
  lemma NonOverlappingExample()
    ensures ReplaceAll("aaa", "aa", "b") == "ba"
  {
    assert "aaa"[..2] == "aa";
    assert "aaa"[2..] == "a";
  }
}
