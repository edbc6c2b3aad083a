/**
 * Making the phylum title and the sheet name safe for a Windows file name:
 * every character of a fixed forbidden set is deleted, and a title that pandas
 * reported as an unnamed column is replaced by a fixed fallback.
 */
module FileNames {
  import opened Sequences

  /** The characters a Windows file name may not contain: backslash / : * " < > | and the dot. */
  const SpecialChars: string := "\\/:*\"<>|."

  /** The title used when the header cell held no name. */
  const FallbackTitle: string := "Unspecified Phylum"

  /** The marker pandas puts in the name of a column whose header cell is empty. */
  const UnnamedMarker: string := "Unnamed"

  /** `s` with every character that occurs in `banned` deleted. */
  function Without(s: string, banned: string): (r: string)
    ensures |r| <= |s|
    ensures forall i :: 0 <= i < |r| ==> r[i] !in banned
  {
    if s == [] then []
    else Without(s[..|s| - 1], banned) + (if s[|s| - 1] in banned then [] else [s[|s| - 1]])
  }

  /** The file-name-safe form of `s`. */
  function Sanitized(s: string): string
  {
    Without(s, SpecialChars)
  }

  /** `sub` occurs in `s` as a contiguous block (Python's `sub in s`). */
  ghost predicate ContainsSubstring(s: string, sub: string)
  {
    exists i :: OccursAt(s, sub, i)
  }

  /** `sub` occurs in `s` starting at position `i`. */
  predicate OccursAt(s: string, sub: string, i: int)
  {
    0 <= i && i + |sub| <= |s| && s[i..i + |sub|] == sub
  }

  /** Deleting distributes over concatenation. */
  lemma {:induction false} WithoutConcat(a: string, b: string, banned: string)
    ensures Without(a + b, banned) == Without(a, banned) + Without(b, banned)
    decreases |b|
  {
    if b == [] {
      assert a + b == a;
    } else {
      var b' := b[..|b| - 1];
      assert (a + b)[..|a + b| - 1] == a + b';
      WithoutConcat(a, b', banned);
      assert b'[..|b'|] == b';
    }
  }

  /** A string without banned characters is left unchanged. */
  lemma {:induction false} WithoutKeepsClean(s: string, banned: string)
    requires forall i :: 0 <= i < |s| ==> s[i] !in banned
    ensures Without(s, banned) == s
  {
    if s != [] {
      WithoutKeepsClean(s[..|s| - 1], banned);
    }
  }

  /** Deleting the characters of `banned`, then the single character `c`, deletes the characters of `banned + [c]`. */
  lemma {:induction false} WithoutStep(s: string, banned: string, c: char)
    ensures Without(Without(s, banned), [c]) == Without(s, banned + [c])
  {
    if s != [] {
      var init, last := s[..|s| - 1], s[|s| - 1];
      WithoutStep(init, banned, c);
      var kept := if last in banned then [] else [last];
      WithoutConcat(Without(init, banned), kept, [c]);
    }
  }

  /** The characters that survive stay in their original order, and none is invented. */
  lemma {:induction false} WithoutIsSubsequence(s: string, banned: string)
    ensures IsSubsequence(Without(s, banned), s)
  {
    if s != [] {
      var init := s[..|s| - 1];
      var w := Without(s, banned);
      WithoutIsSubsequence(init, banned);
      if s[|s| - 1] in banned {
        assert w == Without(init, banned);
        if w != [] {
          assert w[|w| - 1] !in banned;
        }
      } else {
        assert w[..|w| - 1] == Without(init, banned);
      }
    }
  }

  /** Every character outside `banned` is kept as many times as it occurs; every banned one is gone. */
  lemma {:induction false} WithoutCounts(s: string, banned: string, x: char)
    ensures multiset(Without(s, banned))[x] == if x in banned then 0 else multiset(s)[x]
  {
    if s != [] {
      var init, last := s[..|s| - 1], s[|s| - 1];
      WithoutCounts(init, banned, x);
      assert s == init + [last];
      assert multiset(s) == multiset(init) + multiset{last};
      var kept := if last in banned then [] else [last];
      assert Without(s, banned) == Without(init, banned) + kept;
      assert multiset(Without(s, banned)) == multiset(Without(init, banned)) + multiset(kept);
    }
  }

  /** Sanitising is idempotent. */
  lemma {:induction false} SanitizedIdempotent(s: string)
    ensures Sanitized(Sanitized(s)) == Sanitized(s)
  {
    WithoutKeepsClean(Sanitized(s), SpecialChars);
  }

  /** Characterisation of the sanitised form: no forbidden character, every other character kept in order and in number. */
  lemma {:induction false} SanitizedSpec(s: string)
    ensures forall i :: 0 <= i < |Sanitized(s)| ==> Sanitized(s)[i] !in SpecialChars
    ensures IsSubsequence(Sanitized(s), s)
    ensures forall x :: x !in SpecialChars ==> multiset(Sanitized(s))[x] == multiset(s)[x]
  {
    WithoutIsSubsequence(s, SpecialChars);
    forall x | x !in SpecialChars
      ensures multiset(Sanitized(s))[x] == multiset(s)[x]
    {
      WithoutCounts(s, SpecialChars, x);
    }
  }

  /**
   * The script's loop: for each forbidden character in turn, replace its
   * occurrences by the empty string.
   */
  method StripSpecialChars(s: string) returns (r: string)
    ensures r == Sanitized(s)
  {
    r := s;
    WithoutKeepsClean([], SpecialChars);
    assert Without(s, SpecialChars[..0]) == s by {
      WithoutKeepsClean(s, []);
    }
    for k := 0 to |SpecialChars|
      invariant r == Without(s, SpecialChars[..k])
    {
      var c := SpecialChars[k];
      WithoutStep(s, SpecialChars[..k], c);
      r := Without(r, [c]);
      assert SpecialChars[..k + 1] == SpecialChars[..k] + [c];
    }
    assert SpecialChars[..|SpecialChars|] == SpecialChars;
  }

  /** The title fallback: an unnamed header becomes the fixed fallback, any other title its sanitised form. */
  method ResolveTitle(raw: string) returns (title: string)
    ensures ContainsSubstring(raw, UnnamedMarker) ==> title == FallbackTitle
    ensures !ContainsSubstring(raw, UnnamedMarker) ==> title == Sanitized(raw)
    ensures forall i :: 0 <= i < |title| ==> title[i] !in SpecialChars
  {
    if HasSubstring(raw, UnnamedMarker) {
      title := FallbackTitle;
    } else {
      title := StripSpecialChars(raw);
    }
  }

  /** Python's `sub in s`, decided by looking at every start position. */
  function HasSubstring(s: string, sub: string): (b: bool)
    ensures b <==> ContainsSubstring(s, sub)
    decreases |s|
  {
    if |s| < |sub| then false
    else if s[..|sub|] == sub then assert OccursAt(s, sub, 0); true
    else
      var rest := HasSubstring(s[1..], sub);
      assert rest ==> ContainsSubstring(s, sub) by {
        if rest {
          var i :| OccursAt(s[1..], sub, i);
          assert s[i + 1..i + 1 + |sub|] == s[1..][i..i + |sub|];
          assert OccursAt(s, sub, i + 1);
        }
      }
      assert ContainsSubstring(s, sub) ==> rest by {
        if ContainsSubstring(s, sub) {
          var i :| OccursAt(s, sub, i);
          assert i != 0;
          assert s[1..][i - 1..i - 1 + |sub|] == s[i..i + |sub|];
          assert OccursAt(s[1..], sub, i - 1);
        }
      }
      rest
  }

  /** A slash between two clean parts of a title is removed and nothing else is. */
  lemma {:induction false} SlashDropped(a: string, b: string)
    requires forall i :: 0 <= i < |a| ==> a[i] !in SpecialChars
    requires forall i :: 0 <= i < |b| ==> b[i] !in SpecialChars
    ensures Sanitized(a + "/" + b) == a + b
  {
    WithoutConcat(a + "/", b, SpecialChars);
    WithoutConcat(a, "/", SpecialChars);
    WithoutKeepsClean(a, SpecialChars);
    WithoutKeepsClean(b, SpecialChars);
    assert Without("/", SpecialChars) == Without([], SpecialChars) + [];
  }

  /** The name pandas gives a column with an empty header counts as a missing title. */
  lemma UnnamedHeaderExample()
    ensures HasSubstring("Unnamed: 0", UnnamedMarker)
  {
    assert OccursAt("Unnamed: 0", UnnamedMarker, 0);
  }
}
