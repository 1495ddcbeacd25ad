/** The text shown for a node or token in the result list is clipped by `Truncate`. */
module SyntaxNodeOrTokenListItem {
  import opened Wrappers

  /** How many characters of the node's text are kept before line breaks are removed. */
  const MaxLength: nat := 30

  /** `string.Replace(old, "")` for a one-character `old`: every occurrence of `c` deleted. */
  function RemoveAll(s: string, c: char): (r: string)
    ensures |r| <= |s|
    ensures c !in r
    ensures forall x :: x in r ==> x in s
  {
    if s == [] then [] else (if s[0] == c then [] else [s[0]]) + RemoveAll(s[1..], c)
  }

  predicate IsLineBreak(c: char) {
    c == '\n' || c == '\r'
  }

  /** Reference definition: `s` with every CR and LF deleted, other characters kept in order, in one pass. */
  function WithoutLineBreaks(s: string): string {
    if s == [] then [] else (if IsLineBreak(s[0]) then [] else [s[0]]) + WithoutLineBreaks(s[1..])
  }

  /**
   * `Truncate`: a null or empty string is returned as it is; otherwise the
   * first 30 characters (fewer if the string is shorter), with LF and then CR
   * replaced by nothing.
   */
  function Truncate(value: Option<string>): (r: Option<string>)
    ensures value == None || value == Some("") ==> r == value
    ensures value.Some? ==> r.Some? && |r.value| <= MaxLength
    ensures value.Some? ==> '\n' !in r.value && '\r' !in r.value
  {
    match value
    case None => None
    case Some(s) =>
      if s == "" then value
      else
        var head := s[..if |s| < MaxLength then |s| else MaxLength];
        Some(RemoveAll(RemoveAll(head, '\n'), '\r'))
  }

  /** Deleting LF and then CR is the same as deleting both line-break characters in one pass. */
  lemma {:induction false} RemoveBothIsWithoutLineBreaks(s: string)
    ensures RemoveAll(RemoveAll(s, '\n'), '\r') == WithoutLineBreaks(s)
  {
    if s != [] {
      RemoveBothIsWithoutLineBreaks(s[1..]);
      var tail := RemoveAll(s[1..], '\n');
      if s[0] == '\n' {
        assert RemoveAll(s, '\n') == tail;
      } else {
        assert RemoveAll(s, '\n') == [s[0]] + tail;
        assert ([s[0]] + tail)[1..] == tail;
      }
    }
  }

  /** A string without line breaks is left alone by the one-pass deletion. */
  lemma {:induction false} WithoutLineBreaksIdentity(s: string)
    requires '\n' !in s && '\r' !in s
    ensures WithoutLineBreaks(s) == s
  {
    if s != [] {
      assert s[0] in s;
      assert forall x :: x in s[1..] ==> x in s;
      WithoutLineBreaksIdentity(s[1..]);
    }
  }

  /** Each line break deleted makes the result one character shorter than `s`. */
  lemma {:induction false} WithoutLineBreaksShorter(s: string, k: nat)
    requires k < |s| && IsLineBreak(s[k])
    ensures |WithoutLineBreaks(s)| < |s|
  {
    WithoutLineBreaksNoLonger(s[1..]);
    if k > 0 {
      WithoutLineBreaksShorter(s[1..], k - 1);
    }
  }

  lemma {:induction false} WithoutLineBreaksNoLonger(s: string)
    ensures |WithoutLineBreaks(s)| <= |s|
  {
    if s != [] {
      WithoutLineBreaksNoLonger(s[1..]);
    }
  }

  /** The result is exactly the kept prefix with its CR and LF characters deleted, everything else in order. */
  lemma TruncateIsPrefixWithoutLineBreaks(s: string)
    requires s != ""
    ensures Truncate(Some(s)) == Some(WithoutLineBreaks(s[..if |s| < MaxLength then |s| else MaxLength]))
  {
    RemoveBothIsWithoutLineBreaks(s[..if |s| < MaxLength then |s| else MaxLength]);
  }

  /** A string of at most 30 characters without line breaks is shown in full. */
  lemma TruncateShortPlainString(s: string)
    requires |s| <= MaxLength && '\n' !in s && '\r' !in s
    ensures Truncate(Some(s)) == Some(s)
  {
    if s != "" {
      assert s[..|s|] == s;
      TruncateIsPrefixWithoutLineBreaks(s);
      WithoutLineBreaksIdentity(s);
    }
  }

  /**
   * Cutting comes before deleting: with at least 30 characters and a line
   * break among the first 30, the result is shorter than 30.
   */
  lemma TruncateCutsBeforeRemoving(s: string, k: nat)
    requires MaxLength <= |s| && k < MaxLength && IsLineBreak(s[k])
    ensures |Truncate(Some(s)).value| < MaxLength
  {
    var head := s[..MaxLength];
    TruncateIsPrefixWithoutLineBreaks(s);
    WithoutLineBreaksShorter(head, k);
  }
}
