/**
 Text utilities the knowledge base relies on: the length checks and the question
 budget are all measured on `text.strip()`, Python's removal of leading and
 trailing whitespace. Strings are sequences of Unicode scalar values: Python's
 code points without the lone surrogates (U+D800 to U+DFFF), which a Dafny
 `char` cannot hold.
 */
module Text {

  /** The code points for which Python's `str.isspace()` holds, i.e. the ones
      `str.strip()` removes when called without arguments. */
  predicate IsSpace(c: char)
  {
    || ('\t' <= c <= '\r')
    || ('\U{1C}' <= c <= '\U{1F}')
    || c == ' '
    || c == '\U{85}'
    || c == '\U{A0}'
    || c == '\U{1680}'
    || ('\U{2000}' <= c <= '\U{200A}')
    || c == '\U{2028}'
    || c == '\U{2029}'
    || c == '\U{202F}'
    || c == '\U{205F}'
    || c == '\U{3000}'
  }

  /** Number of whitespace code points at the start of `s`. */
  function LeadingSpaces(s: string): (n: nat)
    ensures n <= |s|
  {
    if |s| > 0 && IsSpace(s[0]) then 1 + LeadingSpaces(s[1..]) else 0
  }

  /** Number of whitespace code points at the end of `s`. */
  function TrailingSpaces(s: string): (n: nat)
    ensures n <= |s|
  {
    if |s| > 0 && IsSpace(s[|s| - 1]) then 1 + TrailingSpaces(s[..|s| - 1]) else 0
  }

  /** `LeadingSpaces` counts the longest run of whitespace at the start. */
  lemma {:induction false} LeadingSpacesMeaning(s: string)
    ensures forall k :: 0 <= k < LeadingSpaces(s) ==> IsSpace(s[k])
    ensures LeadingSpaces(s) < |s| ==> !IsSpace(s[LeadingSpaces(s)])
  {
    if |s| > 0 && IsSpace(s[0]) {
      LeadingSpacesMeaning(s[1..]);
      forall k | 1 <= k < LeadingSpaces(s)
        ensures IsSpace(s[k])
      {
        assert s[k] == s[1..][k - 1];
      }
      if LeadingSpaces(s) < |s| {
        assert s[LeadingSpaces(s)] == s[1..][LeadingSpaces(s[1..])];
      }
    }
  }

  /** `TrailingSpaces` counts the longest run of whitespace at the end. */
  lemma {:induction false} TrailingSpacesMeaning(s: string)
    ensures forall k :: |s| - TrailingSpaces(s) <= k < |s| ==> IsSpace(s[k])
    ensures TrailingSpaces(s) < |s| ==> !IsSpace(s[|s| - TrailingSpaces(s) - 1])
  {
    if |s| > 0 && IsSpace(s[|s| - 1]) {
      var u := s[..|s| - 1];
      TrailingSpacesMeaning(u);
      forall k | |s| - TrailingSpaces(s) <= k < |s| - 1
        ensures IsSpace(s[k])
      {
        assert s[k] == u[k];
      }
      if TrailingSpaces(s) < |s| {
        assert s[|s| - TrailingSpaces(s) - 1] == u[|u| - TrailingSpaces(u) - 1];
      }
    }
  }

  /** `s[i..j]` is what remains of `s` once its leading and trailing whitespace
      is removed: everything outside the slice is whitespace, and a non-empty
      slice neither starts nor ends with whitespace. */
  predicate StripsTo(s: string, i: int, j: int)
  {
    && 0 <= i <= j <= |s|
    && (forall k :: 0 <= k < i ==> IsSpace(s[k]))
    && (forall k :: j <= k < |s| ==> IsSpace(s[k]))
    && (i < j ==> !IsSpace(s[i]) && !IsSpace(s[j - 1]))
  }

  /** Python's `s.lstrip()`. */
  function StripStart(s: string): (r: string)
    ensures |r| <= |s|
  {
    if |s| > 0 && IsSpace(s[0]) then StripStart(s[1..]) else s
  }

  /** Python's `s.rstrip()`. */
  function StripEnd(s: string): (r: string)
    ensures |r| <= |s|
  {
    if |s| > 0 && IsSpace(s[|s| - 1]) then StripEnd(s[..|s| - 1]) else s
  }

  /** Python's `s.strip()`. */
  function Strip(s: string): (r: string)
    ensures |r| <= |s|
  {
    StripEnd(StripStart(s))
  }

  lemma {:induction false} StripStartDropsLeadingSpaces(s: string)
    ensures StripStart(s) == s[LeadingSpaces(s)..]
  {
    if |s| > 0 && IsSpace(s[0]) {
      StripStartDropsLeadingSpaces(s[1..]);
      assert s[1..][LeadingSpaces(s[1..])..] == s[LeadingSpaces(s)..];
    }
  }

  lemma {:induction false} StripEndDropsTrailingSpaces(s: string)
    ensures StripEnd(s) == s[..|s| - TrailingSpaces(s)]
  {
    if |s| > 0 && IsSpace(s[|s| - 1]) {
      StripEndDropsTrailingSpaces(s[..|s| - 1]);
      assert s[..|s| - 1][..|s| - 1 - TrailingSpaces(s[..|s| - 1])] == s[..|s| - TrailingSpaces(s)];
    }
  }

  /** The trailing whitespace of a suffix of `s` is trailing whitespace of `s`. */
  lemma TrailingSpacesOfSuffix(s: string, l: nat)
    requires l <= |s|
    ensures l + TrailingSpaces(s[l..]) <= |s|
    ensures forall k :: |s| - TrailingSpaces(s[l..]) <= k < |s| ==> IsSpace(s[k])
    ensures l + TrailingSpaces(s[l..]) < |s| ==> !IsSpace(s[|s| - TrailingSpaces(s[l..]) - 1])
  {
    var t := s[l..];
    var n := TrailingSpaces(t);
    TrailingSpacesMeaning(t);
    forall k | |s| - n <= k < |s|
      ensures IsSpace(s[k])
    {
      assert s[k] == t[k - l];
    }
    if n < |t| {
      assert s[|s| - n - 1] == t[|t| - n - 1];
    }
  }

  /** What `Strip` keeps is the slice between the leading whitespace and the
      trailing whitespace that follows it. */
  lemma StripIsSlice(s: string)
    ensures LeadingSpaces(s) + |Strip(s)| + TrailingSpaces(s[LeadingSpaces(s)..]) == |s|
    ensures Strip(s) == s[LeadingSpaces(s)..LeadingSpaces(s) + |Strip(s)|]
  {
    var l := LeadingSpaces(s);
    var t := s[l..];
    var e := |t| - TrailingSpaces(t);
    StripStartDropsLeadingSpaces(s);
    StripEndDropsTrailingSpaces(t);
    assert Strip(s) == t[..e];
    assert t[..e] == s[l..l + e];
  }

  /** `Strip` removes exactly the leading and the trailing whitespace: what it
      returns is a slice of `s` meeting the stripping conditions. */
  lemma StripRemovesOuterSpace(s: string)
    ensures var l := LeadingSpaces(s);
      && StripsTo(s, l, l + |Strip(s)|)
      && Strip(s) == s[l..l + |Strip(s)|]
  {
    StripIsSlice(s);
    LeadingSpacesMeaning(s);
    TrailingSpacesOfSuffix(s, LeadingSpaces(s));
  }

  /** Stripping has exactly one possible outcome: every slice that meets the
      stripping conditions is the one `Strip` returns. */
  lemma StripUnique(s: string, i: int, j: int)
    requires StripsTo(s, i, j)
    ensures s[i..j] == Strip(s)
  {
    var l := LeadingSpaces(s);
    var e := l + |Strip(s)|;
    StripRemovesOuterSpace(s);
    LeadingSpacesMeaning(s);
    if i < j {
      // both s[i] and s[l] are the first code point that is not whitespace
      assert !IsSpace(s[i]);
      assert l <= i;
      assert l < |s| && !IsSpace(s[l]);
      assert i <= l;
      assert l < e;
      // both s[j - 1] and s[e - 1] are the last one
      assert !IsSpace(s[j - 1]) && !IsSpace(s[e - 1]);
      assert e <= j;
      assert j <= e;
    } else {
      assert forall k :: 0 <= k < |s| ==> IsSpace(s[k]);
      assert l == |s|;
    }
  }

  /** Stripping twice is stripping once. */
  lemma StripIdempotent(s: string)
    ensures Strip(Strip(s)) == Strip(s)
  {
    var r := Strip(s);
    StripRemovesOuterSpace(s);
    assert StripsTo(r, 0, |r|);
    StripUnique(r, 0, |r|);
    assert r[0..|r|] == r;
  }
}
