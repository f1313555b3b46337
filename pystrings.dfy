/**
 * Python's `str.strip()` with no argument, as used on a base name before its
 * forbidden characters are substituted. Python strips every character for
 * which `str.isspace` holds, which is wider than the ASCII blank: it takes in
 * the four "information separator" controls 0x1C-0x1F and a few Unicode spaces.
 */
module PyStrings {

  /**
   * `str.isspace` on one character (Python 3, Unicode strings). Below 0x80
   * only the space and control characters qualify; the period never does.
   */
  function IsSpace(c: char): (r: bool)
    ensures c == ' ' || c == '\t' || c == '\n' || c == '\r' ==> r
    ensures r && c as int < 0x80 ==> c == ' ' || c as int < 0x20
    ensures r ==> c as int <= 0x3000
  {
    var n := c as int;
    (0x09 <= n <= 0x0D) || (0x1C <= n <= 0x20) || n == 0x85 || n == 0xA0 || n == 0x1680
    || (0x2000 <= n <= 0x200A) || n == 0x2028 || n == 0x2029 || n == 0x202F || n == 0x205F
    || n == 0x3000
  }

  predicate AllSpace(s: string) {
    forall k :: 0 <= k < |s| ==> IsSpace(s[k])
  }

  /** Number of whitespace characters at the front of `s`. */
  function LeadingSpace(s: string): (n: nat)
    ensures n <= |s|
    ensures n < |s| ==> !IsSpace(s[n])
  {
    if s == [] || !IsSpace(s[0]) then 0
    else 1 + LeadingSpace(s[1..])
  }

  /** Number of whitespace characters at the back of `s`. */
  function TrailingSpace(s: string): (n: nat)
    ensures n <= |s|
    ensures n < |s| ==> !IsSpace(s[|s| - 1 - n])
  {
    if s == [] || !IsSpace(s[|s| - 1]) then 0
    else 1 + TrailingSpace(s[..|s| - 1])
  }

  /** What `LeadingSpace` counts is whitespace. */
  lemma {:induction false} LeadingSpaceIsBlank(s: string)
    ensures forall k :: 0 <= k < LeadingSpace(s) ==> IsSpace(s[k])
  {
    if s != [] && IsSpace(s[0]) {
      LeadingSpaceIsBlank(s[1..]);
      forall k | 1 <= k < LeadingSpace(s) ensures IsSpace(s[k]) {
        assert s[k] == s[1..][k - 1];
      }
    }
  }

  /** What `TrailingSpace` counts is whitespace. */
  lemma {:induction false} TrailingSpaceIsBlank(s: string)
    ensures forall k :: |s| - TrailingSpace(s) <= k < |s| ==> IsSpace(s[k])
  {
    if s != [] && IsSpace(s[|s| - 1]) {
      var init := s[..|s| - 1];
      TrailingSpaceIsBlank(init);
      forall k | |s| - TrailingSpace(s) <= k < |s| - 1 ensures IsSpace(s[k]) {
        assert s[k] == init[k];
      }
    }
  }

  /** `s.strip()`: `s` without its leading and trailing whitespace. */
  function Strip(s: string): (r: string)
    ensures |r| <= |s|
    ensures r != [] ==> !IsSpace(r[0]) && !IsSpace(r[|r| - 1])
  {
    var lo := LeadingSpace(s);
    var t := s[lo..];
    assert |t| == |s| - lo;
    var hi := TrailingSpace(t);
    assert hi < |t| ==> s[|s| - 1 - hi] == t[|t| - 1 - hi];
    s[lo..|s| - hi]
  }

  /** A blank prefix adds its length to the leading whitespace. */
  lemma {:induction false} LeadingSpaceAppend(a: string, t: string)
    requires AllSpace(a)
    ensures LeadingSpace(a + t) == |a| + LeadingSpace(t)
  {
    if a == [] {
      assert a + t == t;
    } else {
      assert (a + t)[0] == a[0];
      assert (a + t)[1..] == a[1..] + t;
      LeadingSpaceAppend(a[1..], t);
    }
  }

  /** A blank suffix adds its length to the trailing whitespace. */
  lemma {:induction false} TrailingSpaceAppend(t: string, b: string)
    requires AllSpace(b)
    ensures TrailingSpace(t + b) == TrailingSpace(t) + |b|
  {
    if b == [] {
      assert t + b == t;
    } else {
      var s := t + b;
      var init := b[..|b| - 1];
      assert s[|s| - 1] == b[|b| - 1];
      assert s[..|s| - 1] == t + init;
      TrailingSpaceAppend(t, init);
    }
  }

  /** A string cut into blank front, core and blank back strips to its core. */
  lemma StripUnique(a: string, m: string, b: string)
    requires AllSpace(a) && AllSpace(b)
    requires m != [] ==> !IsSpace(m[0]) && !IsSpace(m[|m| - 1])
    ensures Strip(a + m + b) == m
  {
    var s := a + m + b;
    assert s == a + (m + b);
    LeadingSpaceAppend(a, m + b);
    if m == [] {
      assert m + b == b + [];
      LeadingSpaceAppend(b, []);
      assert s[|s|..] == [];
    } else {
      assert (m + b)[0] == m[0];
      assert LeadingSpace(m + b) == 0;
      var t := s[|a|..];
      assert t == m + b;
      TrailingSpaceAppend(m, b);
      assert TrailingSpace(m) == 0;
      assert s[|a|..|s| - |b|] == m;
    }
  }

  /** A string that neither starts nor ends with whitespace is left as it is. */
  lemma StripKeepsTrimmed(s: string)
    requires s != [] ==> !IsSpace(s[0]) && !IsSpace(s[|s| - 1])
    ensures Strip(s) == s
  {
    assert [] + s + [] == s;
    StripUnique([], s, []);
  }

  /** Stripping twice is stripping once. */
  lemma StripIdempotent(s: string)
    ensures Strip(Strip(s)) == Strip(s)
  {
    StripKeepsTrimmed(Strip(s));
  }

  /** Strip keeps the slice of `s` that starts at its first non-blank character. */
  lemma StripKeepsSlice(s: string)
    ensures var lo := LeadingSpace(s);
      lo + |Strip(s)| <= |s| && Strip(s) == s[lo..lo + |Strip(s)|]
  {
  }

  /** Everything strip drops at the back of `s` is whitespace. */
  lemma StripDropsTrailingBlanks(s: string)
    ensures forall k :: LeadingSpace(s) + |Strip(s)| <= k < |s| ==> IsSpace(s[k])
  {
    var lo := LeadingSpace(s);
    var t := s[lo..];
    TrailingSpaceIsBlank(t);
    forall k | lo + |Strip(s)| <= k < |s| ensures IsSpace(s[k]) {
      assert s[k] == t[k - lo];
    }
  }

  /**
   * What strip removes is whitespace, and it removes it only at the two ends:
   * the result is the slice of `s` that starts at the first non-blank character.
   */
  lemma StripIsSlice(s: string)
    ensures var lo := LeadingSpace(s); var hi := lo + |Strip(s)|;
      && hi <= |s| && Strip(s) == s[lo..hi]
      && (forall k :: 0 <= k < lo ==> IsSpace(s[k]))
      && (forall k :: hi <= k < |s| ==> IsSpace(s[k]))
  {
    StripKeepsSlice(s);
    LeadingSpaceIsBlank(s);
    StripDropsTrailingBlanks(s);
  }

  /** A name that is blank throughout strips to the empty string, and only such a name. */
  lemma StripEmpty(s: string)
    ensures Strip(s) == [] <==> AllSpace(s)
  {
    StripIsSlice(s);
    if AllSpace(s) {
      assert s == s + [] + [];
      StripUnique(s, [], []);
    } else {
      var lo := LeadingSpace(s);
      assert lo < |s|;
      assert Strip(s) == s[lo..lo + |Strip(s)|];
      assert s[lo..] != [];
    }
  }
}
