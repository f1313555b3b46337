/**
 * The NTFS naming rules the checker enforces on a single base name, and the
 * "curated" name it proposes for an offending one.
 *
 * The forbidden set is the 32 ASCII control characters (code points 0-31)
 * and the nine characters < > : " / \ | ? * . A base name is invalid when it
 * holds a forbidden character or ends in a space or a period.
 */
module NtfsNames {
  import opened PyStrings

  /**
   * Membership in the checker's regular-expression character class: the
   * controls 0-31 and < > : " / \ | ? * (the backslash survives the literal
   * it is written in, because "\|" is no escape sequence in Python).
   */
  function IsInvalidChar(c: char): (r: bool)
    ensures c as int < 32 ==> r
    ensures r ==> c as int < 128 && c != ' ' && c != '.'
  {
    c as int < 32
    || c == '<' || c == '>' || c == ':' || c == '"' || c == '/'
    || c == '\\' || c == '|' || c == '?' || c == '*'
  }

  /** `contains_invalid_chars`: does the class match anywhere in `name`? */
  function ContainsInvalidChars(name: string): (r: bool)
    ensures r <==> exists i :: 0 <= i < |name| && IsInvalidChar(name[i])
  {
    if name == [] then false
    else if IsInvalidChar(name[0]) then true
    else
      var rest := ContainsInvalidChars(name[1..]);
      assert forall i :: 1 <= i < |name| ==> name[i] == name[1..][i - 1];
      rest
  }

  /** Python's `s.endswith(suffix)`. */
  function EndsWith(s: string, suffix: string): (r: bool)
    ensures suffix == [] ==> r
    ensures r ==> |suffix| <= |s|
    ensures |suffix| == 1 ==> (r <==> |s| > 0 && s[|s| - 1] == suffix[0])
  {
    |suffix| <= |s| && s[|s| - |suffix|..] == suffix
  }

  /** A string ends with every one of its suffixes, and with nothing longer than itself. */
  lemma EndsWithSuffix(prefix: string, suffix: string, longer: string)
    requires |longer| > |prefix + suffix|
    ensures EndsWith(prefix + suffix, suffix)
    ensures !EndsWith(prefix + suffix, longer)
  {
    assert (prefix + suffix)[|prefix|..] == suffix;
  }

  /** `has_invalid_name`: a trailing space or period, or a forbidden character. */
  function HasInvalidName(name: string): (r: bool)
    ensures r <==> (|name| > 0 && (name[|name| - 1] == ' ' || name[|name| - 1] == '.'))
                   || (exists i :: 0 <= i < |name| && IsInvalidChar(name[i]))
    ensures name == [] ==> !r
  {
    var badEnding := EndsWith(name, " ") || EndsWith(name, ".");
    assert |name| > 0 ==> name[|name| - 1..] == [name[|name| - 1]];
    badEnding || ContainsInvalidChars(name)
  }

  /** What one character of a name becomes under substitution by `sub`. */
  function Image(c: char, sub: string): string {
    if IsInvalidChar(c) then sub else [c]
  }

  /** The pattern's `sub`: every forbidden character, one by one, becomes `sub`. */
  function SubstituteInvalid(s: string, sub: string): (r: string)
    ensures |sub| == 1 ==> |r| == |s|
    ensures sub == [] ==> |r| <= |s|
  {
    if s == [] then [] else Image(s[0], sub) + SubstituteInvalid(s[1..], sub)
  }

  /** Number of forbidden characters in `s`. */
  function CountInvalid(s: string): (k: nat)
    ensures k <= |s|
    ensures k == 0 <==> !ContainsInvalidChars(s)
  {
    if s == [] then 0
    else
      var rest := CountInvalid(s[1..]);
      assert forall i :: 1 <= i < |s| ==> s[i] == s[1..][i - 1];
      (if IsInvalidChar(s[0]) then 1 else 0) + rest
  }

  /** `get_curated_name`: strip, then substitute every forbidden character. */
  function GetCuratedName(filename: string, subString: string): (r: string)
    ensures |subString| <= 1 ==> |r| <= |filename|
  {
    SubstituteInvalid(Strip(filename), subString)
  }

  /** Substitution works character by character: it distributes over concatenation. */
  lemma {:induction false} SubstituteAppend(a: string, b: string, sub: string)
    ensures SubstituteInvalid(a + b, sub) == SubstituteInvalid(a, sub) + SubstituteInvalid(b, sub)
  {
    if a == [] {
      assert a + b == b;
    } else {
      assert (a + b)[1..] == a[1..] + b;
      SubstituteAppend(a[1..], b, sub);
    }
  }

  /** A name without forbidden characters is left exactly as it is. */
  lemma {:induction false} SubstituteKeepsValid(s: string, sub: string)
    requires !ContainsInvalidChars(s)
    ensures SubstituteInvalid(s, sub) == s
  {
    if s != [] {
      assert !IsInvalidChar(s[0]);
      assert !ContainsInvalidChars(s[1..]) by {
        forall i | 0 <= i < |s[1..]| ensures !IsInvalidChar(s[1..][i]) {
          assert s[1..][i] == s[i + 1];
        }
      }
      SubstituteKeepsValid(s[1..], sub);
    }
  }

  /** Each forbidden character adds |sub| - 1 characters; runs are not collapsed. */
  lemma {:induction false} SubstituteLength(s: string, sub: string)
    ensures |SubstituteInvalid(s, sub)| == |s| + CountInvalid(s) * (|sub| - 1)
  {
    if s != [] {
      var k := CountInvalid(s[1..]);
      var d := |sub| - 1;
      SubstituteLength(s[1..], sub);
      assert |SubstituteInvalid(s, sub)| == |Image(s[0], sub)| + |SubstituteInvalid(s[1..], sub)|;
      if IsInvalidChar(s[0]) {
        assert CountInvalid(s) == 1 + k;
        MulSucc(k, d);
      } else {
        assert CountInvalid(s) == k;
      }
    }
  }

  lemma MulSucc(k: int, d: int)
    ensures (1 + k) * d == d + k * d
  {
  }

  /** A replacement free of forbidden characters leaves none behind. */
  lemma {:induction false} SubstituteClean(s: string, sub: string)
    requires !ContainsInvalidChars(sub)
    ensures !ContainsInvalidChars(SubstituteInvalid(s, sub))
  {
    if s != [] {
      var head := Image(s[0], sub);
      var tail := SubstituteInvalid(s[1..], sub);
      SubstituteClean(s[1..], sub);
      assert !ContainsInvalidChars(head);
      forall i | 0 <= i < |head + tail| ensures !IsInvalidChar((head + tail)[i]) {
        if i < |head| {
          assert (head + tail)[i] == head[i];
        } else {
          assert (head + tail)[i] == tail[i - |head|];
        }
      }
    }
  }

  /** The characters of `s` that are not forbidden, in their order. */
  function KeepValid(s: string): string {
    if s == [] then []
    else if IsInvalidChar(s[0]) then KeepValid(s[1..])
    else [s[0]] + KeepValid(s[1..])
  }

  /** With the empty replacement, forbidden characters are simply deleted. */
  lemma {:induction false} SubstituteEmptyDeletes(s: string)
    ensures SubstituteInvalid(s, "") == KeepValid(s)
  {
    if s != [] {
      SubstituteEmptyDeletes(s[1..]);
    }
  }

  /** A substitution ends with the image of the input's last character. */
  lemma {:induction false} SubstituteLast(s: string, sub: string)
    requires s != []
    ensures var init := s[..|s| - 1];
      SubstituteInvalid(s, sub) == SubstituteInvalid(init, sub) + Image(s[|s| - 1], sub)
  {
    var init := s[..|s| - 1];
    assert s == init + [s[|s| - 1]];
    SubstituteAppend(init, [s[|s| - 1]], sub);
    assert SubstituteInvalid([s[|s| - 1]], sub) == Image(s[|s| - 1], sub) + SubstituteInvalid([], sub);
  }

  /** The curated name's length: |strip(n)| plus |sub| - 1 per forbidden character. */
  lemma CuratedNameLength(filename: string, subString: string)
    ensures var stripped := Strip(filename);
      |GetCuratedName(filename, subString)| == |stripped| + CountInvalid(stripped) * (|subString| - 1)
  {
    SubstituteLength(Strip(filename), subString);
  }

  /** A replacement free of forbidden characters gives a curated name free of them. */
  lemma CuratedNameHasNoInvalidChars(filename: string, subString: string)
    requires !ContainsInvalidChars(subString)
    ensures !ContainsInvalidChars(GetCuratedName(filename, subString))
  {
    SubstituteClean(Strip(filename), subString);
  }

  /** A name that only needed stripping is curated to its stripped form, unaltered inside. */
  lemma CuratedNameOnlyStrips(filename: string, subString: string)
    requires !ContainsInvalidChars(Strip(filename))
    ensures GetCuratedName(filename, subString) == Strip(filename)
  {
    SubstituteKeepsValid(Strip(filename), subString);
  }

  /** Without forbidden characters, only the trailing space or period can make a name invalid. */
  lemma CleanNameInvalidIff(name: string)
    requires !ContainsInvalidChars(name)
    ensures HasInvalidName(name) <==> name != [] && (name[|name| - 1] == ' ' || name[|name| - 1] == '.')
  {
  }

  /** The final character of a substitution by a non-empty replacement. */
  lemma SubstituteLastChar(s: string, sub: string)
    requires s != [] && sub != []
    ensures var r := SubstituteInvalid(s, sub);
      var last := s[|s| - 1];
      r != [] && r[|r| - 1] == (if IsInvalidChar(last) then sub[|sub| - 1] else last)
  {
    SubstituteLast(s, sub);
  }

  /** How the final character of a substitution decides its validity. */
  lemma SubstituteInvalidIff(s: string, sub: string)
    requires !ContainsInvalidChars(sub) && sub != []
    requires sub[|sub| - 1] != ' ' && sub[|sub| - 1] != '.'
    requires s != [] ==> s[|s| - 1] != ' '
    ensures HasInvalidName(SubstituteInvalid(s, sub)) <==> (s != [] && s[|s| - 1] == '.')
  {
    var r := SubstituteInvalid(s, sub);
    SubstituteClean(s, sub);
    CleanNameInvalidIff(r);
    if s != [] {
      SubstituteLastChar(s, sub);
      assert !IsInvalidChar('.');
    }
  }

  /**
   * When the replacement is non-empty, free of forbidden characters and ends in
   * neither a space nor a period, the curated name is invalid exactly when the
   * stripped name ends in a period: the one rule the curation never repairs.
   */
  lemma CuratedNameInvalidIff(filename: string, subString: string)
    requires !ContainsInvalidChars(subString) && subString != []
    requires subString[|subString| - 1] != ' ' && subString[|subString| - 1] != '.'
    ensures HasInvalidName(GetCuratedName(filename, subString))
        <==> (Strip(filename) != [] && Strip(filename)[|Strip(filename)| - 1] == '.')
  {
    var stripped := Strip(filename);
    assert IsSpace(' ');
    SubstituteInvalidIff(stripped, subString);
  }

  /** The image of one character under a one-character replacement `d`. */
  function ReplaceChar(c: char, d: char): char {
    if IsInvalidChar(c) then d else c
  }

  /**
   * With a one-character replacement the name keeps its length and each
   * position is mapped on its own: forbidden characters to `d`, the rest kept.
   */
  lemma {:induction false} SubstituteOneChar(s: string, d: char)
    ensures var r := SubstituteInvalid(s, [d]);
      |r| == |s| && forall i :: 0 <= i < |s| ==> r[i] == ReplaceChar(s[i], d)
  {
    if s != [] {
      var r := SubstituteInvalid(s, [d]);
      var tail := SubstituteInvalid(s[1..], [d]);
      SubstituteOneChar(s[1..], d);
      assert r == [ReplaceChar(s[0], d)] + tail;
      forall i | 1 <= i < |s| ensures r[i] == ReplaceChar(s[i], d) {
        assert r[i] == tail[i - 1] && s[i] == s[1..][i - 1];
      }
    }
  }

  lemma SubstituteExample(s: string)
    requires s == "file<name>.txt"
    ensures SubstituteInvalid(s, "_") == "file_name_.txt"
  {
    SubstituteOneChar(s, '_');
    var r := SubstituteInvalid(s, "_");
    assert |r| == 14;
    assert r[0] == 'f' && r[1] == 'i' && r[2] == 'l' && r[3] == 'e' && r[4] == '_';
    assert r[5] == 'n' && r[6] == 'a' && r[7] == 'm' && r[8] == 'e' && r[9] == '_';
    assert r[10] == '.' && r[11] == 't' && r[12] == 'x' && r[13] == 't';
  }

  /**
   * "file<name>.txt" with "_" becomes "file_name_.txt". The name is a parameter
   * so that the solver does not evaluate the whole literal on its own.
   */
  lemma CuratedNameExample(name: string)
    requires name == "file<name>.txt"
    ensures GetCuratedName(name, "_") == "file_name_.txt"
  {
    StripKeepsTrimmed(name);
    SubstituteExample(name);
  }

  /** A curated name can still be invalid: "a. " strips to "a.", which keeps its period. */
  lemma CuratedNameMayEndInPeriod(name: string)
    requires name == "a. "
    ensures GetCuratedName(name, "_") == "a."
    ensures HasInvalidName(name) && HasInvalidName(GetCuratedName(name, "_"))
  {
    assert name == [] + "a." + " ";
    StripUnique([], "a.", " ");
    SubstituteKeepsValid("a.", "_");
  }

  /** With the empty replacement, deleting a final forbidden character can expose a space. */
  lemma CuratedNameMayEndInSpace(name: string)
    requires name == "a <"
    ensures GetCuratedName(name, "") == "a "
    ensures HasInvalidName(name) && HasInvalidName(GetCuratedName(name, ""))
  {
    StripKeepsTrimmed(name);
    SubstituteDeletesLast(name);
    assert IsInvalidChar(name[2]);
  }

  /** The substitution step of the example above. */
  lemma SubstituteDeletesLast(name: string)
    requires name == "a <"
    ensures SubstituteInvalid(name, "") == "a "
  {
    assert name == "a " + "<";
    SubstituteAppend("a ", "<", "");
    SubstituteKeepsValid("a ", "");
    assert SubstituteInvalid("<", "") == Image('<', "") + SubstituteInvalid([], "");
  }

  /**
   * Control characters 0x1C-0x1F are whitespace to Python: at either end of a
   * name they are stripped rather than substituted...
   */
  lemma CuratedNameStripsSeparators(name: string)
    requires name == "\U{1F}a"
    ensures GetCuratedName(name, "_") == "a"
  {
    assert name == "\U{1F}" + "a" + [];
    StripUnique("\U{1F}", "a", []);
    SubstituteKeepsValid("a", "_");
  }

  /** ...while inside a name they are substituted like any other control. */
  lemma CuratedNameSubstitutesSeparators(name: string)
    requires name == "a\U{1F}b"
    ensures GetCuratedName(name, "_") == "a_b"
  {
    StripKeepsTrimmed(name);
    SubstituteSeparator(name);
  }

  /** The substitution step of the example above. */
  lemma SubstituteSeparator(name: string)
    requires name == "a\U{1F}b"
    ensures SubstituteInvalid(name, "_") == "a_b"
  {
    SubstituteOneChar(name, '_');
  }
}
