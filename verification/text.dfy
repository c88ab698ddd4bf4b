/**
 * Character classes and whitespace trimming on Python `str` values, which
 * are modelled as `string` (a sequence of Unicode scalar values).
 *
 * `IsSpace` is the whitespace set of Python's `str.isspace`, which is what
 * `str.strip()` without arguments removes; `IsDigit` is the class the
 * scraper's regular expression `\d` looks for (ASCII digits in this model).
 */
module Text {

  /** An ASCII decimal digit; the pattern `\d` also matches other Unicode decimal digits, which this model does not. */
  predicate IsDigit(c: char) {
    '0' <= c <= '9'
  }

  /** True iff some character of `s` is an ASCII digit (`re.search(r'\d', s)` would also match other Unicode digits). */
  predicate HasDigit(s: string) {
    exists i :: 0 <= i < |s| && IsDigit(s[i])
  }

  /** The characters Python's `str.strip()` removes from both ends. */
  predicate IsSpace(c: char) {
    var n := c as int;
    || 0x09 <= n <= 0x0D
    || 0x1C <= n <= 0x20
    || n == 0x85
    || n == 0xA0
    || n == 0x1680
    || 0x2000 <= n <= 0x200A
    || n == 0x2028
    || n == 0x2029
    || n == 0x202F
    || n == 0x205F
    || n == 0x3000
  }

  /** Every character of `s` in positions `lo..hi` is whitespace. */
  predicate SpaceBetween(s: string, lo: int, hi: int)
    requires 0 <= lo <= hi <= |s|
  {
    forall k :: lo <= k < hi ==> IsSpace(s[k])
  }

  predicate AllSpace(s: string) {
    SpaceBetween(s, 0, |s|)
  }

  /** `r` has no whitespace at either end. */
  predicate Trimmed(r: string) {
    r == [] || (!IsSpace(r[0]) && !IsSpace(r[|r| - 1]))
  }

  /** `s[i..j]` is what remains once the whitespace at both ends of `s` is removed. */
  predicate StripSlice(s: string, i: int, j: int) {
    && 0 <= i <= j <= |s|
    && SpaceBetween(s, 0, i)
    && SpaceBetween(s, j, |s|)
    && Trimmed(s[i..j])
  }

  /**
   * Independent description of stripping: `r` is a slice of `s` that has
   * only whitespace outside it and none at its own ends.
   */
  ghost predicate IsStripOf(r: string, s: string) {
    exists i, j :: StripSlice(s, i, j) && r == s[i..j]
  }

  /** Drops the leading whitespace of `s`. */
  function TrimStart(s: string): string {
    if |s| > 0 && IsSpace(s[0]) then TrimStart(s[1..]) else s
  }

  /** Drops the trailing whitespace of `s`. */
  function TrimEnd(s: string): string {
    if |s| > 0 && IsSpace(s[|s| - 1]) then TrimEnd(s[..|s| - 1]) else s
  }

  /** `TrimStart` removes exactly the whitespace prefix: what is left is a suffix not starting with whitespace. */
  lemma {:induction false} TrimStartSpec(s: string)
    ensures var r := TrimStart(s);
      && |r| <= |s| && r == s[|s| - |r|..]
      && SpaceBetween(s, 0, |s| - |r|)
      && (r == [] || !IsSpace(r[0]))
  {
    if |s| > 0 && IsSpace(s[0]) {
      TrimStartSpec(s[1..]);
    }
  }

  /** `TrimEnd` removes exactly the whitespace suffix: what is left is a prefix not ending with whitespace. */
  lemma {:induction false} TrimEndSpec(s: string)
    ensures var r := TrimEnd(s);
      && |r| <= |s| && r == s[..|r|]
      && SpaceBetween(s, |r|, |s|)
      && (r == [] || !IsSpace(r[|r| - 1]))
  {
    if |s| > 0 && IsSpace(s[|s| - 1]) {
      TrimEndSpec(s[..|s| - 1]);
    }
  }

  /** Python's `s.strip()`. */
  function Strip(s: string): string {
    TrimEnd(TrimStart(s))
  }

  /** `Strip` meets the independent description `IsStripOf`. */
  lemma StripSpec(s: string)
    ensures IsStripOf(Strip(s), s)
  {
    var t := TrimStart(s);
    var r := TrimEnd(t);
    TrimStartSpec(s);
    TrimEndSpec(t);
    var i := |s| - |t|;
    assert r == s[i..i + |r|];
    assert SpaceBetween(s, i + |r|, |s|) by {
      forall k | i + |r| <= k < |s|
        ensures IsSpace(s[k])
      {
        assert s[k] == t[k - i];
      }
    }
    assert r == [] || r[0] == t[0];
    assert StripSlice(s, i, i + |r|);
  }

  /** Two whitespace-only prefixes each followed by a non-space character have the same length. */
  lemma FirstNonSpaceUnique(s: string, i: int, i': int)
    requires 0 <= i < |s| && 0 <= i' < |s|
    requires SpaceBetween(s, 0, i) && !IsSpace(s[i])
    requires SpaceBetween(s, 0, i') && !IsSpace(s[i'])
    ensures i == i'
  {
  }

  /** Two whitespace-only suffixes each preceded by a non-space character have the same length. */
  lemma LastNonSpaceUnique(s: string, j: int, j': int)
    requires 0 < j <= |s| && 0 < j' <= |s|
    requires SpaceBetween(s, j, |s|) && !IsSpace(s[j - 1])
    requires SpaceBetween(s, j', |s|) && !IsSpace(s[j' - 1])
    ensures j == j'
  {
  }

  /** An empty strip leaves only whitespace around it, so all of `s` is whitespace. */
  lemma EmptySliceAllSpace(s: string, i: int, j: int)
    requires StripSlice(s, i, j) && i == j
    ensures AllSpace(s)
  {
  }

  /** A non-empty stripped slice starts and ends with a non-space character. */
  lemma NonEmptySliceEnds(s: string, i: int, j: int)
    requires StripSlice(s, i, j) && i < j
    ensures !IsSpace(s[i]) && !IsSpace(s[j - 1])
  {
    assert s[i..j][0] == s[i] && s[i..j][j - i - 1] == s[j - 1];
  }

  /** A slice with whitespace-only surroundings and trimmed ends is unique. */
  lemma StripUnique(r: string, s: string)
    requires IsStripOf(r, s)
    ensures r == Strip(s)
  {
    var i, j :| StripSlice(s, i, j) && r == s[i..j];
    StripSpec(s);
    var i', j' :| StripSlice(s, i', j') && Strip(s) == s[i'..j'];
    if i < j {
      NonEmptySliceEnds(s, i, j);
    }
    if i' < j' {
      NonEmptySliceEnds(s, i', j');
    }
    if i == j {
      EmptySliceAllSpace(s, i, j);
    } else if i' == j' {
      EmptySliceAllSpace(s, i', j');
    } else {
      FirstNonSpaceUnique(s, i, i');
      LastNonSpaceUnique(s, j, j');
    }
  }

  /** A whitespace-only string strips to the empty string, and only such a string does. */
  lemma SpaceOnlyStripsToEmpty(s: string)
    ensures Strip(s) == [] <==> AllSpace(s)
  {
    StripSpec(s);
    var i, j :| StripSlice(s, i, j) && Strip(s) == s[i..j];
    if i == j {
      EmptySliceAllSpace(s, i, j);
    } else {
      assert s[i..j][0] == s[i];
    }
  }

  /** Stripping twice is stripping once. */
  lemma StripIdempotent(s: string)
    ensures Strip(Strip(s)) == Strip(s)
  {
    var r := Strip(s);
    StripSpec(s);
    assert r[0..|r|] == r;
    assert StripSlice(r, 0, |r|);
    StripUnique(r, r);
  }

  /** Whitespace is not a digit, so stripping neither adds nor removes digits. */
  lemma StripHasDigit(s: string)
    ensures HasDigit(Strip(s)) <==> HasDigit(s)
  {
    StripSpec(s);
    var i, j :| StripSlice(s, i, j) && Strip(s) == s[i..j];
    var r := s[i..j];
    if HasDigit(r) {
      var k :| 0 <= k < |r| && IsDigit(r[k]);
      assert s[i + k] == r[k];
    }
    if HasDigit(s) {
      var k :| 0 <= k < |s| && IsDigit(s[k]);
      if i <= k < j {
        assert r[k - i] == s[k];
      }
    }
  }
}
