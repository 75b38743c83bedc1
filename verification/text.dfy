/**
 * Whitespace trimming as done by ECMAScript's `String.prototype.trim`:
 * it strips every leading and trailing code point that is a WhiteSpace
 * or a LineTerminator (sections 12.2 and 12.3 of ECMA-262).
 */
module Text {

  /** WhiteSpace (TAB, VT, FF, ZWNBSP and the Zs category) or LineTerminator (LF, CR, LS, PS). */
  predicate IsSpace(c: char) {
    || c == '\U{0009}' || c == '\U{000B}' || c == '\U{000C}' || c == ' '
    || c == '\U{00A0}' || c == '\U{FEFF}' || c == '\U{1680}'
    || ('\U{2000}' <= c <= '\U{200A}')
    || c == '\U{202F}' || c == '\U{205F}' || c == '\U{3000}'
    || c == '\n' || c == '\r' || c == '\U{2028}' || c == '\U{2029}'
  }

  /** Every character of `s` is whitespace (this includes the empty string). */
  predicate Blank(s: string) {
    forall i :: 0 <= i < |s| ==> IsSpace(s[i])
  }

  /** `s` neither starts nor ends with whitespace. */
  predicate Trimmed(s: string) {
    s == [] || (!IsSpace(s[0]) && !IsSpace(s[|s| - 1]))
  }

  /** The characters of `s` at positions `lo` up to (not including) `hi` are all whitespace. */
  predicate BlankBetween(s: string, lo: int, hi: int) {
    forall k :: lo <= k < hi ==> 0 <= k < |s| && IsSpace(s[k])
  }

  /** `s` with its leading whitespace removed. */
  function TrimStart(s: string): (r: string)
    ensures |r| <= |s| && r == s[|s| - |r|..]
    ensures BlankBetween(s, 0, |s| - |r|)
    ensures r == [] || !IsSpace(r[0])
  {
    if s != [] && IsSpace(s[0]) then TrimStart(s[1..]) else s
  }

  /** `s` with its trailing whitespace removed. */
  function TrimEnd(s: string): (r: string)
    ensures |r| <= |s| && r == s[..|r|]
    ensures BlankBetween(s, |r|, |s|)
    ensures r == [] || !IsSpace(r[|r| - 1])
  {
    if s != [] && IsSpace(s[|s| - 1]) then TrimEnd(s[..|s| - 1]) else s
  }

  /** `String.prototype.trim`: whitespace removed from both ends. */
  function Trim(s: string): (r: string)
    ensures Trimmed(r)
    ensures |r| <= |s|
  {
    TrimEnd(TrimStart(s))
  }

  /** A prefix `r` of a suffix `t` of `s` is a slice of `s`, and what `t` has after `r` is what `s` has after it. */
  lemma PrefixOfSuffix(s: string, t: string, r: string)
    requires |t| <= |s| && t == s[|s| - |t|..]
    requires |r| <= |t| && r == t[..|r|]
    requires BlankBetween(t, |r|, |t|)
    ensures r == s[|s| - |t|..|s| - |t| + |r|]
    ensures BlankBetween(s, |s| - |t| + |r|, |s|)
  {
    var i := |s| - |t|;
    forall k | i + |r| <= k < |s|
      ensures IsSpace(s[k])
    {
      assert s[k] == t[k - i];
    }
  }

  /** Trim cuts a blank prefix and a blank suffix off `s` and keeps the slice between them. */
  lemma TrimBounds(s: string) returns (i: nat, j: nat)
    ensures i <= j <= |s|
    ensures Trim(s) == s[i..j]
    ensures BlankBetween(s, 0, i) && BlankBetween(s, j, |s|)
  {
    var t := TrimStart(s);
    var r := TrimEnd(t);
    PrefixOfSuffix(s, t, r);
    i := |s| - |t|;
    j := i + |r|;
    assert Trim(s) == r;
  }

  /** A non-empty trimmed slice starts and ends with a non-space. */
  lemma TrimmedSliceEnds(s: string, i: nat, j: nat)
    requires i < j <= |s|
    requires Trimmed(s[i..j])
    ensures !IsSpace(s[i]) && !IsSpace(s[j - 1])
  {
    assert s[i..j][0] == s[i] && s[i..j][j - i - 1] == s[j - 1];
  }

  /**
   * Trim is the only way to cut a blank prefix and suffix off `s` so that
   * what remains is trimmed: with TrimBounds, this characterises Trim completely.
   */
  lemma TrimUnique(s: string, i: nat, j: nat)
    requires i <= j <= |s|
    requires BlankBetween(s, 0, i) && BlankBetween(s, j, |s|)
    requires Trimmed(s[i..j])
    ensures Trim(s) == s[i..j]
  {
    var i', j' := TrimBounds(s);
    if i < j {
      // both slices run from the first non-space to the last one
      TrimmedSliceEnds(s, i, j);
      assert i' <= i && j <= j' by {
        assert !IsSpace(s[i]) && !IsSpace(s[j - 1]);
      }
      TrimmedSliceEnds(s, i', j');
      assert i == i' && j == j' by {
        assert !IsSpace(s[i']) && !IsSpace(s[j' - 1]);
      }
    }
  }

  /** A string that is already trimmed is its own trim. */
  lemma TrimOfTrimmed(s: string)
    requires Trimmed(s)
    ensures Trim(s) == s
  {
    assert s[0..|s|] == s;
    TrimUnique(s, 0, |s|);
  }

  /** Trimming twice is trimming once. */
  lemma TrimIdempotent(s: string)
    ensures Trim(Trim(s)) == Trim(s)
  {
    TrimOfTrimmed(Trim(s));
  }

  /** Trim yields the empty string exactly when the input is all whitespace. */
  lemma TrimEmptyIffBlank(s: string)
    ensures Trim(s) == [] <==> Blank(s)
  {
    var i, j := TrimBounds(s);
    if i < j {
      TrimmedSliceEnds(s, i, j);
    }
  }
}
