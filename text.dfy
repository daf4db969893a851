/**
 The string operations the order composer relies on: Python's `str.strip()` with no
 argument, `str.replace(c, "")` for a single character, and a forward search for a
 character (what the regular-expression engine does when it looks for `]` or for the
 end of a line).
 */
module Text {

  /** Python's `str.isspace()` for one character: exactly the characters that
      `str.strip()` removes when it is called without an argument. */
  predicate IsSpace(c: char) {
    || ('\t' <= c <= '\r')
    || ('\U{1C}' <= c <= '\U{1F}')
    || c == ' '
    || c == '\U{85}'
    || c == '\U{A0}'
    || c == '\U{1680}'
    || ('\U{2000}' <= c <= '\U{200A}')
    || c == '\U{2028}'
    || c == '\U{2029}'
    || c == '\U{202F}'
    || c == '\U{205F}'
    || c == '\U{3000}'
  }

  /** Every character of `s` from `lo` up to `hi` is whitespace. */
  predicate AllSpaceIn(s: string, lo: nat, hi: nat)
    requires lo <= hi <= |s|
  {
    forall k :: lo <= k < hi ==> IsSpace(s[k])
  }

  /** The first position at or after `i` that holds no whitespace, or `|s|`. */
  function SkipSpace(s: string, i: nat): (k: nat)
    requires i <= |s|
    ensures i <= k <= |s| && AllSpaceIn(s, i, k)
    ensures k < |s| ==> !IsSpace(s[k])
    decreases |s| - i
  {
    if i < |s| && IsSpace(s[i]) then SkipSpace(s, i + 1) else i
  }

  /** Going back from `j`, but not below `lo`: the start of the whitespace that ends at `j`. */
  function BackSpace(s: string, lo: nat, j: nat): (k: nat)
    requires lo <= j <= |s|
    ensures lo <= k <= j && AllSpaceIn(s, k, j)
    ensures lo < k ==> !IsSpace(s[k - 1])
  {
    if lo < j && IsSpace(s[j - 1]) then BackSpace(s, lo, j - 1) else j
  }

  /** Python's `s.strip()`: the whitespace at both ends cut off. The result neither
      starts nor ends with whitespace. */
  function Strip(s: string): (r: string)
    ensures |r| <= |s|
    ensures r == [] || (!IsSpace(r[0]) && !IsSpace(r[|r| - 1]))
  {
    var lo := SkipSpace(s, 0);
    s[lo..BackSpace(s, lo, |s|)]
  }

  /** Strip is the only cut of whitespace-only ends that leaves non-whitespace ends:
      whenever `s[..lo]` and `s[hi..]` are whitespace and `s[lo..hi]` is empty or has
      no whitespace at either end, `strip()` returns `s[lo..hi]`. */
  lemma StripCharacterised(s: string, lo: nat, hi: nat)
    requires lo <= hi <= |s|
    requires AllSpaceIn(s, 0, lo) && AllSpaceIn(s, hi, |s|)
    requires lo < hi ==> !IsSpace(s[lo]) && !IsSpace(s[hi - 1])
    ensures Strip(s) == s[lo..hi]
  {
    var a := SkipSpace(s, 0);
    if lo < hi {
      assert a == lo;
      var b := BackSpace(s, a, |s|);
      assert b == hi;
    } else {
      assert AllSpaceIn(s, 0, |s|);
      assert a == |s|;
    }
  }

  /** A string that neither starts nor ends with whitespace is left alone by `strip()`. */
  lemma StripKeepsTrimmed(s: string)
    requires s == [] || (!IsSpace(s[0]) && !IsSpace(s[|s| - 1]))
    ensures Strip(s) == s
  {
    StripCharacterised(s, 0, |s|);
  }

  /** `strip()` is idempotent. */
  lemma StripIdempotent(s: string)
    ensures Strip(Strip(s)) == Strip(s)
  {
    StripKeepsTrimmed(Strip(s));
  }

  /** A string made only of whitespace strips to the empty string. */
  lemma StripAllSpace(s: string)
    requires AllSpaceIn(s, 0, |s|)
    ensures Strip(s) == []
  {
    StripCharacterised(s, 0, 0);
  }

  /** `strip()` introduces no character: the result is a slice of `s`. In particular a
      line with no newline strips to a string with no newline. */
  lemma StripFromSource(s: string, c: char)
    requires c !in s
    ensures c !in Strip(s)
  {
    var lo := SkipSpace(s, 0);
    var hi := BackSpace(s, lo, |s|);
    assert forall k :: 0 <= k < hi - lo ==> Strip(s)[k] == s[lo + k];
  }

  /** Python's `s.replace(c, "")` for a one-character string `c`: every occurrence of `c`
      is deleted and the other characters keep their order. */
  function Without(s: string, c: char): (r: string)
    ensures |r| <= |s|
    ensures forall x :: x in r <==> x in s && x != c
  {
    if s == [] then []
    else if s[0] == c then Without(s[1..], c) else [s[0]] + Without(s[1..], c)
  }

  /** Every character other than `c` survives as often as it occurs in `s`; `c` does not. */
  lemma {:induction false} WithoutCounts(s: string, c: char)
    ensures multiset(Without(s, c)) == multiset(s)[c := 0]
  {
    if s != [] {
      WithoutCounts(s[1..], c);
      assert s == [s[0]] + s[1..];
    }
  }

  /** On one character: deleted when it is `c`, kept otherwise. With WithoutAppend this
      fixes Without on every string. */
  lemma WithoutSingle(x: char, c: char)
    ensures Without([x], c) == if x == c then [] else [x]
  {
    assert [x][1..] == [];
  }

  /** Deleting a character that does not occur changes nothing. */
  lemma {:induction false} WithoutAbsent(s: string, c: char)
    requires c !in s
    ensures Without(s, c) == s
  {
    if s != [] {
      WithoutAbsent(s[1..], c);
    }
  }

  /** Deletion works piecewise: it commutes with concatenation. */
  lemma {:induction false} WithoutAppend(a: string, b: string, c: char)
    ensures Without(a + b, c) == Without(a, c) + Without(b, c)
  {
    if a == [] {
      assert a + b == b;
    } else {
      assert (a + b)[1..] == a[1..] + b;
      WithoutAppend(a[1..], b, c);
    }
  }

  /** The position of the first `c` in `s` at or after `from`, or `|s|` when there is none. */
  function FindChar(s: string, c: char, from: nat): (k: nat)
    requires from <= |s|
    ensures from <= k <= |s|
    ensures k < |s| ==> s[k] == c
    ensures forall m :: from <= m < k ==> s[m] != c
    decreases |s| - from
  {
    if from == |s| || s[from] == c then from else FindChar(s, c, from + 1)
  }

  /** The three properties of FindChar determine it: any position with them is the one it returns. */
  lemma FindCharUnique(s: string, c: char, from: nat, k: nat)
    requires from <= k <= |s|
    requires k < |s| ==> s[k] == c
    requires forall m :: from <= m < k ==> s[m] != c
    ensures FindChar(s, c, from) == k
  {
  }
}
