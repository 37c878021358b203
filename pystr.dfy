/** The two Python string operations the loaders rely on: `str.strip()` and slicing. */
module PyStr {

  /**
   * The code points for which Python's `str.isspace()` holds, which are the
   * characters `str.strip()` removes when called without arguments.
   */
  const SpaceCodePoints: set<int> :=
    {0x09, 0x0A, 0x0B, 0x0C, 0x0D, 0x1C, 0x1D, 0x1E, 0x1F, 0x20, 0x85, 0xA0, 0x1680,
     0x2000, 0x2001, 0x2002, 0x2003, 0x2004, 0x2005, 0x2006, 0x2007, 0x2008, 0x2009, 0x200A,
     0x2028, 0x2029, 0x202F, 0x205F, 0x3000}

  predicate IsSpace(c: char) {
    c as int in SpaceCodePoints
  }

  predicate AllSpace(s: string) {
    forall i :: 0 <= i < |s| ==> IsSpace(s[i])
  }

  /** Neither end of `s` is whitespace. */
  predicate IsStripped(s: string) {
    s == [] || (!IsSpace(s[0]) && !IsSpace(s[|s| - 1]))
  }

  /** The index of the first non-whitespace character of `s` at or after `i`, or `|s|`. */
  function SkipSpaces(s: string, i: nat): (k: nat)
    requires i <= |s|
    ensures i <= k <= |s|
    ensures forall m :: i <= m < k ==> IsSpace(s[m])
    ensures k < |s| ==> !IsSpace(s[k])
    decreases |s| - i
  {
    if i < |s| && IsSpace(s[i]) then SkipSpaces(s, i + 1) else i
  }

  /** The end of `s[lo..j]` once its trailing whitespace is dropped. */
  function SkipSpacesBack(s: string, lo: nat, j: nat): (k: nat)
    requires lo <= j <= |s|
    ensures lo <= k <= j
    ensures forall m :: k <= m < j ==> IsSpace(s[m])
    ensures lo < k ==> !IsSpace(s[k - 1])
  {
    if lo < j && IsSpace(s[j - 1]) then SkipSpacesBack(s, lo, j - 1) else j
  }

  /**
   * `s.strip()`: `s` is whitespace, then the result, then whitespace, and the
   * result has no whitespace at either end; it is empty exactly when `s` is all
   * whitespace.
   */
  function Strip(s: string): (r: string)
    ensures IsStripped(r)
    ensures var a := SkipSpaces(s, 0);
      a + |r| <= |s| && r == s[a..a + |r|] && AllSpace(s[..a]) && AllSpace(s[a + |r|..])
    ensures r == [] <==> AllSpace(s)
  {
    var a := SkipSpaces(s, 0);
    var b := SkipSpacesBack(s, a, |s|);
    assert AllSpace(s[..a]) by {
      forall m | 0 <= m < a ensures IsSpace(s[..a][m]) { assert s[..a][m] == s[m]; }
    }
    assert AllSpace(s[b..]) by {
      forall m | 0 <= m < |s| - b ensures IsSpace(s[b..][m]) { assert s[b..][m] == s[b + m]; }
    }
    assert a == b ==> AllSpace(s) by {
      if a == b {
        assert a == |s|;
        forall m | 0 <= m < |s| ensures IsSpace(s[m]) { assert s[..a][m] == s[m]; }
      }
    }
    assert a < b ==> !AllSpace(s) by {
      if a < b { assert !IsSpace(s[a]); }
    }
    s[a..b]
  }

  /** Whitespace followed by whitespace is whitespace. */
  lemma AllSpaceConcat(x: string, y: string)
    requires AllSpace(x) && AllSpace(y)
    ensures AllSpace(x + y)
  {
    forall i | 0 <= i < |x + y| ensures IsSpace((x + y)[i]) {
      if i >= |x| { assert (x + y)[i] == y[i - |x|]; }
    }
  }

  /**
   * `strip()` is determined by the decomposition it promises: whenever `s` is
   * whitespace, then a text with no whitespace at either end, then whitespace,
   * `strip()` returns that text.
   */
  lemma StripUnique(p: string, t: string, q: string)
    requires AllSpace(p) && AllSpace(q) && IsStripped(t)
    ensures Strip(p + t + q) == t
  {
    var s := p + t + q;
    if t == [] {
      assert s == p + q;
      AllSpaceConcat(p, q);
    } else {
      assert forall m :: 0 <= m < |p| ==> s[m] == p[m];
      assert forall m :: 0 <= m < |t| ==> s[|p| + m] == t[m];
      assert forall m :: |p| + |t| <= m < |s| ==> s[m] == q[m - |p| - |t|];
      var a := SkipSpaces(s, 0);
      assert s[|p|] == t[0];
      assert a == |p|;
      var k := |p| + |t|;
      var b := SkipSpacesBack(s, a, |s|);
      assert s[k - 1] == t[|t| - 1];
      assert b == k;
      assert s[a..b] == t;
    }
  }

  /** A string with no whitespace at either end is left as it is. */
  lemma StripStripped(t: string)
    requires IsStripped(t)
    ensures Strip(t) == t
  {
    assert [] + t + [] == t;
    StripUnique([], t, []);
  }

  /** Stripping twice is stripping once. */
  lemma StripIdempotent(s: string)
    ensures Strip(Strip(s)) == Strip(s)
  {
    var t := Strip(s);
    assert [] + t + [] == t;
    StripUnique([], t, []);
  }

  /**
   * Where Python's slice `s[i:j]` stops, for a string of length `n` and a
   * start `0 <= i <= n`: a negative `j` counts back from the end, and the
   * stop is clamped to `[i, n]` (an end before the start gives an empty slice).
   */
  function SliceStop(n: nat, i: nat, j: int): (k: nat)
    requires i <= n
    ensures i <= k <= n
  {
    var e := if j < 0 then n + j else j;
    if e < i then i else if e > n then n else e
  }

  /** Python's `s[i:j]` for a start `0 <= i <= |s|`. */
  function Slice(s: string, i: nat, j: int): string
    requires i <= |s|
  {
    s[i..SliceStop(|s|, i, j)]
  }

  /** With the end not before the start, `s[i:j]` is `s[i..min(j, |s|)]`. */
  lemma SliceInRange(s: string, i: nat, j: int)
    requires i <= |s| && i <= j
    ensures Slice(s, i, j) == s[i..if j < |s| then j else |s|]
  {
  }

  /** Python's `s[:n]` for `n >= 0`: the first `n` characters, or all of `s` when it is shorter. */
  function Prefix(s: string, n: nat): (r: string)
    ensures r <= s
    ensures |r| == if n <= |s| then n else |s|
  {
    if n <= |s| then s[..n] else s
  }
}
