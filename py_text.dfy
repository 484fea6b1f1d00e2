/**
 * Python's `str.strip()` with no argument: remove leading and trailing
 * characters for which `str.isspace()` holds.
 */
module PyText {

  /** `str.isspace()` of a single character: the control characters
      TAB..CR and FS..US, SPACE, NEL, NO-BREAK SPACE and the Unicode
      space separators, LINE and PARAGRAPH SEPARATOR. */
  predicate IsSpace(c: char) {
    var n := c as int;
    (0x09 <= n <= 0x0D) || (0x1C <= n <= 0x20) || n == 0x85 || n == 0xA0 ||
    n == 0x1680 || (0x2000 <= n <= 0x200A) || n == 0x2028 || n == 0x2029 ||
    n == 0x202F || n == 0x205F || n == 0x3000
  }

  /** Neither the first nor the last character of `s` is whitespace. */
  predicate NoOuterSpace(s: string) {
    s == [] || (!IsSpace(s[0]) && !IsSpace(s[|s| - 1]))
  }

  /** Every character of `s` is whitespace. */
  predicate AllSpace(s: string) {
    forall k :: 0 <= k < |s| ==> IsSpace(s[k])
  }

  /** A concatenation is all whitespace exactly when both parts are. */
  lemma AllSpaceAppend(a: string, b: string)
    ensures AllSpace(a + b) <==> AllSpace(a) && AllSpace(b)
  {
    var ab := a + b;
    if AllSpace(a) && AllSpace(b) {
      forall k | 0 <= k < |ab| ensures IsSpace(ab[k]) {
        if k >= |a| { assert ab[k] == b[k - |a|]; }
      }
    }
    if AllSpace(ab) {
      forall k | 0 <= k < |a| ensures IsSpace(a[k]) {
        assert ab[k] == a[k];
      }
      forall k | 0 <= k < |b| ensures IsSpace(b[k]) {
        assert ab[|a| + k] == b[k];
      }
    }
  }

  /** `s[lo..hi]` is what is left after cutting whitespace off both ends:
      everything outside the slice is whitespace, and the slice neither
      starts nor ends with whitespace. */
  ghost predicate StripsTo(s: string, lo: int, hi: int) {
    && 0 <= lo <= hi <= |s|
    && AllSpace(s[..lo])
    && AllSpace(s[hi..])
    && NoOuterSpace(s[lo..hi])
  }

  /** `StripsTo`, character by character. */
  lemma StripsToAt(s: string, lo: int, hi: int)
    requires 0 <= lo <= hi <= |s|
    ensures StripsTo(s, lo, hi) <==>
      && (forall k :: 0 <= k < lo ==> IsSpace(s[k]))
      && (forall k :: hi <= k < |s| ==> IsSpace(s[k]))
      && (lo < hi ==> !IsSpace(s[lo]) && !IsSpace(s[hi - 1]))
  {
    var x, y, z := s[..lo], s[hi..], s[lo..hi];
    forall k | 0 <= k < lo ensures x[k] == s[k] {}
    forall k | hi <= k < |s| ensures y[k - hi] == s[k] {}
    if lo < hi {
      assert z[0] == s[lo] && z[|z| - 1] == s[hi - 1];
    }
  }

  /** `s.strip()`: cut whitespace off the front and off the back until
      neither end is whitespace. `StripIsSlice` says which part of `s`
      is left. */
  function Strip(s: string): (r: string)
    ensures |r| <= |s|
    ensures NoOuterSpace(r)
  {
    if s != [] && IsSpace(s[0]) then Strip(s[1..])
    else if s != [] && IsSpace(s[|s| - 1]) then Strip(s[..|s| - 1])
    else s
  }

  /** How many whitespace characters `s` starts with: where the stripped
      text starts inside `s`. */
  function StripStart(s: string): (n: nat)
    ensures n <= |s|
  {
    if s != [] && IsSpace(s[0]) then 1 + StripStart(s[1..]) else 0
  }

  /** The stripped text is the slice of `s` that starts at `StripStart(s)`,
      with only whitespace outside it on either side. */
  lemma {:induction false} StripIsSlice(s: string)
    ensures StripStart(s) + |Strip(s)| <= |s|
    ensures Strip(s) == s[StripStart(s)..StripStart(s) + |Strip(s)|]
    ensures StripsTo(s, StripStart(s), StripStart(s) + |Strip(s)|)
  {
    if s != [] && IsSpace(s[0]) {
      var t := s[1..];
      StripIsSlice(t);
      var a, m := StripStart(t), |Strip(t)|;
      assert StripStart(s) == a + 1 && Strip(s) == Strip(t);
      TailSlice(s, a, m);
      StripsToTail(s, a, a + m);
    } else if s != [] && IsSpace(s[|s| - 1]) {
      var t := s[..|s| - 1];
      StripIsSlice(t);
      var m := |Strip(t)|;
      assert t != [] ==> t[0] == s[0];
      assert StripStart(s) == 0 && StripStart(t) == 0 && Strip(s) == Strip(t);
      assert t[..m] == s[..m];
      StripsToInit(s, 0, m);
    }
  }

  /** A slice of the tail of `s` is the same slice of `s`, one further on. */
  lemma TailSlice(s: string, a: nat, m: nat)
    requires s != [] && a + m <= |s| - 1
    ensures s[a + 1..a + 1 + m] == s[1..][a..a + m]
  {
    var x, y := s[a + 1..a + 1 + m], s[1..][a..a + m];
    assert |x| == |y| == m;
    forall k | 0 <= k < m
      ensures x[k] == y[k]
    {
      assert x[k] == s[a + 1 + k];
      assert y[k] == s[1..][a + k] == s[a + 1 + k];
    }
  }

  /** Putting a whitespace character in front of a string moves its
      stripped slice one place on. */
  lemma StripsToTail(s: string, lo: int, hi: int)
    requires s != [] && IsSpace(s[0])
    requires StripsTo(s[1..], lo, hi)
    ensures StripsTo(s, lo + 1, hi + 1)
  {
    var t := s[1..];
    StripsToAt(t, lo, hi);
    StripsToAt(s, lo + 1, hi + 1);
    forall k | 1 <= k < |s|
      ensures s[k] == t[k - 1]
    {
    }
  }

  /** Putting a whitespace character at the end of a string leaves its
      stripped slice where it was. */
  lemma StripsToInit(s: string, lo: int, hi: int)
    requires s != [] && IsSpace(s[|s| - 1])
    requires StripsTo(s[..|s| - 1], lo, hi)
    ensures StripsTo(s, lo, hi)
  {
    var t := s[..|s| - 1];
    StripsToAt(t, lo, hi);
    StripsToAt(s, lo, hi);
    forall k | 0 <= k < |t|
      ensures s[k] == t[k]
    {
    }
  }

  /** Any slice that leaves only whitespace outside and none at its own
      ends is the result of `Strip`: the characterisation by `StripsTo`
      determines the stripped text uniquely. */
  lemma StripUnique(s: string, lo: int, hi: int)
    requires StripsTo(s, lo, hi)
    ensures s[lo..hi] == Strip(s)
  {
    StripIsSlice(s);
    var a := StripStart(s);
    var b := a + |Strip(s)|;
    StripsToAt(s, lo, hi);
    StripsToAt(s, a, b);
    // Both slices contain every non-whitespace character of `s`, and each
    // nonempty one starts and ends on such a character.
    assert forall k :: 0 <= k < |s| && !IsSpace(s[k]) ==> lo <= k < hi;
    assert forall k :: 0 <= k < |s| && !IsSpace(s[k]) ==> a <= k < b;
    if lo < hi {
      assert !IsSpace(s[lo]) && !IsSpace(s[hi - 1]);
    }
    if a < b {
      assert !IsSpace(s[a]) && !IsSpace(s[b - 1]);
    }
    assert (a == lo && b == hi) || (a == b && lo == hi);
    assert |s[lo..hi]| == |Strip(s)|;
    assert forall k :: 0 <= k < |Strip(s)| ==> s[lo..hi][k] == Strip(s)[k];
  }

  /** Stripping twice is stripping once. */
  lemma StripIdempotent(s: string)
    ensures Strip(Strip(s)) == Strip(s)
  {
    var r := Strip(s);
    assert r[0..|r|] == r;
    StripUnique(r, 0, |r|);
  }

  /** Stripping yields the empty string exactly when `s` is all whitespace. */
  lemma StripEmptyIffAllSpace(s: string)
    ensures Strip(s) == [] <==> AllSpace(s)
  {
    StripIsSlice(s);
    if Strip(s) != [] {
      assert !IsSpace(s[StripStart(s)]);
    }
  }
}
