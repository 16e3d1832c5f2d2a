/** The two Arduino `String` primitives the sketch relies on, `indexOf` and
    `substring`, together with the conversion of a signed `int` into the
    `unsigned int` parameters of `substring`.

    The Arduino core library is not part of this model: the definitions
    below are a stated ASSUMPTION about its behaviour on the ESP32 (an
    `indexOf` that answers -1 on an empty receiver and otherwise returns the
    first occurrence found by `strstr`; a `substring(left, right)` that swaps
    reversed bounds, answers "" when the lower bound is at or past the end,
    and clamps the upper bound to the length). They are not verified against
    that library. NUL is treated as an ordinary character, whereas `strstr`
    stops at the first NUL of the receiver. */
module ArduinoString {

  /** 2^32: the number of values of an ESP32 `unsigned int`/`unsigned long`. */
  const U32: int := 0x1_0000_0000

  /** The C conversion of an `int` argument into an `unsigned int` parameter. */
  function ToUnsigned(x: int): (u: nat)
    ensures u < U32
    ensures 0 <= x < U32 ==> u == x
    ensures -U32 <= x < 0 ==> u == x + U32
  {
    x % U32
  }

  /** `pat` occurs in `s` starting at position `k`. */
  predicate OccursAt(s: string, pat: string, k: int)
  {
    0 <= k && k + |pat| <= |s| && s[k..k + |pat|] == pat
  }

  /** `k` is the first position at which `pat` occurs in `s`. */
  predicate IsFirst(s: string, pat: string, k: int)
  {
    OccursAt(s, pat, k) && forall q :: 0 <= q < k ==> !OccursAt(s, pat, q)
  }

  /** `pat` occurs nowhere in `s`. */
  predicate Absent(s: string, pat: string)
  {
    forall q :: 0 <= q <= |s| ==> !OccursAt(s, pat, q)
  }

  /** The scan `strstr` performs, starting at position `from`. */
  function FindFrom(s: string, pat: string, from: nat): (r: int)
    requires from <= |s|
    ensures r == -1 || (from <= r && OccursAt(s, pat, r))
    ensures r == -1 ==> forall q :: from <= q ==> !OccursAt(s, pat, q)
    ensures r != -1 ==> forall q :: from <= q < r ==> !OccursAt(s, pat, q)
    decreases |s| - from
  {
    if from + |pat| > |s| then -1
    else if s[from..from + |pat|] == pat then from
    else FindFrom(s, pat, from + 1)
  }

  /** `String::indexOf(const String&)`: the first occurrence of `pat`, or -1. */
  function IndexOf(s: string, pat: string): (r: int)
    ensures r == -1 || IsFirst(s, pat, r)
    ensures r == -1 && |pat| > 0 ==> Absent(s, pat)
  {
    if |s| == 0 then -1 else FindFrom(s, pat, 0)
  }

  /** `String::substring(unsigned left, unsigned right)` (assumed behaviour). */
  function Substring(s: string, left: nat, right: nat): (r: string)
    ensures left <= right <= |s| ==> r == s[left..right]
    ensures right < left <= |s| ==> r == s[right..left]
    ensures left <= right && |s| <= left ==> r == []
    ensures left <= |s| <= right ==> r == s[left..]
    ensures right < |s| < left ==> r == s[right..]
    ensures |s| <= right < left ==> r == []
  {
    var lo := if left > right then right else left;
    var hi := if left > right then left else right;
    if lo >= |s| then "" else s[lo..if hi > |s| then |s| else hi]
  }

  /** `String::substring(unsigned beginIndex)`, which is `substring(beginIndex, length())`. */
  function SubstringFrom(s: string, begin: nat): (r: string)
    ensures begin <= |s| ==> r == s[begin..]
    ensures |s| <= begin ==> r == []
  {
    Substring(s, begin, |s|)
  }

  /** `substring` always returns one contiguous piece of its receiver. */
  lemma SubstringIsSlice(s: string, left: nat, right: nat)
    ensures exists lo, hi :: 0 <= lo <= hi <= |s| && Substring(s, left, right) == s[lo..hi]
  {
    var lo := if left > right then right else left;
    var hi := if left > right then left else right;
    if lo >= |s| {
      assert Substring(s, left, right) == s[0..0];
    } else {
      assert Substring(s, left, right) == s[lo..if hi > |s| then |s| else hi];
    }
  }

  /** A found first occurrence is what `IndexOf` reports. */
  lemma IndexOfFirst(s: string, pat: string, k: int)
    requires |pat| > 0 && IsFirst(s, pat, k)
    ensures IndexOf(s, pat) == k
  {
    var r := IndexOf(s, pat);
    assert OccursAt(s, pat, k);
    assert r != -1 ==> OccursAt(s, pat, r);
  }

  /** `IndexOf` reports -1 exactly when the (non-empty) pattern is absent. */
  lemma IndexOfAbsent(s: string, pat: string)
    requires |pat| > 0
    ensures IndexOf(s, pat) == -1 <==> Absent(s, pat)
  {
    var r := IndexOf(s, pat);
    if r != -1 {
      assert OccursAt(s, pat, r);
    }
  }

  /** `substring` with both bounds inside `s` is unaffected by what follows `s`. */
  lemma SubstringOfAppend(s: string, t: string, left: nat, right: nat)
    requires left <= |s| && right <= |s|
    ensures Substring(s + t, left, right) == Substring(s, left, right)
  {
    if left <= right {
      SliceOfAppend(s, t, left, right);
    } else {
      SliceOfAppend(s, t, right, left);
    }
  }

  /** A slice within `s` is unaffected by what follows `s`. */
  lemma SliceOfAppend(s: string, t: string, lo: int, hi: int)
    requires 0 <= lo <= hi <= |s|
    ensures (s + t)[lo..hi] == s[lo..hi]
  {
  }

  /** An occurrence inside a slice is an occurrence in the whole text. */
  lemma OccursInSlice(s: string, lo: int, hi: int, pat: string, q: int)
    requires 0 <= lo <= q && q + |pat| <= hi <= |s|
    ensures OccursAt(s, pat, q) <==> OccursAt(s[lo..hi], pat, q - lo)
  {
    var inner, outer := s[lo..hi][q - lo..q - lo + |pat|], s[q..q + |pat|];
    forall m | 0 <= m < |pat|
      ensures inner[m] == outer[m]
    {
      assert inner[m] == s[lo..hi][q - lo + m] == s[q + m];
    }
    assert inner == outer;
  }

  /** Text appended after a first occurrence does not move it. */
  lemma IsFirstAppend(s: string, t: string, pat: string, k: int)
    requires IsFirst(s, pat, k)
    ensures IsFirst(s + t, pat, k)
  {
    SliceOfAppend(s, t, k, k + |pat|);
    forall q | 0 <= q < k
      ensures !OccursAt(s + t, pat, q)
    {
      SliceOfAppend(s, t, q, q + |pat|);
      assert !OccursAt(s, pat, q);
    }
  }

  /** A pattern with a character that `s` lacks occurs nowhere in `s`. */
  lemma AbsentByChar(s: string, pat: string, m: int)
    requires 0 <= m < |pat| && pat[m] !in s
    ensures Absent(s, pat)
  {
    forall q | 0 <= q <= |s|
      ensures !OccursAt(s, pat, q)
    {
      if q + |pat| <= |s| {
        assert s[q..q + |pat|][m] == s[q + m];
      }
    }
  }

  /** An occurrence in a + b lies in a or in b unless it covers the last
      character of a or the first of b; neither of those is in the pattern. */
  lemma AbsentJoin(a: string, b: string, pat: string)
    requires Absent(a, pat) && Absent(b, pat)
    requires (|a| > 0 && a[|a| - 1] !in pat) || (|b| > 0 && b[0] !in pat)
    ensures Absent(a + b, pat)
  {
    var s := a + b;
    forall q | 0 <= q <= |s|
      ensures !OccursAt(s, pat, q)
    {
      if q + |pat| <= |a| {
        SliceOfAppend(a, b, q, q + |pat|);
        assert !OccursAt(a, pat, q);
      } else if |a| <= q {
        if q + |pat| <= |s| {
          assert s[q..q + |pat|] == b[q - |a|..q - |a| + |pat|];
          assert !OccursAt(b, pat, q - |a|);
        }
      } else if q + |pat| <= |s| {
        assert s[|a| - 1] == s[q..q + |pat|][|a| - 1 - q];
        assert s[|a|] == s[q..q + |pat|][|a| - q];
      }
    }
  }
}
