/** The Python string primitives the core relies on: str.isspace, str.strip,
    str.find / str.rfind, the `in` test, startswith / endswith, lower-casing,
    str.replace for one character, str.join and str(int). */
module Text {

  /** str.isspace() for one character (the characters CPython treats as whitespace). */
  predicate IsSpace(c: char) {
    || c == ' '
    || ('\t' <= c <= '\r')
    || ('\U{1c}' <= c <= '\U{1f}')
    || c == '\U{85}' || c == '\U{a0}' || c == '\U{1680}'
    || ('\U{2000}' <= c <= '\U{200a}')
    || c == '\U{2028}' || c == '\U{2029}' || c == '\U{202f}' || c == '\U{205f}' || c == '\U{3000}'
  }

  /** A string with no leading and no trailing whitespace. */
  predicate IsStripped(s: string) {
    |s| == 0 || (!IsSpace(s[0]) && !IsSpace(s[|s| - 1]))
  }

  /** `r` is a contiguous piece of `s`. */
  ghost predicate IsInfix(r: string, s: string) {
    exists i, j :: 0 <= i <= j <= |s| && r == s[i..j]
  }

  lemma SliceInfix(s: string, a: int, b: int)
    requires 0 <= a <= b <= |s|
    ensures IsInfix(s[a..b], s)
  {
  }

  lemma InfixTransitive(a: string, b: string, c: string)
    requires IsInfix(a, b) && IsInfix(b, c)
    ensures IsInfix(a, c)
  {
    var i, j :| 0 <= i <= j <= |b| && a == b[i..j];
    var k, l :| 0 <= k <= l <= |c| && b == c[k..l];
    assert |a| == j - i;
    forall x | 0 <= x < |a| ensures a[x] == c[k + i + x] {
      assert a[x] == b[i + x];
    }
    assert a == c[k + i..k + j];
  }

  /** The first index at or after k that holds a non-space, or |s|. */
  function SkipSpaces(s: string, k: nat): (r: nat)
    requires k <= |s|
    ensures k <= r <= |s|
    ensures r < |s| ==> !IsSpace(s[r])
    decreases |s| - k
  {
    if k < |s| && IsSpace(s[k]) then SkipSpaces(s, k + 1) else k
  }

  lemma {:induction false} SkipSpacesSkipsSpaces(s: string, k: nat)
    requires k <= |s|
    ensures forall x :: k <= x < SkipSpaces(s, k) ==> IsSpace(s[x])
    decreases |s| - k
  {
    if k < |s| && IsSpace(s[k]) {
      SkipSpacesSkipsSpaces(s, k + 1);
    }
  }

  /** Walking back from k, but not past lo, over spaces: the index just past
      the last non-space, or lo. */
  function BackSpaces(s: string, lo: nat, k: nat): (r: nat)
    requires lo <= k <= |s|
    ensures lo <= r <= k
    ensures r > lo ==> !IsSpace(s[r - 1])
    decreases k
  {
    if k > lo && IsSpace(s[k - 1]) then BackSpaces(s, lo, k - 1) else k
  }

  lemma {:induction false} BackSpacesSkipsSpaces(s: string, lo: nat, k: nat)
    requires lo <= k <= |s|
    ensures forall x :: BackSpaces(s, lo, k) <= x < k ==> IsSpace(s[x])
    decreases k
  {
    if k > lo && IsSpace(s[k - 1]) {
      BackSpacesSkipsSpaces(s, lo, k - 1);
    }
  }

  /** Index of the first character str.strip() keeps. */
  function StripStart(s: string): (lo: nat)
    ensures lo <= |s|
  {
    SkipSpaces(s, 0)
  }

  /** Index just past the last character str.strip() keeps. */
  function StripEnd(s: string): (hi: nat)
    ensures StripStart(s) <= hi <= |s|
  {
    BackSpaces(s, StripStart(s), |s|)
  }

  /** str.strip() with no argument. */
  function Strip(s: string): (r: string)
    ensures IsStripped(r)
    ensures |r| <= |s|
  {
    StripBounds(s);
    s[StripStart(s)..StripEnd(s)]
  }

  /** What Strip keeps is one piece of its argument. */
  lemma StripInfix(s: string)
    ensures IsInfix(Strip(s), s)
  {
    StripBounds(s);
  }

  /** Strip removes whitespace only, and only at the two ends. */
  lemma StripBounds(s: string)
    ensures 0 <= StripStart(s) <= StripEnd(s) <= |s|
    ensures forall k :: 0 <= k < StripStart(s) ==> IsSpace(s[k])
    ensures forall k :: StripEnd(s) <= k < |s| ==> IsSpace(s[k])
    ensures StripStart(s) < StripEnd(s) ==> !IsSpace(s[StripStart(s)]) && !IsSpace(s[StripEnd(s) - 1])
    ensures StripStart(s) == StripEnd(s) ==> forall k :: 0 <= k < |s| ==> IsSpace(s[k])
  {
    SkipSpacesSkipsSpaces(s, 0);
    BackSpacesSkipsSpaces(s, StripStart(s), |s|);
  }

  /** A visible character sits between the bounds Strip keeps. */
  lemma VisibleInsideStrip(s: string, k: int)
    requires 0 <= k < |s| && !IsSpace(s[k])
    ensures StripStart(s) <= k < StripEnd(s)
  {
    StripBounds(s);
  }

  /** Slicing a slice is slicing the original at shifted indices. */
  lemma Reslice(t: string, s: string, lo: int, hi: int, a: int, b: int, ta: int, tb: int)
    requires 0 <= a <= b <= hi - lo && 0 <= lo <= hi <= |t| && s == t[lo..hi]
    requires ta == a + lo && tb == b + lo
    ensures s[a..b] == t[ta..tb]
  {
    assert |s[a..b]| == b - a;
    forall k | 0 <= k < b - a ensures s[a..b][k] == t[ta..tb][k] {
    }
  }

  /** A string that is already stripped is left alone. */
  lemma StripStripped(s: string)
    requires IsStripped(s)
    ensures Strip(s) == s
  {
    StripBounds(s);
  }

  /** str.strip() is idempotent. */
  lemma StripIdempotent(s: string)
    ensures Strip(Strip(s)) == Strip(s)
  {
    StripStripped(Strip(s));
  }

  /** A non-blank piece that starts and ends with visible characters keeps
      them when the text around it is stripped: the strip bounds lie outside
      the piece s[a..b]. */
  lemma StripAround(s: string, a: int, b: int)
    requires 0 <= a < b <= |s| && !IsSpace(s[a]) && !IsSpace(s[b - 1])
    ensures 0 <= StripStart(s) <= a && b <= StripEnd(s) <= |s|
    ensures Strip(s) == s[StripStart(s)..StripEnd(s)]
  {
    StripBounds(s);
    VisibleInsideStrip(s, a);
    VisibleInsideStrip(s, b - 1);
  }

  /** A slice that covers the middle piece of p + mid + q is a tail of p,
      the middle piece, and a head of q. */
  lemma SliceAround(p: string, mid: string, q: string, lo: int, hi: int)
    requires 0 <= lo <= |p| && |p| + |mid| <= hi <= |p| + |mid| + |q|
    ensures (p + mid + q)[lo..hi] == p[lo..] + mid + q[..hi - |p| - |mid|]
  {
    var s := p + mid + q;
    var r := p[lo..] + mid + q[..hi - |p| - |mid|];
    assert |s[lo..hi]| == |r|;
    forall i | 0 <= i < |r|
      ensures s[lo..hi][i] == r[i]
    {
      if lo + i < |p| {
        assert r[i] == p[lo + i];
      } else if lo + i < |p| + |mid| {
        assert r[i] == mid[lo + i - |p|];
      } else {
        assert r[i] == q[lo + i - |p| - |mid|];
      }
    }
  }

  /** Stripping whitespace padding from a stripped, non-empty text gives the text. */
  lemma StripPadded(ws: string, x: string, ws2: string)
    requires forall k :: 0 <= k < |ws| ==> IsSpace(ws[k])
    requires forall k :: 0 <= k < |ws2| ==> IsSpace(ws2[k])
    requires |x| > 0 && IsStripped(x)
    ensures Strip(ws + x + ws2) == x
  {
    var s := ws + x + ws2;
    var a, b := |ws|, |ws| + |x|;
    assert s[a] == x[0] && s[b - 1] == x[|x| - 1];
    StripAround(s, a, b);
    assert s[a..b] == x;
  }

  // ---------------------------------------------------------------------------
  // Searching

  /** The pattern `p` occurs in `s` at index `k`. */
  predicate IsAt(s: string, p: string, k: int) {
    0 <= k && k + |p| <= |s| && s[k..k + |p|] == p
  }

  /** s.find(p, from): the least index at or after `from` where `p` occurs, or -1. */
  function FindFrom(s: string, p: string, from: nat): (r: int)
    ensures r == -1 || (from <= r && IsAt(s, p, r))
    decreases |s| - from
  {
    if from + |p| > |s| then -1
    else if IsAt(s, p, from) then from
    else FindFrom(s, p, from + 1)
  }

  /** FindFrom misses no earlier occurrence, and -1 means there is none. */
  lemma {:induction false} FindFromLeast(s: string, p: string, from: nat)
    ensures FindFrom(s, p, from) == -1 ==> forall k :: from <= k ==> !IsAt(s, p, k)
    ensures forall k :: from <= k < FindFrom(s, p, from) ==> !IsAt(s, p, k)
    decreases |s| - from
  {
    if from + |p| > |s| {
    } else if IsAt(s, p, from) {
    } else {
      FindFromLeast(s, p, from + 1);
    }
  }

  /** The least occurrence at or after `from` is what FindFrom returns. */
  lemma FindFromIs(s: string, p: string, from: nat, r: int)
    requires from <= r && IsAt(s, p, r)
    requires forall k :: from <= k < r ==> !IsAt(s, p, k)
    ensures FindFrom(s, p, from) == r
  {
    FindFromLeast(s, p, from);
  }

  /** With no occurrence at or after `from`, FindFrom gives -1. */
  lemma FindFromNone(s: string, p: string, from: nat)
    requires forall k :: from <= k ==> !IsAt(s, p, k)
    ensures FindFrom(s, p, from) == -1
  {
  }

  /** Python's `p in s` for strings. */
  predicate Contains(s: string, p: string) {
    FindFrom(s, p, 0) >= 0
  }

  lemma ContainsAt(s: string, p: string, k: int)
    requires IsAt(s, p, k)
    ensures Contains(s, p)
  {
    FindFromLeast(s, p, 0);
  }

  /** A piece of a string cannot contain a pattern the whole string lacks. */
  lemma InfixLacks(a: string, b: string, p: string)
    requires IsInfix(a, b) && !Contains(b, p)
    ensures !Contains(a, p)
  {
    if Contains(a, p) {
      var i, j :| 0 <= i <= j <= |b| && a == b[i..j];
      var k := FindFrom(a, p, 0);
      AtInSlice(a, b, i, j, p, k);
      ContainsAt(b, p, i + k);
      assert false;
    }
  }

  /** An occurrence in a slice is an occurrence in the whole string. */
  lemma AtInSlice(a: string, b: string, i: int, j: int, p: string, k: int)
    requires 0 <= i <= j <= |b| && a == b[i..j] && IsAt(a, p, k)
    ensures IsAt(b, p, i + k)
  {
    var u, v := b[i + k..i + k + |p|], a[k..k + |p|];
    forall x | 0 <= x < |p|
      ensures u[x] == v[x]
    {
      assert u[x] == b[i + k + x] && v[x] == a[k + x];
    }
    assert u == v;
  }

  /** Same for a single character. */
  lemma InfixLacksChar(a: string, b: string, c: char)
    requires IsInfix(a, b) && c !in b
    ensures c !in a
  {
    if c in a {
      assert false;
    }
  }

  /** The first index at or after k holding c, or -1. */
  function IndexFrom(s: string, c: char, k: nat): (r: int)
    requires k <= |s|
    ensures r == -1 || (k <= r < |s| && s[r] == c)
    decreases |s| - k
  {
    if k == |s| then -1 else if s[k] == c then k else IndexFrom(s, c, k + 1)
  }

  lemma {:induction false} IndexFromFirst(s: string, c: char, k: nat)
    requires k <= |s|
    ensures var r := IndexFrom(s, c, k);
            forall x :: k <= x < (if r == -1 then |s| else r) ==> s[x] != c
    decreases |s| - k
  {
    if k < |s| && s[k] != c {
      IndexFromFirst(s, c, k + 1);
    }
  }

  /** s.find(c) for one character. */
  function IndexOf(s: string, c: char): (r: int)
    ensures -1 <= r < |s|
    ensures r == -1 <==> c !in s
    ensures r >= 0 ==> s[r] == c
  {
    IndexFromFirst(s, c, 0);
    IndexFrom(s, c, 0)
  }

  /** No occurrence of c comes before IndexOf(s, c). */
  lemma IndexOfFirst(s: string, c: char)
    ensures forall k :: 0 <= k < IndexOf(s, c) ==> s[k] != c
  {
    IndexFromFirst(s, c, 0);
  }

  /** The last index below k holding c, or -1. */
  function IndexBefore(s: string, c: char, k: nat): (r: int)
    requires k <= |s|
    ensures r == -1 || (0 <= r < k && s[r] == c)
    decreases k
  {
    if k == 0 then -1 else if s[k - 1] == c then k - 1 else IndexBefore(s, c, k - 1)
  }

  lemma {:induction false} IndexBeforeLast(s: string, c: char, k: nat)
    requires k <= |s|
    ensures forall x :: IndexBefore(s, c, k) < x < k ==> s[x] != c
    decreases k
  {
    if k > 0 && s[k - 1] != c {
      IndexBeforeLast(s, c, k - 1);
    }
  }

  /** s.rfind(c) for one character. */
  function LastIndexOf(s: string, c: char): (r: int)
    ensures -1 <= r < |s|
    ensures r == -1 <==> c !in s
    ensures r >= 0 ==> s[r] == c
  {
    IndexBeforeLast(s, c, |s|);
    IndexBefore(s, c, |s|)
  }

  /** No occurrence of c comes after LastIndexOf(s, c). */
  lemma LastIndexOfLast(s: string, c: char)
    ensures forall k :: LastIndexOf(s, c) < k < |s| ==> s[k] != c
  {
    IndexBeforeLast(s, c, |s|);
  }

  /** The characterisation of IndexOf determines it. */
  lemma IndexOfUnique(s: string, c: char, i: int)
    requires 0 <= i < |s| && s[i] == c
    requires forall k :: 0 <= k < i ==> s[k] != c
    ensures IndexOf(s, c) == i
  {
    IndexOfFirst(s, c);
  }

  /** The characterisation of LastIndexOf determines it. */
  lemma LastIndexOfUnique(s: string, c: char, i: int)
    requires 0 <= i < |s| && s[i] == c
    requires forall k :: i < k < |s| ==> s[k] != c
    ensures LastIndexOf(s, c) == i
  {
    LastIndexOfLast(s, c);
  }

  /** Cutting a slice that keeps the first occurrence shifts its index. */
  lemma IndexOfSlice(t: string, lo: int, hi: int, c: char)
    requires 0 <= lo <= IndexOf(t, c) < hi <= |t|
    ensures IndexOf(t[lo..hi], c) == IndexOf(t, c) - lo
  {
    var i := IndexOf(t, c);
    var s := t[lo..hi];
    IndexOfFirst(t, c);
    assert s[i - lo] == c;
    forall k | 0 <= k < i - lo ensures s[k] != c {
      assert s[k] == t[k + lo];
    }
    IndexOfUnique(s, c, i - lo);
  }

  /** Cutting a slice that keeps the last occurrence shifts its index. */
  lemma LastIndexOfSlice(t: string, lo: int, hi: int, c: char)
    requires 0 <= lo <= LastIndexOf(t, c) < hi <= |t|
    ensures LastIndexOf(t[lo..hi], c) == LastIndexOf(t, c) - lo
  {
    var j := LastIndexOf(t, c);
    var s := t[lo..hi];
    LastIndexOfLast(t, c);
    assert s[j - lo] == c;
    forall k | j - lo < k < |s| ensures s[k] != c {
      assert s[k] == t[k + lo];
    }
    LastIndexOfUnique(s, c, j - lo);
  }

  predicate StartsWith(s: string, p: string) {
    |p| <= |s| && s[..|p|] == p
  }

  predicate EndsWith(s: string, p: string) {
    |p| <= |s| && s[|s| - |p|..] == p
  }

  // ---------------------------------------------------------------------------
  // Transformations

  /** Lower-casing of one character, for the ASCII letters. */
  function LowerChar(c: char): char {
    if 'A' <= c <= 'Z' then (c as int + 32) as char else c
  }

  /** str.lower(), for the ASCII letters. */
  function Lower(s: string): (r: string)
    ensures |r| == |s|
    ensures forall k :: 0 <= k < |s| ==> r[k] == LowerChar(s[k])
  {
    seq(|s|, k requires 0 <= k < |s| => LowerChar(s[k]))
  }

  /** s.replace(a, b) for two single characters. */
  function ReplaceChar(s: string, a: char, b: char): (r: string)
    ensures |r| == |s|
    ensures forall k :: 0 <= k < |s| ==> r[k] == if s[k] == a then b else s[k]
  {
    seq(|s|, k requires 0 <= k < |s| => if s[k] == a then b else s[k])
  }

  /** sep.join(xs). */
  function Join(xs: seq<string>, sep: string): string {
    if |xs| == 0 then ""
    else if |xs| == 1 then xs[0]
    else xs[0] + sep + Join(xs[1..], sep)
  }

  function DigitChar(d: nat): char
    requires d < 10
  {
    ('0' as int + d) as char
  }

  /** str(n) for a non-negative integer. */
  function NatToString(n: nat): (r: string)
    ensures |r| > 0
    ensures forall k :: 0 <= k < |r| ==> '0' <= r[k] <= '9'
  {
    if n < 10 then [DigitChar(n)] else NatToString(n / 10) + [DigitChar(n % 10)]
  }
}
