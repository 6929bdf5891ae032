/** The handful of Python `str` operations the conversion code relies on:
    `strip`, `find`, `split`, `split(sep, 1)`, `join`, `count` and the
    code-point order that `sorted` uses on strings. */
module Strings {
  import opened Wrappers

  /** Python's `str.isspace()` for a single character: the ASCII controls
      TAB..CR and FS..US, the space, and the Unicode spaces and separators. */
  predicate IsSpace(c: char) {
    var n := c as int;
    (9 <= n <= 13) || (28 <= n <= 32) || n == 0x85 || n == 0xA0 || n == 0x1680
    || (0x2000 <= n <= 0x200A) || n == 0x2028 || n == 0x2029 || n == 0x202F
    || n == 0x205F || n == 0x3000
  }

  /** The string has no white space at either end. */
  predicate Trimmed(s: string) {
    s == [] || (!IsSpace(s[0]) && !IsSpace(s[|s| - 1]))
  }

  /** `str.lstrip()`: drops the maximal run of leading white space. */
  function LStrip(s: string): (r: string)
    ensures |r| <= |s| && r == s[|s| - |r|..]
    ensures r != [] ==> !IsSpace(r[0])
  {
    if |s| > 0 && IsSpace(s[0]) then LStrip(s[1..]) else s
  }

  /** Everything `lstrip` drops is white space. */
  lemma {:induction false} LStripDropsSpace(s: string)
    ensures forall i | 0 <= i < |s| - |LStrip(s)| :: IsSpace(s[i])
    decreases |s|
  {
    if |s| > 0 && IsSpace(s[0]) {
      LStripDropsSpace(s[1..]);
      assert forall i | 1 <= i < |s| :: s[i] == s[1..][i - 1];
    }
  }

  /** `str.rstrip()`: drops the maximal run of trailing white space. */
  function RStrip(s: string): (r: string)
    ensures |r| <= |s| && r == s[..|r|]
    ensures r != [] ==> !IsSpace(r[|r| - 1])
  {
    if |s| > 0 && IsSpace(s[|s| - 1]) then RStrip(s[..|s| - 1]) else s
  }

  /** Everything `rstrip` drops is white space. */
  lemma {:induction false} RStripDropsSpace(s: string)
    ensures forall i | |RStrip(s)| <= i < |s| :: IsSpace(s[i])
    decreases |s|
  {
    if |s| > 0 && IsSpace(s[|s| - 1]) {
      RStripDropsSpace(s[..|s| - 1]);
      assert forall i | 0 <= i < |s| - 1 :: s[i] == s[..|s| - 1][i];
    }
  }

  /** `r` sits in `s` at index `i` with only white space around it. */
  predicate StrippedAt(s: string, r: string, i: int) {
    0 <= i <= |s| - |r| && s[i..i + |r|] == r
    && (forall k | 0 <= k < i :: IsSpace(s[k]))
    && (forall k | i + |r| <= k < |s| :: IsSpace(s[k]))
  }

  /** `str.strip()`: the result has no white space at either end. */
  function Strip(s: string): (r: string)
    ensures Trimmed(r)
  {
    RStrip(LStrip(s))
  }

  /** `strip` keeps a substring of `s` and removes only white space
      around it. */
  lemma StripKeepsMiddle(s: string)
    ensures exists i :: StrippedAt(s, Strip(s), i)
  {
    LStripDropsSpace(s);
    RStripDropsSpace(LStrip(s));
    StripParts(s, LStrip(s), Strip(s));
  }

  /** Dropping a leading run from `s`, then a trailing run from the rest,
      leaves the part of `s` between the two runs. */
  lemma StripParts(s: string, l: string, r: string)
    requires |l| <= |s| && l == s[|s| - |l|..] && (forall k | 0 <= k < |s| - |l| :: IsSpace(s[k]))
    requires |r| <= |l| && r == l[..|r|] && (forall k | |r| <= k < |l| :: IsSpace(l[k]))
    ensures StrippedAt(s, r, |s| - |l|)
  {
    var i := |s| - |l|;
    assert s[i..i + |r|] == r;
    forall k | i + |r| <= k < |s|
      ensures IsSpace(s[k])
    {
      assert s[k] == l[k - i];
    }
  }

  /** A string that is already trimmed is left alone by `strip`. */
  lemma StripTrimmed(s: string)
    requires Trimmed(s)
    ensures Strip(s) == s
  {
  }

  /** `strip` is idempotent. */
  lemma StripIdempotent(s: string)
    ensures Strip(Strip(s)) == Strip(s)
  {
    StripTrimmed(Strip(s));
  }

  // ---------------------------------------------------------------------
  // Searching

  /** `sep` occurs in `s` starting at index `i`. */
  predicate OccursAt(s: string, sep: string, i: int) {
    0 <= i && i + |sep| <= |s| && s[i..i + |sep|] == sep
  }

  predicate Contains(s: string, sep: string) {
    exists i | 0 <= i <= |s| :: OccursAt(s, sep, i)
  }

  function IndexFrom(s: string, sep: string, k: nat): (r: Option<nat>)
    requires k <= |s|
    ensures r.Some? ==> (k <= r.value && OccursAt(s, sep, r.value)
      && forall j | k <= j < r.value :: !OccursAt(s, sep, j))
    ensures r.None? ==> forall j | k <= j <= |s| :: !OccursAt(s, sep, j)
    decreases |s| - k
  {
    if k + |sep| > |s| then None
    else if s[k..k + |sep|] == sep then Some(k)
    else IndexFrom(s, sep, k + 1)
  }

  /** `str.find`: the lowest index at which `sep` occurs, if any. */
  function IndexOf(s: string, sep: string): (r: Option<nat>)
    ensures r.Some? ==> (OccursAt(s, sep, r.value)
      && forall j | 0 <= j < r.value :: !OccursAt(s, sep, j))
    ensures r.None? <==> !Contains(s, sep)
  {
    IndexFrom(s, sep, 0)
  }

  /** The highest index `j` with `k <= j <= hi` at which `sep` occurs, if any. */
  function LastIndexBelow(s: string, sep: string, k: nat, hi: nat): (r: Option<nat>)
    ensures r.Some? ==> (k <= r.value <= hi && OccursAt(s, sep, r.value)
      && forall j | r.value < j <= hi :: !OccursAt(s, sep, j))
    ensures r.None? ==> forall j | k <= j <= hi :: !OccursAt(s, sep, j)
    decreases hi
  {
    if hi < k then None
    else if OccursAt(s, sep, hi) then Some(hi)
    else if hi == 0 then None
    else LastIndexBelow(s, sep, k, hi - 1)
  }

  /** The highest index at or after `k` at which `sep` occurs, if any: where
      a greedy group followed by `sep` ends. */
  function LastIndexFrom(s: string, sep: string, k: nat): (r: Option<nat>)
    ensures r.Some? ==> (k <= r.value && OccursAt(s, sep, r.value)
      && forall j | r.value < j :: !OccursAt(s, sep, j))
    ensures r.None? ==> forall j | k <= j :: !OccursAt(s, sep, j)
  {
    LastIndexBelow(s, sep, k, |s|)
  }

  /** An occurrence inside a slice is an occurrence in the whole. */
  lemma OccursInSlice(s: string, sep: string, lo: nat, hi: nat, j: int)
    requires lo <= hi <= |s|
    ensures OccursAt(s[lo..hi], sep, j) ==> OccursAt(s, sep, lo + j)
  {
    if OccursAt(s[lo..hi], sep, j) {
      var a, b := s[lo..hi][j..j + |sep|], s[lo + j..lo + j + |sep|];
      assert |a| == |b| && forall t | 0 <= t < |a| :: a[t] == b[t];
    }
  }

  /** Slicing a suffix is slicing the whole at shifted indices. */
  lemma SliceOfSuffix(s: string, d: nat, a: nat, b: nat)
    requires d <= |s| && a <= b <= |s| - d
    ensures s[d..][a..b] == s[d + a..d + b]
    ensures s[d..][a..] == s[d + a..]
  {
  }

  /** An occurrence of `a + b` is an occurrence of `a` followed by one of `b`. */
  lemma OccursConcat(s: string, a: string, b: string, i: int)
    ensures OccursAt(s, a + b, i) <==> OccursAt(s, a, i) && OccursAt(s, b, i + |a|)
  {
    if 0 <= i && i + |a| + |b| <= |s| {
      var t := s[i..i + |a| + |b|];
      assert t == s[i..i + |a|] + s[i + |a|..i + |a| + |b|];
      if t == a + b {
        assert t[..|a|] == a && t[|a|..] == b;
      }
    }
  }

  /** A slice occurs where it was cut. */
  lemma OccursSlice(s: string, i: int, j: int)
    requires 0 <= i <= j <= |s|
    ensures OccursAt(s, s[i..j], i)
  {
  }

  /** A one-character occurrence is that character at that index. */
  lemma OccursChar(s: string, c: char, i: int)
    ensures OccursAt(s, [c], i) <==> 0 <= i < |s| && s[i] == c
  {
    if 0 <= i < |s| {
      assert s[i..i + 1] == [s[i]];
    }
  }

  /** A two-character occurrence is those characters at those indices. */
  lemma OccursPair(s: string, c: char, d: char, i: int)
    ensures OccursAt(s, [c, d], i) <==> 0 <= i && i + 2 <= |s| && s[i] == c && s[i + 1] == d
  {
    if 0 <= i && i + 2 <= |s| {
      assert s[i..i + 2] == [s[i], s[i + 1]];
    }
  }

  /** Concatenation regroups freely. */
  lemma AppendAssoc<T>(a: seq<T>, b: seq<T>, c: seq<T>)
    ensures (a + b) + c == a + (b + c)
  {
  }

  /** Appending nothing. */
  lemma AppendEmpty<T>(s: seq<T>)
    ensures s + [] == s
  {
  }

  /** A prefix one element longer. */
  lemma TakeOneMore<T>(s: seq<T>, i: nat)
    requires i < |s|
    ensures s[..i + 1] == s[..i] + [s[i]]
  {
  }

  /** Sequences with the same elements are equal. */
  lemma SameElements<T>(a: seq<T>, b: seq<T>)
    requires |a| == |b| && forall i | 0 <= i < |a| :: a[i] == b[i]
    ensures a == b
  {
  }

  /** The prefix as long as the whole. */
  lemma TakeAll<T>(s: seq<T>)
    ensures s[..|s|] == s
  {
  }

  // ---------------------------------------------------------------------
  // Splitting and joining

  /** `sep.join(parts)`. */
  function Join(parts: seq<string>, sep: string): string {
    if |parts| == 0 then ""
    else if |parts| == 1 then parts[0]
    else parts[0] + sep + Join(parts[1..], sep)
  }

  /** `"".join(parts)`. */
  function Concat(parts: seq<string>): string {
    if |parts| == 0 then "" else parts[0] + Concat(parts[1..])
  }

  lemma ConcatAppend(parts: seq<string>, last: string)
    ensures Concat(parts + [last]) == Concat(parts) + last
  {
    if |parts| > 0 {
      assert (parts + [last])[1..] == parts[1..] + [last];
    }
  }

  /** `s.split(sep)` for a non-empty separator: cuts at each leftmost,
      non-overlapping occurrence. Joining the parts with `sep` gives back `s`,
      and no part contains the separator. */
  function Split(s: string, sep: string): (parts: seq<string>)
    requires |sep| > 0
    ensures |parts| >= 1
    ensures Join(parts, sep) == s
    ensures forall k | 0 <= k < |parts| :: !Contains(parts[k], sep)
    decreases |s|
  {
    match IndexOf(s, sep)
    case None => [s]
    case Some(i) =>
      var head := s[..i];
      var rest := Split(s[i + |sep|..], sep);
      assert !Contains(head, sep) by {
        forall j | 0 <= j <= |head| ensures !OccursAt(head, sep, j) {
          OccursInSlice(s, sep, 0, i, j);
        }
      }
      assert s == head + sep + s[i + |sep|..] by {
        assert s[i..i + |sep|] == sep;
      }
      [head] + rest
  }

  /** The text before the first occurrence, followed by the separator, has
      its own first occurrence right after that text. */
  lemma FirstCut(s: string, sep: string, i: nat)
    requires IndexOf(s, sep) == Some(i)
    ensures IndexOf(s[..i] + sep, sep) == Some(i)
  {
    var t := s[..i] + sep;
    assert t == s[..i + |sep|];
    assert t[i..i + |sep|] == sep;
    assert OccursAt(t, sep, i);
    forall j | 0 <= j < i ensures !OccursAt(t, sep, j) {
      OccursInSlice(s, sep, 0, i + |sep|, j);
    }
    assert Contains(t, sep);
  }

  /** Each cut falls at the leftmost occurrence: in a part followed by the
      separator, the first occurrence is the one right after the part. */
  lemma {:induction false} SplitLeftmost(s: string, sep: string)
    requires |sep| > 0
    ensures var parts := Split(s, sep);
      forall k | 0 <= k < |parts| - 1 :: IndexOf(parts[k] + sep, sep) == Some(|parts[k]|)
    decreases |s|
  {
    match IndexOf(s, sep)
    case None =>
    case Some(i) =>
      var parts := Split(s, sep);
      var rest := s[i + |sep|..];
      assert parts == [s[..i]] + Split(rest, sep);
      FirstCut(s, sep, i);
      SplitLeftmost(rest, sep);
      forall k | 1 <= k < |parts| - 1
        ensures IndexOf(parts[k] + sep, sep) == Some(|parts[k]|)
      {
        assert parts[k] == Split(rest, sep)[k - 1];
      }
  }

  /** A single part exactly when the separator does not occur. */
  lemma SplitSingle(s: string, sep: string)
    requires |sep| > 0
    ensures |Split(s, sep)| == 1 <==> !Contains(s, sep)
    ensures !Contains(s, sep) ==> Split(s, sep) == [s]
  {
    if Contains(s, sep) {
      var i := IndexOf(s, sep).value;
      assert |Split(s, sep)| == 1 + |Split(s[i + |sep|..], sep)|;
    }
  }

  /** Python's `s.split(sep, 1)`: at most two parts, cut at the first occurrence. */
  function SplitOnce(s: string, sep: string): (parts: seq<string>)
    ensures Contains(s, sep) ==> (|parts| == 2 && parts[0] + sep + parts[1] == s
      && forall j | 0 <= j < |parts[0]| :: !OccursAt(s, sep, j))
    ensures !Contains(s, sep) ==> parts == [s]
  {
    match IndexOf(s, sep)
    case None => [s]
    case Some(i) =>
      assert s == s[..i] + sep + s[i + |sep|..] by {
        assert s[i..i + |sep|] == sep;
      }
      [s[..i], s[i + |sep|..]]
  }

  /** `s.count(sep)` for a non-empty separator: non-overlapping occurrences,
      counted by a left-to-right prefix scan. */
  function Count(s: string, sep: string): nat
    requires |sep| > 0
    decreases |s|
  {
    if |s| < |sep| then 0
    else if s[..|sep|] == sep then 1 + Count(s[|sep|..], sep)
    else Count(s[1..], sep)
  }

  lemma CountSkip(s: string, sep: string, k: nat)
    requires |sep| > 0 && k <= |s|
    requires forall j | 0 <= j < k :: !OccursAt(s, sep, j)
    ensures Count(s, sep) == Count(s[k..], sep)
    decreases k
  {
    if k > 0 {
      assert !OccursAt(s, sep, 0);
      if |s| >= |sep| {
        assert s[..|sep|] != sep;
        forall j | 0 <= j < k - 1 ensures !OccursAt(s[1..], sep, j) {
          assert s[1..] == s[1..|s|];
          OccursInSlice(s, sep, 1, |s|, j);
        }
        CountSkip(s[1..], sep, k - 1);
        assert s[1..][k - 1..] == s[k..];
      } else {
        assert Count(s[k..], sep) == 0;
      }
    }
  }

  /** Splitting yields one part more than there are occurrences. */
  lemma {:induction false} SplitCount(s: string, sep: string)
    requires |sep| > 0
    ensures |Split(s, sep)| == Count(s, sep) + 1
    decreases |s|
  {
    match IndexOf(s, sep)
    case None =>
      forall j | 0 <= j < |s| + 1 ensures !OccursAt(s, sep, j) {}
      CountSkip(s[..], sep, |s|);
    case Some(i) =>
      CountSkip(s, sep, i);
      assert s[i..][..|sep|] == sep;
      assert s[i..][|sep|..] == s[i + |sep|..];
      SplitCount(s[i + |sep|..], sep);
  }

  // ---------------------------------------------------------------------
  // Python's string order, used by `sorted`

  /** `a < b` on Python strings: lexicographic by code point. */
  predicate LexLess(a: string, b: string)
    decreases |a|
  {
    |b| > 0 && (|a| == 0 || a[0] < b[0] || (a[0] == b[0] && LexLess(a[1..], b[1..])))
  }

  lemma LexLessIrreflexive(a: string)
    ensures !LexLess(a, a)
  {
  }

  lemma {:induction false} LexLessTransitive(a: string, b: string, c: string)
    requires LexLess(a, b) && LexLess(b, c)
    ensures LexLess(a, c)
    decreases |a|
  {
    if |a| > 0 && a[0] == b[0] && b[0] == c[0] {
      LexLessTransitive(a[1..], b[1..], c[1..]);
    }
  }

  lemma {:induction false} LexLessTotal(a: string, b: string)
    ensures a == b || LexLess(a, b) || LexLess(b, a)
    decreases |a|
  {
    if |a| > 0 && |b| > 0 && a[0] == b[0] {
      LexLessTotal(a[1..], b[1..]);
      if a[1..] == b[1..] {
        assert a == [a[0]] + a[1..] && b == [b[0]] + b[1..];
      }
    }
  }

  lemma {:induction false} LexLessAsymmetric(a: string, b: string)
    requires LexLess(a, b)
    ensures !LexLess(b, a)
    decreases |a|
  {
    if |a| > 0 && a[0] == b[0] {
      LexLessAsymmetric(a[1..], b[1..]);
    }
  }
}
