/**
 * The few operations on Python `str` values that the manifest builder relies on:
 * `endswith`, the `in` operator, `split(sep)[0]` and the ordering `sorted` uses.
 * Strings are sequences of code points, as they are in Python 3.
 */
module Text {
  import opened Wrappers

  /** `s.endswith(suffix)`. */
  predicate EndsWith(s: string, suffix: string) {
    |suffix| <= |s| && s[|s| - |suffix|..] == suffix
  }

  /** `s.endswith(suffix)` holds exactly when `s` is some string followed by `suffix`. */
  lemma EndsWithIff(s: string, suffix: string)
    ensures EndsWith(s, suffix) <==> exists p :: s == p + suffix
  {
    if EndsWith(s, suffix) {
      var p := s[..|s| - |suffix|];
      assert s == p + suffix;
    }
    if exists p :: s == p + suffix {
      var p :| s == p + suffix;
      assert s[|s| - |suffix|..] == suffix;
    }
  }

  /** The marker `m` occurs in `s` starting at index `k`. */
  predicate OccursAt(s: string, m: string, k: int) {
    0 <= k && k + |m| <= |s| && s[k..k + |m|] == m
  }

  /** The first index at or after `from` where `m` occurs in `s`, if any. */
  function IndexFrom(s: string, m: string, from: nat): (r: Option<nat>)
    ensures r.Some? ==> from <= r.value && OccursAt(s, m, r.value)
    ensures r.Some? ==> forall k :: from <= k < r.value ==> !OccursAt(s, m, k)
    ensures r.None? ==> forall k :: from <= k ==> !OccursAt(s, m, k)
    decreases |s| - from
  {
    if from + |m| > |s| then None
    else if s[from..from + |m|] == m then Some(from)
    else IndexFrom(s, m, from + 1)
  }

  /** The index of the first occurrence of `m` in `s` (Python `s.find(m)`, with `None` for -1). */
  function IndexOf(s: string, m: string): (r: Option<nat>)
    ensures r.Some? ==> OccursAt(s, m, r.value)
    ensures r.Some? ==> forall k :: 0 <= k < r.value ==> !OccursAt(s, m, k)
    ensures r.None? <==> forall k :: !OccursAt(s, m, k)
  {
    IndexFrom(s, m, 0)
  }

  /** `m in s`. */
  predicate Contains(s: string, m: string) {
    IndexOf(s, m).Some?
  }

  /** `m in s` holds exactly when `s` is some string, then `m`, then some string. */
  lemma ContainsIff(s: string, m: string)
    ensures Contains(s, m) <==> exists p, q :: s == p + m + q
  {
    if Contains(s, m) {
      var k := IndexOf(s, m).value;
      assert s == s[..k] + m + s[k + |m|..];
    }
    if exists p, q :: s == p + m + q {
      var p, q :| s == p + m + q;
      assert OccursAt(s, m, |p|);
    }
  }

  /** A separator character absent from `p` is first found right after `p`. */
  lemma IndexOfSeparator(p: string, c: char, q: string)
    requires forall i :: 0 <= i < |p| ==> p[i] != c
    ensures IndexOf(p + [c] + q, [c]) == Some(|p|)
  {
    var s := p + [c] + q;
    assert OccursAt(s, [c], |p|);
    forall i | 0 <= i < |p| ensures !OccursAt(s, [c], i) {
      assert s[i] == p[i];
    }
  }

  /** `p` followed by `m` starts `s`, and `m` occurs nowhere in `s` before index `|p|`. */
  predicate IsFirstSplit(s: string, m: string, p: string) {
    p <= s && OccursAt(s, m, |p|) && forall k :: 0 <= k < |p| ==> !OccursAt(s, m, k)
  }

  /**
   * `s.split(m)[0]`: the text before the first occurrence of `m`, or all of `s`
   * when `m` does not occur. Python refuses an empty separator.
   */
  function PrefixBefore(s: string, m: string): (p: string)
    requires |m| > 0
    ensures Contains(s, m) ==> IsFirstSplit(s, m, p)
    ensures !Contains(s, m) ==> p == s
  {
    match IndexOf(s, m)
    case Some(k) => s[..k]
    case None => s
  }

  /** Only one prefix of `s` ends right before the first occurrence of `m`. */
  lemma FirstSplitUnique(s: string, m: string, p: string, q: string)
    requires IsFirstSplit(s, m, p) && IsFirstSplit(s, m, q)
    ensures p == q
  {
    if |p| == |q| {
      assert p == s[..|p|] == q;
    }
  }

  /**
   * Python's ordering of `str` values: code point by code point, and a proper
   * prefix comes first.
   */
  predicate LexLe(a: string, b: string) {
    |a| == 0 || (|b| > 0 && (a[0] < b[0] || (a[0] == b[0] && LexLe(a[1..], b[1..]))))
  }

  lemma {:induction false} LexLeTotal(a: string, b: string)
    ensures LexLe(a, b) || LexLe(b, a)
    decreases |a|
  {
    if |a| > 0 && |b| > 0 && a[0] == b[0] {
      LexLeTotal(a[1..], b[1..]);
    }
  }

  lemma {:induction false} LexLeTransitive(a: string, b: string, c: string)
    requires LexLe(a, b) && LexLe(b, c)
    ensures LexLe(a, c)
    decreases |a|
  {
    if |a| > 0 && a[0] == b[0] && b[0] == c[0] {
      LexLeTransitive(a[1..], b[1..], c[1..]);
    }
  }

  lemma {:induction false} LexLeAntisymmetric(a: string, b: string)
    requires LexLe(a, b) && LexLe(b, a)
    ensures a == b
    decreases |a|
  {
    if |a| > 0 {
      LexLeAntisymmetric(a[1..], b[1..]);
      assert a == [a[0]] + a[1..] && b == [b[0]] + b[1..];
    }
  }
}
