/** Lexicographic order of sequences over any order of their elements. */
module Lexicographic {
  /** Strict lexicographic order over an order of the elements. */
  predicate LexLess<T(==)>(less: (T, T) -> bool, a: seq<T>, b: seq<T>) {
    b != [] && (a == [] || less(a[0], b[0]) || (a[0] == b[0] && LexLess(less, a[1..], b[1..])))
  }

  lemma {:induction false} CommonPrefix<T>(less: (T, T) -> bool, p: seq<T>, a: seq<T>, b: seq<T>)
    requires forall x :: !less(x, x)
    ensures LexLess(less, p + a, p + b) == LexLess(less, a, b)
  {
    if p == [] {
      assert p + a == a && p + b == b;
    } else {
      CommonPrefix(less, p[1..], a, b);
      assert (p + a)[1..] == p[1..] + a && (p + b)[1..] == p[1..] + b;
    }
  }

  lemma FirstDifference<T>(less: (T, T) -> bool, p: seq<T>, x: T, y: T, a: seq<T>, b: seq<T>)
    requires forall z :: !less(z, z)
    requires less(x, y)
    ensures LexLess(less, p + ([x] + a), p + ([y] + b))
  {
    CommonPrefix(less, p, [x] + a, [y] + b);
  }

  /** The first difference lies inside both sequences. */
  ghost predicate OrderedBefore<T>(less: (T, T) -> bool, s: seq<T>, t: seq<T>) {
    exists k :: 0 <= k < |s| && k < |t| && s[..k] == t[..k] && less(s[k], t[k])
  }

  lemma Differ<T>(less: (T, T) -> bool, s: seq<T>, t: seq<T>, k: nat)
    requires k < |s| && k < |t| && less(s[k], t[k])
    requires forall i :: 0 <= i < k ==> s[i] == t[i]
    ensures OrderedBefore(less, s, t)
  {}

  lemma OrderedBeforeExtends<T>(less: (T, T) -> bool, s: seq<T>, t: seq<T>, a: seq<T>, b: seq<T>)
    requires OrderedBefore(less, s, t)
    ensures OrderedBefore(less, s + a, t + b)
  {
    var k :| 0 <= k < |s| && k < |t| && s[..k] == t[..k] && less(s[k], t[k]);
    assert (s + a)[..k] == s[..k] && (t + b)[..k] == t[..k];
    assert less((s + a)[k], (t + b)[k]);
  }

  lemma SplitAt<T>(s: seq<T>, k: nat, a: seq<T>)
    requires k < |s|
    ensures s + a == s[..k] + ([s[k]] + (s[k + 1..] + a))
  {}

  lemma OrderedTextsStayOrdered<T>(less: (T, T) -> bool, s: seq<T>, t: seq<T>, a: seq<T>, b: seq<T>)
    requires forall z :: !less(z, z)
    requires OrderedBefore(less, s, t)
    ensures LexLess(less, s + a, t + b)
  {
    var k :| 0 <= k < |s| && k < |t| && s[..k] == t[..k] && less(s[k], t[k]);
    FirstDifference(less, s[..k], s[k], t[k], s[k + 1..] + a, t[k + 1..] + b);
    SplitAt(s, k, a);
    SplitAt(t, k, b);
  }

  lemma {:induction false} LexIsAsymmetric<T>(less: (T, T) -> bool, s: seq<T>, t: seq<T>)
    requires forall x, y :: !(less(x, y) && less(y, x))
    ensures !(LexLess(less, s, t) && LexLess(less, t, s))
  {
    if s != [] && t != [] && s[0] == t[0] { LexIsAsymmetric(less, s[1..], t[1..]); }
  }
}
