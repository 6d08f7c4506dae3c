/**
 * The three JavaScript array methods the service is built on:
 * `Array.prototype.find`, `some` and `filter`, each a linear scan in index order.
 */
module ArrayOps {
  import opened Wrappers

  /**
   * `find`: the position of the first element satisfying `p`, or None when
   * no element does. The position (rather than the element) lets callers
   * update the element in place, as the service does with the book it finds.
   */
  function FindIndex<T>(s: seq<T>, p: T -> bool): (r: Option<nat>)
    ensures r.None? <==> forall i :: 0 <= i < |s| ==> !p(s[i])
    ensures r.Some? ==> r.value < |s| && p(s[r.value])
    ensures r.Some? ==> forall j :: 0 <= j < r.value ==> !p(s[j])
  {
    if s == [] then None
    else if p(s[0]) then Some(0)
    else match FindIndex(s[1..], p)
      case None => None
      case Some(k) => Some(k + 1)
  }

  /** `some`: whether at least one element satisfies `p`. */
  function Any<T>(s: seq<T>, p: T -> bool): (b: bool)
    ensures b <==> exists i :: 0 <= i < |s| && p(s[i])
  {
    if s == [] then false
    else if p(s[0]) then true
    else Any(s[1..], p)
  }

  /** `r` can be obtained from `s` by deleting elements, keeping the rest in order. */
  ghost predicate IsSubsequence<T>(r: seq<T>, s: seq<T>)
    decreases |s|
  {
    r == [] ||
    (s != [] &&
     ((r[0] == s[0] && IsSubsequence(r[1..], s[1..])) || IsSubsequence(r, s[1..])))
  }

  /**
   * `r` is exactly the elements of `s` that satisfy `p`, in the order of `s`:
   * a subsequence of `s` holding every satisfying element as often as `s` does
   * and no other element.
   */
  ghost predicate IsFilterOf<T(!new)>(r: seq<T>, s: seq<T>, p: T -> bool)
  {
    && IsSubsequence(r, s)
    && forall x :: multiset(r)[x] == (if p(x) then multiset(s)[x] else 0)
  }

  /** `filter`: the elements satisfying `p`, in order; empty exactly when none does. */
  function Filter<T(!new)>(s: seq<T>, p: T -> bool): (r: seq<T>)
    ensures IsFilterOf(r, s, p)
    ensures forall x :: x in r ==> p(x)
    ensures r == [] <==> forall i :: 0 <= i < |s| ==> !p(s[i])
  {
    if s == [] then []
    else
      assert s == [s[0]] + s[1..];
      if p(s[0]) then [s[0]] + Filter(s[1..], p) else Filter(s[1..], p)
  }

  /** A subsequence holds no element more often than the sequence it is taken from. */
  lemma {:induction false} SubsequenceMultiset<T>(r: seq<T>, s: seq<T>)
    requires IsSubsequence(r, s)
    ensures multiset(r) <= multiset(s)
    decreases |s|
  {
    if r != [] {
      assert s == [s[0]] + s[1..];
      if r[0] == s[0] && IsSubsequence(r[1..], s[1..]) {
        SubsequenceMultiset(r[1..], s[1..]);
        assert r == [r[0]] + r[1..];
      } else {
        SubsequenceMultiset(r, s[1..]);
      }
    }
  }

  /**
   * The characterisation `IsFilterOf` admits one sequence only, so `Filter`
   * is the one and only order-preserving selection of the elements satisfying `p`.
   */
  lemma {:induction false} FilterIsUnique<T(!new)>(r: seq<T>, s: seq<T>, p: T -> bool)
    requires IsFilterOf(r, s, p)
    ensures r == Filter(s, p)
    decreases |s|
  {
    if s == [] {
      return;
    }
    var a, t := s[0], s[1..];
    assert s == [a] + t;
    if p(a) {
      assert multiset(r)[a] == multiset(t)[a] + 1;
      if r != [] && r[0] == a && IsSubsequence(r[1..], t) {
        assert r == [a] + r[1..];
        FilterIsUnique(r[1..], t, p);
      } else {
        if r != [] {
          SubsequenceMultiset(r, t);
        }
        assert false;
      }
    } else {
      assert a !in r by {
        assert multiset(r)[a] == 0;
      }
      if r == [] {
        assert IsFilterOf(r, t, p);
      } else {
        assert r[0] != a;
        assert IsSubsequence(r, t);
      }
      FilterIsUnique(r, t, p);
    }
  }
}
