/** The searches of `System.Collections.Generic.List` that the command and
    inventory code relies on: `Find` (first match or null), `IndexOf` (first
    equal element or -1) and `Remove` (drop the first equal element). */
module Lists {
  import opened Wrappers

  /** Index of the first element satisfying p, or -1 when there is none. */
  function FirstIndex<T>(s: seq<T>, p: T -> bool): (i: int)
    ensures -1 <= i < |s|
    ensures 0 <= i ==> p(s[i]) && forall j :: 0 <= j < i ==> !p(s[j])
    ensures i == -1 ==> forall j :: 0 <= j < |s| ==> !p(s[j])
  {
    if |s| == 0 then -1
    else if p(s[0]) then 0
    else
      var k := FirstIndex(s[1..], p);
      assert forall j :: 1 <= j < |s| ==> s[j] == s[1..][j - 1];
      if k < 0 then -1 else k + 1
  }

  /** List.Find: the first element satisfying p, or null. */
  function Find<T>(s: seq<T>, p: T -> bool): (r: Option<T>)
    ensures r.Some? <==> exists j :: 0 <= j < |s| && p(s[j])
    ensures r.Some? ==> p(r.value) && r.value in s
  {
    var i := FirstIndex(s, p);
    if i < 0 then None else Some(s[i])
  }

  /** List.IndexOf on a list without null entries: looking up null finds
      nothing; otherwise the index of the first equal element, or -1. */
  function IndexOf<T(==)>(s: seq<T>, x: Option<T>): (i: int)
    ensures -1 <= i < |s|
    ensures x.None? ==> i == -1
    ensures x.Some? && 0 <= i ==> s[i] == x.value && x.value !in s[..i]
    ensures x.Some? && i == -1 ==> x.value !in s
  {
    match x
    case None => -1
    case Some(v) => FirstIndex(s, y => y == v)
  }

  /** IndexOf(Find(p)) is the index of the first element satisfying p: the
      element Find returns cannot occur earlier, since an earlier copy would
      have satisfied p first. */
  lemma IndexOfFind<T>(s: seq<T>, p: T -> bool)
    ensures IndexOf(s, Find(s, p)) == FirstIndex(s, p)
  {
  }

  /** List.Remove: drops the first element equal to x; false when x does
      not occur. */
  function RemoveFirst<T(==)>(s: seq<T>, x: T): (r: (seq<T>, bool))
    ensures r.1 <==> x in s
    ensures !r.1 ==> r.0 == s
    ensures r.1 ==> exists i :: 0 <= i < |s| && s[i] == x && x !in s[..i] && r.0 == s[..i] + s[i + 1..]
  {
    var i := FirstIndex(s, y => y == x);
    if i < 0 then (s, false)
    else
      assert s[i] == x && x !in s[..i];
      (s[..i] + s[i + 1..], true)
  }

  /** Dropping the element at index i takes one copy of it out of the
      multiset. */
  lemma RemoveAtMultiset<T>(s: seq<T>, i: nat)
    requires i < |s|
    ensures multiset(s[..i] + s[i + 1..]) == multiset(s) - multiset{s[i]}
  {
    var pre, post := s[..i], s[i + 1..];
    assert s == pre + ([s[i]] + post);
    assert multiset(s) == multiset(pre) + (multiset{s[i]} + multiset(post));
  }

  /** List.Remove takes exactly one x out of the list's multiset of
      elements, or nothing when x does not occur. */
  lemma RemoveFirstMultiset<T>(s: seq<T>, x: T)
    ensures multiset(RemoveFirst(s, x).0) == multiset(s) - multiset{x}
  {
    var r := RemoveFirst(s, x);
    if r.1 {
      var i :| 0 <= i < |s| && s[i] == x && r.0 == s[..i] + s[i + 1..];
      RemoveAtMultiset(s, i);
    } else {
      assert x !in multiset(s);
    }
  }

  /** The elements of s that satisfy p, in order. */
  function Filter<T>(s: seq<T>, p: T -> bool): (r: seq<T>)
    ensures |r| <= |s|
    ensures forall i :: 0 <= i < |r| ==> r[i] in s && p(r[i])
    ensures forall i :: 0 <= i < |s| && p(s[i]) ==> s[i] in r
  {
    if |s| == 0 then []
    else
      var rest := Filter(s[1..], p);
      assert forall i :: 1 <= i < |s| ==> s[i] == s[1..][i - 1];
      if p(s[0]) then [s[0]] + rest else rest
  }

  /** Filter keeps the order: filtering a concatenation filters each part. */
  lemma {:induction false} FilterAppend<T>(s: seq<T>, t: seq<T>, p: T -> bool)
    ensures Filter(s + t, p) == Filter(s, p) + Filter(t, p)
    decreases |s|
  {
    if |s| > 0 {
      assert (s + t)[1..] == s[1..] + t;
      FilterAppend(s[1..], t, p);
    } else {
      assert s + t == t;
    }
  }

  /** Filters with tests that agree on every element of s agree. */
  lemma {:induction false} FilterCongruent<T>(s: seq<T>, p: T -> bool, q: T -> bool)
    requires forall i :: 0 <= i < |s| ==> p(s[i]) == q(s[i])
    ensures Filter(s, p) == Filter(s, q)
    decreases |s|
  {
    if |s| > 0 {
      assert forall i :: 1 <= i < |s| ==> s[i] == s[1..][i - 1];
      FilterCongruent(s[1..], p, q);
    }
  }
}
