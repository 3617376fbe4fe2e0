/**
 * The list operations the handlers are built from, on immutable sequences:
 * LINQ's `Where` and `FirstOrDefault`, and `List.Remove` of the element a
 * `FirstOrDefault` found (which is the removal of one position).
 */
module Lists {
  import opened Wrappers

  /** `s.Where(p).ToList()`: the elements of `s` that satisfy `p`, in the order of `s`. */
  function Where<T>(s: seq<T>, p: T -> bool): (r: seq<T>)
    ensures |r| <= |s|
    ensures forall i :: 0 <= i < |r| ==> r[i] in s && p(r[i])
    ensures forall i :: 0 <= i < |s| && p(s[i]) ==> s[i] in r
    ensures r == [] <==> forall i :: 0 <= i < |s| ==> !p(s[i])
  {
    if s == [] then []
    else if p(s[0]) then [s[0]] + Where(s[1..], p)
    else Where(s[1..], p)
  }

  /** `Where` keeps store order: filtering a concatenation filters each part in place. */
  lemma {:induction false} WhereConcat<T>(a: seq<T>, b: seq<T>, p: T -> bool)
    ensures Where(a + b, p) == Where(a, p) + Where(b, p)
  {
    if a == [] {
      assert a + b == b;
    } else {
      assert (a + b)[1..] == a[1..] + b;
      WhereConcat(a[1..], b, p);
    }
  }

  /** A filter that every element passes returns the whole sequence, unchanged and in order. */
  lemma {:induction false} WhereAll<T>(s: seq<T>, p: T -> bool)
    requires forall i :: 0 <= i < |s| ==> p(s[i])
    ensures Where(s, p) == s
  {
    if s != [] {
      WhereAll(s[1..], p);
    }
  }

  /** Filters that agree on every element of `s` select the same elements. */
  lemma {:induction false} WhereSamePredicate<T>(s: seq<T>, p: T -> bool, q: T -> bool)
    requires forall i :: 0 <= i < |s| ==> p(s[i]) == q(s[i])
    ensures Where(s, p) == Where(s, q)
  {
    if s != [] {
      WhereSamePredicate(s[1..], p, q);
    }
  }

  /** `s.Any(p)`: some element of `s` satisfies `p`. */
  function Any<T>(s: seq<T>, p: T -> bool): (r: bool)
    ensures r <==> exists i :: 0 <= i < |s| && p(s[i])
  {
    if s == [] then false
    else p(s[0]) || Any(s[1..], p)
  }

  /**
   * The position that `FirstOrDefault(p)` selects: the index of the first
   * element satisfying `p`, or None when there is none.
   */
  function FirstIndex<T>(s: seq<T>, p: T -> bool): (r: Option<nat>)
    ensures r.Some? ==> r.value < |s| && p(s[r.value])
    ensures r.Some? ==> forall j :: 0 <= j < r.value ==> !p(s[j])
    ensures r.None? <==> forall j :: 0 <= j < |s| ==> !p(s[j])
  {
    if s == [] then None
    else if p(s[0]) then Some(0)
    else match FirstIndex(s[1..], p)
      case None => None
      case Some(i) => Some(i + 1)
  }

  /** Lookups that agree on every element of `s` select the same position. */
  lemma {:induction false} FirstIndexSamePredicate<T>(s: seq<T>, p: T -> bool, q: T -> bool)
    requires forall i :: 0 <= i < |s| ==> p(s[i]) == q(s[i])
    ensures FirstIndex(s, p) == FirstIndex(s, q)
  {
    if s != [] {
      FirstIndexSamePredicate(s[1..], p, q);
    }
  }

  /** `s` without the element at position `i`; the others keep their relative order. */
  function RemoveAt<T>(s: seq<T>, i: nat): (r: seq<T>)
    requires i < |s|
    ensures |r| == |s| - 1
    ensures forall j :: 0 <= j < i ==> r[j] == s[j]
    ensures forall j :: i <= j < |r| ==> r[j] == s[j + 1]
    ensures multiset(r) + multiset{s[i]} == multiset(s)
  {
    assert s == s[..i] + [s[i]] + s[i + 1..];
    s[..i] + s[i + 1..]
  }

  /** No two positions of `s` hold the same key. */
  ghost predicate Distinct<T, K>(s: seq<T>, key: T -> K) {
    forall i, j :: 0 <= i < j < |s| ==> key(s[i]) != key(s[j])
  }

  /** Under distinct keys, the first element with key `k` is the only one: it is found at its own position. */
  lemma FirstIndexOfDistinct<T, K>(s: seq<T>, key: T -> K, p: T -> bool, i: nat)
    requires Distinct(s, key) && i < |s|
    requires forall x :: p(x) <==> key(x) == key(s[i])
    ensures FirstIndex(s, p) == Some(i)
  {
    assert p(s[i]);
  }

  /** Removing one position keeps keys distinct, and the removed key no longer occurs. */
  lemma RemoveAtDistinct<T, K>(s: seq<T>, key: T -> K, i: nat)
    requires Distinct(s, key) && i < |s|
    ensures Distinct(RemoveAt(s, i), key)
    ensures forall j :: 0 <= j < |RemoveAt(s, i)| ==> key(RemoveAt(s, i)[j]) != key(s[i])
  {
    var r := RemoveAt(s, i);
    forall a, b | 0 <= a < b < |r| ensures key(r[a]) != key(r[b]) {
      var a' := if a < i then a else a + 1;
      var b' := if b < i then b else b + 1;
      assert r[a] == s[a'] && r[b] == s[b'] && a' < b';
    }
    forall j | 0 <= j < |r| ensures key(r[j]) != key(s[i]) {
      var j' := if j < i then j else j + 1;
      assert r[j] == s[j'] && j' != i;
    }
  }

  /** Replacing one element by another with the same key keeps keys distinct. */
  lemma UpdateKeepsDistinct<T, K>(s: seq<T>, key: T -> K, i: nat, x: T)
    requires Distinct(s, key) && i < |s| && key(x) == key(s[i])
    ensures Distinct(s[i := x], key)
  {
  }

  /** Appending an element whose key is new keeps keys distinct. */
  lemma AppendKeepsDistinct<T, K>(s: seq<T>, key: T -> K, x: T)
    requires Distinct(s, key)
    requires forall j :: 0 <= j < |s| ==> key(s[j]) != key(x)
    ensures Distinct(s + [x], key)
  {
  }
}
