/** Array operations the application uses on its in-memory lists:
    `filter`, `indexOf` followed by `splice(i, 1)`, and `includes`. */
module Seqs {

  datatype Option<T> = None | Some(value: T)

  /** `s.filter(p)`: the elements satisfying `p`, in their original order.
      Defined from the back so that a loop accumulating left to right
      meets it directly. */
  function Filter<T(!new)>(s: seq<T>, p: T -> bool): (r: seq<T>)
    ensures |r| <= |s|
    ensures forall x :: x in r <==> x in s && p(x)
  {
    if s == [] then []
    else
      var front := Filter(s[..|s| - 1], p);
      var last := s[|s| - 1];
      assert s == s[..|s| - 1] + [last];
      if p(last) then front + [last] else front
  }

  /** Nothing is kept when no element passes. */
  lemma {:induction false} FilterNone<T(!new)>(s: seq<T>, p: T -> bool)
    requires forall i :: 0 <= i < |s| ==> !p(s[i])
    ensures Filter(s, p) == []
  {
    if s != [] {
      FilterNone(s[..|s| - 1], p);
    }
  }

  /** Filtering keeps every copy of a kept element and no copy of the
      others. */
  lemma {:induction false} FilterMultiset<T(!new)>(s: seq<T>, p: T -> bool, x: T)
    ensures multiset(Filter(s, p))[x] == if p(x) then multiset(s)[x] else 0
  {
    if s != [] {
      var front, last := s[..|s| - 1], s[|s| - 1];
      assert s == front + [last];
      FilterMultiset(front, p, x);
    }
  }

  /** Filtering a concatenation filters each part: the order of the kept
      elements is the order of the input. */
  lemma {:induction false} FilterAppend<T(!new)>(a: seq<T>, b: seq<T>, p: T -> bool)
    ensures Filter(a + b, p) == Filter(a, p) + Filter(b, p)
    decreases |b|
  {
    var ab := a + b;
    if b == [] {
      assert ab == a;
    } else {
      var b', last := b[..|b| - 1], b[|b| - 1];
      assert ab[..|ab| - 1] == a + b';
      assert ab[|ab| - 1] == last;
      FilterAppend(a, b', p);
      calc {
        Filter(ab, p);
        Filter(a + b', p) + (if p(last) then [last] else []);
        Filter(a, p) + Filter(b', p) + (if p(last) then [last] else []);
        Filter(a, p) + (Filter(b', p) + (if p(last) then [last] else []));
        Filter(a, p) + Filter(b, p);
      }
    }
  }

  /** A filter that keeps everything is the identity. */
  lemma {:induction false} FilterAll<T(!new)>(s: seq<T>, p: T -> bool)
    requires forall x :: x in s ==> p(x)
    ensures Filter(s, p) == s
  {
    if s != [] {
      assert s == s[..|s| - 1] + [s[|s| - 1]];
      FilterAll(s[..|s| - 1], p);
    }
  }

  /** A kept element lands at the position given by the number of kept
      elements before it, and that position is in the result. */
  lemma FilterAt<T(!new)>(s: seq<T>, p: T -> bool, q: nat)
    requires q < |s| && p(s[q])
    ensures |Filter(s[..q], p)| < |Filter(s, p)|
    ensures Filter(s, p)[|Filter(s[..q], p)|] == s[q]
  {
    var before, here, after := s[..q], [s[q]], s[q + 1..];
    assert s == before + here + after;
    FilterAppend(before + here, after, p);
    FilterAppend(before, here, p);
    assert Filter(here, p) == here by {
      assert here[..0] == [];
    }
  }

  /** The positions of kept elements, counted by the kept elements before
      them, follow the input order. */
  lemma FilterRanks<T(!new)>(s: seq<T>, p: T -> bool)
    ensures forall q :: 0 <= q < |s| && p(s[q]) ==>
              |Filter(s[..q], p)| < |Filter(s, p)| && Filter(s, p)[|Filter(s[..q], p)|] == s[q]
    ensures forall a, b :: 0 <= a < b < |s| && p(s[a]) && p(s[b]) ==> |Filter(s[..a], p)| < |Filter(s[..b], p)|
  {
    forall q | 0 <= q < |s| && p(s[q])
      ensures |Filter(s[..q], p)| < |Filter(s, p)| && Filter(s, p)[|Filter(s[..q], p)|] == s[q]
    {
      FilterAt(s, p, q);
    }
    forall a, b | 0 <= a < b < |s| && p(s[a]) && p(s[b])
      ensures |Filter(s[..a], p)| < |Filter(s[..b], p)|
    {
      FilterAt(s[..b], p, a);
      assert s[..b][..a] == s[..a];
    }
  }

  /** The entries of `m` whose keys are listed in `keys` (and not in `skip`)
      passed through `f`; all other entries as they were. */
  function MapListed<K(==), V>(m: map<K, V>, keys: seq<K>, skip: set<K>, f: V -> V): map<K, V>
  {
    map k | k in m :: if k in keys && k !in skip then f(m[k]) else m[k]
  }

  /** Listing one more key applies `f` to that entry once more, which
      changes nothing when it was listed before and `f` is idempotent on it. */
  lemma MapListedStep<K, V>(m: map<K, V>, keys: seq<K>, i: nat, skip: set<K>, f: V -> V)
    requires i < |keys|
    requires keys[i] in m && keys[i] in keys[..i] && keys[i] !in skip ==> f(f(m[keys[i]])) == f(m[keys[i]])
    ensures var before := MapListed(m, keys[..i], skip, f);
            MapListed(m, keys[..i + 1], skip, f) ==
              if keys[i] in before && keys[i] !in skip then before[keys[i] := f(before[keys[i]])] else before
  {
    var key, done := keys[i], keys[..i];
    assert keys[..i + 1] == done + [key];
    var before := MapListed(m, done, skip, f);
    var after := MapListed(m, done + [key], skip, f);
    var expected := if key in before && key !in skip then before[key := f(before[key])] else before;
    forall k | k in after ensures k in expected && after[k] == expected[k] {
      if k != key {
        assert k in done + [key] <==> k in done;
      }
    }
    assert after.Keys == expected.Keys;
  }

  /** `s.findIndex(p)`, as an index: the first position whose element
      satisfies `p`, or None for -1. */
  function FindFirst<T>(s: seq<T>, p: T -> bool): (r: Option<nat>)
    ensures r.None? <==> forall k :: 0 <= k < |s| ==> !p(s[k])
    ensures r.Some? ==> r.value < |s| && p(s[r.value]) &&
                        forall k :: 0 <= k < r.value ==> !p(s[k])
  {
    if s == [] then None
    else if p(s[0]) then Some(0)
    else
      var rest := FindFirst(s[1..], p);
      if rest.None? then None else Some(rest.value + 1)
  }

  /** `s.indexOf(x)`: the index of the first occurrence, or None for -1. */
  function IndexOf<T(==)>(s: seq<T>, x: T): (r: Option<nat>)
    ensures r.None? <==> x !in s
    ensures r.Some? ==> r.value < |s| && s[r.value] == x && x !in s[..r.value]
  {
    if s == [] then None
    else if s[0] == x then Some(0)
    else
      var rest := IndexOf(s[1..], x);
      assert s[1..] == s[..|s|][1..];
      if rest.None? then None
      else
        assert s[..rest.value + 1] == [s[0]] + s[1..][..rest.value];
        Some(rest.value + 1)
  }

  /** `i = s.indexOf(x); if (i > -1) s.splice(i, 1)`: drops the first
      occurrence of `x`, if there is one. */
  function RemoveFirst<T(==)>(s: seq<T>, x: T): (r: seq<T>)
  {
    match IndexOf(s, x)
    case None => s
    case Some(i) => s[..i] + s[i + 1..]
  }

  /** What removing the first occurrence means: exactly one copy of `x`
      goes when there is one, nothing else changes, and the elements
      before that occurrence keep their places. */
  lemma RemoveFirstSpec<T>(s: seq<T>, x: T)
    ensures x !in s ==> RemoveFirst(s, x) == s
    ensures multiset(RemoveFirst(s, x)) == multiset(s) - multiset{x}
    ensures |RemoveFirst(s, x)| == if x in s then |s| - 1 else |s|
    ensures x in s ==> exists i :: 0 <= i < |s| && s[i] == x && x !in s[..i] &&
                        RemoveFirst(s, x) == s[..i] + s[i + 1..]
  {
    match IndexOf(s, x)
    case None =>
    case Some(i) =>
      assert s == s[..i] + [x] + s[i + 1..];
      calc {
        multiset(s);
        multiset(s[..i]) + multiset{x} + multiset(s[i + 1..]);
      }
  }

  /** Appending an element that was absent and then removing its first
      occurrence gives back the original list. */
  lemma RemoveFirstAppended<T>(s: seq<T>, x: T)
    requires x !in s
    ensures RemoveFirst(s + [x], x) == s
  {
    var i := IndexOf(s + [x], x).value;
    assert i == |s| by {
      if i < |s| {
        assert false;
      }
    }
    assert (s + [x])[..|s|] == s;
  }

  /** `s.filter(e => e !== x)`, and Firestore's `arrayRemove(x)`: every
      occurrence goes. */
  function RemoveAll<T(==,!new)>(s: seq<T>, x: T): (r: seq<T>)
    ensures x !in r
    ensures forall y :: y != x ==> multiset(r)[y] == multiset(s)[y]
    ensures x !in s ==> r == s
  {
    FilterAllWhenNone(s, x);
    forall y | y != x
      ensures multiset(Filter(s, z => z != x))[y] == multiset(s)[y]
    {
      FilterMultiset(s, z => z != x, y);
    }
    Filter(s, y => y != x)
  }

  lemma FilterAllWhenNone<T(!new)>(s: seq<T>, x: T)
    ensures x !in s ==> Filter(s, y => y != x) == s
  {
    if x !in s {
      FilterAll(s, y => y != x);
    }
  }

  /** Removing all occurrences twice is the same as removing them once. */
  lemma RemoveAllIdempotent<T(!new)>(s: seq<T>, x: T)
    ensures RemoveAll(RemoveAll(s, x), x) == RemoveAll(s, x)
  {
  }

  /** No element occurs twice. */
  predicate Distinct<T(==)>(s: seq<T>)
  {
    forall i, j :: 0 <= i < j < |s| ==> s[i] != s[j]
  }

  /** On a list without duplicates, dropping the first occurrence (what the
      pages do locally with `splice`) and dropping every occurrence (what the
      store does with `arrayRemove`) agree, and the list stays without
      duplicates. */
  lemma RemoveFirstDistinct<T(!new)>(s: seq<T>, x: T)
    requires Distinct(s)
    ensures RemoveFirst(s, x) == RemoveAll(s, x)
    ensures Distinct(RemoveFirst(s, x))
  {
    match IndexOf(s, x)
    case None =>
    case Some(i) =>
      DistinctAfter(s, i);
      assert s == s[..i] + [x] + s[i + 1..];
      RemoveAllSingle(s[..i], x, s[i + 1..]);
  }

  /** Removing every copy of an element that occurs once. */
  lemma RemoveAllSingle<T(!new)>(a: seq<T>, x: T, b: seq<T>)
    requires x !in a && x !in b
    ensures RemoveAll(a + [x] + b, x) == a + b
  {
    var keep := y => y != x;
    FilterAppend(a + [x], b, keep);
    FilterAppend(a, [x], keep);
    assert Filter([x], keep) == [] by {
      assert [x][..0] == [];
    }
    FilterAll(a, keep);
    FilterAll(b, keep);
    assert Filter(a + [x] + b, keep) == a + b;
  }

  lemma DistinctAfter<T>(s: seq<T>, i: nat)
    requires Distinct(s) && i < |s|
    ensures s[i] !in s[i + 1..]
    ensures Distinct(s[..i] + s[i + 1..])
  {
    var r := s[..i] + s[i + 1..];
    forall p, q | 0 <= p < q < |r| ensures r[p] != r[q] {
      var p' := if p < i then p else p + 1;
      var q' := if q < i then q else q + 1;
      assert r[p] == s[p'] && r[q] == s[q'];
    }
  }

  /** Appending an absent element keeps a list without duplicates. */
  lemma DistinctAppend<T>(s: seq<T>, x: T)
    requires Distinct(s) && x !in s
    ensures Distinct(s + [x])
  {
    var r := s + [x];
    forall i, j | 0 <= i < j < |r| ensures r[i] != r[j] {
      if j == |s| {
        assert r[i] == s[i];
      }
    }
  }

  /** Filtering a list without duplicates gives one without duplicates. */
  lemma {:induction false} FilterDistinct<T(!new)>(s: seq<T>, p: T -> bool)
    requires Distinct(s)
    ensures Distinct(Filter(s, p))
  {
    if s != [] {
      var front, last := s[..|s| - 1], s[|s| - 1];
      assert Distinct(front);
      FilterDistinct(front, p);
      if p(last) {
        assert last !in front by {
          forall i | 0 <= i < |front| ensures front[i] != last {
            assert front[i] == s[i];
          }
        }
        DistinctAppend(Filter(front, p), last);
      }
    }
  }

  /** The number of elements of `s` satisfying `p`. */
  function Count<T(!new)>(s: seq<T>, p: T -> bool): nat
  {
    |Filter(s, p)|
  }

  /** Each middle part of five sequences laid end to end is the slice
      between the lengths of the parts before it. */
  lemma ConcatSlices<T>(a: seq<T>, b: seq<T>, c: seq<T>, d: seq<T>, e: seq<T>)
    ensures (a + b + c + d + e)[|a|..|a| + |b|] == b
    ensures (a + b + c + d + e)[|a| + |b|..|a| + |b| + |c|] == c
    ensures (a + b + c + d + e)[|a| + |b| + |c|..|a| + |b| + |c| + |d|] == d
  {
    var p1 := a + b;
    var p2 := p1 + c;
    var p3 := p2 + d;
    SliceOfPrefix(p3, e, |a|, |p1|);
    SliceOfPrefix(p2, d, |a|, |p1|);
    SliceOfPrefix(p1, c, |a|, |p1|);
    Suffix(a, b);
    SliceOfPrefix(p3, e, |p1|, |p2|);
    SliceOfPrefix(p2, d, |p1|, |p2|);
    Suffix(p1, c);
    SliceOfPrefix(p3, e, |p2|, |p3|);
    Suffix(p2, d);
  }

  lemma SliceOfPrefix<T>(p: seq<T>, c: seq<T>, i: int, j: int)
    requires 0 <= i <= j <= |p|
    ensures (p + c)[i..j] == p[i..j]
  {
  }

  lemma Suffix<T>(a: seq<T>, b: seq<T>)
    ensures (a + b)[|a|..|a| + |b|] == b
  {
  }
}
