/**
 * The collection queries the route handlers build on: the lowdb/lodash chain
 * primitives `find` (first match), `filter` (order-preserving selection) and
 * `map`, and the "largest existing id plus one" rule every insert uses.
 */
module Collections {

  datatype Option<+T> = None | Some(value: T)

  /** Index of the first element satisfying `p`, as lodash `find` scans. */
  function FindIndex<T>(s: seq<T>, p: T -> bool): (r: Option<nat>)
    ensures r.Some? ==> r.value < |s| && p(s[r.value])
    ensures r.Some? ==> forall j :: 0 <= j < r.value ==> !p(s[j])
    ensures r.None? <==> forall j :: 0 <= j < |s| ==> !p(s[j])
  {
    if |s| == 0 then None
    else if p(s[0]) then Some(0)
    else match FindIndex(s[1..], p)
      case None => None
      case Some(k) => Some(k + 1)
  }

  /** The first element satisfying `p`, or None: `.find(...).value()`. */
  function Find<T(!new)>(s: seq<T>, p: T -> bool): (r: Option<T>)
    ensures r.Some? ==> r.value in s && p(r.value)
    ensures r.Some? ==> exists k :: 0 <= k < |s| && s[k] == r.value && forall j {:trigger p(s[j])} :: 0 <= j < k ==> !p(s[j])
    ensures r.None? <==> forall x :: x in s ==> !p(x)
  {
    match FindIndex(s, p)
    case None => None
    case Some(k) => Some(s[k])
  }

  /** The elements satisfying `p`, in their original order: `.filter(...)`. */
  function Filter<T(!new)>(s: seq<T>, p: T -> bool): (r: seq<T>)
    ensures |r| <= |s|
    ensures forall x :: x in r <==> x in s && p(x)
  {
    if |s| == 0 then []
    else if p(s[0]) then [s[0]] + Filter(s[1..], p)
    else Filter(s[1..], p)
  }

  /** Element-wise image of a sequence: `.map(...)`. */
  function Map<T, U>(s: seq<T>, f: T -> U): (r: seq<U>)
    ensures |r| == |s|
    ensures forall i :: 0 <= i < |s| ==> r[i] == f(s[i])
  {
    if |s| == 0 then [] else [f(s[0])] + Map(s[1..], f)
  }

  /** The values of the Some entries, in order: `.filter(x => x !== null)` after a map. */
  function Somes<T(!new)>(s: seq<Option<T>>): (r: seq<T>)
    ensures |r| <= |s|
    ensures forall x :: x in r <==> Some(x) in s
  {
    if |s| == 0 then []
    else match s[0]
      case None => Somes(s[1..])
      case Some(x) => [x] + Somes(s[1..])
  }

  /** What a mapped sequence holds: the images of the elements. */
  lemma MapMembership<T(!new), U(!new)>(s: seq<T>, f: T -> U)
    ensures forall y :: y in Map(s, f) <==> exists x :: x in s && f(x) == y
  {
    var r := Map(s, f);
    forall y | y in r ensures exists x :: x in s && f(x) == y {
      var i :| 0 <= i < |r| && r[i] == y;
      assert s[i] in s;
    }
    forall x | x in s ensures f(x) in r {
      var i :| 0 <= i < |s| && s[i] == x;
      assert r[i] == f(x);
    }
  }

  /** Filtering by a predicate every element satisfies changes nothing. */
  lemma {:induction false} FilterAll<T(!new)>(s: seq<T>, p: T -> bool)
    requires forall x :: x in s ==> p(x)
    ensures Filter(s, p) == s
  {
    if |s| > 0 {
      assert forall x :: x in s[1..] ==> x in s;
      FilterAll(s[1..], p);
      assert [s[0]] + s[1..] == s;
    }
  }

  /** Mapping distributes over concatenation. */
  lemma MapAppend<T, U>(s: seq<T>, t: seq<T>, f: T -> U)
    ensures Map(s + t, f) == Map(s, f) + Map(t, f)
  {
    assert forall i :: 0 <= i < |s| ==> (s + t)[i] == s[i];
    assert forall i :: |s| <= i < |s| + |t| ==> (s + t)[i] == t[i - |s|];
  }

  /** Dropping the None entries distributes over concatenation. */
  lemma {:induction false} SomesAppend<T(!new)>(s: seq<Option<T>>, t: seq<Option<T>>)
    ensures Somes(s + t) == Somes(s) + Somes(t)
  {
    if |s| == 0 {
      assert s + t == t;
    } else {
      assert (s + t)[1..] == s[1..] + t;
      SomesAppend(s[1..], t);
    }
  }

  /** Filter, map, drop the Nones: one more element adds its present image at the end, if it passes. */
  lemma SomesMapFilterSnoc<T(!new), U(!new)>(s: seq<T>, x: T, p: T -> bool, f: T -> Option<U>)
    ensures Somes(Map(Filter(s + [x], p), f)) ==
      Somes(Map(Filter(s, p), f)) + (if p(x) && f(x).Some? then [f(x).value] else [])
  {
    FilterAppend(s, [x], p);
    MapAppend(Filter(s, p), Filter([x], p), f);
    SomesAppend(Map(Filter(s, p), f), Map(Filter([x], p), f));
    assert [x][1..] == [];
    if p(x) {
      assert Filter([x], p) == [x];
      assert Map([x], f) == [f(x)];
    } else {
      assert Filter([x], p) == [];
    }
  }

  /** Filtering twice by the same predicate is filtering once. */
  lemma {:induction false} FilterIdempotent<T(!new)>(s: seq<T>, p: T -> bool)
    ensures Filter(Filter(s, p), p) == Filter(s, p)
  {
    if |s| > 0 {
      FilterIdempotent(s[1..], p);
      if p(s[0]) {
        assert ([s[0]] + Filter(s[1..], p))[1..] == Filter(s[1..], p);
      }
    }
  }

  /** Filtering distributes over concatenation, so appending keeps the old selection as a prefix. */
  lemma {:induction false} FilterAppend<T(!new)>(s: seq<T>, t: seq<T>, p: T -> bool)
    ensures Filter(s + t, p) == Filter(s, p) + Filter(t, p)
  {
    if |s| == 0 {
      assert s + t == t;
    } else {
      assert (s + t)[1..] == s[1..] + t;
      FilterAppend(s[1..], t, p);
    }
  }

  /** `Math.max(...s)` for a non-empty list of ids. */
  function Max(s: seq<int>): (m: int)
    requires |s| > 0
    ensures m in s
    ensures forall x :: x in s ==> x <= m
  {
    if |s| == 1 then s[0]
    else
      var rest := Max(s[1..]);
      assert forall x :: x in s ==> x == s[0] || x in s[1..];
      if s[0] >= rest then s[0] else rest
  }

  /**
   * `ids.length > 0 ? Math.max(...ids) + 1 : 1`: 1 for an empty collection,
   * otherwise one more than the largest id, hence above (and distinct from) every id.
   */
  function NextId(ids: seq<int>): (r: int)
    ensures |ids| == 0 ==> r == 1
    ensures |ids| > 0 ==> r - 1 in ids
    ensures forall x :: x in ids ==> x < r
  {
    if |ids| > 0 then Max(ids) + 1 else 1
  }

  /** The id NextId chooses for a collection exceeds the id of every element in it. */
  lemma NextIdAboveAll<T(!new)>(s: seq<T>, id: T -> int)
    ensures forall x :: x in s ==> id(x) < NextId(Map(s, id))
  {
    forall x | x in s ensures id(x) < NextId(Map(s, id)) {
      var i :| 0 <= i < |s| && s[i] == x;
      assert Map(s, id)[i] == id(x);
    }
  }

  /** No two elements of `s` share a key. */
  predicate DistinctBy<T, K(==)>(s: seq<T>, key: T -> K)
  {
    forall i, j :: 0 <= i < j < |s| ==> key(s[i]) != key(s[j])
  }

  /** Appending an element whose key no element has keeps the keys distinct. */
  lemma AppendKeepsDistinct<T(!new), K>(s: seq<T>, key: T -> K, x: T)
    requires DistinctBy(s, key)
    requires forall y :: y in s ==> key(y) != key(x)
    ensures DistinctBy(s + [x], key)
  {
    forall i, j | 0 <= i < j < |s| + 1
      ensures key((s + [x])[i]) != key((s + [x])[j])
    {
      if j == |s| {
        assert s[i] in s;
      }
    }
  }

  /** Appending an element keyed by NextId keeps the keys distinct. */
  lemma NextIdKeepsDistinct<T(!new)>(s: seq<T>, key: T -> int, x: T)
    requires DistinctBy(s, key)
    requires key(x) == NextId(Map(s, key))
    ensures DistinctBy(s + [x], key)
  {
    NextIdAboveAll(s, key);
    AppendKeepsDistinct(s, key, x);
  }

  /** Removing elements keeps the keys distinct. */
  lemma {:induction false} FilterKeepsDistinct<T(!new), K>(s: seq<T>, p: T -> bool, key: T -> K)
    requires DistinctBy(s, key)
    ensures DistinctBy(Filter(s, p), key)
  {
    if |s| > 0 {
      assert DistinctBy(s[1..], key) by {
        forall i, j | 0 <= i < j < |s| - 1 ensures key(s[1..][i]) != key(s[1..][j]) {
          assert s[1..][i] == s[i + 1] && s[1..][j] == s[j + 1];
        }
      }
      FilterKeepsDistinct(s[1..], p, key);
      if p(s[0]) {
        var rest := Filter(s[1..], p);
        forall k | 0 <= k < |rest| ensures key(s[0]) != key(rest[k]) {
          assert rest[k] in s[1..];
          var m :| 0 <= m < |s[1..]| && s[1..][m] == rest[k];
          assert s[m + 1] == rest[k];
        }
        forall i, j | 0 <= i < j < |rest| + 1
          ensures key(([s[0]] + rest)[i]) != key(([s[0]] + rest)[j])
        {
          if i > 0 {
            assert ([s[0]] + rest)[i] == rest[i - 1] && ([s[0]] + rest)[j] == rest[j - 1];
          }
        }
      }
    }
  }
}
