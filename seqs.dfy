/** The JavaScript array combinators the source is written with (`filter`, `some`,
    `every`, `find`, duplicate removal and a descending sort), as functions on sequences. */
module Seqs {
  import opened Types

  /** `s.filter(p)`: the elements of `s` satisfying `p`, in their order in `s`. */
  function Filter<T(!new)>(s: seq<T>, p: T -> bool): (r: seq<T>)
    ensures |r| <= |s|
    ensures forall x :: x in r <==> x in s && p(x)
  {
    if s == [] then []
    else
      var init, last := s[..|s| - 1], s[|s| - 1];
      assert s == init + [last];
      Filter(init, p) + (if p(last) then [last] else [])
  }

  /** Filtering distributes over concatenation: the filter keeps the input order. */
  lemma {:induction false} FilterAppend<T(!new)>(a: seq<T>, b: seq<T>, p: T -> bool)
    ensures Filter(a + b, p) == Filter(a, p) + Filter(b, p)
    decreases |b|
  {
    if b == [] {
      assert a + b == a;
    } else {
      var b', last := b[..|b| - 1], b[|b| - 1];
      var tail := if p(last) then [last] else [];
      var fa, fb' := Filter(a, p), Filter(b', p);
      assert (a + b)[..|a + b| - 1] == a + b';
      assert (a + b)[|a + b| - 1] == last;
      FilterAppend(a, b', p);
      assert fa + (fb' + tail) == (fa + fb') + tail;
    }
  }

  /** Filtering one more element appends it exactly when it satisfies `p`. */
  lemma FilterSnoc<T(!new)>(s: seq<T>, x: T, p: T -> bool)
    ensures Filter(s + [x], p) == Filter(s, p) + (if p(x) then [x] else [])
  {
    assert (s + [x])[..|s|] == s;
  }

  /** A filter keeps every copy of an element satisfying `p` and no copy of any other. */
  lemma {:induction false} FilterMultiplicity<T(!new)>(s: seq<T>, p: T -> bool, x: T)
    ensures multiset(Filter(s, p))[x] == if p(x) then multiset(s)[x] else 0
  {
    if s != [] {
      FilterMultiplicity(s[..|s| - 1], p, x);
      assert s == s[..|s| - 1] + [s[|s| - 1]];
    }
  }

  /** A filter by a predicate satisfied by every element keeps the whole sequence. */
  lemma {:induction false} FilterAll<T(!new)>(s: seq<T>, p: T -> bool)
    requires forall x :: x in s ==> p(x)
    ensures Filter(s, p) == s
  {
    if s != [] {
      FilterAll(s[..|s| - 1], p);
      assert s == s[..|s| - 1] + [s[|s| - 1]];
    }
  }

  /** A filter drops something exactly when some element fails `p`. */
  lemma {:induction false} FilterKeepsAll<T(!new)>(s: seq<T>, p: T -> bool)
    ensures |Filter(s, p)| == |s| <==> forall x :: x in s ==> p(x)
  {
    if s != [] {
      var init, last := s[..|s| - 1], s[|s| - 1];
      FilterKeepsAll(init, p);
      assert s == init + [last];
    }
  }

  /** Filtering by a stronger predicate keeps no more, and strictly fewer when some
      element passes the weaker predicate only. */
  lemma {:induction false} FilterStronger<T(!new)>(s: seq<T>, p: T -> bool, q: T -> bool)
    requires forall x :: q(x) ==> p(x)
    ensures |Filter(s, q)| <= |Filter(s, p)|
    ensures (exists x :: x in s && p(x) && !q(x)) ==> |Filter(s, q)| < |Filter(s, p)|
  {
    if s != [] {
      var init, last := s[..|s| - 1], s[|s| - 1];
      FilterStronger(init, p, q);
      assert s == init + [last];
    }
  }

  /** When `p` holds exactly where one of two exclusive predicates `q1`, `q2` holds, the
      two filters split the filter by `p` without overlap or loss. */
  lemma FilterSplit<T(!new)>(s: seq<T>, p: T -> bool, q1: T -> bool, q2: T -> bool)
    requires forall x :: p(x) <==> q1(x) || q2(x)
    requires forall x :: !(q1(x) && q2(x))
    ensures multiset(Filter(s, q1)) + multiset(Filter(s, q2)) == multiset(Filter(s, p))
  {
    var m1, m2, m := multiset(Filter(s, q1)), multiset(Filter(s, q2)), multiset(Filter(s, p));
    forall x ensures (m1 + m2)[x] == m[x] {
      FilterMultiplicity(s, q1, x);
      FilterMultiplicity(s, q2, x);
      FilterMultiplicity(s, p, x);
    }
  }

  /** `s.some(p)`. */
  function Any<T(!new)>(s: seq<T>, p: T -> bool): (r: bool)
    ensures r <==> exists x :: x in s && p(x)
  {
    if s == [] then false
    else
      assert s == [s[0]] + s[1..];
      p(s[0]) || Any(s[1..], p)
  }

  /** `s.every(p)`. */
  function All<T(!new)>(s: seq<T>, p: T -> bool): (r: bool)
    ensures r <==> forall x :: x in s ==> p(x)
  {
    if s == [] then true
    else
      assert s == [s[0]] + s[1..];
      p(s[0]) && All(s[1..], p)
  }

  /** The index `s.find(p)` returns the element at: the first one satisfying `p`. */
  function FindFirst<T(!new)>(s: seq<T>, p: T -> bool): (r: Option<nat>)
    ensures r.None? <==> forall x :: x in s ==> !p(x)
    ensures r.Some? ==> r.value < |s| && p(s[r.value])
    ensures r.Some? ==> forall j :: 0 <= j < r.value ==> !p(s[j])
  {
    if s == [] then None
    else if p(s[0]) then Some(0)
    else
      assert s == [s[0]] + s[1..];
      match FindFirst(s[1..], p)
      case None => None
      case Some(i) => Some(i + 1)
  }

  predicate Distinct<T(==)>(s: seq<T>)
  {
    forall i, j :: 0 <= i < j < |s| ==> s[i] != s[j]
  }

  /** Appending keeps the elements distinct exactly when the new one is new. */
  lemma DistinctSnoc<T>(s: seq<T>, x: T)
    ensures Distinct(s + [x]) <==> Distinct(s) && x !in s
  {
    var t := s + [x];
    if Distinct(t) {
      assert forall i, j :: 0 <= i < j < |s| ==> s[i] == t[i] && s[j] == t[j];
      assert forall i :: 0 <= i < |s| ==> s[i] == t[i] && t[i] != t[|s|];
    }
  }

  /** A filter of distinct elements has distinct elements. */
  lemma {:induction false} FilterDistinct<T(!new)>(s: seq<T>, p: T -> bool)
    requires Distinct(s)
    ensures Distinct(Filter(s, p))
  {
    if s != [] {
      var init, last := s[..|s| - 1], s[|s| - 1];
      assert s == init + [last];
      DistinctSnoc(init, last);
      FilterDistinct(init, p);
      DistinctSnoc(Filter(init, p), last);
    }
  }

  /** The duplicate removal `s.filter((x, i) => i === s.indexOf(x))`: the first occurrence
      of each element, in first-seen order. */
  function Dedup<T(==,!new)>(s: seq<T>): (r: seq<T>)
    ensures forall x :: x in r <==> x in s
    ensures Distinct(r)
  {
    if s == [] then []
    else
      var init, last := s[..|s| - 1], s[|s| - 1];
      assert s == init + [last];
      var d := Dedup(init);
      if last in d then d else d + [last]
  }

  /** Keeps the first occurrence: extending the input by an element seen before changes
      nothing, and by a new element appends it. */
  lemma DedupSnoc<T(!new)>(s: seq<T>, x: T)
    ensures Dedup(s + [x]) == if x in s then Dedup(s) else Dedup(s) + [x]
  {
    assert (s + [x])[..|s + [x]| - 1] == s;
  }

  predicate NonIncreasing(s: seq<int>)
  {
    forall i, j :: 0 <= i < j < |s| ==> s[i] >= s[j]
  }

  /** One step of an insertion sort into a most-recent-first sequence. */
  function InsertDescending(x: int, s: seq<int>): (r: seq<int>)
    ensures |r| == |s| + 1
  {
    if s == [] || x >= s[0] then [x] + s else [s[0]] + InsertDescending(x, s[1..])
  }

  /** Inserting into a non-increasing sequence keeps it non-increasing; the new head is
      the inserted element or the old head. */
  lemma {:induction false} InsertDescendingOrdered(x: int, s: seq<int>)
    requires NonIncreasing(s)
    ensures NonIncreasing(InsertDescending(x, s))
    ensures InsertDescending(x, s)[0] == x || (|s| > 0 && InsertDescending(x, s)[0] == s[0])
  {
    if s != [] && x < s[0] {
      var rest := InsertDescending(x, s[1..]);
      InsertDescendingOrdered(x, s[1..]);
      var r := [s[0]] + rest;
      assert forall j :: 0 <= j < |rest| ==> s[0] >= rest[0] >= rest[j];
      forall i, j | 0 <= i < j < |r| ensures r[i] >= r[j] {
        if i > 0 {
          assert r[i] == rest[i - 1] && r[j] == rest[j - 1];
        }
      }
    }
  }

  /** Inserting adds exactly the one element. */
  lemma {:induction false} InsertDescendingElements(x: int, s: seq<int>)
    ensures multiset(InsertDescending(x, s)) == multiset(s) + multiset{x}
  {
    if s != [] && x < s[0] {
      InsertDescendingElements(x, s[1..]);
      assert s == [s[0]] + s[1..];
    }
  }

  /** `s.sort((a, b) => b - a)`: the same elements, most recent day first. */
  function SortDescending(s: seq<int>): (r: seq<int>)
    ensures NonIncreasing(r)
    ensures multiset(r) == multiset(s)
  {
    if s == [] then []
    else
      var t := SortDescending(s[1..]);
      InsertDescendingOrdered(s[0], t);
      InsertDescendingElements(s[0], t);
      assert s == [s[0]] + s[1..];
      InsertDescending(s[0], t)
  }
}
