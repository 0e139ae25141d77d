/**
 * Insertion-ordered sets as sequences without duplicates: `LinkedHashSet`
 * (`add`, and the copy constructor that adds a collection in order) and
 * `Stream.distinct()`, which keeps the first occurrence of each element.
 */
module OrderedSets {

  predicate NoDuplicates<T(==,!new)>(s: seq<T>) {
    forall i, j :: 0 <= i < j < |s| ==> s[i] != s[j]
  }

  /** `LinkedHashSet.add`: appends `x` unless an equal element is present. */
  function Insert<T(==,!new)>(s: seq<T>, x: T): (r: seq<T>)
    ensures |s| <= |r| && r[..|s|] == s
    ensures forall y :: y in r <==> y in s || y == x
    ensures NoDuplicates(s) ==> NoDuplicates(r)
  {
    if x in s then s else s + [x]
  }

  /** Adds the elements of `xs` to the ordered set `s`, one after the other. */
  function InsertAll<T(==,!new)>(s: seq<T>, xs: seq<T>): (r: seq<T>)
    ensures |s| <= |r| && r[..|s|] == s
    ensures forall y :: y in r <==> y in s || y in xs
    ensures NoDuplicates(s) ==> NoDuplicates(r)
    decreases |xs|
  {
    if xs == [] then s
    else Insert(InsertAll(s, xs[..|xs| - 1]), xs[|xs| - 1])
  }

  /**
   * `Stream.distinct()` on an ordered stream: an element is kept exactly
   * when no equal element comes before it.
   */
  function Distinct<T(==,!new)>(s: seq<T>): (r: seq<T>)
    ensures NoDuplicates(r)
    ensures forall y :: y in r <==> y in s
    decreases |s|
  {
    if s == [] then []
    else
      var init, last := s[..|s| - 1], s[|s| - 1];
      if last in init then Distinct(init) else Distinct(init) + [last]
  }

  /** A sequence that already has no duplicates is its own `distinct()`. */
  lemma {:induction false} DistinctOfDuplicateFree<T(!new)>(s: seq<T>)
    requires NoDuplicates(s)
    ensures Distinct(s) == s
    decreases |s|
  {
    if s != [] {
      var init := s[..|s| - 1];
      assert NoDuplicates(init);
      DistinctOfDuplicateFree(init);
      assert s[|s| - 1] !in init by {
        forall i | 0 <= i < |init| ensures init[i] != s[|s| - 1] {
          assert s[i] != s[|s| - 1];
        }
      }
      assert init + [s[|s| - 1]] == s;
    }
  }

  /** `distinct()` is idempotent. */
  lemma DistinctIdempotent<T(!new)>(s: seq<T>)
    ensures Distinct(Distinct(s)) == Distinct(s)
  {
    DistinctOfDuplicateFree(Distinct(s));
  }

  /**
   * Elements already emitted by `distinct()` never move when more input
   * follows: the result on `p` is a prefix of the result on `p + q`.
   */
  lemma {:induction false} DistinctPrefix<T(!new)>(p: seq<T>, q: seq<T>)
    ensures |Distinct(p)| <= |Distinct(p + q)|
    ensures Distinct(p + q)[..|Distinct(p)|] == Distinct(p)
    decreases |q|
  {
    if q == [] {
      assert p + q == p;
    } else {
      var q' := q[..|q| - 1];
      DistinctPrefix(p, q');
      assert (p + q)[..|p + q| - 1] == p + q';
    }
  }

  /**
   * Adding `xs` to a duplicate-free ordered set one element at a time gives
   * the same sequence as concatenating and then taking `distinct()`.
   */
  lemma {:induction false} InsertAllIsDistinct<T(!new)>(s: seq<T>, xs: seq<T>)
    requires NoDuplicates(s)
    ensures InsertAll(s, xs) == Distinct(s + xs)
    decreases |xs|
  {
    if xs == [] {
      assert s + xs == s;
      DistinctOfDuplicateFree(s);
    } else {
      var xs' := xs[..|xs| - 1];
      InsertAllIsDistinct(s, xs');
      assert (s + xs)[..|s + xs| - 1] == s + xs';
    }
  }

  /** `distinct()` applied to a prefix first changes nothing about the whole. */
  lemma {:induction false} DistinctAbsorbs<T(!new)>(p: seq<T>, q: seq<T>)
    ensures Distinct(Distinct(p) + q) == Distinct(p + q)
    decreases |q|
  {
    if q == [] {
      assert p + q == p;
      assert Distinct(p) + q == Distinct(p);
      DistinctIdempotent(p);
    } else {
      var q' := q[..|q| - 1];
      DistinctAbsorbs(p, q');
      assert (p + q)[..|p + q| - 1] == p + q';
      assert (Distinct(p) + q)[..|Distinct(p) + q| - 1] == Distinct(p) + q';
    }
  }

  /**
   * Re-wrapping a duplicate-free ordered set as `new LinkedHashSet<>(
   * set.stream().distinct().collect(toList()))` gives back the same set in
   * the same order.
   */
  lemma RewrapIsIdentity<T(!new)>(s: seq<T>)
    requires NoDuplicates(s)
    ensures InsertAll([], Distinct(s)) == s
  {
    DistinctOfDuplicateFree(s);
    InsertAllIsDistinct([], s);
    assert [] + s == s;
  }
}
