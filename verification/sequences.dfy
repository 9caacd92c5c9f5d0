/** The document store's array update operators and its offset pagination:
    `$addToSet` (insert unless present), `$pull` (remove every occurrence)
    and the `$skip`/`$limit` pair the listings use. */
module Sequences {
  import opened Base

  /** No element occurs twice: an array of ids used as a set. */
  predicate NoDuplicates<T(==)>(xs: seq<T>) {
    forall i, j :: 0 <= i < j < |xs| ==> xs[i] != xs[j]
  }

  /** `$addToSet`: appends `x` unless it is already an element. */
  function AddToSet(xs: seq<Id>, x: Id): (r: seq<Id>)
    ensures x in r
    ensures forall y :: y in r <==> y in xs || y == x
    ensures x in xs ==> r == xs
    ensures x !in xs ==> |r| == |xs| + 1 && r[..|xs|] == xs
    ensures NoDuplicates(xs) ==> NoDuplicates(r)
  {
    if x in xs then xs else xs + [x]
  }

  /** `$pull`: removes every occurrence of `x`, keeping the order of the
      remaining elements. */
  function Pull(xs: seq<Id>, x: Id): (r: seq<Id>)
    ensures x !in r
    ensures forall y :: y != x ==> (y in r <==> y in xs)
    ensures |r| <= |xs|
    ensures NoDuplicates(xs) ==> NoDuplicates(r)
  {
    if xs == [] then []
    else if xs[0] == x then Pull(xs[1..], x)
    else
      var rest := Pull(xs[1..], x);
      assert forall y :: y in rest ==> y in xs[1..];
      assert NoDuplicates(xs) ==> forall j :: 0 <= j < |xs[1..]| ==> xs[1..][j] != xs[0];
      assert NoDuplicates(xs) ==> NoDuplicates(xs[1..]) && xs[0] !in rest;
      assert NoDuplicates(xs) ==> NoDuplicates([xs[0]] + rest) by {
        if NoDuplicates(xs) {
          assert NoDuplicates(rest);
          forall i, j | 0 <= i < j < |[xs[0]] + rest|
            ensures ([xs[0]] + rest)[i] != ([xs[0]] + rest)[j]
          {
            if i == 0 {
              assert ([xs[0]] + rest)[j] == rest[j - 1];
            } else {
              assert ([xs[0]] + rest)[i] == rest[i - 1];
              assert ([xs[0]] + rest)[j] == rest[j - 1];
            }
          }
        }
      }
      [xs[0]] + rest
  }

  /** Pulling an element that is not there leaves the array as it was. */
  lemma {:induction false} PullAbsent(xs: seq<Id>, x: Id)
    requires x !in xs
    ensures Pull(xs, x) == xs
  {
    if xs != [] {
      PullAbsent(xs[1..], x);
      assert [xs[0]] + xs[1..] == xs;
    }
  }

  /** `$pull` distributes over concatenation. */
  lemma {:induction false} PullAppend(xs: seq<Id>, ys: seq<Id>, x: Id)
    ensures Pull(xs + ys, x) == Pull(xs, x) + Pull(ys, x)
  {
    if xs == [] {
      assert xs + ys == ys;
    } else {
      assert (xs + ys)[1..] == xs[1..] + ys;
      PullAppend(xs[1..], ys, x);
    }
  }

  /** `$pull` undoes an `$addToSet` of an element that was not present. */
  lemma PullUndoesAddToSet(xs: seq<Id>, x: Id)
    requires x !in xs
    ensures Pull(AddToSet(xs, x), x) == xs
  {
    PullAppend(xs, [x], x);
    PullAbsent(xs, x);
  }

  /** `$addToSet` and `$pull` are both idempotent. */
  lemma SetOperatorsIdempotent(xs: seq<Id>, x: Id)
    ensures AddToSet(AddToSet(xs, x), x) == AddToSet(xs, x)
    ensures Pull(Pull(xs, x), x) == Pull(xs, x)
  {
    PullAbsent(Pull(xs, x), x);
  }

  /** The elements of `xs` that satisfy `p`, in their order in `xs`: what a
      filtering stage yields from a collection read in that order. */
  function Filter<T(==,!new)>(xs: seq<T>, p: T -> bool): (r: seq<T>)
    ensures |r| <= |xs|
    ensures forall x :: x in r <==> x in xs && p(x)
  {
    if xs == [] then []
    else
      assert forall x :: x in xs <==> x == xs[0] || x in xs[1..];
      (if p(xs[0]) then [xs[0]] else []) + Filter(xs[1..], p)
  }

  /** Filtering keeps the order: the filter of a concatenation is the
      concatenation of the filters. */
  lemma {:induction false} FilterAppend<T(!new)>(xs: seq<T>, ys: seq<T>, p: T -> bool)
    ensures Filter(xs + ys, p) == Filter(xs, p) + Filter(ys, p)
  {
    if xs == [] {
      assert xs + ys == ys;
    } else {
      assert (xs + ys)[0] == xs[0];
      assert (xs + ys)[1..] == xs[1..] + ys;
      FilterAppend(xs[1..], ys, p);
    }
  }

  /** Filtering a list without duplicates gives a list without duplicates. */
  lemma {:induction false} FilterKeepsNoDuplicates<T(!new)>(xs: seq<T>, p: T -> bool)
    requires NoDuplicates(xs)
    ensures NoDuplicates(Filter(xs, p))
  {
    if xs != [] {
      assert NoDuplicates(xs[1..]);
      FilterKeepsNoDuplicates(xs[1..], p);
      var rest := Filter(xs[1..], p);
      assert xs[0] !in xs[1..];
      assert xs[0] !in rest;
      if p(xs[0]) {
        var r := [xs[0]] + rest;
        forall i, j | 0 <= i < j < |r| ensures r[i] != r[j] {
          assert r[j] == rest[j - 1];
          if i > 0 {
            assert r[i] == rest[i - 1];
          }
        }
      } else {
        assert Filter(xs, p) == [] + rest;
      }
    }
  }

  /** The number of records `$skip` passes over for a page: `(page-1)*limit`. */
  function SkipCount(page: int, limit: int): int {
    (page - 1) * limit
  }

  /** `p` is page `page` of `xs` shown `limit` records at a time: the
      records after the first `(page-1)*limit`, as many as there are up to
      `limit`, in their order in `xs`. */
  ghost predicate IsPage<T>(p: seq<T>, xs: seq<T>, page: int, limit: int) {
    var skip := SkipCount(page, limit);
    && |p| == Min(limit, if skip < |xs| then |xs| - skip else 0)
    && forall k :: 0 <= k < |p| ==> 0 <= skip + k < |xs| && p[k] == xs[skip + k]
  }

  /** The `$skip: (page-1)*limit` then `$limit: limit` stages. The store
      refuses a negative skip and a limit below one, so the window exists
      exactly when `page >= 1` and `limit >= 1`. */
  function Paginate<T>(xs: seq<T>, page: int, limit: int): (r: Option<seq<T>>)
    ensures r.Some? <==> page >= 1 && limit >= 1
    ensures r.Some? ==> |r.value| <= limit
    ensures r.Some? ==> IsPage(r.value, xs, page, limit)
  {
    if page < 1 || limit < 1 then None
    else
      var skip := SkipCount(page, limit);
      assert skip >= 0 by { NonNegativeProduct(page - 1, limit); }
      Some(xs[Min(skip, |xs|)..Min(skip + limit, |xs|)])
  }

  lemma NonNegativeProduct(a: int, b: int)
    requires a >= 0 && b >= 0
    ensures a * b >= 0
  {
  }

  /** Offset pagination covers the listing: record `i` is shown on page
      `i / limit + 1`, at position `i % limit`. */
  lemma {:induction false} EveryRecordOnItsPage<T>(xs: seq<T>, limit: int, i: int)
    requires limit >= 1 && 0 <= i < |xs|
    ensures var p := Paginate(xs, i / limit + 1, limit);
      p.Some? && i % limit < |p.value| && p.value[i % limit] == xs[i]
  {
    var page := i / limit + 1;
    assert SkipCount(page, limit) == (i / limit) * limit;
    assert (i / limit) * limit + i % limit == i;
    assert SkipCount(page, limit) + i % limit == i;
  }

  /** The worked example of the listing contract: of 25 records shown 10
      per page, page 1 holds records 1-10 and page 3 records 21-25. */
  lemma PaginationExample<T>(xs: seq<T>)
    requires |xs| == 25
    ensures Paginate(xs, 1, 10) == Some(xs[0..10])
    ensures Paginate(xs, 3, 10) == Some(xs[20..25])
  {
  }
}
