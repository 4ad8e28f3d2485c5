/** Failure-carrying values shared by every game model: an optional value and a
    value-or-error, standing for the source's `undefined`/`None` results and its
    thrown errors. */
module Wrappers {

  datatype Option<+T> = None | Some(value: T)

  datatype Result<+T, +E> = Ok(value: T) | Err(error: E)
}

/** The status every game keeps (`GameStatus` of the shared game base and of
    the Python versions). */
module Common {
  datatype Status = Playing | GameOver | Win

  /** A subset is no larger than its superset. */
  lemma {:induction false} SubsetNoLarger<T>(a: set<T>, b: set<T>)
    requires a <= b
    ensures |a| <= |b|
    decreases b
  {
    if forall x :: x !in a {
      assert a == {};
    } else {
      var x :| x in a;
      SubsetNoLarger(a - {x}, b - {x});
    }
  }

  /** A prefix one longer holds one more element. */
  lemma PrefixStep<T>(s: seq<T>, i: int)
    requires 0 <= i < |s|
    ensures forall q | q in s[..i + 1] :: q in s[..i] || q == s[i]
  {
    assert s[..i + 1] == s[..i] + [s[i]];
  }

  /** A set smaller than a set it is part of leaves out one of its members. */
  lemma SomethingLeft<T>(a: set<T>, b: set<T>)
    requires a <= b && |a| < |b|
    ensures exists x :: x in b && x !in a
  {
    if forall x :: x in b ==> x in a {
      SubsetNoLarger(b, a);
      assert false;
    }
  }

  /** Adding the same cards to two collections keeps them equal or apart. */
  lemma MultisetCancel<T>(a: multiset<T>, b: multiset<T>, c: multiset<T>)
    requires a + c == b + c
    ensures a == b
  {
    forall x
      ensures a[x] == b[x]
    {
      assert (a + c)[x] == (b + c)[x];
    }
  }

  /** The order in which collections are added up does not matter. */
  lemma MultisetCommute<T>(a: multiset<T>, b: multiset<T>, c: multiset<T>)
    ensures a + b + c == a + c + b
  {
    forall x
      ensures (a + b + c)[x] == (a + c + b)[x]
    {
    }
  }

  /** Cards taken off one pile and put on another are the cards there were. */
  lemma MultisetMoved<T>(before: multiset<T>, middle: multiset<T>, after: multiset<T>,
                         rest: multiset<T>, moving: multiset<T>, under: multiset<T>)
    requires middle + (rest + moving) == before + rest
    requires after + under == middle + (under + moving)
    ensures after == before
  {
    forall x
      ensures after[x] == before[x]
    {
      assert (middle + (rest + moving))[x] == (before + rest)[x];
      assert (after + under)[x] == (middle + (under + moving))[x];
    }
  }
}
