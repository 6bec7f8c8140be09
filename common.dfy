/** Failure-carrying wrappers shared by every module of the model. */
module Common {

  datatype Option<+T> = None | Some(value: T)

  /** The outcome of an operation that the source lets raise an exception. */
  datatype Result<+T, +E> = Success(value: T) | Failure(error: E)

  /** Python's `bool(x)` on an optional integer: `None` and `0` are falsy. */
  predicate Truthy(x: Option<int>)
  {
    x.Some? && x.value != 0
  }

  /** The elements of `s` that satisfy `f`, in their order in `s`: a queryset `.filter(...)`. */
  function Filter<T(!new)>(s: seq<T>, f: T -> bool): (r: seq<T>)
    ensures |r| <= |s|
    ensures forall x :: x in r <==> x in s && f(x)
  {
    if s == [] then [] else (if f(s[0]) then [s[0]] else []) + Filter(s[1..], f)
  }

  /** Filtering a concatenation filters each half in turn: a filter keeps the order of its input. */
  lemma {:induction false} FilterAppend<T(!new)>(a: seq<T>, b: seq<T>, f: T -> bool)
    ensures Filter(a + b, f) == Filter(a, f) + Filter(b, f)
  {
    if a == [] {
      assert a + b == b;
    } else {
      assert (a + b)[1..] == a[1..] + b;
      FilterAppend(a[1..], b, f);
    }
  }

  /** One element is kept exactly when it satisfies the predicate. */
  lemma FilterSingle<T(!new)>(x: T, f: T -> bool)
    ensures Filter([x], f) == if f(x) then [x] else []
  {
    assert [x][1..] == [];
  }

  /** A filter keeps every ordering between the elements it keeps. */
  lemma {:induction false} FilterPairwise<T(!new)>(s: seq<T>, f: T -> bool, R: (T, T) -> bool)
    requires forall i, j :: 0 <= i < j < |s| ==> R(s[i], s[j])
    ensures forall i, j :: 0 <= i < j < |Filter(s, f)| ==> R(Filter(s, f)[i], Filter(s, f)[j])
  {
    if s != [] {
      FilterPairwise(s[1..], f, R);
      var rest := Filter(s[1..], f);
      forall x | x in rest ensures R(s[0], x) {
        var k :| 0 <= k < |s[1..]| && s[1..][k] == x;
        assert s[k + 1] == x;
      }
      var r := Filter(s, f);
      if f(s[0]) {
        assert r == [s[0]] + rest;
        forall i, j | 0 <= i < j < |r| ensures R(r[i], r[j]) {
          assert r[j] == rest[j - 1] && rest[j - 1] in rest;
          if i > 0 { assert r[i] == rest[i - 1]; }
        }
      } else {
        assert r == rest;
      }
    }
  }

  /** A prefix grows by the next element. */
  lemma PrefixSnoc<T>(s: seq<T>, pos: nat)
    requires pos < |s|
    ensures s[..pos + 1] == s[..pos] + [s[pos]]
  {
  }
}
