/** Facts about plain sequences used throughout the model: duplicate-freedom,
    order-preserving filtering (a Python list comprehension with an `if`),
    and the position of an element; the optional value that lookups return
    and the outcome of a computation that may raise IndexError. */
module Lists {

  /** A value that may be absent (Python's `None`). */
  datatype Option<T> = None | Some(value: T)

  /** A computation that either succeeds or raises Python's IndexError
      (a list index out of range). */
  datatype Outcome<T> = Ok(value: T) | IndexError

  /** No element occurs twice. */
  ghost predicate NoDup<T>(s: seq<T>) {
    forall i, j :: 0 <= i < j < |s| ==> s[i] != s[j]
  }

  /** The elements of `s` that satisfy `keep`, in their order in `s`:
      `[x for x in s if keep(x)]`. */
  function Filter<T(!new)>(s: seq<T>, keep: T -> bool): (r: seq<T>)
    ensures |r| <= |s|
    ensures forall x :: x in r <==> x in s && keep(x)
  {
    if s == [] then []
    else Filter(s[..|s| - 1], keep) + (if keep(s[|s| - 1]) then [s[|s| - 1]] else [])
  }

  /** Position of the first occurrence of `x` in `s`. */
  function IndexOf<T(==)>(s: seq<T>, x: T): (i: nat)
    requires x in s
    ensures i < |s| && s[i] == x
    ensures forall j :: 0 <= j < i ==> s[j] != x
  {
    if s[0] == x then 0 else 1 + IndexOf(s[1..], x)
  }

  lemma {:induction false} IndexOfPrefix<T>(s: seq<T>, n: nat, x: T)
    requires n <= |s| && x in s[..n]
    ensures IndexOf(s, x) == IndexOf(s[..n], x)
  {
    var i := IndexOf(s[..n], x);
    assert s[i] == x;
  }

  /** Filtering a duplicate-free sequence gives a duplicate-free sequence. */
  lemma {:induction false} FilterNoDup<T(!new)>(s: seq<T>, keep: T -> bool)
    requires NoDup(s)
    ensures NoDup(Filter(s, keep))
  {
    if s != [] {
      var init := s[..|s| - 1];
      var last := s[|s| - 1];
      assert NoDup(init) by {
        forall i, j | 0 <= i < j < |init| ensures init[i] != init[j] {
          assert init[i] == s[i] && init[j] == s[j];
        }
      }
      FilterNoDup(init, keep);
      var fi := Filter(init, keep);
      if keep(last) {
        assert last !in init by {
          forall i | 0 <= i < |init| ensures init[i] != last {
            assert init[i] == s[i];
          }
        }
        var r := fi + [last];
        forall i, j | 0 <= i < j < |r| ensures r[i] != r[j] {
          if j == |fi| {
            assert r[i] in fi;
          } else {
            assert r[i] == fi[i] && r[j] == fi[j];
          }
        }
      } else {
        assert Filter(s, keep) == fi;
      }
    }
  }

  /** Filtering keeps the order of a duplicate-free sequence: earlier results
      stand earlier in `s`. */
  lemma {:induction false} FilterOrder<T(!new)>(s: seq<T>, keep: T -> bool)
    requires NoDup(s)
    ensures forall i, j :: 0 <= i < j < |Filter(s, keep)| ==>
      IndexOf(s, Filter(s, keep)[i]) < IndexOf(s, Filter(s, keep)[j])
  {
    if s != [] {
      var init := s[..|s| - 1];
      var last := s[|s| - 1];
      assert NoDup(init) by {
        forall i, j | 0 <= i < j < |init| ensures init[i] != init[j] {
          assert init[i] == s[i] && init[j] == s[j];
        }
      }
      FilterOrder(init, keep);
      var fi := Filter(init, keep);
      var r := Filter(s, keep);
      assert r == fi + (if keep(last) then [last] else []);
      forall i, j | 0 <= i < j < |r| ensures IndexOf(s, r[i]) < IndexOf(s, r[j]) {
        assert r[i] == fi[i];
        assert fi[i] in init;
        IndexOfPrefix(s, |s| - 1, fi[i]);
        if j < |fi| {
          assert r[j] == fi[j];
          IndexOfPrefix(s, |s| - 1, fi[j]);
        } else {
          assert r[j] == last;
          assert IndexOf(s, last) == |s| - 1;
        }
      }
    }
  }

  /** A duplicate-free sequence has as many distinct elements as entries. */
  lemma {:induction false} NoDupCardinality<T>(s: seq<T>)
    requires NoDup(s)
    ensures |set x | x in s| == |s|
  {
    if s != [] {
      var init := s[..|s| - 1];
      var last := s[|s| - 1];
      assert NoDup(init) by {
        forall i, j | 0 <= i < j < |init| ensures init[i] != init[j] {
          assert init[i] == s[i] && init[j] == s[j];
        }
      }
      NoDupCardinality(init);
      assert last !in init by {
        forall i | 0 <= i < |init| ensures init[i] != last {
          assert init[i] == s[i];
        }
      }
      assert s == init + [last];
      assert (set x | x in s) == (set x | x in init) + {last};
    }
  }

  /** Two duplicate-free sequences with no element in common concatenate to
      a duplicate-free sequence. */
  lemma NoDupConcat<T>(a: seq<T>, b: seq<T>)
    requires NoDup(a) && NoDup(b)
    requires forall x :: x in a ==> x !in b
    ensures NoDup(a + b)
  {
    var c := a + b;
    forall i, j | 0 <= i < j < |c| ensures c[i] != c[j] {
      if j < |a| {
        assert c[i] == a[i] && c[j] == a[j];
      } else if i >= |a| {
        assert c[i] == b[i - |a|] && c[j] == b[j - |a|];
      } else {
        assert c[i] in a && c[j] in b;
      }
    }
  }

  /** The two halves of a duplicate-free concatenation are duplicate-free
      and have no element in common. */
  lemma NoDupSplit<T>(a: seq<T>, b: seq<T>)
    requires NoDup(a + b)
    ensures NoDup(a) && NoDup(b)
    ensures forall x :: x in a ==> x !in b
  {
    var c := a + b;
    forall i, j | 0 <= i < j < |a| ensures a[i] != a[j] {
      assert c[i] == a[i] && c[j] == a[j];
    }
    forall i, j | 0 <= i < j < |b| ensures b[i] != b[j] {
      assert c[|a| + i] == b[i] && c[|a| + j] == b[j];
    }
    forall i, j | 0 <= i < |a| && 0 <= j < |b| ensures a[i] != b[j] {
      assert c[i] == a[i] && c[|a| + j] == b[j];
    }
  }
}
