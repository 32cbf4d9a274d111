/** Generic sequence operations: the `Array.prototype.filter` that the
    catalog builder and the selector resolver are made of, and the
    subsequence relation their results are stated in. */
module Seqs {

  /** The elements of `s` that satisfy `f`, in their original order. */
  function Filter<T>(f: T -> bool, s: seq<T>): (r: seq<T>)
    ensures |r| <= |s|
    ensures forall i :: 0 <= i < |r| ==> f(r[i]) && r[i] in s
    ensures forall i :: 0 <= i < |s| && f(s[i]) ==> s[i] in r
  {
    if s == [] then []
    else (if f(s[0]) then [s[0]] else []) + Filter(f, s[1..])
  }

  /** Filtering a sequence with a known first element. */
  lemma FilterCons<T>(f: T -> bool, x: T, s: seq<T>)
    ensures Filter(f, [x] + s) == (if f(x) then [x] else []) + Filter(f, s)
  {
    assert ([x] + s)[0] == x && ([x] + s)[1..] == s;
  }

  /** `a` is obtained from `b` by deleting zero or more elements. */
  ghost predicate IsSubsequence<T>(a: seq<T>, b: seq<T>)
    decreases |b|
  {
    a == [] ||
    (b != [] && ((a[0] == b[0] && IsSubsequence(a[1..], b[1..])) || IsSubsequence(a, b[1..])))
  }

  /** No element occurs twice. */
  ghost predicate NoDuplicates<T>(s: seq<T>)
  {
    forall i, j :: 0 <= i < j < |s| ==> s[i] != s[j]
  }

  lemma {:induction false} FilterIsSubsequence<T>(f: T -> bool, s: seq<T>)
    ensures IsSubsequence(Filter(f, s), s)
    decreases |s|
  {
    if s != [] {
      var rest := Filter(f, s[1..]);
      FilterIsSubsequence(f, s[1..]);
      if f(s[0]) {
        assert Filter(f, s) == [s[0]] + rest;
        assert ([s[0]] + rest)[1..] == rest;
      } else {
        assert Filter(f, s) == rest;
      }
    }
  }

  lemma {:induction false} FilterConcat<T>(f: T -> bool, a: seq<T>, b: seq<T>)
    ensures Filter(f, a + b) == Filter(f, a) + Filter(f, b)
    decreases |a|
  {
    if a != [] {
      assert (a + b)[0] == a[0];
      assert (a + b)[1..] == a[1..] + b;
      FilterConcat(f, a[1..], b);
    } else {
      assert a + b == b;
    }
  }

  /** Filtering keeps everything when every element qualifies. */
  lemma {:induction false} FilterKeepsAll<T>(f: T -> bool, s: seq<T>)
    requires forall i :: 0 <= i < |s| ==> f(s[i])
    ensures Filter(f, s) == s
    decreases |s|
  {
    if s != [] {
      FilterKeepsAll(f, s[1..]);
      assert [s[0]] + s[1..] == s;
    }
  }

  /** Two predicates that agree on every element filter alike. */
  lemma {:induction false} FilterSame<T>(f: T -> bool, g: T -> bool, s: seq<T>)
    requires forall i :: 0 <= i < |s| ==> f(s[i]) == g(s[i])
    ensures Filter(f, s) == Filter(g, s)
    decreases |s|
  {
    if s != [] {
      FilterSame(f, g, s[1..]);
    }
  }

  /** Filtering by a predicate and by its negation splits `s` in two:
      together the two results hold every element exactly as often as `s`. */
  lemma {:induction false} FilterPartition<T>(p: T -> bool, q: T -> bool, s: seq<T>)
    requires forall x :: q(x) == !p(x)
    ensures multiset(Filter(p, s)) + multiset(Filter(q, s)) == multiset(s)
    decreases |s|
  {
    if s != [] {
      var x, t := s[0], s[1..];
      assert s == [x] + t;
      FilterCons(p, x, t);
      FilterCons(q, x, t);
      FilterPartition(p, q, t);
      assert multiset(s) == multiset([x]) + multiset(t);
      if p(x) {
        assert multiset(Filter(p, s)) == multiset([x]) + multiset(Filter(p, t));
        assert Filter(q, s) == Filter(q, t);
      } else {
        assert Filter(p, s) == Filter(p, t);
        assert multiset(Filter(q, s)) == multiset([x]) + multiset(Filter(q, t));
      }
    }
  }

  /** A duplicate-free sequence stays duplicate-free under filtering. */
  lemma {:induction false} FilterNoDuplicates<T>(f: T -> bool, s: seq<T>)
    requires NoDuplicates(s)
    ensures NoDuplicates(Filter(f, s))
    decreases |s|
  {
    if s != [] {
      var rest := Filter(f, s[1..]);
      assert NoDuplicates(s[1..]) by {
        forall i, j | 0 <= i < j < |s[1..]| ensures s[1..][i] != s[1..][j] {
          assert s[1..][i] == s[i + 1] && s[1..][j] == s[j + 1];
        }
      }
      FilterNoDuplicates(f, s[1..]);
      if f(s[0]) {
        assert s[0] !in s[1..] by {
          forall k | 0 <= k < |s[1..]| ensures s[1..][k] != s[0] {
            assert s[1..][k] == s[k + 1];
          }
        }
        assert s[0] !in rest;
        var r := [s[0]] + rest;
        assert Filter(f, s) == r;
        forall i, j | 0 <= i < j < |r| ensures r[i] != r[j] {
          if i == 0 {
            assert r[j] == rest[j - 1];
            assert r[j] in rest;
          } else {
            assert r[i] == rest[i - 1] && r[j] == rest[j - 1];
          }
        }
      } else {
        assert Filter(f, s) == rest;
      }
    }
  }
}
