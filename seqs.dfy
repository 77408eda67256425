/**
  Order-preserving filtering of sequences. Every "keep the rows that ..." of
  the application (SQL `DELETE ... WHERE`, `SELECT ... WHERE`, the list
  comprehension over pending rows) is an instance of `Filter`.
 */
module Seqs {

  /** The elements of `s` satisfying `keep`, in their original order. */
  function Filter<T(==,!new)>(s: seq<T>, keep: T -> bool): (r: seq<T>)
    ensures |r| <= |s|
    ensures forall x {:trigger x in r} :: x in r <==> x in s && keep(x)
    ensures forall x {:trigger multiset(r)[x]} :: multiset(r)[x] == if keep(x) then multiset(s)[x] else 0
  {
    if s == [] then []
    else
      assert s == [s[0]] + s[1..];
      (if keep(s[0]) then [s[0]] else []) + Filter(s[1..], keep)
  }

  /** Filtering distributes over concatenation, so relative order is kept. */
  lemma {:induction false} FilterConcat<T(!new)>(a: seq<T>, b: seq<T>, keep: T -> bool)
    ensures Filter(a + b, keep) == Filter(a, keep) + Filter(b, keep)
  {
    if a == [] {
      assert a + b == b;
    } else {
      var head := if keep(a[0]) then [a[0]] else [];
      assert (a + b)[0] == a[0] && (a + b)[1..] == a[1..] + b;
      calc {
        Filter(a + b, keep);
        head + Filter(a[1..] + b, keep);
        { FilterConcat(a[1..], b, keep); }
        head + (Filter(a[1..], keep) + Filter(b, keep));
        (head + Filter(a[1..], keep)) + Filter(b, keep);
        Filter(a, keep) + Filter(b, keep);
      }
    }
  }

  /** Filtering by `f` and then by `g` is filtering by their conjunction `h`. */
  lemma {:induction false} FilterFilter<T(!new)>(s: seq<T>, f: T -> bool, g: T -> bool, h: T -> bool)
    requires forall x :: h(x) == (f(x) && g(x))
    ensures Filter(Filter(s, f), g) == Filter(s, h)
  {
    if s != [] {
      var ft := Filter(s[1..], f);
      FilterFilter(s[1..], f, g, h);
      assert Filter(s, h) == (if h(s[0]) then [s[0]] else []) + Filter(s[1..], h);
      if f(s[0]) {
        assert Filter(s, f) == [s[0]] + ft;
        FilterConcat([s[0]], ft, g);
        assert Filter([s[0]], g) == if g(s[0]) then [s[0]] else [];
      } else {
        assert Filter(s, f) == ft;
      }
    }
  }

  /** Filtering twice by the same predicate is filtering once. */
  lemma {:induction false} FilterIdempotent<T(!new)>(s: seq<T>, keep: T -> bool)
    ensures Filter(Filter(s, keep), keep) == Filter(s, keep)
  {
    FilterFilter(s, keep, keep, keep);
  }

  /** When every element is kept, filtering changes nothing. */
  lemma {:induction false} FilterKeepsAll<T(!new)>(s: seq<T>, keep: T -> bool)
    requires forall i :: 0 <= i < |s| ==> keep(s[i])
    ensures Filter(s, keep) == s
  {
    if s != [] {
      FilterKeepsAll(s[1..], keep);
    }
  }

  /** When exactly the element at `k` fails `keep`, filtering cuts out that one position. */
  lemma {:induction false} FilterDropsOne<T(!new)>(s: seq<T>, k: nat, keep: T -> bool)
    requires k < |s| && !keep(s[k])
    requires forall i :: 0 <= i < |s| && i != k ==> keep(s[i])
    ensures Filter(s, keep) == s[..k] + s[k + 1..]
  {
    var front, back := s[..k], s[k + 1..];
    assert s == front + ([s[k]] + back);
    FilterConcat(front, [s[k]] + back, keep);
    assert Filter(front, keep) == front by {
      assert forall i :: 0 <= i < |front| ==> front[i] == s[i];
      FilterKeepsAll(front, keep);
    }
    assert Filter(back, keep) == back by {
      assert forall i :: 0 <= i < |back| ==> back[i] == s[k + 1 + i];
      FilterKeepsAll(back, keep);
    }
    assert Filter([s[k]] + back, keep) == back by {
      FilterConcat([s[k]], back, keep);
      assert Filter([s[k]], keep) == [];
    }
  }

  /** A relation holding between every earlier and later element of `s`. */
  ghost predicate Pairwise<T>(s: seq<T>, rel: (T, T) -> bool)
  {
    forall i, j :: 0 <= i < j < |s| ==> rel(s[i], s[j])
  }

  /** Filtering keeps every pairwise relation (the result is a subsequence). */
  lemma {:induction false} FilterPairwise<T(!new)>(s: seq<T>, keep: T -> bool, rel: (T, T) -> bool)
    requires Pairwise(s, rel)
    ensures Pairwise(Filter(s, keep), rel)
  {
    if s != [] {
      assert Pairwise(s[1..], rel) by {
        forall i, j | 0 <= i < j < |s[1..]| ensures rel(s[1..][i], s[1..][j]) {
          assert s[1..][i] == s[i + 1] && s[1..][j] == s[j + 1];
        }
      }
      FilterPairwise(s[1..], keep, rel);
      var tail := Filter(s[1..], keep);
      var r := Filter(s, keep);
      if keep(s[0]) {
        assert r == [s[0]] + tail;
        forall i, j | 0 <= i < j < |r| ensures rel(r[i], r[j]) {
          if i == 0 {
            assert r[j] == tail[j - 1];
            assert tail[j - 1] in tail;
            var k :| 0 <= k < |s[1..]| && s[1..][k] == tail[j - 1];
            assert s[k + 1] == r[j];
          } else {
            assert r[i] == tail[i - 1] && r[j] == tail[j - 1];
          }
        }
      } else {
        assert r == tail;
      }
    }
  }
}
