/**
  SQLite's BINARY collation on TEXT values, the order `ORDER BY expiry_date`
  uses for the product table. SQLite compares the UTF-8 encodings with
  memcmp and puts a proper prefix first; UTF-8 byte order coincides with
  code-point order, so on Dafny strings it is the lexicographic order of
  characters.
 */
module Collation {

  predicate TextLe(a: string, b: string)
  {
    a == [] || (b != [] && (a[0] < b[0] || (a[0] == b[0] && TextLe(a[1..], b[1..]))))
  }

  lemma {:induction false} TextLeReflexive(a: string)
    ensures TextLe(a, a)
  {
    if a != [] {
      TextLeReflexive(a[1..]);
    }
  }

  lemma {:induction false} TextLeTotal(a: string, b: string)
    ensures TextLe(a, b) || TextLe(b, a)
  {
    if a != [] && b != [] && a[0] == b[0] {
      TextLeTotal(a[1..], b[1..]);
    }
  }

  lemma {:induction false} TextLeAntisymmetric(a: string, b: string)
    requires TextLe(a, b) && TextLe(b, a)
    ensures a == b
  {
    if a != [] && b != [] {
      TextLeAntisymmetric(a[1..], b[1..]);
      assert a == [a[0]] + a[1..] && b == [b[0]] + b[1..];
    }
  }

  lemma {:induction false} TextLeTransitive(a: string, b: string, c: string)
    requires TextLe(a, b) && TextLe(b, c)
    ensures TextLe(a, c)
  {
    if a != [] && b != [] && c != [] && a[0] == b[0] == c[0] {
      TextLeTransitive(a[1..], b[1..], c[1..]);
    }
  }

  /**
    Comparing `a + b` with `c + d` where `a` and `c` have the same length:
    the first parts decide unless they are equal, in which case the rest does.
   */
  lemma {:induction false} TextLeConcat(a: string, b: string, c: string, d: string)
    requires |a| == |c|
    ensures TextLe(a + b, c + d) <==> (a == c && TextLe(b, d)) || (a != c && TextLe(a, c))
  {
    if a != [] {
      assert (a + b)[1..] == a[1..] + b && (c + d)[1..] == c[1..] + d;
      TextLeConcat(a[1..], b, c[1..], d);
      assert a == [a[0]] + a[1..] && c == [c[0]] + c[1..];
    } else {
      assert a + b == b && c + d == d;
    }
  }
}
