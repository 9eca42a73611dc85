/**
  The order Python's sorted() puts directory entries in: strings compare
  lexicographically by code point. SortedNames turns the set of names a
  directory holds into that order; PathBefore extends the order
  component-wise to whole paths.
 */
module Ordering {

  /** a < b on Python strings. */
  predicate Below(a: string, b: string)
  {
    if a == [] then b != []
    else b != [] && (a[0] < b[0] || (a[0] == b[0] && Below(a[1..], b[1..])))
  }

  lemma {:induction false} BelowIrreflexive(a: string)
    ensures !Below(a, a)
  {
    if a != [] {
      BelowIrreflexive(a[1..]);
    }
  }

  lemma {:induction false} BelowTransitive(a: string, b: string, c: string)
    requires Below(a, b) && Below(b, c)
    ensures Below(a, c)
  {
    if a != [] && a[0] == b[0] && b[0] == c[0] {
      BelowTransitive(a[1..], b[1..], c[1..]);
    }
  }

  lemma {:induction false} BelowTotal(a: string, b: string)
    requires a != b
    ensures Below(a, b) || Below(b, a)
  {
    if a != [] && b != [] && a[0] == b[0] {
      assert a == [a[0]] + a[1..] && b == [b[0]] + b[1..];
      BelowTotal(a[1..], b[1..]);
    }
  }

  lemma BelowAsymmetric(a: string, b: string)
    requires Below(a, b)
    ensures !Below(b, a)
  {
    if Below(b, a) {
      BelowTransitive(a, b, a);
      BelowIrreflexive(a);
    }
  }

  /** m comes before every other member of s. */
  predicate IsLeast(m: string, s: set<string>)
  {
    m in s && forall x :: x in s && x != m ==> Below(m, x)
  }

  /** Every finite non-empty set of names has exactly one least member. */
  lemma {:induction false} LeastExists(s: set<string>)
    requires s != {}
    ensures exists m :: IsLeast(m, s)
    ensures forall m, n :: IsLeast(m, s) && IsLeast(n, s) ==> m == n
    decreases s
  {
    var x :| x in s;
    if s != {x} {
      LeastExists(s - {x});
      var m :| IsLeast(m, s - {x});
      if Below(x, m) {
        forall y | y in s && y != x ensures Below(x, y) {
          if y != m {
            BelowTransitive(x, m, y);
          }
        }
        assert IsLeast(x, s);
      } else {
        BelowTotal(x, m);
        assert IsLeast(m, s);
      }
    } else {
      assert IsLeast(x, s);
    }
    forall m, n | IsLeast(m, s) && IsLeast(n, s) ensures m == n {
      if m != n {
        BelowAsymmetric(m, n);
      }
    }
  }

  /** Every earlier element comes strictly before every later one. */
  predicate StrictlySorted(r: seq<string>)
  {
    forall i, j :: 0 <= i < j < |r| ==> Below(r[i], r[j])
  }

  /** sorted() of the names in s. */
  function SortedNames(s: set<string>): (r: seq<string>)
    ensures StrictlySorted(r)
    ensures forall x :: x in r <==> x in s
    ensures |r| == |s|
    decreases s
  {
    if s == {} then []
    else
      LeastExists(s);
      var m :| IsLeast(m, s);
      var rest := SortedNames(s - {m});
      assert forall j :: 0 <= j < |rest| ==> Below(m, rest[j]);
      [m] + rest
  }

  /** Component-wise lexicographic order on paths: the order a depth-first
      walk that lists each directory in sorted order visits them in. */
  predicate PathBefore(x: seq<string>, y: seq<string>)
  {
    if x == [] then y != []
    else y != [] && (Below(x[0], y[0]) || (x[0] == y[0] && PathBefore(x[1..], y[1..])))
  }

  /** Two paths that agree up to position k and then differ by a component
      in sorted order are in path order. */
  lemma {:induction false} PathBeforeAt(x: seq<string>, y: seq<string>, k: nat)
    requires k < |x| && k < |y| && x[..k] == y[..k] && Below(x[k], y[k])
    ensures PathBefore(x, y)
  {
    if k > 0 {
      assert x[1..][..k - 1] == x[..k][1..];
      assert y[1..][..k - 1] == y[..k][1..];
      assert x[0] == x[..k][0];
      PathBeforeAt(x[1..], y[1..], k - 1);
    }
  }

  lemma {:induction false} PathBeforeIrreflexive(x: seq<string>)
    ensures !PathBefore(x, x)
  {
    if x != [] {
      BelowIrreflexive(x[0]);
      PathBeforeIrreflexive(x[1..]);
    }
  }

  predicate PathsSorted(r: seq<seq<string>>)
  {
    forall i, j :: 0 <= i < j < |r| ==> PathBefore(r[i], r[j])
  }
}
