/** Row selection over a table held as a sequence: the WHERE clause of a
    SELECT or of a DELETE, the COUNT of the rows it keeps, and the column list
    that turns each kept row into an output row. The properties of each are
    lemmas, called where a proof needs them, so that proofs about the tables
    only see the facts they use. */
module Seqs {

  /** The rows of `s` that satisfy `keep`, in table order. */
  function Filter<T>(s: seq<T>, keep: T -> bool): (r: seq<T>)
    ensures |r| <= |s|
  {
    if s == [] then []
    else Filter(s[..|s| - 1], keep) + (if keep(s[|s| - 1]) then [s[|s| - 1]] else [])
  }

  /** Appending a row to the table appends it to the selection when it is kept. */
  lemma FilterAppend<T>(s: seq<T>, x: T, keep: T -> bool)
    ensures Filter(s + [x], keep) == Filter(s, keep) + (if keep(x) then [x] else [])
  {
    assert (s + [x])[..|s + [x]| - 1] == s;
  }

  /** The selection holds exactly the kept rows of the table. */
  lemma {:induction false} FilterMembers<T>(s: seq<T>, keep: T -> bool, x: T)
    ensures x in Filter(s, keep) <==> x in s && keep(x)
  {
    if s != [] {
      var init, last := s[..|s| - 1], s[|s| - 1];
      assert s == init + [last];
      FilterMembers(init, keep, x);
    }
  }

  /** A kept row occurs in the selection as often as in the table; any other row not at all. */
  lemma {:induction false} FilterMultiplicity<T>(s: seq<T>, keep: T -> bool, x: T)
    ensures multiset(Filter(s, keep))[x] == if keep(x) then multiset(s)[x] else 0
  {
    if s != [] {
      var init, last := s[..|s| - 1], s[|s| - 1];
      assert s == init + [last];
      FilterMultiplicity(init, keep, x);
    }
  }

  /** A selection that keeps every row is the table itself. */
  lemma {:induction false} FilterKeepsAll<T>(s: seq<T>, keep: T -> bool)
    requires forall i :: 0 <= i < |s| ==> keep(s[i])
    ensures Filter(s, keep) == s
  {
    if s != [] {
      var init, last := s[..|s| - 1], s[|s| - 1];
      assert s == init + [last];
      FilterKeepsAll(init, keep);
    }
  }

  /** The number of rows of `s` that satisfy `keep`: SQL's COUNT over a WHERE clause. */
  function Count<T>(s: seq<T>, keep: T -> bool): (n: nat)
    ensures n <= |s|
  {
    if s == [] then 0
    else Count(s[..|s| - 1], keep) + (if keep(s[|s| - 1]) then 1 else 0)
  }

  lemma CountAppend<T>(s: seq<T>, x: T, keep: T -> bool)
    ensures Count(s + [x], keep) == Count(s, keep) + (if keep(x) then 1 else 0)
  {
    assert (s + [x])[..|s + [x]| - 1] == s;
  }

  /** The count is the size of the selection. */
  lemma {:induction false} CountIsFilterLength<T>(s: seq<T>, keep: T -> bool)
    ensures Count(s, keep) == |Filter(s, keep)|
  {
    if s != [] {
      CountIsFilterLength(s[..|s| - 1], keep);
    }
  }

  /** Two tests that agree on every row count the same rows. */
  lemma {:induction false} CountSameTest<T>(s: seq<T>, f: T -> bool, g: T -> bool)
    requires forall i :: 0 <= i < |s| ==> f(s[i]) == g(s[i])
    ensures Count(s, f) == Count(s, g)
  {
    if s != [] {
      CountSameTest(s[..|s| - 1], f, g);
    }
  }

  /** One output row per table row, in table order: the column list of a SELECT. */
  function Project<T, U>(s: seq<T>, f: T -> U): (r: seq<U>)
    ensures |r| == |s|
  {
    if s == [] then []
    else Project(s[..|s| - 1], f) + [f(s[|s| - 1])]
  }

  lemma ProjectAppend<T, U>(s: seq<T>, x: T, f: T -> U)
    ensures Project(s + [x], f) == Project(s, f) + [f(x)]
  {
    assert (s + [x])[..|s + [x]| - 1] == s;
  }

  /** The i-th output row is the i-th table row under the column list. */
  lemma {:induction false} ProjectAt<T, U>(s: seq<T>, f: T -> U, i: nat)
    requires i < |s|
    ensures Project(s, f)[i] == f(s[i])
  {
    var init := s[..|s| - 1];
    if i < |init| {
      ProjectAt(init, f, i);
    }
  }

  /** The rows on which `f` gives `y`. */
  function Yields<T, U(==)>(f: T -> U, y: U): T -> bool
  {
    (x: T) => f(x) == y
  }

  /** An output row occurs in the projection as often as there are table rows
      that yield it. */
  lemma {:induction false} ProjectMultiplicity<T, U>(s: seq<T>, f: T -> U, y: U)
    ensures multiset(Project(s, f))[y] == Count(s, Yields(f, y))
  {
    if s != [] {
      var init, last := s[..|s| - 1], s[|s| - 1];
      assert s == init + [last];
      ProjectMultiplicity(init, f, y);
      assert Project(s, f) == Project(init, f) + [f(last)];
    }
  }

  /** Rows that pass both tests. */
  function Both<T>(f: T -> bool, g: T -> bool): T -> bool
  {
    (x: T) => f(x) && g(x)
  }

  /** Counting within a selection is counting the rows that pass both tests. */
  lemma {:induction false} CountFilter<T>(s: seq<T>, keep: T -> bool, g: T -> bool)
    ensures Count(Filter(s, keep), g) == Count(s, Both(keep, g))
  {
    if s != [] {
      var init, last := s[..|s| - 1], s[|s| - 1];
      assert s == init + [last];
      CountFilter(init, keep, g);
      if keep(last) {
        assert Filter(s, keep) == Filter(init, keep) + [last];
        CountAppend(Filter(init, keep), last, g);
      } else {
        assert Filter(s, keep) == Filter(init, keep);
      }
    }
  }

  /** An output row of a SELECT with a WHERE clause occurs once per kept row
      that yields it. */
  lemma SelectMultiplicity<T, U>(s: seq<T>, keep: T -> bool, f: T -> U, y: U)
    ensures multiset(Project(Filter(s, keep), f))[y] == Count(s, Both(keep, Yields(f, y)))
  {
    ProjectMultiplicity(Filter(s, keep), f, y);
    CountFilter(s, keep, Yields(f, y));
  }

  /** An output row is in the projection exactly when some table row yields it. */
  lemma {:induction false} ProjectMembers<T, U>(s: seq<T>, f: T -> U, y: U)
    ensures y in Project(s, f) <==> exists x :: x in s && y == f(x)
  {
    if s != [] {
      var init, last := s[..|s| - 1], s[|s| - 1];
      assert s == init + [last];
      ProjectMembers(init, f, y);
    }
  }

  /** Selecting from two tables one after the other is selecting from their concatenation. */
  lemma {:induction false} FilterConcat<T>(s: seq<T>, t: seq<T>, keep: T -> bool)
    ensures Filter(s + t, keep) == Filter(s, keep) + Filter(t, keep)
  {
    if t == [] {
      assert s + t == s;
    } else {
      var init, last := t[..|t| - 1], t[|t| - 1];
      assert t == init + [last];
      assert s + t == (s + init) + [last];
      FilterConcat(s, init, keep);
      FilterAppend(s + init, last, keep);
      FilterAppend(init, last, keep);
    }
  }

  /** Projecting a concatenation is concatenating the projections. */
  lemma {:induction false} ProjectConcat<T, U>(s: seq<T>, t: seq<T>, f: T -> U)
    ensures Project(s + t, f) == Project(s, f) + Project(t, f)
  {
    if t == [] {
      assert s + t == s;
    } else {
      var init, last := t[..|t| - 1], t[|t| - 1];
      assert t == init + [last];
      assert s + t == (s + init) + [last];
      ProjectConcat(s, init, f);
      ProjectAppend(s + init, last, f);
      ProjectAppend(init, last, f);
    }
  }

  /** The pairs of `x` with each row of a second table. */
  function PairWith<T, U>(x: T): U -> (T, U)
  {
    (y: U) => (x, y)
  }

  /** The cross product of two tables, row by row of the first: the FROM
      clause of a SELECT over two tables. */
  function Cross<T, U>(s: seq<T>, t: seq<U>): (r: seq<(T, U)>)
    ensures |r| == |s| * |t|
  {
    if s == [] then []
    else
      var init := s[..|s| - 1];
      assert |init| * |t| + |t| == |s| * |t|;
      Cross(init, t) + Project(t, PairWith(s[|s| - 1]))
  }

  lemma {:induction false} PairWithMultiplicity<T, U>(x: T, t: seq<U>, a: T, b: U)
    ensures multiset(Project(t, PairWith(x)))[(a, b)] == if a == x then multiset(t)[b] else 0
  {
    if t != [] {
      var init, last := t[..|t| - 1], t[|t| - 1];
      assert t == init + [last];
      PairWithMultiplicity(x, init, a, b);
      assert Project(t, PairWith(x)) == Project(init, PairWith(x)) + [(x, last)];
    }
  }

  /** A pair occurs in the cross product as often as its first part occurs in
      the first table times as often as its second part occurs in the second. */
  lemma {:induction false} CrossMultiplicity<T, U>(s: seq<T>, t: seq<U>, a: T, b: U)
    ensures multiset(Cross(s, t))[(a, b)] == multiset(s)[a] * multiset(t)[b]
  {
    if s != [] {
      var init, last := s[..|s| - 1], s[|s| - 1];
      assert s == init + [last];
      CrossMultiplicity(init, t, a, b);
      PairWithMultiplicity(last, t, a, b);
      assert multiset(s)[a] == multiset(init)[a] + if a == last then 1 else 0;
      assert Cross(s, t) == Cross(init, t) + Project(t, PairWith(last));
      Distribute(multiset(init)[a], if a == last then 1 else 0, multiset(t)[b]);
    }
  }

  /** The cross product holds exactly the pairs of a row of each table. */
  lemma CrossMembers<T, U>(s: seq<T>, t: seq<U>, a: T, b: U)
    ensures (a, b) in Cross(s, t) <==> a in s && b in t
  {
    CrossMultiplicity(s, t, a, b);
    PositiveProduct(multiset(s)[a], multiset(t)[b]);
  }

  lemma Distribute(m: nat, d: nat, n: nat)
    ensures (m + d) * n == m * n + d * n
  {
  }

  lemma PositiveProduct(m: nat, n: nat)
    ensures m * n > 0 <==> m > 0 && n > 0
  {
    if m > 0 && n > 0 {
      assert m * n >= n;
    }
  }
}
