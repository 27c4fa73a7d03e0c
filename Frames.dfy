/**
  The row-set operators of a data-frame engine, restated on sequences of rows.

  A data frame is modelled as a `seq` of rows. The engine does not promise any
  row order, so every property worth stating is stated over `multiset`s: two
  frames holding the same rows the same number of times are the same table.
*/
module Frames {

  /** A nullable column value. */
  datatype Option<+T> = None | Some(value: T)

  /** Looks a key up in a unique-keyed table; a missing key gives null. */
  function Lookup<K, V>(m: map<K, V>, k: K): (r: Option<V>)
    ensures r.Some? <==> k in m
    ensures r.Some? ==> r.value == m[k]
  {
    if k in m then Some(m[k]) else None
  }

  /** Two frames hold the same rows, each the same number of times. */
  ghost predicate SameRows<T>(a: seq<T>, b: seq<T>) {
    multiset(a) == multiset(b)
  }

  /** `select` / `withColumn`: every row is mapped on its own; nothing is added or dropped. */
  function Select<A, B>(f: A -> B, rows: seq<A>): (r: seq<B>)
    ensures |r| == |rows|
    ensures forall i :: 0 <= i < |rows| ==> r[i] == f(rows[i])
  {
    if rows == [] then [] else [f(rows[0])] + Select(f, rows[1..])
  }

  /** `filter`: keeps exactly the rows satisfying `p`, each as often as it occurs. */
  function Where<A(!new)>(p: A -> bool, rows: seq<A>): (r: seq<A>)
    ensures forall x :: multiset(r)[x] == if p(x) then multiset(rows)[x] else 0
    ensures forall i :: 0 <= i < |r| ==> p(r[i])
    ensures |r| <= |rows|
  {
    if rows == [] then []
    else
      var rest := Where(p, rows[1..]);
      assert multiset(rows) == multiset{rows[0]} + multiset(rows[1..]) by {
        assert rows == [rows[0]] + rows[1..];
      }
      if p(rows[0]) then [rows[0]] + rest else rest
  }

  /** A projection distributes over concatenation: it can be computed partition by partition. */
  lemma SelectAppend<A, B>(f: A -> B, a: seq<A>, b: seq<A>)
    ensures Select(f, a + b) == Select(f, a) + Select(f, b)
  {
    assert forall i :: 0 <= i < |a + b| ==> Select(f, a + b)[i] == (Select(f, a) + Select(f, b))[i];
  }

  /** Every row of a projection is the image of an input row, and every input row has one. */
  lemma SelectMembers<A, B>(f: A -> B, rows: seq<A>, y: B)
    ensures y in Select(f, rows) <==> exists x :: x in rows && f(x) == y
  {
    var r := Select(f, rows);
    if y in r {
      var i :| 0 <= i < |r| && r[i] == y;
      assert rows[i] in rows;
    }
    if exists x :: x in rows && f(x) == y {
      var x :| x in rows && f(x) == y;
      var i :| 0 <= i < |rows| && rows[i] == x;
      assert r[i] == y;
    }
  }

  /** A projection by an injective `f` keeps the multiplicity of every row. */
  lemma {:induction false} SelectCount<A, B>(f: A -> B, rows: seq<A>, x: A)
    requires forall a, b :: f(a) == f(b) ==> a == b
    ensures multiset(Select(f, rows))[f(x)] == multiset(rows)[x]
  {
    if rows != [] {
      SelectCount(f, rows[1..], x);
      assert rows == [rows[0]] + rows[1..];
      assert Select(f, rows) == [f(rows[0])] + Select(f, rows[1..]);
    }
  }

  /** A projection only yields images of input rows. */
  lemma SelectCountOutside<A, B>(f: A -> B, rows: seq<A>, y: B)
    requires forall x :: x in rows ==> f(x) != y
    ensures multiset(Select(f, rows))[y] == 0
  {
    SelectMembers(f, rows, y);
  }

  /** A projection has at least as many copies of `f(x)` as its input has of `x`. */
  lemma {:induction false} SelectAtLeast<A, B>(f: A -> B, rows: seq<A>, x: A)
    ensures multiset(Select(f, rows))[f(x)] >= multiset(rows)[x]
  {
    if rows != [] {
      SelectAtLeast(f, rows[1..], x);
      assert rows == [rows[0]] + rows[1..];
      assert Select(f, rows) == [f(rows[0])] + Select(f, rows[1..]);
    }
  }

  /** Taking out the row at `j` takes exactly one copy of it out of the multiset. */
  lemma RemoveAt<T>(b: seq<T>, j: nat)
    requires j < |b|
    ensures multiset(b[..j] + b[j + 1..]) == multiset(b) - multiset{b[j]}
  {
    assert b == b[..j] + [b[j]] + b[j + 1..];
    assert multiset(b) == multiset(b[..j]) + multiset{b[j]} + multiset(b[j + 1..]);
  }

  /** Projecting a frame with one row taken out is projecting it and taking that row's image out. */
  lemma SelectRemoveAt<A, B>(f: A -> B, b: seq<A>, j: nat)
    requires j < |b|
    ensures Select(f, b[..j] + b[j + 1..]) == Select(f, b)[..j] + Select(f, b)[j + 1..]
  {
    SelectAppend(f, b[..j], b[j + 1..]);
    assert Select(f, b[..j]) == Select(f, b)[..j];
    assert Select(f, b[j + 1..]) == Select(f, b)[j + 1..];
  }

  /** Matching the first row of `a` with a copy of it in `b` leaves the same remaining rows on both sides. */
  lemma SameRowsWithout<T>(a: seq<T>, b: seq<T>, j: nat)
    requires SameRows(a, b) && a != [] && j < |b| && b[j] == a[0]
    ensures SameRows(a[1..], b[..j] + b[j + 1..])
  {
    RemoveAt(b, j);
    assert a == [a[0]] + a[1..];
  }

  /** Putting a matched row back on both sides of two projections with the same rows keeps them the same. */
  lemma SelectSameRowsWith<A, B>(f: A -> B, a: seq<A>, b: seq<A>, j: nat)
    requires a != [] && j < |b| && b[j] == a[0]
    requires SameRows(Select(f, a[1..]), Select(f, b[..j] + b[j + 1..]))
    ensures SameRows(Select(f, a), Select(f, b))
  {
    SelectRemoveAt(f, b, j);
    RemoveAt(Select(f, b), j);
    assert Select(f, a) == [f(a[0])] + Select(f, a[1..]);
    assert Select(f, b)[j] == f(a[0]);
  }

  /** A projection of the same rows in another order gives the same rows in another order. */
  lemma {:induction false} SelectSameRows<A, B>(f: A -> B, a: seq<A>, b: seq<A>)
    requires SameRows(a, b)
    ensures SameRows(Select(f, a), Select(f, b))
  {
    if a == [] {
      assert multiset(b) == multiset{};
    } else {
      assert a[0] in multiset(b);
      var j :| 0 <= j < |b| && b[j] == a[0];
      SameRowsWithout(a, b, j);
      SelectSameRows(f, a[1..], b[..j] + b[j + 1..]);
      SelectSameRowsWith(f, a, b, j);
    }
  }

  /** A filter of the same rows in another order keeps the same rows in another order. */
  lemma WhereSameRows<A(!new)>(p: A -> bool, a: seq<A>, b: seq<A>)
    requires SameRows(a, b)
    ensures SameRows(Where(p, a), Where(p, b))
  {
    assert forall x :: multiset(Where(p, a))[x] == multiset(Where(p, b))[x];
  }

  /** A sequence holding two different values has at least two elements. */
  lemma AtLeastTwo<T>(w: seq<T>, p: T, q: T)
    requires p in w && q in w && p != q
    ensures |w| >= 2
  {
    var i :| 0 <= i < |w| && w[i] == p;
    var j :| 0 <= j < |w| && w[j] == q;
    assert i != j;
  }

  /**
    Projecting by `g`, filtering by `keep` and projecting by `h` keeps `u`
    once for every row selected by `pass`, when `pass` holds of a row exactly
    when its image is kept and ends at `u`.
  */
  lemma {:induction false} ProjectFilterProjectCount<A(!new), B(!new), C>(
    g: A -> B, keep: B -> bool, h: B -> C, pass: A -> bool, rows: seq<A>, u: C)
    requires forall x :: x in rows ==> pass(x) == (keep(g(x)) && h(g(x)) == u)
    ensures multiset(Select(h, Where(keep, Select(g, rows))))[u] == |Where(pass, rows)|
  {
    if rows != [] {
      var x, rest := rows[0], rows[1..];
      assert forall y :: y in rest ==> y in rows;
      ProjectFilterProjectCount(g, keep, h, pass, rest, u);
      var mapped := Select(g, rows);
      assert mapped[0] == g(x) && mapped[1..] == Select(g, rest);
      FilterProjectStep(keep, h, mapped, u);
      assert |Where(pass, rows)| == (if pass(x) then 1 else 0) + |Where(pass, rest)|;
    }
  }

  /** Filtering then projecting a non-empty frame counts its first row, then the rest. */
  lemma FilterProjectStep<B(!new), C>(keep: B -> bool, h: B -> C, mapped: seq<B>, u: C)
    requires mapped != []
    ensures multiset(Select(h, Where(keep, mapped)))[u] ==
      (if keep(mapped[0]) && h(mapped[0]) == u then 1 else 0) + multiset(Select(h, Where(keep, mapped[1..])))[u]
  {
    var keptRest := Where(keep, mapped[1..]);
    if keep(mapped[0]) {
      assert Where(keep, mapped) == [mapped[0]] + keptRest;
      SelectAppend(h, [mapped[0]], keptRest);
    } else {
      assert Where(keep, mapped) == keptRest;
    }
  }

  /** Multiplicities add up before or after scaling by a common factor. */
  lemma Distribute(a: nat, b: nat, c: nat)
    ensures (a + b) * c == a * c + b * c
  {
  }

  /** A product of multiplicities is positive only when both are. */
  lemma PositiveProduct(a: nat, b: nat)
    requires a * b > 0
    ensures a > 0 && b > 0
  {
  }
}
