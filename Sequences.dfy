/** Concatenating per-row results over a table, the shape of a scan that appends as it goes. */
module Sequences {

  /** `f(rows[0]) + f(rows[1]) + ...`, built from the last row backwards. */
  function FlatMap<R, E>(rows: seq<R>, f: R -> seq<E>): seq<E> {
    if rows == [] then [] else FlatMap(rows[..|rows| - 1], f) + f(rows[|rows| - 1])
  }

  /** The entries of a split table are the entries of its two parts. */
  lemma {:induction false} FlatMapAppend<R, E>(a: seq<R>, b: seq<R>, f: R -> seq<E>)
    ensures FlatMap(a + b, f) == FlatMap(a, f) + FlatMap(b, f)
    decreases |b|
  {
    if b == [] {
      assert a + b == a;
    } else {
      var b' := b[..|b| - 1];
      assert (a + b)[..|a + b| - 1] == a + b';
      assert (a + b)[|a + b| - 1] == b[|b| - 1];
      FlatMapAppend(a, b', f);
    }
  }

  /** Extending a scanned prefix by one row appends that row's entries. */
  lemma FlatMapPrefixStep<R, E>(rows: seq<R>, j: nat, f: R -> seq<E>)
    requires j < |rows|
    ensures FlatMap(rows[..j + 1], f) == FlatMap(rows[..j], f) + f(rows[j])
  {
    assert rows[..j + 1][..j] == rows[..j];
  }

  /** A row that contributes nothing can be removed from anywhere in the table. */
  lemma FlatMapSkip<R, E>(a: seq<R>, x: R, b: seq<R>, f: R -> seq<E>)
    requires f(x) == []
    ensures FlatMap(a + [x] + b, f) == FlatMap(a + b, f)
  {
    FlatMapAppend(a + [x], b, f);
    FlatMapAppend(a, [x], f);
    assert [x][..0] == [];
    FlatMapAppend(a, b, f);
  }

  /** If every row contributes at most `k` entries, the table contributes at most `k` per row. */
  lemma {:induction false} FlatMapLengthBound<R, E>(rows: seq<R>, f: R -> seq<E>, k: nat)
    requires forall r :: r in rows ==> |f(r)| <= k
    ensures |FlatMap(rows, f)| <= k * |rows|
  {
    if rows != [] {
      var n := |rows|;
      FlatMapLengthBound(rows[..n - 1], f, k);
      assert rows[n - 1] in rows;
      assert k * n == k * (n - 1) + k;
    }
  }

  /** Every entry of the table is an entry of one of its rows. */
  lemma {:induction false} FlatMapMember<R, E>(rows: seq<R>, f: R -> seq<E>, e: E)
    requires e in FlatMap(rows, f)
    ensures exists i :: 0 <= i < |rows| && e in f(rows[i])
  {
    var n := |rows|;
    if e in f(rows[n - 1]) {
    } else {
      FlatMapMember(rows[..n - 1], f, e);
      var i :| 0 <= i < n - 1 && e in f(rows[..n - 1][i]);
      assert rows[..n - 1][i] == rows[i];
    }
  }
}
