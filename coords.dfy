/**
 * Coordinates shared by clue corners and answer cells, and the row-major
 * enumeration that both `Task.__iter__` and `Answer.__iter__` produce.
 */
module Coords {
  import opened Arithmetic

  /** A zero-based `(column, row)` pair. */
  type Coord = (int, int)

  /** Both components lie in `[0, n)`. */
  predicate InBounds(c: Coord, n: int)
  {
    0 <= c.0 < n && 0 <= c.1 < n
  }

  /** Position of `(x, y)` in a row-major enumeration `n` columns wide. */
  function Idx(n: int, y: int, x: int): int
  {
    y * n + x
  }

  /** The inner loop: every column of one row. */
  function RowOf(row: int, n: nat): seq<Coord>
  {
    seq(n, col => (col, row))
  }

  /** The outer loop, run for the first `rows` rows. */
  function RowsUpTo(rows: nat, n: nat): seq<Coord>
  {
    if rows == 0 then [] else RowsUpTo(rows - 1, n) + RowOf(rows - 1, n)
  }

  /** Rows outermost, columns innermost: each `(col, row)` with both below `n`. */
  function RowMajor(n: nat): seq<Coord>
  {
    RowsUpTo(n, n)
  }

  /** The first `rows` rows hold `rows * n` entries. */
  lemma {:induction false} RowsUpToLength(rows: nat, n: nat)
    ensures |RowsUpTo(rows, n)| == rows * n
  {
    if rows > 0 {
      RowsUpToLength(rows - 1, n);
      MulPred(rows, n);
    }
  }

  /** Every entry of the first `rows` rows has a column below `n` and a row below `rows`. */
  lemma {:induction false} RowsUpToMembers(rows: nat, n: nat)
    ensures forall c :: c in RowsUpTo(rows, n) ==> 0 <= c.0 < n && 0 <= c.1 < rows
  {
    if rows > 0 {
      RowsUpToMembers(rows - 1, n);
    }
  }

  /** Entry `Idx(n, y, x)` of the first `rows` rows is `(x, y)`. */
  lemma {:induction false} RowsUpToIndex(rows: nat, n: nat, y: nat, x: nat)
    requires y < rows && x < n
    ensures Idx(n, y, x) < |RowsUpTo(rows, n)| && RowsUpTo(rows, n)[Idx(n, y, x)] == (x, y)
  {
    RowsUpToLength(rows - 1, n);
    RowsUpToLength(rows, n);
    var prefix := RowsUpTo(rows - 1, n);
    assert RowsUpTo(rows, n) == prefix + RowOf(rows - 1, n);
    if y < rows - 1 {
      RowsUpToIndex(rows - 1, n, y, x);
    } else {
      assert Idx(n, y, x) == |prefix| + x;
    }
  }

  /** No entry of the first `rows` rows is repeated. */
  lemma {:induction false} RowsUpToDistinct(rows: nat, n: nat)
    ensures forall j, k :: 0 <= j < k < |RowsUpTo(rows, n)| ==> RowsUpTo(rows, n)[j] != RowsUpTo(rows, n)[k]
  {
    if rows > 0 {
      RowsUpToDistinct(rows - 1, n);
      RowsUpToMembers(rows - 1, n);
      var prefix := RowsUpTo(rows - 1, n);
      var s := RowsUpTo(rows, n);
      assert s == prefix + RowOf(rows - 1, n);
      forall j, k | 0 <= j < k < |s| ensures s[j] != s[k] {
        if k >= |prefix| && j < |prefix| {
          assert s[j] in prefix;
        }
      }
    }
  }

  /**
   * The enumeration visits each of the `n * n` coordinates exactly once, in
   * row-major order with the column varying fastest.
   */
  lemma RowMajorSpec(n: nat)
    ensures |RowMajor(n)| == n * n
    ensures forall y, x :: 0 <= y < n && 0 <= x < n ==> Idx(n, y, x) < n * n && RowMajor(n)[Idx(n, y, x)] == (x, y)
    ensures forall c :: c in RowMajor(n) <==> InBounds(c, n)
    ensures forall j, k :: 0 <= j < k < |RowMajor(n)| ==> RowMajor(n)[j] != RowMajor(n)[k]
  {
    RowsUpToLength(n, n);
    RowsUpToMembers(n, n);
    RowsUpToDistinct(n, n);
    forall y, x | 0 <= y < n && 0 <= x < n
      ensures Idx(n, y, x) < n * n && RowMajor(n)[Idx(n, y, x)] == (x, y)
    {
      RowsUpToIndex(n, n, y, x);
    }
    forall c | InBounds(c, n) ensures c in RowMajor(n) {
      RowsUpToIndex(n, n, c.1, c.0);
    }
  }
}
