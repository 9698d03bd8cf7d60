/**
 * `modules/answer.py`: the mutable grid of cell slants. The grid itself is
 * a list of rows; the functions on such values below are what the `Answer`
 * methods do to their `answer` field.
 */
module Answers {
  import opened Wrappers
  import opened Coords
  import opened Arithmetic

  /** A cell state: `N` is unset (`'n'`), `B` is `\` (`'b'`), `F` is `/` (`'f'`). */
  datatype Slant = N | B | F

  /** The one-letter code a slant is stored and serialised as. */
  function Code(s: Slant): char
  {
    match s
    case N => 'n'
    case B => 'b'
    case F => 'f'
  }

  predicate IsCode(ch: char)
  {
    ch == 'b' || ch == 'f' || ch == 'n'
  }

  /** `VALID_SLANTS`: what the solver may write into a cell. */
  const VALID_SLANTS: set<Slant> := {B, F}

  /** `SLASH_MAP`: the glyph each stored code is drawn as. */
  const SLASH_MAP: map<char, char> := map['b' := '\\', 'f' := '/', 'n' := '_']

  /** `SLASH_MAP` is defined on exactly the three codes, and `N` is the one slant not valid to write. */
  lemma SlashMapTotal()
    ensures SLASH_MAP.Keys == {Code(N), Code(B), Code(F)}
    ensures forall s :: Code(s) in SLASH_MAP
    ensures SLASH_MAP[Code(B)] == '\\' && SLASH_MAP[Code(F)] == '/' && SLASH_MAP[Code(N)] == '_'
    ensures forall s :: s in VALID_SLANTS <==> s != N
  {
  }

  /** A grid of cells as a list of rows. */
  type Cells = seq<seq<Slant>>

  /** An `n` by `n` grid. */
  predicate IsGrid(g: Cells, n: nat)
  {
    |g| == n && forall y :: 0 <= y < n ==> |g[y]| == n
  }

  /** Indexing `g[c[1]][c[0]]` succeeds. */
  predicate Within(g: Cells, c: Coord)
  {
    0 <= c.1 < |g| && 0 <= c.0 < |g[c.1]|
  }

  /**
   * `get_slant` on a grid value: a negative component raises at the explicit
   * check, a component past the end raises when the list is indexed.
   */
  function Lookup(g: Cells, c: Coord): (r: Option<Slant>)
    ensures r.Some? <==> Within(g, c)
    ensures r.Some? ==> r.value == g[c.1][c.0]
  {
    if c.0 < 0 || c.1 < 0 then None
    else if c.1 < |g| && c.0 < |g[c.1]| then Some(g[c.1][c.0])
    else None
  }

  /**
   * `set_slant` on a grid value: the written cell reads back as written,
   * every other cell reads as before, and the shape is kept.
   */
  function Update(g: Cells, c: Coord, s: Slant): (r: Cells)
    requires Within(g, c)
    ensures |r| == |g|
    ensures forall y :: 0 <= y < |g| ==> |r[y]| == |g[y]|
    ensures forall d :: Lookup(r, d) == if d == c then Some(s) else Lookup(g, d)
  {
    g[c.1 := g[c.1][c.0 := s]]
  }

  /** One row of the grid as its string of codes. */
  function RowString(row: seq<Slant>): string
  {
    seq(|row|, i requires 0 <= i < |row| => Code(row[i]))
  }

  /** The rows' code strings joined in order, with no separator: every character is a code. */
  function Serialise(g: Cells): (r: string)
    ensures forall i :: 0 <= i < |r| ==> IsCode(r[i])
  {
    if g == [] then "" else RowString(g[0]) + Serialise(g[1..])
  }

  lemma {:induction false} SerialiseLength(g: Cells, w: nat)
    requires forall y :: 0 <= y < |g| ==> |g[y]| == w
    ensures |Serialise(g)| == |g| * w
  {
    if g != [] {
      SerialiseLength(g[1..], w);
      MulPred(|g|, w);
    }
  }

  lemma {:induction false} SerialiseIndex(g: Cells, w: nat, y: nat, x: nat)
    requires forall y :: 0 <= y < |g| ==> |g[y]| == w
    requires y < |g| && x < w
    ensures |Serialise(g)| == |g| * w
    ensures Idx(w, y, x) < |g| * w && Serialise(g)[Idx(w, y, x)] == Code(g[y][x])
  {
    SerialiseLength(g, w);
    RowInside(|g|, w, y, x);
    if y > 0 {
      var rest := g[1..];
      SerialiseIndex(rest, w, y - 1, x);
      MulPred(y, w);
      assert g[y] == rest[y - 1];
    }
  }

  /** Every `n` by `n` grid serialises to `n * n` codes, cell `(x, y)` at index `y * n + x`. */
  lemma SerialiseGrid(g: Cells, n: nat)
    requires IsGrid(g, n)
    ensures |Serialise(g)| == n * n
    ensures forall y, x :: 0 <= y < n && 0 <= x < n ==> Idx(n, y, x) < n * n && Serialise(g)[Idx(n, y, x)] == Code(g[y][x])
    ensures forall i :: 0 <= i < |Serialise(g)| ==> IsCode(Serialise(g)[i])
  {
    SerialiseLength(g, n);
    forall y, x | 0 <= y < n && 0 <= x < n
      ensures Idx(n, y, x) < n * n && Serialise(g)[Idx(n, y, x)] == Code(g[y][x])
    {
      SerialiseIndex(g, n, y, x);
    }
  }

  /** `Answer`: an `n` by `n` grid changed in place one cell at a time. */
  class Answer {
    const size: nat
    var cells: Cells

    ghost predicate Valid()
      reads this
    {
      IsGrid(cells, size)
    }

    /** `__init__`: a `size` by `size` grid, every cell unset. */
    constructor (size: nat)
      ensures this.size == size && Valid()
      ensures forall y, x :: 0 <= y < size && 0 <= x < size ==> cells[y][x] == N
    {
      this.size := size;
      cells := seq(size, _ => seq(size, _ => N));
    }

    /** `__iter__`: every cell position once, row-major, the column varying fastest. */
    function Positions(): (r: seq<Coord>)
      ensures |r| == size * size
      ensures forall y, x :: 0 <= y < size && 0 <= x < size ==> Idx(size, y, x) < |r| && r[Idx(size, y, x)] == (x, y)
      ensures forall c :: c in r <==> InBounds(c, size)
      ensures forall j, k :: 0 <= j < k < |r| ==> r[j] != r[k]
    {
      RowMajorSpec(size);
      RowMajor(size)
    }

    /** `set_slant`: the cell reads back as `s`; no other cell changes. */
    method SetSlant(c: Coord, s: Slant)
      requires Valid() && InBounds(c, size)
      modifies this
      ensures Valid()
      ensures cells == Update(old(cells), c, s)
      ensures GetSlant(c) == Some(s)
      ensures forall d :: d != c ==> GetSlant(d) == Lookup(old(cells), d)
    {
      cells := cells[c.1 := cells[c.1][c.0 := s]];
    }

    /** `get_slant`: present exactly for coordinates inside the grid. */
    function GetSlant(c: Coord): (r: Option<Slant>)
      requires Valid()
      reads this
      ensures r.Some? <==> InBounds(c, size)
      ensures r.Some? ==> r.value == cells[c.1][c.0]
    {
      Lookup(cells, c)
    }

    /** `__str__`: the `size * size` cell codes, row after row. */
    function ToString(): (s: string)
      requires Valid()
      reads this
      ensures |s| == size * size
      ensures forall y, x :: 0 <= y < size && 0 <= x < size ==> Idx(size, y, x) < |s| && s[Idx(size, y, x)] == Code(cells[y][x])
      ensures forall i :: 0 <= i < |s| ==> IsCode(s[i])
    {
      SerialiseGrid(cells, size);
      Serialise(cells)
    }
  }
}
