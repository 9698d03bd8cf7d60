/**
 * `modules/task.py`: decoding a seed string into the clue grid, and the
 * read-only `Task` built from it.
 */
module Tasks {
  import opened Wrappers
  import opened Coords
  import opened Functions
  import opened Arithmetic

  /** Chunking with step zero raises: the chunk length of an empty flat list is zero. */
  datatype DecodeError = ZeroChunkLength

  /** `str.isdigit` on the ASCII digits. */
  predicate IsDigit(ch: char)
  {
    '0' <= ch <= '9'
  }

  /** `n` blanks (`-1`), none when `n` is not positive. */
  function Blanks(n: int): seq<int>
  {
    seq(if n < 0 then 0 else n, _ => -1)
  }

  /** What one seed character appends to the flat clue list. */
  function Contribution(ch: char): (r: seq<int>)
    ensures IsDigit(ch) ==> r == [ch as int - '0' as int]
    ensures 'a' <= ch <= 'z' ==> |r| == LtrToNum(ch) && forall i :: 0 <= i < |r| ==> r[i] == -1
    ensures forall i :: 0 <= i < |r| ==> -1 <= r[i] <= 9
  {
    if IsDigit(ch) then [ch as int - '0' as int] else Blanks(LtrToNum(ch))
  }

  /** The flat clue list built by the loop over the seed's characters: every entry is a blank or a digit. */
  function Expand(seed: string): (r: seq<int>)
    ensures forall i :: 0 <= i < |r| ==> -1 <= r[i] <= 9
  {
    if seed == [] then [] else Expand(seed[..|seed| - 1]) + Contribution(seed[|seed| - 1])
  }

  /** The seed alphabet `[0-9a-z]`. */
  predicate ValidSeed(seed: string)
  {
    forall i :: 0 <= i < |seed| ==> IsDigit(seed[i]) || 'a' <= seed[i] <= 'z'
  }

  /** Expansion works character by character: the flat list is the concatenation of the contributions. */
  lemma {:induction false} ExpandAppend(s: string, t: string)
    ensures Expand(s + t) == Expand(s) + Expand(t)
    decreases |t|
  {
    if t == [] {
      assert s + t == s;
    } else {
      var t' := t[..|t| - 1];
      assert (s + t)[..|s + t| - 1] == s + t';
      assert (s + t)[|s + t| - 1] == t[|t| - 1];
      ExpandAppend(s, t');
    }
  }

  /** Over `[0-9a-z]` every character contributes at least one entry. */
  lemma {:induction false} ValidSeedExpands(seed: string)
    requires ValidSeed(seed)
    ensures |Expand(seed)| >= |seed|
    decreases |seed|
  {
    if seed != [] {
      var init := seed[..|seed| - 1];
      assert ValidSeed(init) by {
        forall i | 0 <= i < |init| ensures IsDigit(init[i]) || 'a' <= init[i] <= 'z' {
          assert init[i] == seed[i];
        }
      }
      ValidSeedExpands(init);
    }
  }

  /** The floor of the square root of `n`, computed exactly on integers. */
  function Isqrt(n: nat): (r: nat)
    ensures r * r <= n < (r + 1) * (r + 1)
  {
    if n == 0 then 0
    else
      var s := Isqrt(n - 1);
      if (s + 1) * (s + 1) <= n then s + 1 else s
  }

  lemma SquareMonotone(a: nat, b: nat)
    requires a <= b
    ensures a * a <= b * b
  {
  }

  /** The integer square root is the only `k` with `k*k <= n < (k+1)*(k+1)`. */
  lemma IsqrtUnique(n: nat, k: nat)
    requires k * k <= n < (k + 1) * (k + 1)
    ensures Isqrt(n) == k
  {
    var r := Isqrt(n);
    if r < k {
      SquareMonotone(r + 1, k);
    } else if r > k {
      SquareMonotone(k + 1, r);
    }
  }

  lemma IsqrtOfSquare(k: nat)
    ensures Isqrt(k * k) == k
  {
    assert (k + 1) * (k + 1) == k * k + 2 * k + 1;
    IsqrtUnique(k * k, k);
  }

  predicate IsPerfectSquare(n: nat)
  {
    Isqrt(n) * Isqrt(n) == n
  }

  /**
   * `Task.__generate_task_list` as a value: the flat list cut into rows of
   * `isqrt(len)`. It fails exactly on an empty flat list, and the rows of a
   * success join back to the flat list.
   */
  function Decode(seed: string): (r: Result<seq<seq<int>>, DecodeError>)
    ensures r.Failure? <==> |Expand(seed)| == 0
    ensures r.Success? ==> Flatten(r.value) == Expand(seed)
  {
    var flat := Expand(seed);
    var chunkLength := Isqrt(|flat|);
    if chunkLength == 0 then Failure(ZeroChunkLength)
    else
      ChunksFlatten(flat, chunkLength);
      Success(Chunks(flat, chunkLength))
  }

  /** The loop of `__generate_task_list`, appending each character's contribution in turn. */
  method GenerateTaskList(seed: string) returns (r: Result<seq<seq<int>>, DecodeError>)
    ensures r == Decode(seed)
  {
    var flatTaskArr: seq<int> := [];
    for i := 0 to |seed|
      invariant flatTaskArr == Expand(seed[..i])
    {
      var ch := seed[i];
      assert seed[..i + 1][..i] == seed[..i];
      if IsDigit(ch) {
        flatTaskArr := flatTaskArr + [ch as int - '0' as int];
      } else {
        flatTaskArr := flatTaskArr + Blanks(LtrToNum(ch));
      }
    }
    assert seed[..|seed|] == seed;
    var chunkLength := Isqrt(|flatTaskArr|);
    if chunkLength == 0 {
      return Failure(ZeroChunkLength);
    }
    return Success(Chunks(flatTaskArr, chunkLength));
  }

  /** The clue grid; `size` is its number of rows. It is never changed once built. */
  datatype Task = Task(rows: seq<seq<int>>)
  {
    function Size(): nat
    {
      |rows|
    }

    /** `get_clue`: a negative component raises, and so does indexing past a row or past the last row. */
    function GetClue(c: Coord): (r: Option<int>)
      ensures r.Some? <==> 0 <= c.1 < |rows| && 0 <= c.0 < |rows[c.1]|
      ensures r.Some? ==> r.value == rows[c.1][c.0]
    {
      if c.0 < 0 || c.1 < 0 then None
      else if c.1 < |rows| && c.0 < |rows[c.1]| then Some(rows[c.1][c.0])
      else None
    }

    /** `__iter__`: every `(col, row)` with both below `size`, row-major. */
    function Positions(): (r: seq<Coord>)
      ensures |r| == Size() * Size()
      ensures forall y, x :: 0 <= y < Size() && 0 <= x < Size() ==> Idx(Size(), y, x) < |r| && r[Idx(Size(), y, x)] == (x, y)
      ensures forall c :: c in r <==> InBounds(c, Size())
      ensures forall j, k :: 0 <= j < k < |r| ==> r[j] != r[k]
    {
      RowMajorSpec(Size());
      RowMajor(Size())
    }

    /** Every row is as long as there are rows. */
    predicate IsSquare()
    {
      forall y :: 0 <= y < |rows| ==> |rows[y]| == |rows|
    }

    /** The positions holding an actual clue, that is, anything but `-1`. */
    function ClueCoords(): (r: set<Coord>)
      ensures forall c :: c in r <==> GetClue(c).Some? && GetClue(c).value != -1
    {
      set y, x | 0 <= y < |rows| && 0 <= x < |rows[y]| && rows[y][x] != -1 :: (x, y)
    }
  }

  /** Over `[0-9a-z]` decoding fails for the empty seed only. */
  lemma DecodeFails(seed: string)
    ensures ValidSeed(seed) ==> (Decode(seed).Failure? <==> seed == [])
  {
    if ValidSeed(seed) {
      ValidSeedExpands(seed);
    }
  }

  /** `"a"` decodes to a single blank corner. */
  lemma DecodeSingleBlank()
    ensures Decode("a") == Success([[-1]])
  {
    assert Expand("a") == [-1] by {
      assert "a"[..0] == [];
      assert Blanks(1) == [-1];
    }
    IsqrtUnique(1, 1);
  }

  /** `"3"` decodes to a single corner with clue 3. */
  lemma DecodeSingleDigit()
    ensures Decode("3") == Success([[3]])
  {
    assert Expand("3") == [3] by {
      assert "3"[..0] == [];
    }
    IsqrtUnique(1, 1);
  }

  /** `"d"` decodes to a 2 by 2 grid of blank corners. */
  lemma DecodeBlankSquare()
    ensures Decode("d") == Success([[-1, -1], [-1, -1]])
  {
    var blanks := [-1, -1, -1, -1];
    assert Expand("d") == blanks by {
      assert "d"[..0] == [];
      assert Blanks(4) == blanks;
    }
    IsqrtUnique(4, 2);
    assert Chunks(blanks, 2) == [blanks[..2]] + Chunks(blanks[2..], 2);
    assert blanks[..2] == [-1, -1] && blanks[2..] == [-1, -1];
    assert Chunks(blanks[2..], 2) == [[-1, -1]];
    assert Chunks(blanks, 2) == [[-1, -1], [-1, -1]];
    assert Decode("d") == Success(Chunks(blanks, 2));
  }

  /**
   * A flat length of `k*k` gives `k` rows of `k` clues whose concatenation
   * is the flat list, that is, the flat list in row-major order: a square
   * task of size `k`.
   */
  lemma DecodeSquare(seed: string, k: nat)
    requires k > 0 && |Expand(seed)| == k * k
    ensures Decode(seed).Success?
    ensures var t := Task(Decode(seed).value);
      && t.Size() == k && t.IsSquare()
      && Flatten(t.rows) == Expand(seed)
  {
    IsqrtOfSquare(k);
    ChunksExact(Expand(seed), k, k);
    ChunksFlatten(Expand(seed), k);
  }

  /** Entry `x` of row `y` of a square decoding is flat entry `y*k + x`. */
  lemma SquareRowAt(flat: seq<int>, k: nat, y: nat, x: nat)
    requires 0 < k && |flat| == k * k && y < k && x < k
    ensures |Chunks(flat, k)| == k && |Chunks(flat, k)[y]| == k
    ensures Idx(k, y, x) < k * k && Chunks(flat, k)[y][x] == flat[Idx(k, y, x)]
  {
    ChunksExact(flat, k, k);
    RowInside(k, k, y, x);
    ChunksAt(flat, k, y);
    assert Min(y * k + k, |flat|) == y * k + k;
  }

  /**
   * A flat length that is not a perfect square is not rejected: the rows
   * have `isqrt(len)` clues, the last one possibly fewer, and there are more
   * rows than that, so `__iter__` yields `(isqrt(len), 0)`, which lies past
   * the end of row 0 and makes `get_clue` raise.
   */
  lemma DecodeNonSquare(seed: string)
    requires |Expand(seed)| > 0 && !IsPerfectSquare(|Expand(seed)|)
    ensures Decode(seed).Success?
    ensures var t := Task(Decode(seed).value); var k := Isqrt(|Expand(seed)|);
      && (forall y :: 0 <= y < t.Size() - 1 ==> |t.rows[y]| == k)
      && 0 < |t.rows[t.Size() - 1]| <= k
      && t.Size() > k
      && !t.IsSquare()
      && (k, 0) in t.Positions()
      && t.GetClue((k, 0)).None?
  {
    var flat := Expand(seed);
    var k := Isqrt(|flat|);
    assert k > 0;
    var rows := Chunks(flat, k);
    ChunksCount(flat, k);
    ChunksShape(flat, k);
    assert k * k < |flat|;
    if |rows| <= k {
      MulMonotone(|rows|, k, k);
      assert false;
    }
    assert |rows[0]| == k;
    var t := Task(rows);
    assert InBounds((k, 0), t.Size());
  }

  /** Decoding yields a square task exactly when the flat length is a positive perfect square. */
  lemma DecodeSquareIff(seed: string)
    ensures (Decode(seed).Success? && Task(Decode(seed).value).IsSquare())
        <==> (|Expand(seed)| > 0 && IsPerfectSquare(|Expand(seed)|))
  {
    var n := |Expand(seed)|;
    if n > 0 {
      if IsPerfectSquare(n) {
        DecodeSquare(seed, Isqrt(n));
      } else {
        DecodeNonSquare(seed);
      }
    } else {
      DecodeFails(seed);
    }
  }
}
