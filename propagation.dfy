/**
 * The deduction `Solver` applies to one clue, on grid values: which cells a
 * clue governs, how its connected and disconnected counts are taken, what
 * `fill_single_clues` writes, and what holds once a clue is resolved.
 */
module Propagation {
  import opened Wrappers
  import opened Coords
  import opened Answers
  import opened Tasks

  /** Offsets from a clue corner to the four cells around it. */
  const REL_COORDS: seq<Coord> := [(-1, -1), (0, -1), (-1, 0), (0, 0)]
  /** The slant of each governed cell that touches the corner (an X around it). */
  const CONNECT_PATTERN: seq<Slant> := [B, F, F, B]
  /** The slant of each governed cell that misses the corner (a diamond around it). */
  const DISCONNECT_PATTERN: seq<Slant> := [F, B, B, F]
  /** Used to count the governed cells that are still unset. */
  const UNSET_PATTERN: seq<Slant> := [N, N, N, N]

  /** The cells governed by the clue at corner `c`, in the fixed order of `REL_COORDS`. */
  function Neighbours(c: Coord): (r: seq<Coord>)
    ensures r == [(c.0 - 1, c.1 - 1), (c.0, c.1 - 1), (c.0 - 1, c.1), (c.0, c.1)]
  {
    seq(|REL_COORDS|, i requires 0 <= i < |REL_COORDS| => (c.0 + REL_COORDS[i].0, c.1 + REL_COORDS[i].1))
  }

  /** The four governed cells are distinct. */
  lemma NeighboursDistinct(c: Coord)
    ensures forall j, k :: 0 <= j < k < 4 ==> Neighbours(c)[j] != Neighbours(c)[k]
  {
  }

  /** Which of the four governed positions `d` is, or 4 if it is not governed by `c`. */
  function Slot(c: Coord, d: Coord): (j: nat)
    ensures j <= 4
    ensures j < 4 ==> Neighbours(c)[j] == d
    ensures j == 4 ==> d !in Neighbours(c)
  {
    if d == (c.0 - 1, c.1 - 1) then 0
    else if d == (c.0, c.1 - 1) then 1
    else if d == (c.0 - 1, c.1) then 2
    else if d == c then 3
    else 4
  }

  lemma SlotOfNeighbour(c: Coord, j: nat)
    requires j < 4
    ensures Slot(c, Neighbours(c)[j]) == j
  {
  }

  /** At every position the two patterns differ, and neither is "unset". */
  lemma PatternsAt(j: nat)
    requires j < 4
    ensures CONNECT_PATTERN[j] != DISCONNECT_PATTERN[j]
    ensures CONNECT_PATTERN[j] != N && DISCONNECT_PATTERN[j] != N
  {
    if j == 0 {
    } else if j == 1 {
    } else if j == 2 {
    } else {
    }
  }

  /**
   * What one governed cell adds to a count looking for `want`: one if it
   * holds `want`, and `absent` if it lies off the grid (the `except
   * IndexError` branch).
   */
  function Score(o: Option<Slant>, want: Slant, absent: nat): nat
  {
    match o
    case None => absent
    case Some(s) => if s == want then 1 else 0
  }

  /** The count over the first `i` governed cells. */
  function CountUpTo(g: Cells, c: Coord, pat: seq<Slant>, absent: nat, i: nat): nat
    requires |pat| == 4 && i <= 4
  {
    if i == 0 then 0
    else CountUpTo(g, c, pat, absent, i - 1) + Score(Lookup(g, Neighbours(c)[i - 1]), pat[i - 1], absent)
  }

  /** `get_connected_slant_count`: off-grid cells are skipped, so they never count as connected. */
  function ConnectedCount(g: Cells, c: Coord): (r: nat)
    ensures r + OffGridCount(g, c) <= 4
  {
    OffGridUpToBounds(g, c, 4);
    CountUpTo(g, c, CONNECT_PATTERN, 0, 4)
  }

  /** `get_disconnected_slant_count`: every off-grid cell counts as disconnected. */
  function DisconnectedCount(g: Cells, c: Coord): (r: nat)
    ensures OffGridCount(g, c) <= r <= 4
  {
    OffGridUpToBounds(g, c, 4);
    PartitionUpTo(g, c, 4);
    CountUpTo(g, c, DISCONNECT_PATTERN, 1, 4)
  }

  /** Governed cells inside the grid that are still unset. */
  function UnsetCount(g: Cells, c: Coord): nat
  {
    CountUpTo(g, c, UNSET_PATTERN, 0, 4)
  }

  /** Governed positions among the first `i` that lie off the grid. */
  function OffGridUpTo(g: Cells, c: Coord, i: nat): nat
    requires i <= 4
  {
    if i == 0 then 0
    else OffGridUpTo(g, c, i - 1) + (if Lookup(g, Neighbours(c)[i - 1]).None? then 1 else 0)
  }

  function OffGridCount(g: Cells, c: Coord): nat
  {
    OffGridUpTo(g, c, 4)
  }

  lemma {:induction false} PartitionUpTo(g: Cells, c: Coord, i: nat)
    requires i <= 4
    ensures CountUpTo(g, c, CONNECT_PATTERN, 0, i) + CountUpTo(g, c, DISCONNECT_PATTERN, 1, i)
          + CountUpTo(g, c, UNSET_PATTERN, 0, i) == i
  {
    if i > 0 {
      PartitionUpTo(g, c, i - 1);
      PatternsAt(i - 1);
    }
  }

  /**
   * Every governed position is exactly one of: connected, disconnected (off
   * the grid included) or unset, so the three counts add up to four.
   */
  lemma CountsPartition(g: Cells, c: Coord)
    ensures ConnectedCount(g, c) + DisconnectedCount(g, c) + UnsetCount(g, c) == 4
  {
    PartitionUpTo(g, c, 4);
  }

  lemma {:induction false} OffGridUpToBounds(g: Cells, c: Coord, i: nat)
    requires i <= 4
    ensures CountUpTo(g, c, CONNECT_PATTERN, 0, i) + OffGridUpTo(g, c, i) <= i
    ensures CountUpTo(g, c, DISCONNECT_PATTERN, 1, i) >= OffGridUpTo(g, c, i)
  {
    if i > 0 {
      OffGridUpToBounds(g, c, i - 1);
    }
  }

  /** The corner clue `(0, 0)` has three governed cells off the grid. */
  lemma CornerClueCounts(g: Cells)
    ensures OffGridCount(g, (0, 0)) >= 3
    ensures ConnectedCount(g, (0, 0)) <= 1
    ensures DisconnectedCount(g, (0, 0)) >= 3
  {
    var nbs := Neighbours((0, 0));
    assert Lookup(g, nbs[0]).None? && Lookup(g, nbs[1]).None? && Lookup(g, nbs[2]).None?;
    assert OffGridUpTo(g, (0, 0), 1) == 1;
    assert OffGridUpTo(g, (0, 0), 2) == 2;
    assert OffGridUpTo(g, (0, 0), 3) == 3;
  }

  /**
   * `check_completed`: the clue already has its number of connected cells.
   * Only a value between 0 and the number of its cells inside the grid can
   * pass.
   */
  predicate Completed(t: Task, g: Cells, c: Coord): (r: bool)
    requires t.GetClue(c).Some?
    ensures r ==> 0 <= t.GetClue(c).value <= 4 - OffGridCount(g, c)
  {
    ConnectedCount(g, c) == t.GetClue(c).value
  }

  /**
   * `check_anti_completed`: the clue needs every cell that is not
   * disconnected. The same range of values as for `Completed` can pass.
   */
  predicate AntiCompleted(t: Task, g: Cells, c: Coord): (r: bool)
    requires t.GetClue(c).Some?
    ensures r ==> 0 <= t.GetClue(c).value <= 4 - OffGridCount(g, c)
  {
    4 - DisconnectedCount(g, c) == t.GetClue(c).value
  }

  /** What the fill loop does to one governed cell: an unset cell takes the pattern's slant. */
  function FillCell(o: Option<Slant>, p: Slant): Option<Slant>
  {
    if o == Some(N) then Some(p) else o
  }

  /** The grid after the fill loop has visited the first `i` governed cells. */
  function FilledUpTo(g: Cells, c: Coord, pat: seq<Slant>, i: nat): Cells
    requires |pat| == 4 && i <= 4
  {
    if i == 0 then g
    else
      var h := FilledUpTo(g, c, pat, i - 1);
      var d := Neighbours(c)[i - 1];
      if Lookup(h, d) == Some(N) then Update(h, d, pat[i - 1]) else h
  }

  /**
   * The grid after the whole fill loop: it writes only governed cells inside
   * the grid that were unset, each with the pattern's slant for its
   * position, so every set cell keeps its value.
   */
  function Filled(g: Cells, c: Coord, pat: seq<Slant>): (r: Cells)
    requires |pat| == 4
    ensures forall d :: Lookup(r, d) == if Slot(c, d) < 4 && Lookup(g, d) == Some(N) then Some(pat[Slot(c, d)]) else Lookup(g, d)
    ensures Extends(g, r)
  {
    var h := FilledUpTo(g, c, pat, 4);
    FilledUpToShape(g, c, pat, 4);
    forall d ensures Lookup(h, d) == if Slot(c, d) < 4 && Lookup(g, d) == Some(N) then Some(pat[Slot(c, d)]) else Lookup(g, d) {
      FilledLookup(g, c, pat, 4, d);
    }
    forall y, x | 0 <= y < |g| && 0 <= x < |g[y]| && g[y][x] != N ensures h[y][x] == g[y][x] {
      FilledLookup(g, c, pat, 4, (x, y));
    }
    h
  }

  lemma {:induction false} FilledUpToShape(g: Cells, c: Coord, pat: seq<Slant>, i: nat)
    requires |pat| == 4 && i <= 4
    ensures |FilledUpTo(g, c, pat, i)| == |g|
    ensures forall y :: 0 <= y < |g| ==> |FilledUpTo(g, c, pat, i)[y]| == |g[y]|
  {
    if i > 0 {
      FilledUpToShape(g, c, pat, i - 1);
      var h := FilledUpTo(g, c, pat, i - 1);
      var d := Neighbours(c)[i - 1];
    }
  }

  /** After visiting the first `i` governed cells, each of them went through `FillCell` and nothing else changed. */
  lemma {:induction false} FilledLookup(g: Cells, c: Coord, pat: seq<Slant>, i: nat, d: Coord)
    requires |pat| == 4 && i <= 4
    ensures Lookup(FilledUpTo(g, c, pat, i), d)
         == if Slot(c, d) < i then FillCell(Lookup(g, d), pat[Slot(c, d)]) else Lookup(g, d)
  {
    if i > 0 {
      var h := FilledUpTo(g, c, pat, i - 1);
      var e := Neighbours(c)[i - 1];
      FilledLookup(g, c, pat, i - 1, d);
      FilledLookup(g, c, pat, i - 1, e);
      SlotOfNeighbour(c, i - 1);
    }
  }

  /** A grid `h` that agrees with `g` on every set cell, and has the same shape. */
  predicate Extends(g: Cells, h: Cells)
  {
    && |g| == |h|
    && (forall y :: 0 <= y < |g| ==> |g[y]| == |h[y]|)
    && forall y, x :: 0 <= y < |g| && 0 <= x < |g[y]| && g[y][x] != N ==> h[y][x] == g[y][x]
  }

  lemma ExtendsLookup(g: Cells, h: Cells, d: Coord)
    requires Extends(g, h) && Lookup(g, d) != Some(N)
    ensures Lookup(h, d) == Lookup(g, d)
  {
  }

  lemma ExtendsReflexive(g: Cells)
    ensures Extends(g, g)
  {
  }

  lemma ExtendsTransitive(g: Cells, h: Cells, k: Cells)
    requires Extends(g, h) && Extends(h, k)
    ensures Extends(g, k)
  {
  }

  lemma {:induction false} CountAfterFill(g: Cells, c: Coord, pat: seq<Slant>, i: nat)
    requires pat == CONNECT_PATTERN || pat == DISCONNECT_PATTERN
    requires i <= 4
    ensures CountUpTo(Filled(g, c, pat), c, CONNECT_PATTERN, 0, i)
         == CountUpTo(g, c, CONNECT_PATTERN, 0, i) + (if pat == CONNECT_PATTERN then CountUpTo(g, c, UNSET_PATTERN, 0, i) else 0)
    ensures CountUpTo(Filled(g, c, pat), c, UNSET_PATTERN, 0, i) == 0
  {
    if i > 0 {
      CountAfterFill(g, c, pat, i - 1);
      var e := Neighbours(c)[i - 1];
      FilledLookup(g, c, pat, 4, e);
      SlotOfNeighbour(c, i - 1);
      PatternsAt(i - 1);
      FillScore(Lookup(g, e), pat[i - 1], CONNECT_PATTERN[i - 1]);
    }
  }

  /** Filling one open cell with `p` makes it count for `p` and no longer count as open. */
  lemma FillScore(o: Option<Slant>, p: Slant, want: Slant)
    requires p != N && want != N
    ensures Score(FillCell(o, p), want, 0) == Score(o, want, 0) + (if p == want then Score(o, N, 0) else 0)
    ensures Score(FillCell(o, p), N, 0) == 0
  {
  }

  lemma {:induction false} UnsetUpToZero(g: Cells, c: Coord, i: nat)
    requires i <= 4
    ensures CountUpTo(g, c, UNSET_PATTERN, 0, i) == 0
        <==> forall j :: 0 <= j < i ==> Lookup(g, Neighbours(c)[j]) != Some(N)
  {
    if i > 0 {
      UnsetUpToZero(g, c, i - 1);
    }
  }

  /** Every governed cell inside the grid is set. */
  predicate AllSet(g: Cells, c: Coord)
  {
    forall j :: 0 <= j < 4 ==> Lookup(g, Neighbours(c)[j]) != Some(N)
  }

  /** A resolved clue: its connected count is its value and none of its cells is still open. */
  predicate Resolved(t: Task, g: Cells, c: Coord)
  {
    t.GetClue(c).Some? && ConnectedCount(g, c) == t.GetClue(c).value && AllSet(g, c)
  }


  /**
   * `fill_single_clues` on a grid value: a completed clue gets its unset cells
   * disconnected, otherwise an anti-completed one gets them connected;
   * `None` when neither test holds and nothing is done. A clue that is
   * acted on ends resolved, on both paths; the grid only fills, and only
   * the clue's own unset cells change.
   */
  function Resolve(t: Task, g: Cells, c: Coord): (r: Option<Cells>)
    requires t.GetClue(c).Some?
    ensures r.Some? <==> Completed(t, g, c) || AntiCompleted(t, g, c)
    ensures r.Some? ==> Resolved(t, r.value, c) && Extends(g, r.value)
    ensures r.Some? ==> forall d :: Lookup(r.value, d) != Lookup(g, d) ==> d in Neighbours(c) && Lookup(g, d) == Some(N)
  {
    if Completed(t, g, c) then
      CountAfterFill(g, c, DISCONNECT_PATTERN, 4);
      UnsetUpToZero(Filled(g, c, DISCONNECT_PATTERN), c, 4);
      Some(Filled(g, c, DISCONNECT_PATTERN))
    else if AntiCompleted(t, g, c) then
      CountAfterFill(g, c, CONNECT_PATTERN, 4);
      CountsPartition(g, c);
      UnsetUpToZero(Filled(g, c, CONNECT_PATTERN), c, 4);
      Some(Filled(g, c, CONNECT_PATTERN))
    else None
  }

  lemma {:induction false} CountCongruent(g: Cells, h: Cells, c: Coord, pat: seq<Slant>, absent: nat, i: nat)
    requires |pat| == 4 && i <= 4
    requires forall j :: 0 <= j < i ==> Lookup(g, Neighbours(c)[j]) == Lookup(h, Neighbours(c)[j])
    ensures CountUpTo(g, c, pat, absent, i) == CountUpTo(h, c, pat, absent, i)
  {
    if i > 0 {
      CountCongruent(g, h, c, pat, absent, i - 1);
    }
  }

  /** A resolved clue stays resolved under any later monotonic fill. */
  lemma ResolvedPersists(t: Task, g: Cells, h: Cells, c: Coord)
    requires Resolved(t, g, c) && Extends(g, h)
    ensures Resolved(t, h, c)
  {
    forall j | 0 <= j < 4 ensures Lookup(g, Neighbours(c)[j]) == Lookup(h, Neighbours(c)[j]) {
      ExtendsLookup(g, h, Neighbours(c)[j]);
    }
    CountCongruent(g, h, c, CONNECT_PATTERN, 0, 4);
  }

  lemma {:induction false} FillAllSetUpTo(g: Cells, c: Coord, pat: seq<Slant>, i: nat)
    requires |pat| == 4 && i <= 4 && AllSet(g, c)
    ensures FilledUpTo(g, c, pat, i) == g
  {
    if i > 0 {
      FillAllSetUpTo(g, c, pat, i - 1);
    }
  }

  /**
   * Both tests hold together exactly when the clue is complete and none of
   * its cells is open; the fill then writes nothing, so testing completion
   * first loses nothing.
   */
  lemma TestsOverlap(t: Task, g: Cells, c: Coord)
    requires t.GetClue(c).Some?
    ensures Completed(t, g, c) && AntiCompleted(t, g, c) <==> Completed(t, g, c) && AllSet(g, c)
    ensures Completed(t, g, c) && AntiCompleted(t, g, c) ==> Resolve(t, g, c) == Some(g)
  {
    CountsPartition(g, c);
    UnsetUpToZero(g, c, 4);
    if AllSet(g, c) {
      FillAllSetUpTo(g, c, DISCONNECT_PATTERN, 4);
    }
  }

  /** A clue that neither test fires on. */
  predicate Pending(t: Task, g: Cells, c: Coord)
  {
    t.GetClue(c).Some? && !Completed(t, g, c) && !AntiCompleted(t, g, c)
  }

  /** The fixed point: no active clue can be acted on. */
  predicate Stable(t: Task, g: Cells, clues: set<Coord>)
  {
    forall c :: c in clues ==> Pending(t, g, c)
  }

  /** Every coordinate of the set holds a clue value. */
  predicate ClueSet(t: Task, s: set<Coord>)
  {
    forall c :: c in s ==> t.GetClue(c).Some?
  }

  /** `order` lists every element of `s` exactly once, as one iteration over a Python set does. */
  predicate Enumerates(order: seq<Coord>, s: set<Coord>)
  {
    && (forall i :: 0 <= i < |order| ==> order[i] in s)
    && (forall c :: c in s ==> c in order)
    && (forall i, j :: 0 <= i < j < |order| ==> order[i] != order[j])
  }

  /** An enumeration lists exactly as many clues as the set holds: a pass visits each snapshot clue once. */
  lemma {:induction false} EnumeratesLength(order: seq<Coord>, s: set<Coord>)
    requires Enumerates(order, s)
    ensures |order| == |s|
    decreases |order|
  {
    if order == [] {
      assert s == {};
    } else {
      var n := |order| - 1;
      var x := order[n];
      var init := order[..n];
      forall i | 0 <= i < |init| ensures init[i] in s - {x} {
        assert init[i] == order[i] && order[i] != order[n];
      }
      forall c | c in s - {x} ensures c in init {
        var i :| 0 <= i < |order| && order[i] == c;
        assert i != n && init[i] == c;
      }
      assert Enumerates(init, s - {x});
      EnumeratesLength(init, s - {x});
    }
  }

  /**
   * `fill_single_clues` on the solver's state, a grid and an active set: the
   * clue leaves the set exactly when it is acted on, it is then resolved,
   * and a cell that changes is one of its unset cells.
   */
  function Step(t: Task, g: Cells, clues: set<Coord>, c: Coord): (r: (Cells, set<Coord>))
    requires t.GetClue(c).Some?
    ensures Extends(g, r.0) && clues - {c} <= r.1 <= clues
    ensures c in clues ==> (c !in r.1 <==> Completed(t, g, c) || AntiCompleted(t, g, c))
    ensures c in clues && c !in r.1 ==> Resolved(t, r.0, c)
    ensures c in r.1 ==> r.0 == g
    ensures forall d :: Lookup(r.0, d) != Lookup(g, d) ==> d in Neighbours(c) && Lookup(g, d) == Some(N) && c !in r.1
  {
    ExtendsReflexive(g);
    match Resolve(t, g, c)
    case None => (g, clues)
    case Some(h) => (h, clues - {c})
  }

  /** Clues removed earlier stay resolved across one more step. */
  lemma StepKeepsResolved(t: Task, g: Cells, clues: set<Coord>, c: Coord, base: set<Coord>)
    requires t.GetClue(c).Some?
    requires forall e :: e in base && e !in clues ==> Resolved(t, g, e)
    ensures forall e :: e in base && e !in Step(t, g, clues, c).1 ==> Resolved(t, Step(t, g, clues, c).0, e)
  {
    var r := Step(t, g, clues, c);
    forall e | e in base && e !in r.1 ensures Resolved(t, r.0, e) {
      if e !in clues {
        ResolvedPersists(t, g, r.0, e);
      }
    }
  }

  /**
   * One pass of `solve` over a snapshot, taking its clues in the order
   * `order`: the grid only fills, clues only leave the set, and every clue
   * that leaves is resolved in the resulting grid.
   */
  function PassOver(t: Task, g: Cells, clues: set<Coord>, order: seq<Coord>): (r: (Cells, set<Coord>))
    requires forall i :: 0 <= i < |order| ==> t.GetClue(order[i]).Some?
    ensures Extends(g, r.0) && r.1 <= clues
    ensures forall c :: c in clues && c !in order ==> c in r.1
    ensures forall c :: c in clues && c !in r.1 ==> Resolved(t, r.0, c)
    decreases |order|
  {
    if order == [] then
      ExtendsReflexive(g);
      (g, clues)
    else
      var s := PassOver(t, g, clues, order[..|order| - 1]);
      var c := order[|order| - 1];
      StepKeepsResolved(t, s.0, s.1, c, clues);
      ExtendsTransitive(g, s.0, Step(t, s.0, s.1, c).0);
      Step(t, s.0, s.1, c)
  }

  /**
   * What `solve` keeps between the start state `(g0, clues0)` and a state
   * `(g, clues)`: clues only left the set, the grid only filled, every
   * clue that left is resolved, and a cell that changed is governed by a
   * clue that left.
   */
  ghost predicate ReachedFrom(t: Task, g0: Cells, clues0: set<Coord>, g: Cells, clues: set<Coord>)
  {
    && clues <= clues0
    && Extends(g0, g)
    && (forall c :: c in clues0 && c !in clues ==> Resolved(t, g, c))
    && (forall d :: Lookup(g, d) != Lookup(g0, d) ==> exists c :: c in clues0 && c !in clues && d in Neighbours(c))
  }

  lemma ReachedFromStart(t: Task, g0: Cells, clues0: set<Coord>)
    ensures ReachedFrom(t, g0, clues0, g0, clues0)
  {
    ExtendsReflexive(g0);
  }

  /** One step keeps the state reachable from the start. */
  lemma StepReached(t: Task, g0: Cells, clues0: set<Coord>, g: Cells, clues: set<Coord>, c: Coord)
    requires t.GetClue(c).Some? && c in clues && ReachedFrom(t, g0, clues0, g, clues)
    ensures ReachedFrom(t, g0, clues0, Step(t, g, clues, c).0, Step(t, g, clues, c).1)
  {
    var r := Step(t, g, clues, c);
    ExtendsTransitive(g0, g, r.0);
    StepKeepsResolved(t, g, clues, c, clues0);
    forall d | Lookup(r.0, d) != Lookup(g0, d)
      ensures exists e :: e in clues0 && e !in r.1 && d in Neighbours(e)
    {
      if Lookup(r.0, d) != Lookup(g, d) {
        assert c in clues && c !in r.1 && d in Neighbours(c);
      } else {
        var e :| e in clues0 && e !in clues && d in Neighbours(e);
        assert e !in r.1;
      }
    }
  }

  /** So does a whole pass. */
  lemma {:induction false} PassReached(t: Task, g0: Cells, clues0: set<Coord>, g: Cells, clues: set<Coord>, order: seq<Coord>)
    requires forall i :: 0 <= i < |order| ==> order[i] in clues && t.GetClue(order[i]).Some?
    requires forall i, j :: 0 <= i < j < |order| ==> order[i] != order[j]
    requires ReachedFrom(t, g0, clues0, g, clues)
    ensures ReachedFrom(t, g0, clues0, PassOver(t, g, clues, order).0, PassOver(t, g, clues, order).1)
    decreases |order|
  {
    if order != [] {
      var init := order[..|order| - 1];
      PassReached(t, g0, clues0, g, clues, init);
      var s := PassOver(t, g, clues, init);
      var c := order[|order| - 1];
      assert c !in init;
      StepReached(t, g0, clues0, s.0, s.1, c);
    }
  }

  /** A pass taken one clue further is one more step. */
  lemma PassOverSnoc(t: Task, g: Cells, clues: set<Coord>, order: seq<Coord>, c: Coord)
    requires forall i :: 0 <= i < |order| ==> t.GetClue(order[i]).Some?
    requires t.GetClue(c).Some?
    ensures forall i :: 0 <= i < |order + [c]| ==> t.GetClue((order + [c])[i]).Some?
    ensures PassOver(t, g, clues, order + [c])
         == Step(t, PassOver(t, g, clues, order).0, PassOver(t, g, clues, order).1, c)
  {
    assert (order + [c])[..|order|] == order;
  }

  /** At the fixed point one more pass, in any order, changes neither the grid nor the active set. */
  lemma {:induction false} StablePassIsIdentity(t: Task, g: Cells, clues: set<Coord>, order: seq<Coord>)
    requires Stable(t, g, clues)
    requires forall i :: 0 <= i < |order| ==> order[i] in clues
    ensures forall i :: 0 <= i < |order| ==> t.GetClue(order[i]).Some?
    ensures PassOver(t, g, clues, order) == (g, clues)
    decreases |order|
  {
    if order != [] {
      var c := order[|order| - 1];
      assert Pending(t, g, c);
      StablePassIsIdentity(t, g, clues, order[..|order| - 1]);
    }
  }

  /**
   * Conversely, a pass over active clues that removes none of them changes
   * nothing, and every clue it visited was pending.
   */
  lemma {:induction false} PassRemovingNothing(t: Task, g: Cells, clues: set<Coord>, order: seq<Coord>)
    requires forall i :: 0 <= i < |order| ==> order[i] in clues && t.GetClue(order[i]).Some?
    requires PassOver(t, g, clues, order).1 == clues
    ensures PassOver(t, g, clues, order).0 == g
    ensures forall i :: 0 <= i < |order| ==> Pending(t, g, order[i])
    decreases |order|
  {
    if order != [] {
      var init := order[..|order| - 1];
      var c := order[|order| - 1];
      var s := PassOver(t, g, clues, init);
      assert s.1 == clues;
      PassRemovingNothing(t, g, clues, init);
      assert c in s.1;
      forall i | 0 <= i < |order| ensures Pending(t, g, order[i]) {
        if i < |init| {
          assert order[i] == init[i];
        }
      }
    }
  }

  /** A pass over an enumeration of the active set is the identity exactly at the fixed point. */
  lemma PassFixedPoint(t: Task, g: Cells, clues: set<Coord>, order: seq<Coord>)
    requires ClueSet(t, clues) && Enumerates(order, clues)
    ensures PassOver(t, g, clues, order) == (g, clues) <==> Stable(t, g, clues)
  {
    if Stable(t, g, clues) {
      StablePassIsIdentity(t, g, clues, order);
    }
    if PassOver(t, g, clues, order) == (g, clues) {
      PassRemovingNothing(t, g, clues, order);
      forall c | c in clues ensures Pending(t, g, c) {
        var i :| 0 <= i < |order| && order[i] == c;
      }
    }
  }

  /**
   * A run of `solve`: `passes[k]` iterates the active set of `states[k]`,
   * and the pass over it leads to `states[k + 1]`.
   */
  ghost predicate IsTrace(t: Task, passes: seq<seq<Coord>>, states: seq<(Cells, set<Coord>)>)
  {
    && |states| == |passes| + 1
    && forall k :: 0 <= k < |passes| ==>
         && ClueSet(t, states[k].1)
         && Enumerates(passes[k], states[k].1)
         && states[k + 1] == PassOver(t, states[k].0, states[k].1, passes[k])
  }

  /** A trace grows by one more pass over the last active set. */
  lemma TraceExtend(t: Task, passes: seq<seq<Coord>>, states: seq<(Cells, set<Coord>)>, order: seq<Coord>)
    requires IsTrace(t, passes, states)
    requires ClueSet(t, states[|passes|].1) && Enumerates(order, states[|passes|].1)
    ensures IsTrace(t, passes + [order], states + [PassOver(t, states[|passes|].0, states[|passes|].1, order)])
  {
    var passes' := passes + [order];
    var states' := states + [PassOver(t, states[|passes|].0, states[|passes|].1, order)];
    forall k | 0 <= k < |passes'|
      ensures ClueSet(t, states'[k].1) && Enumerates(passes'[k], states'[k].1)
      ensures states'[k + 1] == PassOver(t, states'[k].0, states'[k].1, passes'[k])
    {
      if k < |passes| {
        assert passes'[k] == passes[k] && states'[k] == states[k] && states'[k + 1] == states[k + 1];
      }
    }
  }

  /**
   * A run of `solve` from `(g0, clues0)` that is still going on in state
   * `(g, clues)`: a trace from the start state to it, in which every pass
   * removed a clue.
   */
  ghost predicate RunSoFar(t: Task, g0: Cells, clues0: set<Coord>, passes: seq<seq<Coord>>, states: seq<(Cells, set<Coord>)>, g: Cells, clues: set<Coord>)
  {
    && IsTrace(t, passes, states)
    && states[0] == (g0, clues0)
    && states[|passes|] == (g, clues)
    && forall k :: 0 <= k < |passes| ==> states[k + 1].1 != states[k].1
  }

  lemma RunStart(t: Task, g0: Cells, clues0: set<Coord>)
    ensures RunSoFar(t, g0, clues0, [], [(g0, clues0)], g0, clues0)
  {
  }

  /** A pass that removes a clue continues the run. */
  lemma RunContinue(t: Task, g0: Cells, clues0: set<Coord>, passes: seq<seq<Coord>>, states: seq<(Cells, set<Coord>)>,
                    g: Cells, clues: set<Coord>, order: seq<Coord>)
    requires RunSoFar(t, g0, clues0, passes, states, g, clues)
    requires ClueSet(t, clues) && Enumerates(order, clues)
    requires PassOver(t, g, clues, order).1 != clues
    ensures RunSoFar(t, g0, clues0, passes + [order], states + [PassOver(t, g, clues, order)],
                     PassOver(t, g, clues, order).0, PassOver(t, g, clues, order).1)
  {
    TraceExtend(t, passes, states, order);
    var states' := states + [PassOver(t, g, clues, order)];
    forall k | 0 <= k < |passes| + 1 ensures states'[k + 1].1 != states'[k].1 {
      if k < |passes| {
        assert states'[k] == states[k] && states'[k + 1] == states[k + 1];
      }
    }
  }
}
