/**
 * `modules/solver.py`: the propagation solver. It owns an active set of
 * clue corners and drives the fill of a shared `Answer` until a pass over a
 * snapshot of that set resolves nothing.
 */
module Solving {
  import opened Wrappers
  import opened Coords
  import opened Answers
  import opened Tasks
  import opened Propagation

  /** Shrinking a set to a proper subset lowers its size. */
  lemma ProperSubsetSmaller(small: set<Coord>, big: set<Coord>)
    requires small <= big && small != big
    ensures |small| < |big|
  {
    var extra :| extra in big && extra !in small;
    assert big == small + (big - small);
    assert extra in big - small;
  }

  /** The one pass over the single clue of `ZeroCornerRun`: the clue is completed and its cell becomes `/`. */
  lemma ZeroCornerPass()
    ensures PassOver(Task([[0, -1], [-1, -1]]), [[N]], {(0, 0)}, [(0, 0)]) == ([[F]], {})
  {
    var t := Task([[0, -1], [-1, -1]]);
    var g: Cells := [[N]];
    assert ConnectedCount(g, (0, 0)) == 0 by {
      assert Lookup(g, (-1, -1)).None? && Lookup(g, (0, -1)).None? && Lookup(g, (-1, 0)).None?;
      assert Lookup(g, (0, 0)) == Some(N);
    }
    assert Completed(t, g, (0, 0));
    var h := Filled(g, (0, 0), DISCONNECT_PATTERN);
    assert Lookup(h, (0, 0)) == Some(F);
    assert h[0] == [F];
    assert h == [[F]];
    assert Resolve(t, g, (0, 0)) == Some(h);
    assert [(0, 0)][..0] == [];
    assert PassOver(t, g, {(0, 0)}, []) == (g, {(0, 0)});
    var none: set<Coord> := {(0, 0)} - {(0, 0)};
    assert none == {};
    assert Step(t, g, {(0, 0)}, (0, 0)) == (h, none);
  }

  /** Only one order enumerates a one-element set. */
  lemma EnumeratesSingleton(order: seq<Coord>, c: Coord)
    requires Enumerates(order, {c})
    ensures order == [c]
  {
    EnumeratesLength(order, {c});
    assert c in order;
  }

  /**
   * The task `"0c"` (corners `[[0, -1], [-1, -1]]`) on a one-cell answer:
   * every run that `Solve` may take makes a first pass, which completes the
   * single clue `0` and sets its only cell to `/`, and a second, empty pass,
   * and ends there.
   */
  lemma ZeroCornerRun(passes: seq<seq<Coord>>, states: seq<(Cells, set<Coord>)>)
    requires IsTrace(Task([[0, -1], [-1, -1]]), passes, states)
    requires states[0] == ([[N]], {(0, 0)})
    requires forall k :: 0 <= k < |passes| - 1 ==> states[k + 1].1 != states[k].1
    requires |passes| > 0 && states[|passes| - 1].1 == states[|passes|].1
    ensures |passes| == 2 && states[|passes|] == ([[F]], {})
  {
    EnumeratesSingleton(passes[0], (0, 0));
    ZeroCornerPass();
    assert states[0].1 != states[1].1;
    EnumeratesLength(passes[1], states[1].1);
    assert states[2] == ([[F]], {});
  }

  class Solver {
    const task: Task
    const answer: Answer
    var clues: set<Coord>

    /** The answer is a proper grid and every active clue has a value. */
    ghost predicate Valid()
      reads this, answer
    {
      answer.Valid() && forall c :: c in clues ==> task.GetClue(c).Some?
    }

    /**
     * `__init__`: keeps the task and the answer and collects the active
     * clues. On a task that is not square `populate_clues` raises, which
     * this model excludes.
     */
    constructor (task: Task, answer: Answer)
      requires task.IsSquare() && answer.Valid()
      ensures this.task == task && this.answer == answer
      ensures clues == task.ClueCoords()
      ensures Valid()
    {
      this.task := task;
      this.answer := answer;
      clues := {};
      new;
      PopulateClues();
    }

    /** `populate_clues`: adds every corner of the task that holds a clue. */
    method PopulateClues()
      requires task.IsSquare()
      modifies this
      ensures clues == old(clues) + task.ClueCoords()
    {
      var coords := task.Positions();
      for k := 0 to |coords|
        invariant clues == old(clues) + (set j | 0 <= j < k && task.GetClue(coords[j]) != Some(-1) :: coords[j])
      {
        var clueCoords := coords[k];
        assert clueCoords in coords;
        var clue := task.GetClue(clueCoords);
        if clue.value != -1 {
          clues := clues + {clueCoords};
        }
        assert (set j | 0 <= j < k + 1 && task.GetClue(coords[j]) != Some(-1) :: coords[j])
            == (set j | 0 <= j < k && task.GetClue(coords[j]) != Some(-1) :: coords[j])
             + (if clue.value != -1 then {clueCoords} else {});
      }
      ghost var found := set j | 0 <= j < |coords| && task.GetClue(coords[j]) != Some(-1) :: coords[j];
      forall d | d in task.ClueCoords() ensures d in found {
        assert InBounds(d, task.Size());
        var j :| 0 <= j < |coords| && coords[j] == d;
      }
      forall d | d in found ensures d in task.ClueCoords() {
        var j :| 0 <= j < |coords| && task.GetClue(coords[j]) != Some(-1) && coords[j] == d;
        assert coords[j] in coords;
        var x, y := d.0, d.1;
        assert task.rows[y][x] != -1;
      }
      assert found == task.ClueCoords();
    }

    /** `get_neighbour_coords`: the governed cells, built from `REL_COORDS`. */
    method GetNeighbourCoords(clueCoords: Coord) returns (coords: seq<Coord>)
      ensures coords == Neighbours(clueCoords)
    {
      coords := [];
      for i := 0 to |REL_COORDS|
        invariant coords == Neighbours(clueCoords)[..i]
      {
        var d := REL_COORDS[i];
        coords := coords + [(clueCoords.0 + d.0, clueCoords.1 + d.1)];
      }
    }

    /** `get_connected_slant_count`. */
    method GetConnectedSlantCount(cellCoords: Coord) returns (count: nat)
      requires answer.Valid()
      ensures count == ConnectedCount(answer.cells, cellCoords)
    {
      count := 0;
      var neighbours := GetNeighbourCoords(cellCoords);
      for i := 0 to |neighbours|
        invariant count == CountUpTo(answer.cells, cellCoords, CONNECT_PATTERN, 0, i)
      {
        match answer.GetSlant(neighbours[i])
        case Some(s) =>
          if s == CONNECT_PATTERN[i] {
            count := count + 1;
          }
        case None =>
      }
    }

    /** `get_disconnected_slant_count`. */
    method GetDisconnectedSlantCount(cellCoords: Coord) returns (count: nat)
      requires answer.Valid()
      ensures count == DisconnectedCount(answer.cells, cellCoords)
    {
      count := 0;
      var neighbours := GetNeighbourCoords(cellCoords);
      for i := 0 to |neighbours|
        invariant count == CountUpTo(answer.cells, cellCoords, DISCONNECT_PATTERN, 1, i)
      {
        match answer.GetSlant(neighbours[i])
        case Some(s) =>
          if s == DISCONNECT_PATTERN[i] {
            count := count + 1;
          }
        case None =>
          count := count + 1;
      }
    }

    /** `check_completed`. */
    method CheckCompleted(cellCoords: Coord) returns (completed: bool)
      requires answer.Valid() && task.GetClue(cellCoords).Some?
      ensures completed == Completed(task, answer.cells, cellCoords)
    {
      var connectCount := GetConnectedSlantCount(cellCoords);
      var clueVal := task.GetClue(cellCoords).value;
      completed := connectCount == clueVal;
    }

    /** `check_anti_completed`. */
    method CheckAntiCompleted(cellCoords: Coord) returns (antiCompleted: bool)
      requires answer.Valid() && task.GetClue(cellCoords).Some?
      ensures antiCompleted == AntiCompleted(task, answer.cells, cellCoords)
    {
      var disconnectCount := GetDisconnectedSlantCount(cellCoords);
      var clueVal := task.GetClue(cellCoords).value;
      antiCompleted := 4 - disconnectCount as int == clueVal;
    }

    /** The loop both branches of `fill_single_clues` run: unset governed cells take `pattern`. */
    method FillNeighbours(clueCoords: Coord, pattern: seq<Slant>)
      requires answer.Valid() && |pattern| == 4
      modifies answer
      ensures answer.Valid()
      ensures answer.cells == Filled(old(answer.cells), clueCoords, pattern)
    {
      var neighbours := GetNeighbourCoords(clueCoords);
      for i := 0 to |neighbours|
        invariant answer.Valid()
        invariant answer.cells == FilledUpTo(old(answer.cells), clueCoords, pattern, i)
      {
        var cellCoords := neighbours[i];
        if answer.GetSlant(cellCoords) == Some(N) {
          answer.SetSlant(cellCoords, pattern[i]);
        }
      }
    }

    /**
     * `fill_single_clues`: acts on the clue as `Resolve` says and then drops
     * it from the active set; leaves everything alone when neither test
     * holds. The clue must be active, as `set.remove` raises otherwise.
     */
    method FillSingleClues(clueCoords: Coord)
      requires Valid() && clueCoords in clues
      modifies this, answer
      ensures Valid()
      ensures Resolve(task, old(answer.cells), clueCoords).None? ==>
                answer.cells == old(answer.cells) && clues == old(clues)
      ensures Resolve(task, old(answer.cells), clueCoords).Some? ==>
                answer.cells == Resolve(task, old(answer.cells), clueCoords).value && clues == old(clues) - {clueCoords}
      ensures Extends(old(answer.cells), answer.cells)
      ensures clueCoords !in clues ==> Resolved(task, answer.cells, clueCoords)
      ensures forall d :: Lookup(answer.cells, d) != Lookup(old(answer.cells), d) ==>
                d in Neighbours(clueCoords) && Lookup(old(answer.cells), d) == Some(N)
      ensures (answer.cells, clues) == Step(task, old(answer.cells), old(clues), clueCoords)
    {
      ghost var g := answer.cells;
      ExtendsReflexive(g);
      var completed := CheckCompleted(clueCoords);
      if completed {
        FillNeighbours(clueCoords, DISCONNECT_PATTERN);
      } else {
        var antiCompleted := CheckAntiCompleted(clueCoords);
        if antiCompleted {
          FillNeighbours(clueCoords, CONNECT_PATTERN);
        } else {
          return;
        }
      }
      clues := clues - {clueCoords};
    }

    /**
     * The `for` loop of `solve`: one pass over a snapshot of the active set,
     * taking its clues in an order Python's set iteration may choose. The
     * ghost result is that order; the new state is the pass over it.
     */
    method SolvePass() returns (ghost order: seq<Coord>)
      requires Valid()
      modifies this, answer
      ensures Valid()
      ensures Enumerates(order, old(clues))
      ensures (answer.cells, clues) == PassOver(task, old(answer.cells), old(clues), order)
    {
      ghost var passStart := answer.cells;
      var tempClues := clues;
      order := [];
      var pending := tempClues;
      while pending != {}
        invariant Valid()
        invariant pending <= clues <= tempClues
        invariant ClueSet(task, tempClues)
        invariant forall i :: 0 <= i < |order| ==> order[i] in tempClues && order[i] !in pending
        invariant forall c :: c in tempClues && c !in pending ==> c in order
        invariant forall i, j :: 0 <= i < j < |order| ==> order[i] != order[j]
        invariant (answer.cells, clues) == PassOver(task, passStart, tempClues, order)
        decreases pending
      {
        var clueCoords :| clueCoords in pending;
        FillSingleClues(clueCoords);
        PassOverSnoc(task, passStart, tempClues, order, clueCoords);
        order := order + [clueCoords];
        pending := pending - {clueCoords};
      }
    }

    /**
     * `solve`: passes over snapshots of the active set until a pass removes
     * nothing. The ghost results record one run: the order each pass took
     * its snapshot in (any order a Python set could iterate in) and the grid
     * and active set after each pass. The run starts from the initial state
     * and ends in the final one; every pass but the last removes a clue and
     * the last removes none. Hence clues only leave the set, each one leaving
     * resolved and staying so; the grid only fills, and a cell changes only
     * if a removed clue governs it; at the end no active clue can be acted
     * on; the result is the serialised grid.
     */
    method Solve() returns (solution: string, ghost passes: seq<seq<Coord>>, ghost states: seq<(Cells, set<Coord>)>)
      requires Valid()
      modifies this, answer
      ensures Valid()
      ensures IsTrace(task, passes, states)
      ensures states[0] == (old(answer.cells), old(clues))
      ensures states[|passes|] == (answer.cells, clues)
      ensures forall k :: 0 <= k < |passes| - 1 ==> states[k + 1].1 != states[k].1
      ensures |passes| > 0 && states[|passes| - 1].1 == clues
      ensures clues <= old(clues)
      ensures Extends(old(answer.cells), answer.cells)
      ensures forall c :: c in old(clues) && c !in clues ==> Resolved(task, answer.cells, c)
      ensures forall d :: Lookup(answer.cells, d) != Lookup(old(answer.cells), d) ==>
                exists c :: c in old(clues) && c !in clues && d in Neighbours(c)
      ensures Stable(task, answer.cells, clues)
      ensures solution == answer.ToString()
      ensures |solution| == answer.size * answer.size
      ensures forall i :: 0 <= i < |solution| ==> IsCode(solution[i])
    {
      ghost var g0 := answer.cells;
      ghost var clues0 := clues;
      passes := [];
      states := [(g0, clues0)];
      ReachedFromStart(task, g0, clues0);
      RunStart(task, g0, clues0);
      while true
        invariant Valid()
        invariant ReachedFrom(task, g0, clues0, answer.cells, clues)
        invariant RunSoFar(task, g0, clues0, passes, states, answer.cells, clues)
        decreases |clues|
      {
        var tempClues := clues;
        ghost var passStart := answer.cells;
        ghost var order := SolvePass();
        PassReached(task, g0, clues0, passStart, tempClues, order);
        if |tempClues| == |clues| {
          if clues != tempClues {
            ProperSubsetSmaller(clues, tempClues);
          }
          TraceExtend(task, passes, states, order);
          passes := passes + [order];
          states := states + [(answer.cells, clues)];
          PassRemovingNothing(task, passStart, tempClues, order);
          PassFixedPoint(task, passStart, tempClues, order);
          break;
        }
        RunContinue(task, g0, clues0, passes, states, passStart, tempClues, order);
        passes := passes + [order];
        states := states + [(answer.cells, clues)];
        ProperSubsetSmaller(clues, tempClues);
      }
      solution := answer.ToString();
    }
  }
}
