# Slant solver — a verified Dafny model

This project models a small solver for Slant (Gokigen Naname) puzzles.

- **Puzzle.** Numbered clues sit on the corners of a square grid of cells. Each cell holds one diagonal, `\` or `/`. A clue says how many of the diagonals in its (up to) four surrounding cells touch its corner.
- **Decoding.** The solver reads a seed string and turns it into a grid of corner clues. A digit is one clue. A lowercase letter is a run of blank corners, `a` = 1 through `z` = 26. The flat list is cut into rows of `isqrt(length)` entries.
- **Answer grid.** The solver keeps a mutable grid of cells that starts all unset (`n`).
- **Propagation.** The solver repeatedly resolves clues by counting:
  - **Completed.** The clue's connected count equals its value. Its unset cells get the slant that misses the corner.
  - **Anti-completed.** Four minus its disconnected count equals its value. Its unset cells get the slant that touches the corner.

  A resolved clue leaves the active set. Passes over a snapshot of the set repeat until a pass resolves nothing. The result is the answer grid serialised row by row.

The model follows the four core modules:

- `functions.dfy` — `chunks` and `ltr_to_num`.
- `task.dfy` — seed decoding, and the read-only clue grid `Task`.
  - Decoding is the loop method `GenerateTaskList`, proved equal to the function `Decode`.
  - `Task` is a datatype because it is never changed.
- `answer.dfy` — the slant datatype, grid values with `Lookup`/`Update`/`Serialise`, and the class `Answer`.
  - `Answer` has a mutable `cells` field.
  - Its method `SetSlant` writes one cell in place.
- `propagation.dfy` — the theory of one clue, on grid values:
  - the four governed cells and the two orientation tables;
  - the counts, the fill loop, and `Resolve` (what `fill_single_clues` does);
  - one step and one pass of `solve` on the solver's state, the fixed point of a pass, and the record of a run.
- `solver.dfy` — the class `Solver`.
  - Fields: the task, the shared `Answer`, and the active clue set.
  - Its methods are the source's loops, each proved against the functions of `propagation.dfy`.
  - `Solve` is proved to terminate and to perform a sequence of passes over iterations of the active set, every pass but the last removing a clue. It fills monotonically and leaves every removed clue resolved. It stops at a state where no active clue can be acted on.
- `coords.dfy` — coordinates and the row-major enumeration shared by both `__iter__` methods.
- `arithmetic.dfy` — small multiplication facts.
- `wrappers.dfy` — `Option`/`Result`: an `IndexError` becomes `None`, and a failed decode becomes `Failure`.

Coordinates are `(x, y)` pairs: column, then row. The `type_aliases` module is not part of this model.

Four facts about the code that a reader might not expect, each stated as a lemma:

- **Non-square lengths.** Decoding does not reject a flat length that is not a perfect square. It cuts rows of `isqrt(length)` entries, and the first step of the solver then raises `IndexError`. `Tasks.DecodeNonSquare` shows the coordinate that escapes.
- **Off-grid cells.** A governed cell off the grid is counted as disconnected and never as connected; see `Propagation.DisconnectedCount` and `Propagation.ConnectedCount`.
- **Both tests at once.** Completion and anti-completion hold together exactly when the clue is complete and all its cells inside the grid are set; see `Propagation.TestsOverlap`. The fill then writes nothing, so testing completion first changes nothing.
- **Order.** Nothing in the code makes the final grid independent of the order in which a pass visits its snapshot, and the model does not claim it. `Solve` is proved for every order a pass may take, and returns that order as a ghost result.

## Model

| member | source | states |
|---|---|---|
| Functions.Chunks | modules/functions.py:4-6 | Every chunk is non-empty and has at most `size` elements. |
| Functions.ChunksFlatten | modules/functions.py:4-6 | Concatenating the chunks gives back the input list. |
| Functions.ChunksShape | modules/functions.py:6 | Every chunk but the last has exactly `size` elements. The last has between 1 and `size`. There are no chunks only for the empty list. |
| Functions.ChunksAt | modules/functions.py:6 | Chunk `i` starts inside the list and is the slice from `i*size` to `min((i+1)*size, len)`. |
| Functions.ChunksCount | modules/functions.py:6 | The number of chunks `n` is the ceiling of `len/size`: `(n-1)*size < len <= n*size`. |
| Functions.ChunksExact | modules/functions.py:6 | A list of length `k*size` gives exactly `k` chunks, each of length `size`. |
| Functions.LtrToNum | modules/functions.py:9-11 | A lowercase letter maps into `1..26`. |
| Functions.LtrToNumAlphabet | modules/functions.py:9-11 | `a` is 1 and `z` is 26. Each following letter adds one. |
| Tasks.Contribution | modules/task.py:37-40 | A digit contributes one entry equal to its value. A letter contributes `ltr_to_num(letter)` entries, all `-1`. |
| Tasks.Expand | modules/task.py:34-40 | Every entry of the flat list is a blank `-1` or a digit value `0..9`. |
| Tasks.ExpandAppend | modules/task.py:36-40 | The flat list of a concatenation is the concatenation of the flat lists. So the flat list is the characters' contributions in order, and its length is the sum of theirs. |
| Tasks.ValidSeedExpands | modules/task.py:36-40 | Over `[0-9a-z]` every character contributes at least one entry. |
| Tasks.Isqrt | modules/task.py:42 | The result `r` is the floor of the square root: `r*r <= n < (r+1)*(r+1)`. |
| Tasks.IsqrtUnique | modules/task.py:42 | That bracket determines the integer square root uniquely. |
| Tasks.IsqrtOfSquare | modules/task.py:42 | The integer square root of `k*k` is `k`. |
| Tasks.Decode | modules/task.py:30-45 | Decoding fails exactly when the flat list is empty, because the chunk length is then 0. On success the rows, joined, are the flat list. |
| Tasks.GenerateTaskList | modules/task.py:30-45 | The character loop with appends, then chunking, returns exactly `Decode(seed)`, including the failure on an empty flat list. |
| Tasks.DecodeFails | modules/task.py:36-43 | Over `[0-9a-z]`, decoding fails exactly for the empty seed. |
| Tasks.DecodeSingleBlank | modules/task.py:36-45 | `"a"` decodes to `[[-1]]`. |
| Tasks.DecodeSingleDigit | modules/task.py:36-45 | `"3"` decodes to `[[3]]`. |
| Tasks.DecodeBlankSquare | modules/task.py:36-45 | `"d"` decodes to `[[-1,-1],[-1,-1]]`. |
| Tasks.DecodeSquare | modules/task.py:42-43 | A flat length `k*k` with `k > 0` gives a square task of size `k` whose rows concatenate to the flat list. |
| Tasks.SquareRowAt | modules/task.py:42-43 | In that case row `y`, entry `x` is flat entry `y*k + x`, so the task is the flat list in row-major order. |
| Tasks.DecodeNonSquare | modules/task.py:42-45 | A non-square flat length is accepted. Rows have `isqrt(len)` entries, the last possibly fewer, and there are more rows than that. The task is not square, and iteration yields `(isqrt(len), 0)`, where `get_clue` raises. |
| Tasks.DecodeSquareIff | modules/task.py:42-45 | Decoding yields a square task exactly when the flat length is a positive perfect square. |
| Tasks.Task.GetClue | modules/task.py:52-56 | A clue is present exactly when the row index and then the column index are inside the grid. A negative component, or one past the end, raises. A present clue equals `task[y][x]`. |
| Tasks.Task.Positions | modules/task.py:47-50 | Iteration yields `size*size` coordinates, `(x, y)` at position `y*size + x`. These are exactly the in-bounds coordinates, each once. |
| Tasks.Task.Size | modules/task.py:27 | `size` is the number of rows; `Tasks.DecodeSquare` states what it is for a decoded square task. |
| Tasks.Task.ClueCoords | modules/solver.py:52-56 | A coordinate is a clue coordinate exactly when `get_clue` succeeds there and returns something other than `-1`. |
| Coords.RowMajorSpec | modules/answer.py:35-38 | The nested row/column enumeration has length `n*n`, puts `(x, y)` at `y*n + x`, contains exactly the in-bounds coordinates, and repeats none. |
| Answers.SlashMapTotal | modules/answer.py:23-24 | `SLASH_MAP` is defined on exactly the codes `b`, `f`, `n` and maps them to `\`, `/`, `_`. The valid slants are exactly `b` and `f`. |
| Answers.Lookup | modules/answer.py:44-48 | A read succeeds exactly when the coordinate is inside the grid, and it returns `answer[y][x]`. |
| Answers.Update | modules/answer.py:40-42 | After a write, the written cell reads back as written and every other coordinate reads as before. The grid keeps its shape. |
| Answers.Serialise | modules/answer.py:64-65 | Every character of the joined rows is a cell code. |
| Answers.SerialiseIndex | modules/answer.py:64-65 | With rows of width `w`, character `y*w + x` of the joined string is the code of cell `(x, y)`. |
| Answers.SerialiseGrid | modules/answer.py:64-65 | An `n` by `n` grid serialises to `n*n` characters, all codes, with cell `(x, y)` at `y*n + x`. |
| Answers.Answer.constructor | modules/answer.py:30-33 | The grid is `size` by `size` with every cell unset. |
| Answers.Answer.Positions | modules/answer.py:35-38 | Iteration yields each of the `size*size` cell coordinates exactly once, row-major with the column varying fastest. |
| Answers.Answer.SetSlant | modules/answer.py:40-42 | The cell then reads back as the new slant. Every other coordinate reads as before. The grid stays `size` by `size`. |
| Answers.Answer.GetSlant | modules/answer.py:44-48 | A value is present exactly for in-bounds coordinates and is `answer[y][x]`. A negative or past-the-end component raises. |
| Answers.Answer.ToString | modules/answer.py:64-65 | The string has `size*size` characters. Character `y*size + x` is the code of cell `(x, y)`. Every character is `b`, `f` or `n`. |
| Propagation.Neighbours | modules/solver.py:29-31 | The governed cells of corner `(x, y)` are `(x-1,y-1), (x,y-1), (x-1,y), (x,y)`, in that order. |
| Propagation.NeighboursDistinct | modules/solver.py:29-31 | The four governed cells are distinct. |
| Propagation.PatternsAt | modules/solver.py:32-37 | At every position the connect and disconnect slants differ, and neither is unset. |
| Propagation.ConnectedCount | modules/solver.py:67-79 | Off-grid governed cells are never counted as connected: the count plus the number of off-grid cells is at most 4. |
| Propagation.DisconnectedCount | modules/solver.py:81-91 | Every off-grid governed cell is counted as disconnected: the count lies between the number of off-grid cells and 4. |
| Propagation.CountsPartition | modules/solver.py:67-91 | Connected count + disconnected count + number of in-bounds unset governed cells = 4. |
| Propagation.CornerClueCounts | modules/solver.py:67-91 | The clue at `(0,0)` has at least three off-grid cells: connected count at most 1, disconnected count at least 3. |
| Propagation.Completed | modules/solver.py:93-98 | Only a clue value between 0 and the number of its cells inside the grid can pass the completion test. |
| Propagation.AntiCompleted | modules/solver.py:100-106 | Only a clue value between 0 and the number of its cells inside the grid can pass the anti-completion test. |
| Propagation.Filled | modules/solver.py:111-125 | The fill loop sets exactly the unset in-bounds governed cells, each to the pattern's slant for its position. Every other cell reads as before, and every set cell is kept. |
| Propagation.CountAfterFill | modules/solver.py:110-125 | After a fill no governed cell is unset. The connected count grows by the number of formerly unset cells on the connect path, and is unchanged on the disconnect path. |
| Propagation.Resolve | modules/solver.py:108-128 | A clue is acted on exactly when completion or anti-completion holds. Then, on either path, its connected count equals its value and all its in-bounds cells are set. The grid only extends, and any cell that changes is an unset governed cell of the clue. |
| Propagation.ResolvedPersists | modules/solver.py:108-128 | A resolved clue stays resolved under every later monotonic fill. |
| Propagation.TestsOverlap | modules/solver.py:110-118 | Both tests hold together exactly when the clue is complete and all its cells are set. The fill then leaves the grid unchanged. |
| Propagation.EnumeratesLength | modules/solver.py:133-135 | An iteration over a set visits exactly as many clues as the set holds. |
| Propagation.Step | modules/solver.py:108-128 | On the solver's state, the clue leaves the active set exactly when one of the two tests holds, and then it is resolved. The grid only extends. A cell that changes is an unset governed cell of a clue that left. |
| Propagation.PassOver | modules/solver.py:133-136 | A pass only fills the grid and only removes clues, and only clues it visits. Every clue it removes is resolved in the resulting grid. |
| Propagation.StepReached | modules/solver.py:108-128 | One step keeps the state reachable from the start: clues only left, the grid only filled, every clue that left is resolved, and every changed cell is governed by a clue that left. |
| Propagation.PassReached | modules/solver.py:133-136 | A whole pass keeps the state reachable from the start in the same sense. |
| Propagation.StablePassIsIdentity | modules/solver.py:132-139 | When no active clue passes either test, another pass in any order changes neither the grid nor the active set. |
| Propagation.PassRemovingNothing | modules/solver.py:135-139 | Conversely, a pass that removes none of the active clues it visits leaves the grid unchanged, and every clue it visited passed neither test. |
| Propagation.PassFixedPoint | modules/solver.py:132-139 | A pass over an iteration of the whole active set leaves the state unchanged exactly when no active clue passes either test. |
| Propagation.TraceExtend | modules/solver.py:132-139 | A recorded run grows by one more pass over the last active set. |
| Propagation.RunContinue | modules/solver.py:132-139 | A pass that removes a clue continues a run in which every pass removed a clue. |
| Solving.Solver.constructor | modules/solver.py:44-50 | Keeps the task and the answer. The active set becomes exactly the coordinates whose clue is not `-1`. |
| Solving.Solver.PopulateClues | modules/solver.py:52-56 | Adds to the active set exactly the task coordinates whose clue is not `-1`. |
| Solving.Solver.GetNeighbourCoords | modules/solver.py:58-65 | Returns the four governed cells in the `REL_COORDS` order. |
| Solving.Solver.GetConnectedSlantCount | modules/solver.py:67-79 | Counts the governed cells holding their connect slant, skipping off-grid cells. |
| Solving.Solver.GetDisconnectedSlantCount | modules/solver.py:81-91 | Counts the governed cells holding their disconnect slant, plus one for every off-grid cell. |
| Solving.Solver.CheckCompleted | modules/solver.py:93-98 | True exactly when the connected count equals the clue value. |
| Solving.Solver.CheckAntiCompleted | modules/solver.py:100-106 | True exactly when 4 minus the disconnected count equals the clue value. |
| Solving.Solver.FillNeighbours | modules/solver.py:111-125 | The answer grid becomes the fill of the old grid: unset in-bounds governed cells take the pattern's slants. |
| Solving.Solver.FillSingleClues | modules/solver.py:108-128 | If neither test holds, nothing changes. Otherwise the grid is filled as `Resolve` says and the clue leaves the set. The new grid and set are exactly `Step` of the old ones. The grid only extends, a removed clue is resolved, and a cell changes only if it is an unset governed cell of this clue. |
| Solving.Solver.SolvePass | modules/solver.py:133-136 | The pass visits every clue of the snapshot exactly once, in some order, and the new grid and set are the pass over that order. |
| Solving.Solver.Solve | modules/solver.py:130-142 | The method terminates. The ghost results are the orders the passes took and the state after each pass. That record starts at the initial state and ends at the final one. Each state follows from the one before by a pass over an iteration of its active set. Every pass but the last removes a clue; the last removes none. So the active set only shrinks and the grid only extends, and every removed clue is resolved in the final grid. A cell changes only if a removed clue governs it. No remaining clue passes either test. The result is the serialisation of the final grid: `size*size` characters, all `b`, `f` or `n`. |
| Solving.ZeroCornerPass | modules/solver.py:108-128 | On the task `[[0,-1],[-1,-1]]` with a one-cell answer, the pass over the single clue completes it, sets the cell to `f`, and empties the active set. |
| Solving.ZeroCornerRun | modules/solver.py:130-142 | On that input, every run `Solve` may take makes exactly two passes and ends with the grid `[[f]]` and no active clue. |

## Left out

- Printing: `Task.print`, `Answer.print`, `Solver.print` and the debug print of the clue set in `Solver.__init__` produce console output only.
- `main.py` is not part of this model. It is the entry point, with a fixed seed, the wiring `Answer(task.size - 1)`, and a console message. `Solver` here takes any square task and any answer.
- `math.sqrt` is floating point. It is modelled as the exact integer square root `Isqrt`; float rounding on very long seeds is not modelled.
- Seed characters are modelled on their code points.
  - ASCII digits become clues.
  - Anything else contributes `ord(ch) - 96` blanks, or none when that is not positive.
  - Non-ASCII characters that `str.isdigit` accepts are not modelled.
- Python `set` iteration order is not modelled. A pass takes the clues of its snapshot in an arbitrary order, which `Solve` returns as a ghost result, so every order the code could take is covered. No claim is made that the final grid is independent of the order.
- `IndexError` used as control flow is modelled as `Option` results of `Lookup`, `GetSlant` and `GetClue`.
- Loop avoidance and checking a whole solution are not implemented by the source, so they are not modelled.
- Solving.Solver.constructor: requires a square task. On a task that is not square, `populate_clues` raises `IndexError` (`Tasks.DecodeNonSquare` exhibits the coordinate). The crash is excluded rather than modelled.
- Solving.Solver.PopulateClues: requires a square task, for the same reason.
- Answers.Answer.SetSlant: requires an in-bounds coordinate. With a negative component, Python's indexing would write a cell counted from the end. The solver writes only after `get_slant` has succeeded on the same coordinate.
- Answers.Answer.constructor: takes a natural-number size. A negative size in Python gives the same empty grid as size 0.
