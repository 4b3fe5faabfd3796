# Game of Life: engine and text renderer

This project models `code.py`, a sparse Game of Life on the unbounded integer
plane. A world is the finite set of its live cells. One generation is
computed in three steps:

- build the candidate frontier: the live cells together with their eight
  Moore neighbours;
- evaluate the survival/birth rule on each candidate against the old world;
- keep the candidates for which the rule holds.

The renderer draws a world as text. The empty world becomes a fixed
message. Any other world becomes a population header followed by the rows
of its bounding box, padded by one cell on every side, with `" O "` for a
live cell and `" . "` for a dead one. The lines are joined by newlines.

Modules:

- `Life` (`life.dfy`) holds the engine:
  - neighbours, the live-neighbour count, the rule, the frontier and the next generation;
  - the frontier method `Candidates`;
  - iteration over generations;
  - translation invariance.
- `Decimal` (`decimal.dfy`) holds the decimal notation of the population count, with its round trip.
- `Render` (`render.dfy`) holds the renderer:
  - the methods `Bounds`, `DrawLines` and `FormatWorld`;
  - the ghost specification `Rendered`;
  - `Join` and its inverse `Split`, used to read the output back line by line.
- `Scenarios` (`scenarios.dfy`) holds the equalities the file's own test routine checks, as lemmas.

Two parts of the source are imperative, and the model keeps them as methods with loops:

- `obtenir_candidats` copies the world and then updates the copy in place. `Candidates` is a loop over the live cells with an invariant.
- `formater_monde` appends lines in nested loops. `DrawLines` has nested `for` loops with invariants.

Each of these methods is proved equal to a specification function: `Frontier` for `Candidates`, `Lines` and `Rendered` for the renderer. The remaining properties are lemmas about those functions. The rest of the engine is pure, and the model keeps it as functions.

## Model

| member | source | states |
|---|---|---|
| Life.OffsetsAreMooreSteps | code.py:13-15 | the eight offsets are pairwise distinct and are exactly the non-zero steps of at most one on each axis |
| Life.ShiftedOffsetsAreNeighbours | code.py:11-16 | a cell shifted by each offset in turn gives each Moore neighbour of the cell exactly once, and nothing else |
| Life.Neighbours | code.py:11-16 | exactly 8 cells, in the offsets' order, pairwise distinct; a cell is listed iff it is adjacent to c (differs by at most 1 on each axis and is not c) |
| Life.NeighbourSet | code.py:11-16 | the set of neighbours holds exactly the cells adjacent to c |
| Life.AdjacentSymmetric | code.py:11-16 | a is a neighbour of b iff b is a neighbour of a |
| Life.CountLive | code.py:19 | counting the live entries of a sequence never exceeds its length |
| Life.CountLiveIsCardinality | code.py:19 | over a sequence without repetitions, the sum of 1 per live entry is the number of distinct live entries |
| Life.CountLivePositive | code.py:19 | a positive count has a live entry as witness |
| Life.LiveNeighbourCount | code.py:18-19 | the live-neighbour count lies between 0 and 8 |
| Life.LiveNeighbourCountIsCardinality | code.py:18-19 | the count equals the number of neighbours of c that are live in m |
| Life.MustLive | code.py:21-25 | `doit_vivre` by definition: a live cell survives on 2 or 3 live neighbours, a dead one is born on exactly 3; its contract is stated by `MustLiveRule` and `MustLiveNeedsSupport` |
| Life.MustLiveRule | code.py:21-25 | a live cell survives iff it has 2 or 3 live neighbours; a dead cell is born iff it has exactly 3 |
| Life.MustLiveNeedsSupport | code.py:21-25 | a cell the rule makes live is live already or has a live neighbour |
| Life.Spread | code.py:29-30 | the union of the neighbours of the cells of s holds exactly the cells adjacent to some cell of s |
| Life.Frontier | code.py:27-31 | the frontier contains m, is empty when m is empty, and holds exactly the live cells and the cells adjacent to a live cell |
| Life.Candidates | code.py:27-31 | copying the world and then adding the neighbours of each live cell in turn yields the frontier |
| Life.FrontierComplete | code.py:21-35 | every cell the rule makes live lies in the frontier, so evaluating only the candidates loses nothing |
| Life.NextGeneration | code.py:33-35 | the next generation is a subset of the frontier and holds exactly the cells for which the rule, evaluated against the old world, holds |
| Life.EmptyWorldStaysEmpty | code.py:33-35 | the empty world maps to the empty world |
| Life.Iterate | code.py:113-116 | n applications of a step, each to the world the previous one produced, by definition; its contract is stated by `FixedPointStaysFixed` and `PeriodTwoReturns` |
| Life.Advance | code.py:113-116 | the world after n generations, each `generation_suivante` of the one before, by definition; its contract is stated by `EmptyWorldStaysEmptyForever`, `BlockStaysStill` and `BlinkerPeriodTwo` |
| Life.FixedPointStaysFixed | code.py:113-116 | a world that one generation leaves unchanged is unchanged after any number of generations |
| Life.PeriodTwoReturns | code.py:113-116 | a world that two generations bring back returns after every even number of generations |
| Life.EmptyWorldStaysEmptyForever | code.py:113-116 | the empty world stays empty for every number of generations |
| Life.MustLiveTranslated | code.py:18-25 | the rule gives the same answer for a cell and a world moved together by any offset |
| Life.CountLiveTranslated | code.py:19 | moving the entries and the world by the same offset leaves the count unchanged |
| Life.TranslatedMember | code.py:33-35 | a cell is in the next generation of the moved world iff it is in the moved next generation |
| Life.TranslationInvariant | code.py:33-35 | advancing a moved world equals moving the advanced world |
| Decimal.DigitChar | code.py:49 | the character of a digit is a decimal digit with that value |
| Decimal.NatToString | code.py:49 | the notation of the population is non-empty, all digits, and has no leading zero |
| Decimal.NatToStringRoundTrip | code.py:49 | reading the decimal notation back gives the number |
| Render.Join | code.py:57 | `"\n".join` by definition: the lines with a newline between consecutive ones; its contract is stated by `SplitJoin` |
| Render.Split | code.py:57 | reading a text line by line yields at least one line |
| Render.SplitLine | code.py:57 | a text without newline is a single line |
| Render.SplitLineThenRest | code.py:57 | a line followed by a newline and a rest splits into that line followed by the lines of the rest |
| Render.SplitJoin | code.py:57 | splitting the newline-joined lines gives the lines back, when no line contains a newline |
| Render.CellText | code.py:54 | each cell is drawn as three characters, none a newline |
| Render.Row | code.py:52-54 | a row over w columns has 3 * w characters |
| Render.RowHasNoNewline | code.py:52-54 | a row contains no newline |
| Render.RowColumn | code.py:53-54 | characters 3k to 3k + 3 of a row are the drawing of the cell in column x0 + k |
| Render.Rows | code.py:51-55 | the rows form one line per y of the range |
| Render.RowsAt | code.py:51-55 | line j of the rows is the row for y0 + j |
| Render.Least | code.py:43-46 | the least coordinate along an axis is at most that of every live cell and is that of some live cell |
| Render.Greatest | code.py:43-46 | the greatest coordinate along an axis is at least that of every live cell and is that of some live cell |
| Render.BoundingBox | code.py:43-46 | the box is well ordered and contains every live cell |
| Render.BoundingBoxIsTight | code.py:43-46 | each side of the box touches a live cell |
| Render.Lines | code.py:48-55 | the list `lignes` for a given box, by definition: the header, then the padded rows; its contract is stated by `LinesShape`, `LinesCell` and `LinesSplit` |
| Render.Rendered | code.py:39-57 | the text `formater_monde` returns, by definition: the fixed message for the empty world, otherwise the joined lines of the bounding box; its contract is stated by `RenderedShape`, `RenderedCell` and `EmptyMessageIffEmpty` |
| Render.Bounds | code.py:43-46 | the extremes min(xs), max(xs), min(ys), max(ys) are ordered and are the sides of the bounding box |
| Render.DrawLines | code.py:48-55 | the header followed by the rows drawn cell by cell, over the padded box, are the specified lines |
| Render.FormatWorld | code.py:39-57 | the text built is the specified rendering: the fixed message for the empty world, otherwise the newline-joined lines |
| Render.HeaderHasNoNewline | code.py:49 | the population header fits on one line |
| Render.LinesSplit | code.py:48-57 | reading the joined lines back line by line gives exactly the header and rows |
| Render.LinesShape | code.py:48-55 | the header comes first, then maxY - minY + 3 rows of 3 * (maxX - minX + 3) characters |
| Render.LinesCell | code.py:51-55 | in the line of row y, the three characters for column x are " O " iff (x, y) is live, " . " otherwise |
| Render.RenderedShape | code.py:39-57 | the output of a non-empty world has maxY - minY + 4 lines: the header "Population : " followed by the population in decimal, then rows of 3 * (maxX - minX + 3) characters |
| Render.RenderedCell | code.py:51-57 | in the output, the block for each cell of the padded box is " O " iff the cell is live and " . " otherwise |
| Render.EmptyMessageIffEmpty | code.py:40-41 | the output is "Le monde est vide." iff the world is empty |
| Scenarios.CountLiveStep | code.py:19 | proof helper for the scenarios: the count over a suffix unfolds to its first term plus the count over the rest |
| Scenarios.CountEight | code.py:19 | proof helper for the scenarios: the count over eight entries unfolds to the sum of eight terms |
| Scenarios.CountSpelledOut | code.py:13-19 | the live-neighbour count is the sum of one term per offset, in the source's order |
| Scenarios.ScenarioShapes | code.py:81-89 | proof helper for the scenarios: the block and the two blinker phases of the tests restated as coordinate ranges |
| Scenarios.LonelyCellDies | code.py:73-78 | the isolated cell {(0,0)} maps to the empty world |
| Scenarios.BlockCellHasThree | code.py:80-85 | each cell of the block has exactly three live neighbours |
| Scenarios.BlockRule | code.py:80-85 | in the block's world the rule holds exactly for the cells of the block |
| Scenarios.BlockIsStill | code.py:80-85 | the 2x2 block is a fixed point |
| Scenarios.BlockStaysStill | code.py:80-85 | the block is unchanged after any number of generations |
| Scenarios.VerticalRule | code.py:87-93 | from the vertical blinker the rule holds exactly on the horizontal one |
| Scenarios.HorizontalRule | code.py:87-97 | from the horizontal blinker the rule holds exactly on the vertical one |
| Scenarios.VerticalBecomesHorizontal | code.py:90-93 | {(0,-1),(0,0),(0,1)} maps to {(-1,0),(0,0),(1,0)} |
| Scenarios.HorizontalBecomesVertical | code.py:94-97 | {(-1,0),(0,0),(1,0)} maps to {(0,-1),(0,0),(0,1)} |
| Scenarios.BlinkerOscillates | code.py:87-97 | the blinker changes in one generation and returns in two |
| Scenarios.BlinkerPeriodTwo | code.py:87-97 | the vertical blinker returns after every even number of generations |

## Left out

- `nettoyer_ecran` (code.py:59-60) is not modelled. It only shells out to clear the terminal.
- `executer_test` and the printing and `time.sleep` in `lancer_les_tests` (code.py:64-100) are console output and timing. Only the equalities the tests check are kept, as the `Scenarios` lemmas.
- The driver `demarrer_simulation` (code.py:104-119) is not modelled as such: it prints, sleeps and handles keyboard interrupts. The sequence of worlds it steps through is `Life.Advance`, and the lemmas about `Life.Iterate` describe it.
- Performance is not modelled: constant-time set membership and the work bounded by eight times the population.
- `obtenir_voisins` returns a lazy generator. The model returns the same cells as an eight-element sequence in the same order.
- `obtenir_candidats` visits the live cells in Python's set order. `Candidates` picks them in an arbitrary order; the result does not depend on the order, and the loop invariant covers every order.
- `generation_suivante` calls `obtenir_candidats`. `Life.NextGeneration` is a function and cannot call a method, so it uses `Frontier`, which `Candidates` is proved to compute.
- `formater_monde` builds the lists `xs` and `ys` and calls the builtins `min` and `max`. `Render.Bounds` takes the coordinate sets and picks their least and greatest elements. Duplicates do not change a minimum or a maximum, and the builtins are not loops of the program.
- The nested loops of `formater_monde` are `Render.DrawLines`, and the newline join is the function `Render.Join`. `Render.FormatWorld` finds the bounds with `Render.Bounds`, then calls these two.
- `Render.Join`, `Render.Split` and `Render.Rendered` are specification functions for the text. Python's `str.join` is not available, so `Join` is written out.
- Python integers are unbounded, like Dafny's `int`, so no overflow is modelled.
- Translation invariance is not a check in `code.py`. It is a consequence of the rule using only relative offsets, and it is proved as `Life.TranslationInvariant`.
