# vorowar game state, modelled in Dafny

vorowar is a small turn-based territory game in the browser. The field is a
Voronoi diagram of 100 random sites in a 100 by 100 square. Every cell has an
owner (neutral, player 1 or player 2) and a number of armies. The user plays
player 1 and drags from one of their cells to a neighbouring cell to queue a
move. Every six seconds a turn resolves the queued moves in the order they were
queued and then gives every user cell 10 more armies.

This project models the game state of `src/index.js`:

- `arena.dfy` (module `Arena`): the cell record, the owners, the Voronoi edge
  record, the move record, and the game's constants (50 base armies, 200 on a
  start cell, a bonus of 10, and anchors (50, 0) and (50, 100)).
- `field.dfy` (module `Field`): field generation.
  - The neighbour and border pass over the diagram's edges.
  - The closest-cell scan that picks each player's start cell.
  - `CreateField`, which puts these together.
- `ledger.dfy` (module `Ledger`): the move ledger. It holds at most one queued
  move per source cell. A resubmission from the same source retargets the
  queued move.
- `resolution.dfy` (module `Resolution`): one move, a list of moves and the
  reinforcement, written as functions of the arena. The lemmas about a turn
  are here.
- `play.dfy` (module `Play`): class `Game`. It owns the arena (`array<Cell>`,
  updated in place) and the ledger (`seq<Move>`). Its methods are `AddMove`,
  `ExecuteMoves`, `RefillArmies` and `Turn`, and each is proved against the
  functions of `Resolution` and `Ledger`.

Cells are addressed by index. A neighbour list holds indices, not references.
The owners 0, 1 and 2 of the code are the datatype `Control`. Site coordinates
are exact reals.

Where the code and the game's intended design differ, the model follows the
code:

- On a capture, the defender becomes the user's (`userPlayer`, line 127). It
  does not become the attacker's owner. The two are the same only because
  every queued move is the user's.
- Moves are applied one after another in the order they were queued. Each
  move sees the armies left by the moves before it. There is no snapshot of
  the field at the start of the turn.
- Nothing checks that the two anchors pick different start cells. If they
  pick the same cell, player 2's assignment wins (`CreateField` states this
  case).
- The closest-cell scan treats a running minimum of exactly 0 as "no minimum
  yet" (`!minDistance`, line 70). So the next cell always replaces a cell that
  sits exactly on the anchor. `Field.Picks` states what the scan returns,
  including this case.
- A neighbour list is a list in edge order, not a set.
- A defender may be left with 0 armies and keep its owner.

## Model

| member | source | states |
|---|---|---|
| `Field.SqDist` | src/index.js:69 | the squared distance of a site from an anchor is never negative |
| `Field.LastZero` | src/index.js:70 | the index of the last cell exactly on the anchor, or -1; every later distance is non-zero |
| `Field.FindClosest` | src/index.js:65-76 | returns no cell exactly when there are none; otherwise returns a valid index that the scan picks: the first nearest cell after the last exact hit on the anchor, that hit only when it is the last cell, or the first nearest cell overall when no cell is exactly on the anchor |
| `Field.ScanStep` | src/index.js:68-73 | one step of the scan: cell `i` displaces the running choice exactly when the running minimum is 0 or cell `i` is strictly nearer, and the result is again what the scan picks on the longer prefix |
| `Field.PicksWithoutExactHit` | src/index.js:65-76 | when no site is exactly on the anchor, the scan's result is exactly the first cell of minimal squared distance (ties go to the earlier cell) |
| `Field.ExactHitKeptOnlyIfLast` | src/index.js:70-73 | a cell exactly on the anchor is returned only if it is the last cell scanned |
| `Field.PicksUnique` | src/index.js:65-76 | the scan's result is a function of the distances: two results that both satisfy the scan's specification are equal |
| `Field.NeighbourList` | src/index.js:48-58 | a cell never appears in its own neighbour list |
| `Field.NeighbourMembers` | src/index.js:51-58 | `j` is in cell `i`'s neighbour list iff `j != i` and some edge of `i` has `j` on its left or right side |
| `Field.NeighboursSymmetric` | src/index.js:51-58 | when the diagram lists every edge around both cells it separates, `j` is a neighbour of `i` iff `i` is a neighbour of `j` |
| `Field.EdgeWalk` | src/index.js:51-62 | the walk over one cell's edges yields that cell's neighbour list, and the border flag is raised iff some edge lacks a left or a right side |
| `Field.VisitEdge` | src/index.js:52-61 | visiting one edge appends its present sides other than the cell itself, left before right, and raises the border flag iff a side is missing |
| `Field.LinkNeighbours` | src/index.js:48-63 | every cell gets its neighbour list and border flag; no other field of any cell changes |
| `Field.LinkedField` | src/index.js:38-63 | one cell per site, with id and location from the site, neutral with 50 armies, and neighbours and border from the diagram |
| `Field.ClaimStart` | src/index.js:78-83 | the cell the scan picks for the anchor gets the owner and 200 armies; no other cell changes |
| `Field.CreateField` | src/index.js:38-85 | every cell is a linked cell, except the cells the scan picks for the two anchors: they get 200 armies and belong to player 1 and player 2, and player 2 wins a shared pick |
| `Ledger.Admissible` | src/index.js:93 | the acceptance test of a submission; an admissible move leaves from a cell someone holds that has at least one neighbour (`AddMove` accepts exactly the admissible submissions) |
| `Ledger.Record` | src/index.js:95-100 | the ledger after an accepted submission always holds the move; its length stays when a move from the same source was queued and grows by one otherwise (`RecordReplaces` and `RecordAppends` give the exact ledger in each case) |
| `Ledger.RecordKeepsLedger` | src/index.js:92-100 | recording an admissible move into a valid ledger gives a valid ledger: every entry admissible, one per source |
| `Ledger.FindMove` | src/index.js:95 | returns the first queued move from the given source, or none when no queued move leaves from it |
| `Ledger.RecordReplaces` | src/index.js:95-97 | a resubmission from a queued source replaces only that entry's target; the length and all other entries stay |
| `Ledger.RecordAppends` | src/index.js:98-100 | a submission from a source with no queued move adds exactly that move at the end; earlier entries stay |
| `Ledger.RecordKeepsUnique` | src/index.js:95-100 | recording keeps at most one move per source; the new move is queued, and every other entry was queued before |
| `Resolution.ApplyMove` | src/index.js:121-133 | one move keeps the arena's size; `CombatStep`, `TransferStep` and `StepFrame` give its exact effect on the two cells and show that no other cell changes |
| `Resolution.ApplyMoves` | src/index.js:119-135 | the queued moves applied one after another in queue order keep the arena's size; `MovesKeepHealth`, `OwnershipChangesOnlyByCapture` and `MovesNeverCreateArmies` state what a whole list of moves does |
| `Resolution.Reinforce` | src/index.js:139 | reinforcing a cell never changes its owner or geometry and never lowers its armies (`RefillAddsBonus` gives the exact +10 for a user cell) |
| `Resolution.Reinforced` | src/index.js:138-140 | reinforcing the arena keeps its size; `RefillAddsBonus` and `RefillTotal` give its effect cell by cell and in total |
| `Resolution.CombatStep` | src/index.js:121-129 | combat leaves the source with 1 army; the defender ends with `defending - attacking` armies and keeps its owner when that is at least 0, and otherwise becomes the user's with the absolute value; both sides lose `min(attacking, defending)`; no other cell changes |
| `Resolution.TransferStep` | src/index.js:130-133 | a transfer moves all armies but one to the target; the two cells hold as many armies together as before, owners stay, and no other cell changes |
| `Resolution.StepFrame` | src/index.js:121-133 | one move changes only the owners and armies of its two cells, and only its target can change owner, to the user |
| `Resolution.StepKeepsHealth` | src/index.js:119-134 | a move from a user cell keeps all armies >= 0 and every user cell at >= 1, and the user loses no cell |
| `Resolution.MovesKeepHealth` | src/index.js:119-135 | the same holds over a whole list of user moves applied in order |
| `Resolution.OwnershipChangesOnlyByCapture` | src/index.js:121-129 | moves change only owners and armies; a cell that no move names is unchanged; a cell that changes owner becomes the user's and is the target of some move |
| `Resolution.StepTotal` | src/index.js:119-134 | a move between two distinct cells lowers the field's total by twice the smaller force in combat, and leaves it unchanged in a transfer |
| `Resolution.MovesNeverCreateArmies` | src/index.js:119-134 | on a healthy field, the user's moves never raise the total number of armies |
| `Resolution.RefillAddsBonus` | src/index.js:138-140 | reinforcement adds exactly 10 to every user cell and changes nothing else |
| `Resolution.RefillTotal` | src/index.js:138-140 | reinforcement raises the total by 10 for each user cell |
| `Resolution.TurnKeepsHealth` | src/index.js:255-256 | moves then reinforcement keep the field healthy, and the user loses no cell during a turn |
| `Resolution.EmptyTurnOnlyRefills` | src/index.js:255-256 | with no queued moves a turn is only the reinforcement, and no cell changes owner |
| `Play.Game.constructor` | src/index.js:114 | the field is generated as `CreateField` describes: the recorded start cells `player1Start` and `player2Start` are the cells the scans pick for the two anchors, and every cell is the matching starting cell (player 1's start, player 2's start, or a neutral linked cell); the ledger starts empty, the invariant holds, and exactly one cell is player 2's |
| `Play.Game.AddMove` | src/index.js:92-104 | a submission is accepted iff source and target differ, the user holds the source, and the target is one of the source's neighbours; an accepted move is recorded as `Record` describes; a rejected one leaves the ledger unchanged; the invariant is kept |
| `Play.Game.ExecuteMoves` | src/index.js:119-136 | the arena becomes the queued moves applied in order to the old arena, the ledger becomes empty, and the invariant is kept |
| `Play.Game.ResolveMove` | src/index.js:120-134 | one loop step updates the arena in place exactly as `ApplyMove` describes |
| `Play.Game.RefillArmies` | src/index.js:138-140 | the arena becomes its reinforcement, and the invariant is kept |
| `Play.Game.Turn` | src/index.js:255-256 | the arena becomes the reinforcement of the moves' result, the ledger is empty, and the user keeps every cell they held |
| `Play.OnePlayer2Cell` | src/index.js:81-83 | when only the picked cell is player 2's, player 2 holds exactly one cell |

## Left out

- The Voronoi construction by d3 and the random placement of sites (src/index.js:15-17). Sites, edges and each cell's edge indices are inputs to `CreateField`. The model needs only that every edge index is valid (`DiagramOk`). Symmetry of neighbours is proved under the further assumption `Incidence`, that each edge is listed around exactly the cells on its sides.
- The centroid and area computation (src/index.js:18-36, 43). It is floating-point arithmetic used only for drawing. The cell's polygon, center and area are not part of the `Cell` record. Note that the code stores the negated signed area, not its absolute value.
- Floating-point rounding. Site coordinates and distances are exact reals. The falsy-NaN case of `!minDistance` has no counterpart.
- Integer width. Armies are unbounded integers. JavaScript numbers are exact for integers far beyond any army count the game reaches.
- The SVG rendering, pointer and touch handling, and `console.log` (src/index.js:64, 115, 141-235). Because the input handlers only ever pass existing cells, `AddMove` requires both indices to be cells of the arena.
- The countdown (`startCounter`, `wait`, `setCounter`, src/index.js:240-259). It is timer- and DOM-driven. Only its order of resolution is kept, as `Turn`: `executeMoves`, then `refillArmies`.
- The stylesheet and polyfill requires (src/index.js:1-5).
- An empty field. The code always generates 100 sites. With none, `findClosest` returns null and line 79 would fail, so `CreateField` requires at least one site.
