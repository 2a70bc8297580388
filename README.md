# Havannah rule engine, modelled in Dafny

This project models the rule engine of the Havannah environment in minizero. The game is
played on the hexagon cut out of an N x N grid, where N is odd and at most 19. The engine
keeps the board, the legal-move mask, the count of empty playable cells, the move history
and the side to move. After every stone it decides whether the mover has won in one of
three ways:

- a fork: one group touches two of the six corners;
- a bridge: one group touches three of the six edges;
- a ring: the group holds a closed loop of at least six cells.

Forks and bridges are found by a disjoint-set forest with path compression and union by
rank. Each root carries a 12-bit corner/edge mask, and `link` ORs the two masks. Rings are
found by a worklist that peels cells off the mover's group. The engine also encodes the
position for a neural network: four planes of features, and a one-hot action plane.

Modules, one per component:

- `Players` (`players.dfy`): the player enumeration {None, P1, P2, Size} and its character
  codes.
- `Bits` (`bits.dfy`): `popcount`, plus `&` and `|` written arithmetically on
  non-negative integers.
- `Geometry` (`geometry.dfy`): `isOnBoard`, `getPattern`, `getNeighbors`, and the
  closed-form count of playable cells.
- `UnionFind` (`union_find.dfy`): the forest as a value. The functions `Root`, `Compress`
  and `LinkForest` specify `find` and `link`, and the lemmas state the union-by-rank
  invariant, root preservation, joining, ranks and masks.
- `Ring` (`ring.dfy`): the peeling loop of `hasRing` on a marking of the group. Its result
  is characterised by "ring cores". A ring core is a set of at least six cells of the group
  in which every cell has three or more neighbours inside the set, or exactly two that are
  not adjacent to each other.
- `Havannah` (`havannah.dfy`): the class `HavannahEnv`. Its fields are those of the C++
  class: board, legal mask, parents, ranks, patterns, winner, turn, history and empty
  counter. Its methods are `reset`, `act`, `find`, `link`, `hasRing`, `updateWinner` and
  the queries.

Each state-changing method is proved against specification functions. For example, `Act`
ties the new forest to `Swept(Linked(...))`, the new legal mask to `NextLegal` and the
counter to `NextCounter`. The class invariant `Valid()` holds the union-by-rank invariant.
It also holds the board bookkeeping invariant `BoardOk`: off-board cells stay empty, a cell
is legal iff it is playable and empty or open to the swap, and the counter equals the
number of empty playable cells. Finally, `Valid()` states that each union-find edge joins
two stones of one colour.

Behaviour of the code that the model keeps as written:

- `act` accepts a move after the game is decided; `isTerminal()` is never consulted. A move
  is accepted iff its player is the side to move and its cell is in the legal mask.
- Under the swap rule, choosing the first move's cell again clears that stone and then
  immediately writes player 2's stone there. The cell ends up owned by player 2, and the
  empty counter is unchanged over that move.
- `link` has no same-root guard. Linking two cells of one group with equal ranks still
  raises the root's rank by one. Ranks are therefore unbounded, so `find` terminates on the
  measure `MaxRank(ranks) - ranks[x]`, not on a logarithmic height bound.
- `isOnBoard` trims the grid along the anti-diagonal (`i + j`), but `getNeighbors` steps
  along the other diagonal, to (i - 1, j - 1) and (i + 1, j + 1). The playable cells are
  therefore not a hexagon of the adjacency: on the 3 x 3 board the centre cell has four
  neighbours, not six.
- `action.nextPlayer()` and `getNextPlayer(turn_, 2)` are modelled by
  `GetNextPlayer(_, 2)`.
- `isOnBoard(i)` with one index is modelled as `isOnBoard(i / N, i % N)`
  (`IsOnBoardCell`).
- Whether the swap rule is on, which the program reads from its configuration, is a
  constructor parameter of `HavannahEnv`.

## Model

| member | source | states |
|---|---|---|
| Players.PlayerToChar | minizero/environment/base/base_env.cpp:5-13 | the character is one of N, B, W, ?, and it is '?' exactly for the sentinel player |
| Players.CharToPlayer | minizero/environment/base/base_env.cpp:15-25 | 'B'/'b' give player 1 and 'W'/'w' give player 2 (both directions). Only upper-case 'N' gives None. Every other character gives the sentinel |
| Players.GetNextPlayer | minizero/environment/base/base_env.cpp:27-36 | with one player the same player; with two, always a side, player 2 exactly after player 1 (None also gives player 1); with any other count None |
| Players.CharRoundTrip | minizero/environment/base/base_env.cpp:5-25 | parsing the printed character of any player gives that player back |
| Players.PlayerRoundTrip | minizero/environment/base/base_env.cpp:5-25 | printing a parsed player character gives its upper-case form |
| Players.NextPlayerInvolution | minizero/environment/base/base_env.cpp:31-32 | with two players the successor of a side is the other side, and applying it twice gives the side back |
| Bits.Popcount | minizero/environment/havannah/havannah.h:17-25 | for n >= 0 the loop returns the number of set bits of n; each round clears the lowest set bit, which bounds the loop |
| Bits.ClearLowestBit | minizero/environment/havannah/havannah.h:22 | `n & (n - 1)` is n minus its lowest set bit and has exactly one set bit fewer |
| Geometry.GetPattern | minizero/environment/havannah/havannah.cpp:14-33 | the pattern is 0 or a single bit 2^k with k < 12, so no cell carries two bits |
| Geometry.PatternClassifies | minizero/environment/havannah/havannah.cpp:14-33 | on a playable cell the pattern is 0 iff the cell is on none of the six border lines; corner bit k goes exactly to corner cell k |
| Geometry.CornersDistinct | minizero/environment/havannah/havannah.cpp:17-22 | the six corner cells are distinct playable cells |
| Geometry.PlayableCount | minizero/environment/havannah/havannah.h:60-66 | the cells `isOnBoard` keeps form a hexagon of side k = (N + 1) / 2, with 3k^2 - 3k + 1 cells |
| Geometry.IsOnBoard | minizero/environment/havannah/havannah.h:60-66 | a cell is kept only when both coordinates lie inside the N x N grid |
| Geometry.OnBoardHexagon | minizero/environment/havannah/havannah.h:60-66 | on an odd board a cell is kept iff it lies at most N / 2 from the centre cell in the metric max(abs(di), abs(dj), abs(di + dj)), so the playable cells form a hexagon of the grid's coordinates around the centre. The neighbour offsets step along the other diagonal (see `CentreOfThree`) |
| Geometry.IsOnBoardCell | minizero/environment/havannah/havannah.cpp:411 | the single-index test `isOnBoard(i)` holds only for indices in [0, N^2) |
| Geometry.NeighborsOf | minizero/environment/havannah/havannah.cpp:386-403 | at most six neighbours, strictly increasing (so distinct), each a playable cell in [0, N^2) |
| Geometry.GetNeighbors | minizero/environment/havannah/havannah.cpp:386-403 | the loop over the six offsets, with its column guards, grid bound and playability test, returns `NeighborsOf` |
| Geometry.NeighborsMeaning | minizero/environment/havannah/havannah.cpp:389-399 | b is a neighbour of a iff b is a playable cell one hex step from a; offsets never wrap from one row end to the next row |
| Geometry.NeighborsSymmetric | minizero/environment/havannah/havannah.cpp:386-403 | adjacency between playable cells is symmetric |
| Geometry.CentreOfThree | minizero/environment/havannah/havannah.cpp:386-403 | on the 3 x 3 board cells 2 and 6 are playable and cells 0 and 8 are not, and the centre cell 4 has exactly the neighbours 1, 3, 5 and 7 |
| UnionFind.Root | minizero/environment/havannah/havannah.h:69-73 | the root `find` reaches is its own parent, and its rank is at least the cell's (strictly greater for a non-root) |
| UnionFind.Compress | minizero/environment/havannah/havannah.h:69-73 | the forest after `find(x)` has the same size, ranks and masks; only parents change |
| UnionFind.CompressValid | minizero/environment/havannah/havannah.h:71 | path compression keeps the union-by-rank invariant and changes no rank or mask |
| UnionFind.CompressRoots | minizero/environment/havannah/havannah.h:69-73 | `find(x)` changes no cell's root |
| UnionFind.CompressParents | minizero/environment/havannah/havannah.h:71 | after `find(x)`, every cell on x's old path points directly at the root, and every other cell keeps its parent |
| UnionFind.CompressIdempotent | minizero/environment/havannah/havannah.h:69-73 | a second `find(x)` changes nothing and returns the same root |
| UnionFind.Unite | minizero/environment/havannah/havannah.h:78-84 | the union step keeps the forest's size, hangs one of the two roots below the other, and raises px's rank by at most one (the tie case) |
| UnionFind.LinkForest | minizero/environment/havannah/havannah.h:74-84 | the forest after `link(x, y)` keeps its size; the link lemmas below state its invariant, roots, ranks and masks |
| UnionFind.LinkValid | minizero/environment/havannah/havannah.h:74-84 | `link` keeps the union-by-rank invariant (every non-root's parent has a strictly larger rank) and 12-bit masks |
| UnionFind.LinkJoins | minizero/environment/havannah/havannah.h:76-83 | after `link(x, y)`, `find(x) == find(y)`, and it is the surviving root |
| UnionFind.LinkGroups | minizero/environment/havannah/havannah.h:76-83 | after `link(x, y)` two cells share a root iff they did before, or both were in x's or y's group |
| UnionFind.LinkRanks | minizero/environment/havannah/havannah.h:78-83 | the higher-ranked root survives with its rank unchanged. On equal ranks x's root survives and its rank rises by exactly one, even when x and y already shared a root. No other rank changes |
| UnionFind.LinkMasks | minizero/environment/havannah/havannah.h:84 | the survivor holds the OR of the two root masks; no other mask entry changes |
| UnionFind.LinkMaskGrows | minizero/environment/havannah/havannah.h:84-88 | x's new root holds the merged mask, and a group that was winning stays winning after a further link |
| UnionFind.MaskCounts | minizero/environment/havannah/havannah.h:86-87 | `popcount(mask & 0x3f)` counts exactly bits 0-5 and `popcount(mask >> 6)` exactly bits 6-11 of a 12-bit mask |
| UnionFind.WinningMaskMono | minizero/environment/havannah/havannah.h:84-88 | ORing more bits into a fork/bridge mask keeps it a fork/bridge mask |
| UnionFind.LinkAllGroups | minizero/environment/havannah/havannah.cpp:471-474 | after linking x with each cell of a list in turn, two cells share a root iff they did before, or both lie in the union of the groups of x and of the list |
| Ring.Peel | minizero/environment/havannah/havannah.cpp:417-456 | the peeling loop ends, on the measure (num, queue length), with 0 <= num <= its start. num >= 6 iff the group holds a ring core |
| Ring.PeelStep | minizero/environment/havannah/havannah.cpp:429-455 | one round keeps the loop invariant: num counts the marked cells, every ring core stays marked, and each marked cell off the queue is stable. num drops, or num stays and the queue shrinks |
| Ring.CheckStable | minizero/environment/havannah/havannah.cpp:434-446 | collects the marked neighbours and keeps the cell iff it has three or more, or exactly two that are not adjacent |
| Ring.FilterMarked | minizero/environment/havannah/havannah.cpp:434-437 | the loop keeps the listed neighbours that are marked, in list order: a cell is in the result iff it is in the list and marked |
| Ring.InitialQueue | minizero/environment/havannah/havannah.cpp:417-428 | the first queue holds every marked cell with fewer than three marked neighbours, in increasing order, and `in_list` flags exactly those |
| Ring.Enqueue | minizero/environment/havannah/havannah.cpp:450-454 | appends the listed cells not yet queued, keeping the queue duplicate-free and `in_list` equal to queue membership |
| Ring.RemovalKeepsCores | minizero/environment/havannah/havannah.cpp:439-449 | unmarking a cell that is not stable removes no cell of any ring core |
| Ring.CoreOfStableMarking | minizero/environment/havannah/havannah.cpp:429-456 | when the loop stops, six or more marked cells remain iff a ring core exists |
| Ring.RingNeedsSix | minizero/environment/havannah/havannah.cpp:429 | a group of fewer than six cells holds no ring core |
| Havannah.HavannahEnv.constructor | minizero/environment/havannah/havannah.h:29-34 | the board size must be odd and at most 19; the new environment is in the reset state |
| Havannah.HavannahEnv.Reset | minizero/environment/havannah/havannah.cpp:35-59 | every cell is None, turn is P1, winner is None and history is empty. `legal` is `isOnBoard`. Every cell is its own parent with rank 0 and holds its `getPattern`. The counter equals the number of playable cells, 3k^2 - 3k + 1 |
| Havannah.ResetCells | minizero/environment/havannah/havannah.cpp:47-58 | the nested loop fills the legal mask, parents, ranks and patterns cell by cell and counts the playable cells |
| Havannah.HavannahEnv.IsLegalAction | minizero/environment/havannah/havannah.cpp:115-124 | a move is legal iff its player is the side to move and its cell is playable and empty, or is the first move's cell while the swap window is open |
| Havannah.HavannahEnv.Act | minizero/environment/havannah/havannah.cpp:61-97 | an illegal move returns false and changes nothing. A legal move appends the action, puts the stone on the cell, updates the legal mask and counter (with the swap-rule cases), links the stone with the mover's neighbours, sets the winner exactly when the mover forms a fork or bridge through a link or its group holds a ring core (a winner never reverts) and passes the turn. The board invariant is kept |
| Havannah.HavannahEnv.Play | minizero/environment/havannah/havannah.cpp:64-95 | a legal move appends the action, places the stone, sets the mask and counter to `NextLegal` / `NextCounter`, links and sweeps the forest, sets the winner iff `MoverWins`, passes the turn, and keeps `Valid()` |
| Havannah.HavannahEnv.PlaceAndLink | minizero/environment/havannah/havannah.cpp:64-94 | the same new history, board, mask, counter, forest and winner as `Play`, before the turn passes |
| Havannah.HavannahEnv.Place | minizero/environment/havannah/havannah.cpp:64-91 | records the move, places the stone (clearing and refilling the first cell on a swap) and sets the legal mask and counter to `NextLegal` / `NextCounter` |
| Havannah.NextLegal | minizero/environment/havannah/havannah.cpp:77-90 | the played cell stays legal iff it is the first move under the swap rule; the second move under the swap rule closes the first move's cell |
| Havannah.NextCounter | minizero/environment/havannah/havannah.cpp:79-87 | one empty cell fewer, except that the second move under the swap rule on the first move's cell leaves the counter unchanged |
| Havannah.MoveKeepsBoard | minizero/environment/havannah/havannah.cpp:64-94 | a legal move keeps the board invariant: off-board cells stay None, each cell is legal iff playable and empty or open to the swap, the counter counts the empty playable cells, and the turn alternates with the history |
| Havannah.NextCounterMeaning | minizero/environment/havannah/havannah.cpp:79-87 | after the move the counter still equals the number of empty playable cells (one fewer, or unchanged over a swap) |
| Havannah.NextLegalMeaning | minizero/environment/havannah/havannah.cpp:78-90 | after the move a cell is legal iff it is playable and empty, or it is the first move's cell while the swap window is open |
| Havannah.LinkedGroups | minizero/environment/havannah/havannah.cpp:471-474 | after the linking loop, two cells share a root iff they did before, or both lie in the new stone's group or that of one of its neighbours owned by the mover |
| Havannah.Linked | minizero/environment/havannah/havannah.cpp:471-474 | linking the new stone with the mover's neighbours keeps a valid forest of N^2 cells |
| Havannah.ColouredMove | minizero/environment/havannah/havannah.cpp:64-79 | after a move every union-find edge still joins two stones of the same colour |
| Havannah.HavannahEnv.UpdateWinner | minizero/environment/havannah/havannah.cpp:459-479 | links the stone with each neighbour owned by the mover, then runs the ring test. The winner becomes the mover iff a fork/bridge was formed through a link or a ring core exists, and is unchanged otherwise |
| Havannah.HavannahEnv.LinkStone | minizero/environment/havannah/havannah.cpp:471-474 | the linking loop gives `Linked(...)` and sets the winner iff some link happened and the final group is a fork or bridge |
| Havannah.HavannahEnv.LinkNeighbor | minizero/environment/havannah/havannah.cpp:472-473 | one round of the linking loop: the forest becomes `LinkedUpTo(i + 1)` and the winner `WinnerUpTo(i + 1)` |
| Havannah.WinnerUpToMeaning | minizero/environment/havannah/havannah.cpp:471-474 | the winner after the first i neighbours is the mover exactly when one of them is the mover's stone and the group built so far is a fork or bridge, and otherwise the winner from before the move |
| Havannah.SweptMoverWins | minizero/environment/havannah/havannah.cpp:471-477 | after the ring sweep the forest is still valid and sized n*n, and the mover wins exactly when a link produced a winning group or the stone's group holds a ring core |
| Havannah.Swept | minizero/environment/havannah/havannah.cpp:410-415 | the `find` calls of the marking loop keep a valid forest of the same size, with ranks and masks unchanged |
| Havannah.HavannahEnv.Find | minizero/environment/havannah/havannah.h:69-73 | returns the root of x, and leaves the forest compressed along x's path (`Compress`) |
| Havannah.HavannahEnv.Link | minizero/environment/havannah/havannah.h:74-89 | the forest becomes `LinkForest`, and the winner is set to the side to move iff the merged mask has two corner bits or three edge bits, else unchanged |
| Havannah.HavannahEnv.FindBoth | minizero/environment/havannah/havannah.h:76-77 | returns the roots x and y had before, and the forest becomes x's path compressed, then y's |
| Havannah.HavannahEnv.Unite | minizero/environment/havannah/havannah.h:78-84 | the forest becomes `UnionFind.Unite` of the two roots, and the root returned is py exactly when px has the lower rank |
| Havannah.HavannahEnv.ForkOrBridge | minizero/environment/havannah/havannah.h:86-88 | the two popcounts decide a win iff at least 2 of bits 0-5 or 3 of bits 6-11 are set |
| Havannah.HavannahEnv.HasRing | minizero/environment/havannah/havannah.cpp:405-457 | true iff the playable cells of the move's group hold a ring core, which needs six or more cells. Its `find` calls change no root |
| Havannah.HavannahEnv.MarkGroup | minizero/environment/havannah/havannah.cpp:407-416 | marks exactly the playable cells whose root is the move's root, and `num` counts them |
| Havannah.HavannahEnv.MarkCell | minizero/environment/havannah/havannah.cpp:410-415 | one round of the marking loop: the forest becomes `Swept(..., i + 1)`, the marks `MarkedBelow(..., i + 1)`, and the count their number |
| Havannah.HavannahEnv.GetLegalActions | minizero/environment/havannah/havannah.cpp:104-113 | exactly the legal moves of the side to move, in ascending cell order |
| Havannah.HavannahEnv.IsTerminal | minizero/environment/havannah/havannah.cpp:126-129 | terminal iff there is a winner or every playable cell holds a stone |
| Havannah.HavannahEnv.GetEvalScore | minizero/environment/havannah/havannah.cpp:131-141 | 1 iff player 1 has won and -1 iff player 2 has, otherwise 0. On resignation -1 iff player 1 is to move, else 1 |
| Havannah.HavannahEnv.GetFeatures | minizero/environment/havannah/havannah.cpp:176-203 | 4·N² values, channel-major: the mover's stones, the opponent's stones, then constant planes for "player 1 to move" and "player 2 to move" |
| Havannah.FeaturePlanes | minizero/environment/havannah/havannah.cpp:187-203 | the nested loops give four values per board cell: the mover's stones, the opponent's stones, then constant planes for player 1 to move and player 2 to move |
| Havannah.FourPlanes | minizero/environment/havannah/havannah.cpp:188-203 | the four channels laid end to end hold exactly those per-cell values |
| Havannah.HavannahEnv.GetActionFeatures | minizero/environment/havannah/havannah.cpp:224-229 | N² values, 1 at the action's cell and 0 elsewhere |
| Havannah.HavannahEnv.GetWinningStonesPosition | minizero/environment/havannah/havannah.cpp:373-384 | empty with no winner; once a side has won, every index 0 .. N² - 1 in order |

## Left out

- The network in `minizero/network/py/alphazero_network.py`: floating-point numerics over
  a foreign library.
- `toString` / `toStringDebug`: terminal rendering through colour helpers that are not
  part of this model.
- `act` on a vector of strings, and the string constructor of the action: serialisation
  through `BaseBoardAction`, which is not part of this model.
- `HavannahEnvLoader::getActionFeatures`: it draws a random index through `Random::randInt`
  and a loader base class that is not part of this model.
- `on_virtual_bridge`, `make_virtual_bridge` and feature channels 4-27: they are
  unreachable, because `getNumInputChannels()` is 4.
- The rotation arguments, which the engine ignores, and configuration loading. The board
  size and the swap flag are constructor parameters.
- Floating-point results are written as integers. Scores are -1, 0 or 1, and features are
  0 or 1.
- The C++ `assert`s are preconditions: board size odd and at most 19, action index in
  range, player one of the two sides.
- Bits.Popcount: requires n >= 0. The engine only passes non-negative masks. On a negative
  `int` the C++ loop would count the bits of its 32-bit two's-complement form, and that is
  not modelled.
- Vectors (`board_`, `legal_actions_`, `parents`, `ranks`, `patterns`) are fields of
  sequence type that the methods reassign, not arrays. This leaves out their resizing in
  `reset`; their length is always N².
- The `std::queue` and bitmaps of `hasRing` are local sequences.
- Havannah.HavannahEnv.Act: the winner clause speaks of a ring core, as `HasRing` does,
  not of a loop that encloses a cell.
- Havannah.SweptMoverWins: likewise states a ring core in the stone's group, not an
  enclosing loop.
- Havannah.HavannahEnv.HasRing: the contract does not state that a surviving core is a
  loop enclosing a cell. It states the peeling's own criterion, the ring core, which is
  what the code decides.
