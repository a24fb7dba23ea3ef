# Blokus pieces and game state, modelled in Dafny

This project models `game.py` of a small Blokus implementation. Those are the
game's pieces and the start of its game loop:

- **Pieces.** A `Piece` holds a list of cell offsets and a board position.
  The constructor and the four reorientations (`flipH`, `flipV`, `rotCW`,
  `rotCCW`) rewrite the offsets in place: they map every offset, sort the
  list (Python's lexicographic order on pairs) and shift it so that the
  smallest x and the smallest y are both 0 (`_normalize`).
- **Equality.** `__eq__` decides whether two pieces are the same shape up
  to rotation and reflection. Four times it compares the offsets of `self`
  with `other.offsets` and then rotates `self`; it then flips `self`, and
  again four times compares and rotates. It stops at the first match, and
  it restores `self` from a copy before answering.
- **Generation.** `make_pieces` grows every piece of at most `BLOCKS` = 5
  cells breadth-first from one cell at the origin. It keeps a new piece only
  when no piece already in the list is equal to it under `__eq__`, and it
  memoises the list in `Piece.FULL_SET`.
- **Game.** A `Game` builds that set, gives each of four players a deep copy
  of it, starts with an empty 20 by 20 board, and `take_turn` records a
  piece under its position.

The modules follow the program's structure:

- `Geometry` (geometry.dfy) covers offsets, `sorted` (as insertion sort),
  `_normalize`, and the canonical form `Canon` that every `Piece` keeps its
  offsets in.
- `Dihedral` (dihedral.dfy) covers the eight symmetries of the square. Each
  of the four reorientations of game.py is one of them. `Act(g, s)` is
  "map by g, sort, normalise", and `SymEq` is the relation that `__eq__`
  computes.
- `Pieces` (pieces.dfy) holds the class `Piece`. Its fields `offsets` and
  `pos` are updated in place by its methods, as in game.py.
- `Generator` (generator.dfy) models `make_pieces`. `PieceRegistry` holds
  the memo `FULL_SET`, the queue is a sequence of snapshots threaded through
  the loop, and `bfs_extend` is `BfsExtend`.
- `GameState` (game.dfy) holds the classes `Player` and `Game`.

The main results are:

- The constructor and the four reorientations leave a piece in canonical form.
- `rotCW` and `rotCCW` undo each other, and each flip is its own inverse.
- Four `rotCW` calls return a piece to where it started.
- The eight lists that `__eq__` tries are exactly the eight symmetries of
  the square. So `__eq__` holds if and only if some symmetry maps one piece
  onto the other, and it is an equivalence relation on canonical pieces.
- The `Equals` method computes that relation and leaves both pieces as they
  were.
- `make_pieces` returns pieces that are canonical, each grown edge to edge
  from one cell, of at most five cells, and pairwise different under
  `__eq__`. A second call returns the memoised list.

## Model

| member | source | states |
|---|---|---|
| Geometry.InsertSpec | game.py:11 | inserting a cell into an ascending list keeps it ascending, adds exactly that cell to the multiset of cells, and keeps cells distinct when the new one is absent |
| Geometry.SortSpec | game.py:11 | the model of `sorted` returns an ascending permutation of its input, and distinct input cells stay distinct |
| Geometry.SortedUnique | game.py:11 | two ascending lists with the same cells are equal, so `sorted` has exactly one possible result |
| Geometry.SortOfAscending | game.py:11 | sorting a list that is already ascending leaves it unchanged |
| Geometry.MinXSpec | game.py:52 | the minimum x is at most every offset's x and is attained by one offset |
| Geometry.MinYSpec | game.py:53 | the minimum y is at most every offset's y and is attained by one offset |
| Geometry.NormalizeSpec | game.py:51-54 | `_normalize` leaves every coordinate non-negative with minimum x and minimum y both 0, and keeps the length, the order and the distinctness of the offsets |
| Geometry.MinTranslate | game.py:52-54 | moving every offset by d moves both minima by d |
| Geometry.NormalizeTranslate | game.py:51-54 | `_normalize` forgets any translation applied before it |
| Geometry.NormalizeIdempotent | game.py:51-54 | normalising an already normalised list changes nothing |
| Geometry.NormalizedFixed | game.py:51-54 | a list whose minimum x and y are already 0 is its own normalisation |
| Geometry.CanonSpec | game.py:10-12 | sort-then-normalise yields an ascending, normalised list, keeps distinct cells distinct, and holds the input's cells moved by a single offset |
| Geometry.CanonicalFixed | game.py:10-12 | a canonical offset list is its own canonical form |
| Geometry.CanonCongruent | game.py:10-12 | two lists that hold the same cells up to order and one translation have the same canonical form |
| Geometry.TranslatePerm | game.py:54 | translating two permutations of each other by the same offset gives permutations of each other |
| Dihedral.SourceFormulas | game.py:31-49 | the four symmetry constants map a cell exactly as the comprehensions of `flipH`, `flipV`, `rotCCW` and `rotCW` do |
| Dihedral.ComposeApply | game.py:31-49 | composing two symmetries and then mapping a cell is the same as mapping it by one symmetry and then the other |
| Dihedral.Inverse | game.py:31-49 | every symmetry has an inverse that composes with it, on both sides, to the identity |
| Dihedral.InverseApply | game.py:31-49 | mapping a cell by a symmetry and then by its inverse, in either order, gives the cell back |
| Dihedral.MapCellsPerm | game.py:32 | mapping two permutations of each other by one symmetry gives permutations of each other |
| Dihedral.MapCellsNoDup | game.py:32 | a symmetry maps distinct offsets to distinct offsets |
| Dihedral.ActSpec | game.py:31-49 | each reorientation leaves a canonical list of the same length and keeps distinct offsets distinct |
| Dihedral.ActCanon | game.py:31-49 | reorienting a piece depends only on its cells up to order and translation, so reorienting the canonical form equals reorienting the raw list |
| Dihedral.ActCompose | game.py:31-49 | two reorientations in a row are the single reorientation by the composite symmetry |
| Dihedral.ActIdentity | game.py:31-49 | the identity reorientation leaves a canonical piece unchanged |
| Dihedral.RotationsInverse | game.py:41-49 | `rotCCW` undoes `rotCW`, and `rotCW` undoes `rotCCW`, on every canonical piece |
| Dihedral.FlipsInvolutive | game.py:31-39 | `flipH` twice and `flipV` twice each give the piece back |
| Dihedral.RotPowAct | game.py:69-73 | n successive `rotCW` calls act as the single symmetry "n quarter turns" |
| Dihedral.RotCWFourTimes | game.py:69-75 | four `rotCW` calls bring a canonical piece back to itself, so the flip in `__eq__` applies to the original piece |
| Dihedral.ImageSymOnto | game.py:68-80 | each of the eight symmetries of the square is one of the eight orientations `__eq__` tries |
| Dihedral.ImageAct | game.py:68-80 | on a canonical piece, the k-th list `__eq__` compares is the piece reoriented by the k-th symmetry |
| Dihedral.SymEqIff | game.py:56-83 | `__eq__` holds exactly when some symmetry of the square maps self's offsets onto other's (both directions) |
| Dihedral.SymEqReflexive | game.py:56-83 | every piece is equal to itself |
| Dihedral.SymEqSymmetric | game.py:56-83 | if a canonical piece equals another, the other is canonical and equals it back |
| Dihedral.SymEqTransitive | game.py:56-83 | equality of canonical pieces is transitive |
| Pieces.Piece.constructor | game.py:10-13 | a new piece holds the canonical form of its offsets and sits at (0, 0) |
| Pieces.Piece.MoveTo | game.py:15-16 | the position becomes the new one, and the offsets are untouched |
| Pieces.Piece.Normalize | game.py:51-54 | the offsets become their normalisation: same length, minima 0, order kept |
| Pieces.Piece.FlipH | game.py:31-34 | the offsets become the canonical form of their mirror image in x, the piece stays canonical, and the piece itself is returned |
| Pieces.Piece.FlipV | game.py:36-39 | the offsets become the canonical form of their mirror image in y, the piece stays canonical, and the piece itself is returned |
| Pieces.Piece.RotCCW | game.py:41-44 | the offsets become the canonical form of their counter-clockwise quarter turn, and the piece itself is returned |
| Pieces.Piece.RotCW | game.py:46-49 | the offsets become the canonical form of their clockwise quarter turn, and the piece itself is returned |
| Pieces.Piece.TryRotations | game.py:69-73 | on a match the offsets equal `other.offsets`, reached at the first number of quarter turns below four that maps the start onto `other`; no match means no such number exists and the piece has made four turns |
| Pieces.Piece.Equals | game.py:56-83 | the answer is exactly the symmetry relation between the two offset lists as they were on entry, and both pieces are left unchanged |
| Pieces.Piece.NotEquals | game.py:85-86 | the answer is the negation of that relation, with both pieces left unchanged |
| Generator.NeighborsAreAdjacent | game.py:103-114 | the four directions of `bfs_extend` reach exactly the cells that share an edge with `fro` |
| Generator.AppendGrown | game.py:119-120 | adding a queued snapshot's next cell gives a list that starts at the origin, has no repeated cell, grows edge to edge, and has at most five cells |
| Generator.LevelAppend | game.py:116 | queueing one snapshot adds one to the count of its size and changes no other count |
| Generator.BfsExtend | game.py:103-116 | the neighbour is queued exactly when the piece lacks it, every queued snapshot stays well formed, and only the count of snapshots of the piece's size grows |
| Generator.Contains | game.py:122 | the membership test holds exactly when some listed piece is equal to the candidate under `__eq__`, and the candidate is left unchanged |
| Generator.AppendDistinct | game.py:122-123 | appending a canonical grown piece that equals no listed piece keeps the list pairwise different under `__eq__` |
| Generator.AddIfNew | game.py:122-123 | the list grows by one fresh piece holding the canonical form exactly when no listed piece is equal to it, and otherwise stays the same |
| Generator.QueueExtensions | game.py:125-130 | the queue gains exactly the extensions of the piece, from each cell in order and in the four directions in order, skipping neighbours the piece holds; every snapshot stays well formed and only the count of the piece's size grows |
| Generator.ExtensionsMembers | game.py:103-130 | a snapshot is queued by extending a piece from a list of cells exactly when it holds the piece and a cell the piece lacks that shares an edge with one of those cells |
| Generator.ExtensionsValid | game.py:125-130 | every extension of a grown piece of fewer than five cells is a well-formed snapshot |
| Generator.LevelUnchanged | game.py:125-130 | queueing snapshots of other sizes leaves the count of n-cell snapshots unchanged |
| Generator.SearchRound | game.py:119-130 | one round drops the first snapshot and appends exactly the extensions of its completed piece when that piece is below five cells; the piece list grows exactly when the completed piece is new, and then keeps every earlier piece in order and appends one fresh piece holding the canonical form of the completed piece; validity of queue and list is kept and the round lowers the size counts |
| Generator.LevelsDecrease | game.py:118-130 | dropping the first snapshot and queueing only snapshots one cell larger lowers the count at the dropped size and keeps every smaller size, so the search ends |
| Generator.PieceRegistry.constructor | game.py:8 | FULL_SET starts unset, and the registry invariant holds |
| Generator.PieceRegistry.MakePieces | game.py:88-134 | returns FULL_SET when it is set; otherwise returns fresh pieces that are canonical, grown from one cell, of at most five cells and pairwise different under `__eq__`, and stores them in FULL_SET |
| GameState.EmptyBoard | game.py:148 | the flat board has 20 rows of 20 zeros |
| Pieces.Piece.Clone | game.py:139 | the copy `copy.deepcopy` makes of one piece has the same offsets and the same position as the original |
| GameState.DeepCopy | game.py:139 | the copy is a list of fresh pieces with the same offsets and positions |
| GameState.Player.constructor | game.py:136-141 | a player holds its own fresh copy of FULL_SET, or nothing when it was never built, has played nothing, and has its name |
| GameState.MakePlayers | game.py:146 | four distinct fresh players named "temp", none has played, each holds fresh pieces with the offsets and positions of FULL_SET's pieces, no player holds one of FULL_SET's own Piece objects, no two players hold the same Piece object, and the registry keeps its invariant |
| GameState.Deal | game.py:145-146 | building FULL_SET and then the players keeps a FULL_SET that was already built and leaves the registry valid; the four players hold private copies of FULL_SET that share no Piece object with FULL_SET or with each other |
| GameState.Game.constructor | game.py:144-149 | the game builds FULL_SET, keeping it if it was already built, and leaves the registry valid for the next game; it then has four distinct players each holding fresh pieces with the offsets and positions of FULL_SET's pieces, none of them one of FULL_SET's own Piece objects and none held by two players, an empty board map, a 20 by 20 board of zeros, and turn 0 |
| GameState.Game.IsValidMove | game.py:151-152 | every move is accepted |
| GameState.Game.TakeTurn | game.py:154-157 | a valid move advances the turn by one and records the piece under its position, and an invalid one changes nothing |

## Left out

- `print_shape` (game.py:18-29) writes to the console. It is output only, so it is not modelled.
- render.py and run.py are not part of this model. They draw the board and start the program.
- Pieces.Piece.constructor: `Piece.__init__` fails (`min` of an empty list) when given no offsets. The model requires at least one offset instead of modelling that exception. `make_pieces` never builds an empty piece.
- Pieces.Piece.Normalize, Pieces.Piece.FlipH, Pieces.Piece.FlipV, Pieces.Piece.RotCCW, Pieces.Piece.RotCW: for the same reason, these require a non-empty offset list.
- `sorted` is modelled as insertion sort. Any correct sort returns the same list (Geometry.SortedUnique), so the choice does not change any result.
- Pieces.Piece.TryRotations: the two loops of `__eq__` are the same code, so each runs as one call to this method. `Equals` does the restore from `memo` that game.py performs inside each loop.
- Pieces.Piece.Equals: `self.offsets = memo` makes the piece share the copied list object. List identity is not modelled; only the restored contents are.
- Pieces.Piece.FlipH, Pieces.Piece.FlipV, Pieces.Piece.RotCCW, Pieces.Piece.RotCW: `return self` is an out-parameter that is proved equal to the receiver.
- Generator.PieceRegistry.MakePieces: the class attribute `Piece.FULL_SET` is a field of a registry object that the caller passes in.
- Generator.PieceRegistry.MakePieces: the `Queue` object is a sequence of snapshots that the loop reassigns. The body of the loop is the method SearchRound, and the two nested loops that queue extensions are QueueExtensions.
- Generator.PieceRegistry.MakePieces: the model does not prove that the search yields all 21 free polyominoes of one to five cells, or exactly 21 pieces. It proves only what every returned piece satisfies and that no two of them are equal.
- Generator.Contains: Python 2 list membership is modelled as an identity test, then `__eq__` against each element in order. The candidate is a new object, so the identity test never matches.
- GameState.DeepCopy: `copy.deepcopy` keeps a memo keyed by object identity, so an object reached twice is copied once. The pieces of FULL_SET are distinct objects and their offset lists are values in the model, so it copies each piece field by field.
- GameState.Game.TakeTurn: `board_flat` is never updated by `take_turn` (marked TODO in game.py), and the model does not update it either.
- Integers are unbounded, as in Python, so no overflow is modelled.
