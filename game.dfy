/** The players and the game state: each player gets a deep copy of the full
    piece set, and a turn places a piece on the board at its position. */
module GameState {
  import opened Geometry
  import opened Pieces
  import opened Generator

  /** The board is BOARD by BOARD cells. */
  const BOARD := 20

  /** `[[0] * BOARD for i in range(BOARD)]`: BOARD rows of BOARD zeros. */
  function EmptyBoard(): (b: seq<seq<int>>)
    ensures |b| == BOARD
    ensures forall r :: 0 <= r < BOARD ==> |b[r]| == BOARD && forall c :: 0 <= c < BOARD ==> b[r][c] == 0
  {
    seq(BOARD, _ => seq(BOARD, _ => 0))
  }

  /** A piece-by-piece copy of a list, as `copy.deepcopy` makes of FULL_SET:
      new Piece objects with the same offsets and positions. */
  method DeepCopy(ps: seq<Piece>) returns (copies: seq<Piece>)
    ensures |copies| == |ps|
    ensures forall k :: 0 <= k < |ps| ==> fresh(copies[k])
    ensures forall k :: 0 <= k < |ps| ==> copies[k].offsets == ps[k].offsets && copies[k].pos == ps[k].pos
  {
    copies := [];
    var k := 0;
    while k < |ps|
      invariant 0 <= k <= |ps| && |copies| == k
      invariant forall m :: 0 <= m < k ==> fresh(copies[m])
      invariant forall m :: 0 <= m < k ==> copies[m].offsets == ps[m].offsets && copies[m].pos == ps[m].pos
    {
      var c := new Piece.Clone(ps[k]);
      copies := copies + [c];
      k := k + 1;
    }
  }

  class Player {
    var pieces: Option<seq<Piece>>
    var played: seq<Piece>
    var name: string

    /** `Player(name)`: a private copy of FULL_SET (or nothing when it was
        never built), no pieces played yet. */
    constructor (registry: PieceRegistry, name: string)
      ensures registry.fullSet.None? ==> pieces.None?
      ensures registry.fullSet.Some? ==>
        && pieces.Some?
        && |pieces.value| == |registry.fullSet.value|
        && (forall k :: 0 <= k < |pieces.value| ==> fresh(pieces.value[k]))
        && (forall k :: 0 <= k < |pieces.value| ==>
              pieces.value[k].offsets == registry.fullSet.value[k].offsets &&
              pieces.value[k].pos == registry.fullSet.value[k].pos)
      ensures played == [] && this.name == name
    {
      if registry.fullSet.Some? {
        var copies := DeepCopy(registry.fullSet.value);
        pieces := Some(copies);
      } else {
        pieces := None;
      }
      played := [];
      this.name := name;
    }
  }

  /** The player holds a copy of the full set: pieces with the same
      offsets and positions. */
  ghost predicate HoldsCopy(p: Player, full: seq<Piece>)
    reads p, p.pieces.value, full
    requires p.pieces.Some?
  {
    && |p.pieces.value| == |full|
    && forall k :: 0 <= k < |full| ==>
         p.pieces.value[k].offsets == full[k].offsets && p.pieces.value[k].pos == full[k].pos
  }

  /** Two lists of pieces share no Piece object. */
  predicate Apart(a: seq<Piece>, b: seq<Piece>) {
    forall k, l :: 0 <= k < |a| && 0 <= l < |b| ==> a[k] != b[l]
  }

  /** `[Player("temp") for i in range(4)]`: four players, each holding a
      private copy of FULL_SET that shares no Piece object with FULL_SET or
      with another player. */
  method MakePlayers(registry: PieceRegistry) returns (ps: seq<Player>)
    requires registry.fullSet.Some? && registry.Valid()
    ensures registry.Valid()
    ensures |ps| == 4
    ensures forall m :: 0 <= m < 4 ==> fresh(ps[m])
    ensures forall m, n :: 0 <= m < n < 4 ==> ps[m] != ps[n]
    ensures forall m :: 0 <= m < 4 ==>
      && ps[m].name == "temp" && ps[m].played == [] && ps[m].pieces.Some?
      && HoldsCopy(ps[m], registry.fullSet.value)
      && (forall k :: 0 <= k < |ps[m].pieces.value| ==> fresh(ps[m].pieces.value[k]))
      && Apart(ps[m].pieces.value, registry.fullSet.value)
    ensures forall m, n :: 0 <= m < n < 4 ==> Apart(ps[m].pieces.value, ps[n].pieces.value)
  {
    ps := [];
    // The list each player holds, so that what is proved of the lists does
    // not depend on the heap.
    ghost var hands: seq<seq<Piece>> := [];
    ghost var full := registry.fullSet.value;
    var i := 0;
    while i < 4
      invariant 0 <= i <= 4 && |ps| == i && |hands| == i
      invariant forall m :: 0 <= m < i ==> fresh(ps[m]) && ps[m].pieces == Some(hands[m])
      invariant forall m, n :: 0 <= m < n < i ==> ps[m] != ps[n]
      invariant forall m :: 0 <= m < i ==> ps[m].name == "temp" && ps[m].played == []
      invariant forall m :: 0 <= m < i ==> HoldsCopy(ps[m], full)
      invariant forall m, k :: 0 <= m < i && 0 <= k < |hands[m]| ==> fresh(hands[m][k])
      invariant forall m :: 0 <= m < i ==> Apart(hands[m], full)
      invariant forall m, n :: 0 <= m < n < i ==> Apart(hands[m], hands[n])
    {
      var p := new Player(registry, "temp");
      assert forall m :: 0 <= m < i ==> Apart(hands[m], p.pieces.value);
      ps := ps + [p];
      hands := hands + [p.pieces.value];
      i := i + 1;
    }
  }

  /** The set-up of `Game()`: build FULL_SET, then deal the players. */
  method Deal(registry: PieceRegistry) returns (ps: seq<Player>)
    requires registry.Valid()
    modifies registry
    ensures registry.fullSet.Some? && registry.Valid()
    ensures old(registry.fullSet).Some? ==> registry.fullSet == old(registry.fullSet)
    ensures |ps| == 4
    ensures forall i :: 0 <= i < 4 ==>
      && ps[i].name == "temp" && ps[i].played == [] && ps[i].pieces.Some?
      && HoldsCopy(ps[i], registry.fullSet.value)
      && (forall k :: 0 <= k < |ps[i].pieces.value| ==> fresh(ps[i].pieces.value[k]))
      && Apart(ps[i].pieces.value, registry.fullSet.value)
    ensures forall i, j :: 0 <= i < j < 4 ==> ps[i] != ps[j]
    ensures forall i, j :: 0 <= i < j < 4 ==> Apart(ps[i].pieces.value, ps[j].pieces.value)
  {
    var _ := registry.MakePieces();
    ps := MakePlayers(registry);
  }

  class Game {
    var players: seq<Player>
    var boardPieces: map<Cell, Piece>
    var boardFlat: seq<seq<int>>
    var turn: int

    /** Four players, a BOARD by BOARD board, a non-negative turn count. */
    ghost predicate Valid()
      reads this
    {
      && |players| == 4
      && |boardFlat| == BOARD
      && (forall r :: 0 <= r < |boardFlat| ==> |boardFlat[r]| == BOARD)
      && turn >= 0
    }

    /** `Game()`: build FULL_SET, then four players named "temp" each holding
        their own copy of it, an empty board and turn 0. */
    constructor (registry: PieceRegistry)
      requires registry.Valid()
      modifies registry
      ensures registry.fullSet.Some?
      ensures old(registry.fullSet).Some? ==> registry.fullSet == old(registry.fullSet)
      ensures |players| == 4 && Valid()
      ensures registry.Valid()
      ensures forall i :: 0 <= i < 4 ==>
        && players[i].name == "temp" && players[i].played == [] && players[i].pieces.Some?
        && HoldsCopy(players[i], registry.fullSet.value)
        && (forall k :: 0 <= k < |players[i].pieces.value| ==>
              fresh(players[i].pieces.value[k]))
        && Apart(players[i].pieces.value, registry.fullSet.value)
      ensures forall i, j :: 0 <= i < j < 4 ==> players[i] != players[j]
      ensures forall i, j :: 0 <= i < j < 4 ==> Apart(players[i].pieces.value, players[j].pieces.value)
      ensures boardPieces == map[] && turn == 0
      ensures boardFlat == EmptyBoard()
    {
      var ps := Deal(registry);
      players := ps;
      boardPieces := map[];
      boardFlat := EmptyBoard();
      turn := 0;
    }

    /** `is_valid_move`: no placement rule is checked yet, so every move is
        accepted. */
    function IsValidMove(piece: Piece): (ok: bool)
      ensures ok
    {
      true
    }

    /** `take_turn`: a valid move advances the turn and records the piece under
        its position; the flat board is not updated. */
    method TakeTurn(piece: Piece)
      requires Valid()
      modifies this`turn, this`boardPieces
      ensures Valid()
      ensures IsValidMove(piece) ==> turn == old(turn) + 1 && boardPieces == old(boardPieces)[piece.pos := piece]
      ensures !IsValidMove(piece) ==> turn == old(turn) && boardPieces == old(boardPieces)
      ensures piece.pos in boardPieces && boardPieces[piece.pos] == piece
    {
      if IsValidMove(piece) {
        turn := turn + 1;
        boardPieces := boardPieces[piece.pos := piece];
      }
    }
  }
}
