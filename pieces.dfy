/** A Blokus piece: a list of cell offsets kept sorted and shifted so that the
    smallest x and the smallest y are both 0, plus a board position. The
    reorientations rewrite the offsets in place; `Equals` tries the eight
    orientations of one piece against another and restores what it changed. */
module Pieces {
  import opened Geometry
  import opened Dihedral

  class Piece {
    var offsets: Shape
    var pos: Cell

    /** The offsets are sorted and normalised, as every operation leaves them. */
    ghost predicate Valid()
      reads this
    {
      Canonical(offsets)
    }

    /** `Piece(off)`: sort, normalise, place at the origin. An empty offset list
        has no minimum, so `Piece.__init__` in game.py fails on it. */
    constructor (off: seq<Cell>)
      requires |off| > 0
      ensures offsets == Canon(off) && pos == (0, 0)
      ensures Valid()
    {
      offsets := SortCells(off);
      new;
      Normalize();
      pos := (0, 0);
      CanonSpec(off);
    }

    /** A field-by-field copy, as `copy.deepcopy` makes of a piece. */
    constructor Clone(src: Piece)
      ensures offsets == src.offsets && pos == src.pos
    {
      offsets := src.offsets;
      pos := src.pos;
    }

    method MoveTo(newpos: Cell)
      modifies this`pos
      ensures pos == newpos
    {
      pos := newpos;
    }

    /** `_normalize`: shift every offset by the minimum x and minimum y. */
    method Normalize()
      requires |offsets| > 0
      modifies this`offsets
      ensures offsets == NormalizeCells(old(offsets))
      ensures Normalized(offsets) && |offsets| == |old(offsets)|
      ensures Ascending(old(offsets)) ==> Ascending(offsets)
    {
      NormalizeSpec(offsets);
      var mx := MinX(offsets);
      var my := MinY(offsets);
      offsets := Translate(offsets, (-mx, -my));
    }

    /** Map every offset by g, sort, normalise; the common body of the four
        reorientations. */
    method Reorient(g: Sym)
      requires |offsets| > 0
      modifies this`offsets
      ensures offsets == Act(g, old(offsets)) && Valid()
    {
      ActSpec(g, offsets);
      offsets := SortCells(MapCells(g, offsets));
      Normalize();
    }

    /** `flipH`: (x, y) becomes (-x, y). */
    method FlipH() returns (p: Piece)
      requires |offsets| > 0
      modifies this`offsets
      ensures offsets == Act(FlipHSym, old(offsets)) && Valid()
      ensures p == this
    {
      Reorient(FlipHSym);
      p := this;
    }

    /** `flipV`: (x, y) becomes (x, -y). */
    method FlipV() returns (p: Piece)
      requires |offsets| > 0
      modifies this`offsets
      ensures offsets == Act(FlipVSym, old(offsets)) && Valid()
      ensures p == this
    {
      Reorient(FlipVSym);
      p := this;
    }

    /** `rotCCW`: (x, y) becomes (-y, x). */
    method RotCCW() returns (p: Piece)
      requires |offsets| > 0
      modifies this`offsets
      ensures offsets == Act(RotCCWSym, old(offsets)) && Valid()
      ensures p == this
    {
      Reorient(RotCCWSym);
      p := this;
    }

    /** `rotCW`: (x, y) becomes (y, -x). */
    method RotCW() returns (p: Piece)
      requires |offsets| > 0
      modifies this`offsets
      ensures offsets == Act(RotCWSym, old(offsets)) && Valid()
      ensures p == this
    {
      Reorient(RotCWSym);
      p := this;
    }

    /** One loop of `__eq__`: up to four times, report a match of the offsets
        with `other.offsets`, else turn a quarter clockwise. It stops at the
        first match, leaving the matching orientation in place. */
    method TryRotations(other: Piece) returns (found: bool)
      requires |offsets| == |other.offsets|
      modifies this`offsets
      ensures other.offsets == old(other.offsets)
      ensures found ==> offsets == old(other.offsets)
      ensures found && |old(offsets)| > 0 ==> exists i :: FirstRotation(old(offsets), old(other.offsets), i)
      ensures !found ==> |old(offsets)| > 0 && other != this
      ensures !found ==> offsets == RotPow(old(offsets), 4)
      ensures !found ==> forall i :: 0 <= i < 4 ==> RotPow(old(offsets), i) != old(other.offsets)
    {
      ghost var start := offsets;
      ghost var target := other.offsets;
      var i := 0;
      while i < 4
        invariant 0 <= i <= 4
        invariant |start| == |target| && other.offsets == target
        invariant i > 0 ==> other != this
        invariant |start| == 0 ==> i == 0 && offsets == start
        invariant |start| > 0 ==> offsets == RotPow(start, i)
        invariant forall k :: 0 <= k < i ==> RotPow(start, k) != target
      {
        if offsets == other.offsets {
          assert |start| > 0 ==> FirstRotation(start, target, i);
          return true;
        }
        assert |start| > 0;
        ExtendMiss(start, target, i);
        var _ := RotCW();
        RotPowSucc(start, i);
        i := i + 1;
      }
      return false;
    }

    /** `__eq__`: compare `other.offsets` with this piece's offsets under four
        quarter turns, then flip and try four more, restoring the offsets from
        the copy `memo` before answering. */
    method Equals(other: Piece) returns (b: bool)
      modifies this`offsets
      ensures unchanged(this)
      ensures b == SymEq(old(offsets), old(other.offsets))
    {
      if |offsets| != |other.offsets| {
        return false;
      }
      var memo := offsets;
      ghost var target := other.offsets;
      var found := TryRotations(other);
      if found {
        offsets := memo;
        if |memo| > 0 {
          ghost var i :| FirstRotation(memo, target, i);
          MatchRotated(memo, target, i);
        }
        return true;
      }
      var _ := FlipH();
      ghost var flipped := offsets;
      found := TryRotations(other);
      offsets := memo;
      if found {
        ghost var i :| FirstRotation(flipped, target, i);
        MatchMirrored(memo, target, i);
        return true;
      }
      NotSymEq(memo, target);
      return false;
    }

    /** `__ne__`: the negation of `__eq__`. */
    method NotEquals(other: Piece) returns (b: bool)
      modifies this`offsets
      ensures unchanged(this)
      ensures b == !SymEq(old(offsets), old(other.offsets))
    {
      var e := Equals(other);
      b := !e;
    }
  }
}
