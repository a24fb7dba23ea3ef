/** `Piece.make_pieces`: breadth-first growth of every piece of up to BLOCKS
    cells from a single cell at the origin, keeping one representative of each
    shape up to rotation and reflection, memoised in FULL_SET. */
module Generator {
  import opened Geometry
  import opened Dihedral
  import opened Pieces

  datatype Option<T> = None | Some(value: T)

  /** The largest piece has five cells. */
  const BLOCKS := 5

  /** Two cells share an edge. */
  predicate Adjacent(a: Cell, b: Cell) {
    || (a.0 == b.0 && (a.1 == b.1 + 1 || a.1 + 1 == b.1))
    || (a.1 == b.1 && (a.0 == b.0 + 1 || a.0 + 1 == b.0))
  }

  /** The direction table of `bfs_extend`: 0 north, 1 south, 2 east, 3 west. */
  function Neighbor(fro: Cell, nsew: int): Cell
    requires 0 <= nsew < 4
  {
    var (x, y) := fro;
    if nsew == 0 then (x, y + 1)
    else if nsew == 1 then (x, y - 1)
    else if nsew == 2 then (x + 1, y)
    else (x - 1, y)
  }

  /** The four directions reach exactly the cells adjacent to `fro`. */
  lemma NeighborsAreAdjacent(fro: Cell, c: Cell)
    ensures Adjacent(fro, c) <==> exists nsew :: 0 <= nsew < 4 && Neighbor(fro, nsew) == c
  {
    if Adjacent(fro, c) {
      if c == (fro.0, fro.1 + 1) {
        assert Neighbor(fro, 0) == c;
      } else if c == (fro.0, fro.1 - 1) {
        assert Neighbor(fro, 1) == c;
      } else if c == (fro.0 + 1, fro.1) {
        assert Neighbor(fro, 2) == c;
      } else {
        assert Neighbor(fro, 3) == c;
      }
    }
  }

  /** A list of cells as the search builds it: it starts at the origin, has no
      repeated cell, and each later cell touches an earlier one. */
  predicate Grown(g: seq<Cell>) {
    && |g| > 0
    && g[0] == (0, 0)
    && NoDup(g)
    && forall i :: 0 < i < |g| ==> exists j :: 0 <= j < i && Adjacent(g[j], g[i])
  }

  /** A shape some growth sequence of at most BLOCKS cells normalises to. */
  ghost predicate Polyomino(s: Shape) {
    exists g :: Grown(g) && |g| <= BLOCKS && Canon(g) == s
  }

  /** `snap(piece, x, y)`: a copy of the cells so far and the cell to add next. */
  datatype Snapshot = Snapshot(cells: seq<Cell>, next: Cell)

  /** What every queued snapshot satisfies: either the seed `([], (0, 0))`, or
      a grown list with fewer than BLOCKS cells and a new cell touching it. */
  predicate ValidSnapshot(s: Snapshot) {
    && |s.cells| < BLOCKS
    && (if s.cells == [] then s.next == (0, 0)
        else
          && Grown(s.cells)
          && s.next !in s.cells
          && exists j :: 0 <= j < |s.cells| && Adjacent(s.cells[j], s.next))
  }

  predicate AllValid(q: seq<Snapshot>) {
    forall k :: 0 <= k < |q| ==> ValidSnapshot(q[k])
  }

  /** Appending the snapshot's next cell (`piece.append(bump)`) gives a grown
      list of at most BLOCKS cells. */
  lemma AppendGrown(s: Snapshot)
    requires ValidSnapshot(s)
    ensures Grown(s.cells + [s.next]) && |s.cells + [s.next]| <= BLOCKS
  {
    var g := s.cells + [s.next];
    if s.cells != [] {
      forall i, j | 0 <= i < j < |g| ensures g[i] != g[j] {
        if j == |s.cells| {
          assert g[i] in s.cells;
        } else {
          assert g[i] == s.cells[i] && g[j] == s.cells[j];
        }
      }
      forall i | 0 < i < |g| ensures exists j :: 0 <= j < i && Adjacent(g[j], g[i]) {
        if i == |s.cells| {
          var j :| 0 <= j < |s.cells| && Adjacent(s.cells[j], s.next);
          assert Adjacent(g[j], g[i]);
        } else {
          var j :| 0 <= j < i && Adjacent(s.cells[j], s.cells[i]);
          assert Adjacent(g[j], g[i]);
        }
      }
    }
  }

  /** The number of queued snapshots holding exactly n cells. */
  function Level(q: seq<Snapshot>, n: int): nat {
    if q == [] then 0 else (if |q[0].cells| == n then 1 else 0) + Level(q[1..], n)
  }

  lemma {:induction false} LevelAppend(q: seq<Snapshot>, s: Snapshot, n: int)
    ensures Level(q + [s], n) == Level(q, n) + (if |s.cells| == n then 1 else 0)
  {
    if q != [] {
      assert (q + [s])[1..] == q[1..] + [s];
      LevelAppend(q[1..], s, n);
    }
  }

  /** `bfs_extend(piece, fro, nsew)`: queue the neighbour of `fro` in
      direction `nsew` unless the piece already holds it. */
  method BfsExtend(q: seq<Snapshot>, piece: seq<Cell>, fro: Cell, nsew: int) returns (q': seq<Snapshot>)
    requires 0 <= nsew < 4
    ensures var c := Neighbor(fro, nsew);
      q' == if c in piece then q else q + [Snapshot(piece, c)]
    ensures Grown(piece) && |piece| < BLOCKS && fro in piece && AllValid(q) ==> AllValid(q')
    ensures forall n :: Level(q', n) == Level(q, n) + (if q' != q && |piece| == n then 1 else 0)
  {
    var next := Neighbor(fro, nsew);
    if next !in piece {
      q' := q + [Snapshot(piece, next)];
      forall n ensures Level(q', n) == Level(q, n) + (if |piece| == n then 1 else 0) {
        LevelAppend(q, Snapshot(piece, next), n);
      }
      if Grown(piece) && |piece| < BLOCKS && fro in piece && AllValid(q) {
        var j :| 0 <= j < |piece| && piece[j] == fro;
        assert Adjacent(piece[j], next);
        assert ValidSnapshot(q'[|q|]);
      }
    } else {
      q' := q;
    }
  }

  /** What `make_pieces` promises of its list: every piece is in canonical form,
      has one to BLOCKS cells, is grown from one cell, and no two pieces are
      the same shape up to rotation and reflection. */
  ghost predicate PiecesOk(ps: seq<Piece>)
    reads ps
  {
    && (forall i :: 0 <= i < |ps| ==> ps[i].Valid() && |ps[i].offsets| <= BLOCKS && Polyomino(ps[i].offsets))
    && (forall i, j :: 0 <= i < |ps| && 0 <= j < |ps| && i != j ==> !SymEq(ps[i].offsets, ps[j].offsets))
  }

  /** `x in ps` on a list of pieces: identity first, then `x.__eq__(ps[k])`. */
  method Contains(ps: seq<Piece>, x: Piece) returns (found: bool)
    modifies x
    ensures unchanged(x)
    ensures found <==> exists k :: 0 <= k < |ps| && SymEq(x.offsets, ps[k].offsets)
  {
    var k := 0;
    while k < |ps|
      invariant 0 <= k <= |ps|
      invariant unchanged(x)
      invariant forall m :: 0 <= m < k ==> !SymEq(x.offsets, ps[m].offsets)
    {
      if x == ps[k] {
        SymEqReflexive(x.offsets);
        return true;
      }
      var e := x.Equals(ps[k]);
      if e {
        return true;
      }
      k := k + 1;
    }
    return false;
  }

  /** A fresh candidate that matches none of the list can be appended. */
  lemma AppendDistinct(ps: seq<Piece>, p: Piece, g: seq<Cell>)
    requires PiecesOk(ps) && p !in ps
    requires Grown(g) && |g| <= BLOCKS && p.offsets == Canon(g) && p.Valid()
    requires forall k :: 0 <= k < |ps| ==> !SymEq(p.offsets, ps[k].offsets)
    ensures PiecesOk(ps + [p])
  {
    var ps' := ps + [p];
    forall i, j | 0 <= i < |ps'| && 0 <= j < |ps'| && i != j
      ensures !SymEq(ps'[i].offsets, ps'[j].offsets)
    {
      if i == |ps| {
        assert !SymEq(p.offsets, ps[j].offsets);
      } else if j == |ps| {
        if SymEq(ps[i].offsets, p.offsets) {
          SymEqSymmetric(ps[i].offsets, p.offsets);
        }
      } else {
        assert ps'[i] == ps[i] && ps'[j] == ps[j];
      }
    }
  }

  /** The body of `if ... Piece(piece) not in pieces: pieces.append(Piece(piece))`:
      a candidate piece is built for the test and a second one is appended. */
  method AddIfNew(pieces: seq<Piece>, piece: seq<Cell>) returns (ps: seq<Piece>)
    requires PiecesOk(pieces) && Grown(piece) && |piece| <= BLOCKS
    ensures PiecesOk(ps)
    ensures (ps == pieces) <==> exists k :: 0 <= k < |pieces| && SymEq(Canon(piece), pieces[k].offsets)
    ensures ps != pieces ==> |ps| == |pieces| + 1 && ps[..|pieces|] == pieces
    ensures ps != pieces ==> fresh(ps[|pieces|]) && ps[|pieces|].offsets == Canon(piece)
    ensures forall p :: p in ps ==> p in pieces || fresh(p)
  {
    var candidate := new Piece(piece);
    var dup := Contains(pieces, candidate);
    if dup {
      ps := pieces;
    } else {
      var p := new Piece(piece);
      AppendDistinct(pieces, p, piece);
      ps := pieces + [p];
    }
  }

  /** The snapshots `bfs_extend(piece, fro, nsew)` queues for nsew = 0 .. n - 1:
      the neighbour in each direction that the piece does not hold yet. */
  function DirExtensions(piece: seq<Cell>, fro: Cell, n: nat): seq<Snapshot>
    requires n <= 4
  {
    if n == 0 then []
    else
      var c := Neighbor(fro, n - 1);
      DirExtensions(piece, fro, n - 1) + (if c in piece then [] else [Snapshot(piece, c)])
  }

  /** The snapshots queued by `for fro in cells: for nsew in range(4): ...`, in
      queue order. */
  function Extensions(piece: seq<Cell>, cells: seq<Cell>): seq<Snapshot>
  {
    if cells == [] then []
    else Extensions(piece, cells[..|cells| - 1]) + DirExtensions(piece, cells[|cells| - 1], 4)
  }

  lemma {:induction false} DirExtensionsMembers(piece: seq<Cell>, fro: Cell, n: nat, x: Snapshot)
    requires n <= 4
    ensures x in DirExtensions(piece, fro, n) <==>
      x.cells == piece && x.next !in piece && exists d :: 0 <= d < n && Neighbor(fro, d) == x.next
  {
    if n > 0 {
      DirExtensionsMembers(piece, fro, n - 1, x);
      if x.cells == piece && x.next !in piece && Neighbor(fro, n - 1) != x.next {
        if d :| 0 <= d < n && Neighbor(fro, d) == x.next {
          assert d < n - 1;
        }
      }
    }
  }

  /** The extensions of a piece are exactly the snapshots of the piece with a
      cell it lacks that shares an edge with one of `cells`. */
  lemma {:induction false} ExtensionsMembers(piece: seq<Cell>, cells: seq<Cell>, x: Snapshot)
    ensures x in Extensions(piece, cells) <==>
      x.cells == piece && x.next !in piece && exists j :: 0 <= j < |cells| && Adjacent(cells[j], x.next)
  {
    if cells != [] {
      var init, last := cells[..|cells| - 1], cells[|cells| - 1];
      ExtensionsMembers(piece, init, x);
      DirExtensionsMembers(piece, last, 4, x);
      NeighborsAreAdjacent(last, x.next);
      if x.cells == piece && x.next !in piece {
        if j :| 0 <= j < |cells| && Adjacent(cells[j], x.next) {
          if j < |cells| - 1 {
            assert Adjacent(init[j], x.next);
          }
        }
        if j :| 0 <= j < |init| && Adjacent(init[j], x.next) {
          assert Adjacent(cells[j], x.next);
        }
      }
    }
  }

  /** The extensions of a grown piece below BLOCKS cells are all well formed. */
  lemma ExtensionsValid(piece: seq<Cell>)
    requires Grown(piece) && |piece| < BLOCKS
    ensures AllValid(Extensions(piece, piece))
  {
    var e := Extensions(piece, piece);
    forall k | 0 <= k < |e| ensures ValidSnapshot(e[k]) {
      ExtensionsMembers(piece, piece, e[k]);
    }
  }

  /** Queueing snapshots none of which has n cells leaves the count at n alone. */
  lemma {:induction false} LevelUnchanged(q: seq<Snapshot>, e: seq<Snapshot>, n: int)
    requires forall k :: 0 <= k < |e| ==> |e[k].cells| != n
    ensures Level(q + e, n) == Level(q, n)
  {
    if e != [] {
      var init := e[..|e| - 1];
      var last := e[|e| - 1];
      assert forall k :: 0 <= k < |init| ==> init[k] == e[k];
      LevelUnchanged(q, init, n);
      assert q + e == (q + init) + [last];
      assert |last.cells| != n;
      LevelAppend(q + init, last, n);
    } else {
      assert q + e == q;
    }
  }

  /** `for fro in piece: for nsew in range(4): bfs_extend(piece, fro, nsew)`. */
  method QueueExtensions(q: seq<Snapshot>, piece: seq<Cell>) returns (q': seq<Snapshot>)
    ensures q' == q + Extensions(piece, piece)
    ensures Grown(piece) && |piece| < BLOCKS && AllValid(q) ==> AllValid(q')
    ensures forall n :: n != |piece| ==> Level(q', n) == Level(q, n)
  {
    q' := q;
    var f := 0;
    while f < |piece|
      invariant 0 <= f <= |piece|
      invariant q' == q + Extensions(piece, piece[..f])
    {
      var fro := piece[f];
      ghost var before := q';
      var nsew := 0;
      while nsew < 4
        invariant 0 <= nsew <= 4
        invariant q' == before + DirExtensions(piece, fro, nsew)
      {
        q' := BfsExtend(q', piece, fro, nsew);
        nsew := nsew + 1;
      }
      assert piece[..f + 1][..f] == piece[..f];
      f := f + 1;
    }
    assert piece[..|piece|] == piece;
    var e := Extensions(piece, piece);
    if Grown(piece) && |piece| < BLOCKS && AllValid(q) {
      ExtensionsValid(piece);
    }
    forall n | n != |piece| ensures Level(q', n) == Level(q, n) {
      forall k | 0 <= k < |e| ensures |e[k].cells| != n {
        ExtensionsMembers(piece, piece, e[k]);
      }
      LevelUnchanged(q, e, n);
    }
  }

  /** The cells of a snapshot with its next cell added (`piece.append(bump)`). */
  function Completed(s: Snapshot): (g: seq<Cell>)
    ensures |g| == |s.cells| + 1 && g[|s.cells|] == s.next
  {
    s.cells + [s.next]
  }

  /** One round of the search: take the first snapshot, add its next cell,
      keep the piece if it is new, and queue its extensions if it is still
      smaller than BLOCKS. */
  method SearchRound(q: seq<Snapshot>, pieces: seq<Piece>) returns (q': seq<Snapshot>, ps: seq<Piece>)
    requires q != [] && AllValid(q) && PiecesOk(pieces)
    ensures var piece := Completed(q[0]);
      q' == q[1..] + (if |piece| < BLOCKS then Extensions(piece, piece) else [])
    ensures (ps == pieces) <==> exists k :: 0 <= k < |pieces| && SymEq(Canon(Completed(q[0])), pieces[k].offsets)
    ensures ps != pieces ==> |ps| == |pieces| + 1 && ps[..|pieces|] == pieces
    ensures ps != pieces ==> fresh(ps[|pieces|]) && ps[|pieces|].offsets == Canon(Completed(q[0]))
    ensures AllValid(q') && PiecesOk(ps)
    ensures forall p :: p in ps ==> p in pieces || fresh(p)
    ensures forall n :: n < |q[0].cells| ==> Level(q', n) == Level(q, n)
    ensures Level(q', |q[0].cells|) < Level(q, |q[0].cells|)
  {
    var s := q[0];
    var piece := s.cells + [s.next];
    assert Grown(piece) && |piece| <= BLOCKS by { AppendGrown(s); }
    ps := pieces;
    if |piece| > 0 && |piece| <= BLOCKS {
      ps := AddIfNew(pieces, piece);
    }
    assert AllValid(q[1..]) by {
      forall k | 0 <= k < |q| - 1 ensures ValidSnapshot(q[1..][k]) {
        assert q[1..][k] == q[k + 1];
      }
    }
    if |piece| < BLOCKS {
      q' := QueueExtensions(q[1..], piece);
    } else {
      q' := q[1..];
      assert q' == q[1..] + [];
    }
    LevelsDecrease(q, q');
  }

  /** The holder of `Piece.FULL_SET`, the list `make_pieces` builds once. */
  class PieceRegistry {
    var fullSet: Option<seq<Piece>>

    ghost predicate Valid()
      reads this, if fullSet.Some? then fullSet.value else []
    {
      fullSet.Some? ==> PiecesOk(fullSet.value)
    }

    constructor ()
      ensures fullSet == None && Valid()
    {
      fullSet := None;
    }

    /** `make_pieces`: return FULL_SET if it is set; otherwise run the
        breadth-first search over snapshots, keep each new shape, and store the
        list in FULL_SET. */
    method MakePieces() returns (pieces: seq<Piece>)
      requires Valid()
      modifies this
      ensures fullSet == Some(pieces) && Valid()
      ensures old(fullSet).Some? ==> pieces == old(fullSet).value
      ensures old(fullSet).None? ==> forall p :: p in pieces ==> fresh(p)
      ensures PiecesOk(pieces)
    {
      if fullSet.Some? {
        return fullSet.value;
      }
      pieces := [];
      var q := [Snapshot([], (0, 0))];
      while q != []
        invariant AllValid(q)
        invariant PiecesOk(pieces)
        invariant forall p :: p in pieces ==> fresh(p)
        decreases Level(q, 0), Level(q, 1), Level(q, 2), Level(q, 3), Level(q, 4)
      {
        q, pieces := SearchRound(q, pieces);
      }
      fullSet := Some(pieces);
    }
  }

  /** Popping a snapshot of n cells and queueing only snapshots of n + 1 cells
      lowers the count at level n and keeps every lower level. */
  lemma LevelsDecrease(q: seq<Snapshot>, q': seq<Snapshot>)
    requires q != []
    requires forall n :: n != |q[0].cells| + 1 ==> Level(q', n) == Level(q[1..], n)
    ensures forall n :: n < |q[0].cells| ==> Level(q', n) == Level(q, n)
    ensures Level(q', |q[0].cells|) < Level(q, |q[0].cells|)
  {
  }
}
