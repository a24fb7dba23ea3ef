/** The eight symmetries of the square acting on cell offsets, the four
    reorientations of game.py (`flipH`, `flipV`, `rotCW`, `rotCCW`) as
    members of that group, and the symmetry test of `Piece.__eq__`. */
module Dihedral {
  import opened Geometry

  type Quarter = r: int | 0 <= r < 4

  /** The map (x, y) |-> rotCW^rot(flipH^flip((x, y))). */
  datatype Sym = Sym(rot: Quarter, flip: bool)

  /** rot quarter turns of `rotCW`'s per-offset map (x, y) |-> (y, -x). */
  function RotCell(c: Cell, rot: Quarter): Cell {
    if rot == 0 then c
    else if rot == 1 then (c.1, -c.0)
    else if rot == 2 then (-c.0, -c.1)
    else (-c.1, c.0)
  }

  function Apply(g: Sym, c: Cell): Cell {
    RotCell(if g.flip then (-c.0, c.1) else c, g.rot)
  }

  const Identity: Sym := Sym(0, false)
  /** `rotCW` maps every offset (x, y) to (y, -x). */
  const RotCWSym: Sym := Sym(1, false)
  /** `rotCCW` maps every offset (x, y) to (-y, x). */
  const RotCCWSym: Sym := Sym(3, false)
  /** `flipH` maps every offset (x, y) to (-x, y). */
  const FlipHSym: Sym := Sym(0, true)
  /** `flipV` maps every offset (x, y) to (x, -y). */
  const FlipVSym: Sym := Sym(2, true)

  /** The four constants above are the per-offset maps written in game.py. */
  lemma SourceFormulas(c: Cell)
    ensures Apply(FlipHSym, c) == (-c.0, c.1)
    ensures Apply(FlipVSym, c) == (c.0, -c.1)
    ensures Apply(RotCCWSym, c) == (-c.1, c.0)
    ensures Apply(RotCWSym, c) == (c.1, -c.0)
  {
  }

  /** The symmetry that applies h first and then g. */
  function Compose(g: Sym, h: Sym): Sym {
    if g.flip then Sym((g.rot - h.rot) % 4, !h.flip)
    else Sym((g.rot + h.rot) % 4, h.flip)
  }

  lemma ComposeApply(g: Sym, h: Sym, c: Cell)
    ensures Apply(Compose(g, h), c) == Apply(g, Apply(h, c))
  {
  }

  function Inverse(g: Sym): (r: Sym)
    ensures Compose(r, g) == Identity && Compose(g, r) == Identity
  {
    if g.flip then g else Sym((4 - g.rot) % 4, false)
  }

  lemma InverseApply(g: Sym, c: Cell)
    ensures Apply(Inverse(g), Apply(g, c)) == c
    ensures Apply(g, Apply(Inverse(g), c)) == c
  {
  }

  /** Every symmetry is linear: it commutes with translation. */
  lemma ApplyShift(g: Sym, c: Cell, d: Cell)
    ensures Apply(g, (c.0 + d.0, c.1 + d.1)) == (Apply(g, c).0 + Apply(g, d).0, Apply(g, c).1 + Apply(g, d).1)
  {
  }

  /** The list comprehension `[f(x, y) for (x, y) in offsets]` of one transform. */
  function MapCells(g: Sym, s: seq<Cell>): (r: seq<Cell>)
    ensures |r| == |s|
  {
    seq(|s|, i requires 0 <= i < |s| => Apply(g, s[i]))
  }

  lemma {:induction false} CountMapCells(g: Sym, s: seq<Cell>, p: Cell)
    ensures multiset(MapCells(g, s))[p] == multiset(s)[Apply(Inverse(g), p)]
  {
    if s != [] {
      CountMapCells(g, s[1..], p);
      assert s == [s[0]] + s[1..];
      assert MapCells(g, s) == [Apply(g, s[0])] + MapCells(g, s[1..]);
      InverseApply(g, s[0]);
      InverseApply(g, p);
    }
  }

  lemma MapCellsPerm(g: Sym, x: seq<Cell>, y: seq<Cell>)
    requires multiset(x) == multiset(y)
    ensures multiset(MapCells(g, x)) == multiset(MapCells(g, y))
  {
    forall p ensures multiset(MapCells(g, x))[p] == multiset(MapCells(g, y))[p] {
      CountMapCells(g, x, p);
      CountMapCells(g, y, p);
    }
  }

  lemma MapCellsNoDup(g: Sym, s: seq<Cell>)
    requires NoDup(s)
    ensures NoDup(MapCells(g, s))
  {
  }

  lemma MapCellsCompose(g: Sym, h: Sym, s: seq<Cell>)
    ensures MapCells(g, MapCells(h, s)) == MapCells(Compose(g, h), s)
  {
  }

  /** A Piece transform: map every offset by g, sort, normalise. */
  function Act(g: Sym, s: seq<Cell>): (r: Shape)
    requires |s| > 0
    ensures |r| == |s|
  {
    Canon(MapCells(g, s))
  }

  /** A transform leaves a canonical list with the same number of offsets, and
      distinct offsets stay distinct. */
  lemma ActSpec(g: Sym, s: seq<Cell>)
    requires |s| > 0
    ensures Canonical(Act(g, s)) && |Act(g, s)| == |s|
    ensures NoDup(s) ==> NoDup(Act(g, s))
  {
    CanonSpec(MapCells(g, s));
    if NoDup(s) {
      MapCellsNoDup(g, s);
    }
  }

  /** A transform only looks at the cells of its input up to translation and
      order: applying it to a canonical form is applying it to the original. */
  lemma ActCanon(g: Sym, u: seq<Cell>)
    requires |u| > 0
    ensures Act(g, Canon(u)) == Act(g, u)
  {
    var su := SortCells(u);
    var d := (-MinX(su), -MinY(su));
    assert Canon(u) == Translate(su, d);
    var e := Apply(g, d);
    assert MapCells(g, Translate(su, d)) == Translate(MapCells(g, su), e) by {
      forall i | 0 <= i < |su| ensures Apply(g, Translate(su, d)[i]) == Translate(MapCells(g, su), e)[i] {
        ApplyShift(g, su[i], d);
      }
    }
    SortSpec(u);
    MapCellsPerm(g, su, u);
    TranslatePerm(MapCells(g, su), MapCells(g, u), e);
    CanonCongruent(MapCells(g, Canon(u)), MapCells(g, u), e);
  }

  /** Transforming twice is transforming once by the composite symmetry. */
  lemma ActCompose(g: Sym, h: Sym, a: seq<Cell>)
    requires |a| > 0
    ensures Act(g, Act(h, a)) == Act(Compose(g, h), a)
  {
    ActCanon(g, MapCells(h, a));
    MapCellsCompose(g, h, a);
  }

  lemma ActIdentity(a: seq<Cell>)
    requires Canonical(a)
    ensures Act(Identity, a) == a
  {
    assert MapCells(Identity, a) == a;
    CanonicalFixed(a);
  }

  // ---------------------------------------------------------------------
  // The reorientation laws

  /** `rotCCW` undoes `rotCW` and `rotCW` undoes `rotCCW` on a canonical list. */
  lemma RotationsInverse(s: Shape)
    requires Canonical(s)
    ensures Act(RotCCWSym, Act(RotCWSym, s)) == s
    ensures Act(RotCWSym, Act(RotCCWSym, s)) == s
  {
    assert Compose(RotCCWSym, RotCWSym) == Identity;
    assert Compose(RotCWSym, RotCCWSym) == Identity;
    ActCompose(RotCCWSym, RotCWSym, s);
    ActCompose(RotCWSym, RotCCWSym, s);
    ActIdentity(s);
  }

  /** `flipH` and `flipV` are each their own inverse on a canonical list. */
  lemma FlipsInvolutive(s: Shape)
    requires Canonical(s)
    ensures Act(FlipHSym, Act(FlipHSym, s)) == s
    ensures Act(FlipVSym, Act(FlipVSym, s)) == s
  {
    assert Compose(FlipHSym, FlipHSym) == Identity;
    assert Compose(FlipVSym, FlipVSym) == Identity;
    ActCompose(FlipHSym, FlipHSym, s);
    ActCompose(FlipVSym, FlipVSym, s);
    ActIdentity(s);
  }

  /** n successive `rotCW` calls, as `__eq__` performs them. */
  function RotPow(s: Shape, n: nat): (r: Shape)
    requires |s| > 0
    ensures |r| == |s|
  {
    if n == 0 then s else Act(RotCWSym, RotPow(s, n - 1))
  }

  /** The symmetry performed by n `rotCW` calls. */
  function RotSym(n: nat): Sym {
    if n == 0 then Identity else Compose(RotCWSym, RotSym(n - 1))
  }

  /** One more `rotCW` call composes one more quarter turn. */
  lemma RotPowStep(a: Shape, m: nat)
    requires Canonical(a) && RotPow(a, m) == Act(RotSym(m), a)
    ensures RotPow(a, m + 1) == Act(RotSym(m + 1), a)
  {
    ActCompose(RotCWSym, RotSym(m), a);
  }

  /** Counting the quarter turns up from i to n. */
  lemma {:induction false} RotPowActFrom(a: Shape, i: nat, n: nat)
    requires Canonical(a) && i <= n && RotPow(a, i) == Act(RotSym(i), a)
    ensures RotPow(a, n) == Act(RotSym(n), a)
    decreases n - i
  {
    if i < n {
      RotPowStep(a, i);
      RotPowActFrom(a, i + 1, n);
    }
  }

  /** n `rotCW` calls act as the symmetry RotSym(n). */
  lemma RotPowAct(a: Shape, n: nat)
    requires Canonical(a)
    ensures RotPow(a, n) == Act(RotSym(n), a)
  {
    ActIdentity(a);
    RotPowActFrom(a, 0, n);
  }

  /** Four quarter turns make the identity. */
  lemma RotSymFour()
    ensures RotSym(4) == Identity
  {
  }

  /** Four `rotCW` calls give back the canonical list they started from. */
  lemma RotCWFourTimes(s: Shape)
    requires Canonical(s)
    ensures RotPow(s, 4) == s
  {
    RotPowAct(s, 4);
    RotSymFour();
    ActIdentity(s);
  }

  /** The k-th list `__eq__` compares with `other.offsets`: rotCW^k(self) for
      k < 4, then rotCW^(k-4)(flipH(rotCW^4(self))), since the flip is applied
      to the list left by the first loop. */
  function Image(a: Shape, k: int): (r: Shape)
    requires |a| > 0 && 0 <= k < 8
    ensures |r| == |a|
  {
    if k < 4 then RotPow(a, k) else RotPow(Act(FlipHSym, RotPow(a, 4)), k - 4)
  }

  /** `Piece.__eq__`: equal lengths, and `other` is one of the eight lists the
      loops produce. Two empty lists match at once, before any rotation. */
  predicate SymEq(a: Shape, b: Shape) {
    |a| == |b| && (|a| == 0 || exists k :: 0 <= k < 8 && Image(a, k) == b)
  }

  // Unfolding steps for the loops of `__eq__`.

  lemma RotPowSucc(a: Shape, i: nat)
    requires |a| > 0
    ensures RotPow(a, i + 1) == Act(RotCWSym, RotPow(a, i))
  {
  }

  lemma ImageRotated(a: Shape, i: nat)
    requires |a| > 0 && i < 4
    ensures Image(a, i) == RotPow(a, i)
  {
  }

  lemma ImageMirrored(a: Shape, j: nat)
    requires |a| > 0 && j < 4
    ensures Image(a, j + 4) == RotPow(Act(FlipHSym, RotPow(a, 4)), j)
  {
  }

  /** One more failed comparison extends the run of misses. */
  lemma ExtendMiss(a: Shape, b: Shape, n: nat)
    requires |a| > 0
    requires forall k :: 0 <= k < n ==> RotPow(a, k) != b
    requires RotPow(a, n) != b
    ensures forall k :: 0 <= k < n + 1 ==> RotPow(a, k) != b
  {
  }

  /** i quarter turns map a onto b, and no smaller number of turns does. */
  predicate FirstRotation(a: Shape, b: Shape, i: int)
    requires |a| > 0
  {
    0 <= i < 4 && RotPow(a, i) == b && forall k :: 0 <= k < i ==> RotPow(a, k) != b
  }

  /** A match in the first loop of `__eq__` makes the pieces equal. */
  lemma MatchRotated(a: Shape, b: Shape, i: int)
    requires |a| == |b| && |a| > 0 && 0 <= i < 4 && RotPow(a, i) == b
    ensures SymEq(a, b)
  {
    ImageRotated(a, i);
  }

  /** A match in the second loop of `__eq__`, after the flip, makes the pieces equal. */
  lemma MatchMirrored(a: Shape, b: Shape, i: int)
    requires |a| == |b| && |a| > 0 && 0 <= i < 4 && RotPow(Act(FlipHSym, RotPow(a, 4)), i) == b
    ensures SymEq(a, b)
  {
    ImageMirrored(a, i);
  }

  /** Misses under the four quarter turns of a, and of its mirror image taken
      after those turns, are misses under all eight images. */
  lemma NotSymEq(a: Shape, b: Shape)
    requires |a| == |b| && |a| > 0
    requires forall k :: 0 <= k < 4 ==> RotPow(a, k) != b
    requires forall k :: 0 <= k < 4 ==> RotPow(Act(FlipHSym, RotPow(a, 4)), k) != b
    ensures !SymEq(a, b)
  {
    forall k | 0 <= k < 8 ensures Image(a, k) != b {
      if k < 4 {
        ImageRotated(a, k);
      } else {
        ImageMirrored(a, k - 4);
      }
    }
  }

  /** The symmetry behind the k-th list `__eq__` tries. */
  function ImageSym(k: int): Sym
    requires 0 <= k < 8
  {
    if k < 4 then RotSym(k) else Compose(RotSym(k - 4), FlipHSym)
  }

  /** Each of the eight symmetries of the square is tried exactly once. */
  lemma ImageSymOnto(g: Sym)
    ensures exists k :: 0 <= k < 8 && ImageSym(k) == g
  {
    assert ImageSym(0) == Sym(0, false) && ImageSym(1) == Sym(1, false);
    assert ImageSym(2) == Sym(2, false) && ImageSym(3) == Sym(3, false);
    assert ImageSym(4) == Sym(0, true) && ImageSym(5) == Sym(1, true);
    assert ImageSym(6) == Sym(2, true) && ImageSym(7) == Sym(3, true);
  }

  /** The last four images: j quarter turns of the flipped list, since the
      first loop brings self back to itself. */
  lemma ImageFlipped(a: Shape, j: nat)
    requires Canonical(a) && j < 4
    ensures Image(a, j + 4) == RotPow(Act(FlipHSym, a), j)
  {
    RotCWFourTimes(a);
  }

  lemma ImageSymFlipped(j: nat)
    requires j < 4
    ensures ImageSym(j + 4) == Compose(RotSym(j), FlipHSym)
  {
  }

  lemma ImageActFlipped(a: Shape, j: nat)
    requires Canonical(a) && j < 4
    ensures Image(a, j + 4) == Act(ImageSym(j + 4), a)
  {
    var f := Act(FlipHSym, a);
    ImageFlipped(a, j);
    ImageSymFlipped(j);
    ActSpec(FlipHSym, a);
    RotPowAct(f, j);
    ActCompose(RotSym(j), FlipHSym, a);
  }

  /** On a canonical list the eight images are the eight symmetries. */
  lemma ImageAct(a: Shape, k: int)
    requires Canonical(a) && 0 <= k < 8
    ensures Image(a, k) == Act(ImageSym(k), a)
  {
    if k < 4 {
      RotPowAct(a, k);
    } else {
      ImageActFlipped(a, k - 4);
    }
  }

  /** `__eq__` holds exactly when some symmetry of the square maps self onto other. */
  lemma SymEqIff(a: Shape, b: Shape)
    requires Canonical(a)
    ensures SymEq(a, b) <==> exists g :: Act(g, a) == b
  {
    if SymEq(a, b) {
      var k :| 0 <= k < 8 && Image(a, k) == b;
      ImageAct(a, k);
    }
    if g :| Act(g, a) == b {
      ImageSymOnto(g);
      var k :| 0 <= k < 8 && ImageSym(k) == g;
      ImageAct(a, k);
    }
  }

  lemma SymEqReflexive(a: Shape)
    ensures SymEq(a, a)
  {
    if |a| > 0 {
      assert Image(a, 0) == a;
    }
  }

  lemma SymEqSymmetric(a: Shape, b: Shape)
    requires Canonical(a) && SymEq(a, b)
    ensures Canonical(b) && SymEq(b, a)
  {
    SymEqIff(a, b);
    var g :| Act(g, a) == b;
    ActSpec(g, a);
    ActCompose(Inverse(g), g, a);
    ActIdentity(a);
    SymEqIff(b, a);
  }

  lemma SymEqTransitive(a: Shape, b: Shape, c: Shape)
    requires Canonical(a) && SymEq(a, b) && SymEq(b, c)
    ensures SymEq(a, c)
  {
    SymEqIff(a, b);
    var g :| Act(g, a) == b;
    ActSpec(g, a);
    SymEqIff(b, c);
    var h :| Act(h, b) == c;
    ActCompose(h, g, a);
    assert Act(Compose(h, g), a) == c;
    SymEqIff(a, c);
  }
}
