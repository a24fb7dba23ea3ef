/** Cell offsets, the lexicographic order Python uses on tuples, `sorted`,
    the `_normalize` translation of game.py, and the canonical form every
    Piece keeps its offsets in. */
module Geometry {

  /** An offset (x, y) of one unit cell of a shape. */
  type Cell = (int, int)

  /** A piece's offset list, in the order a `Piece` keeps it. */
  type Shape = seq<Cell>

  /** Python's `<=` on pairs: compare x first, then y. */
  predicate Le(a: Cell, b: Cell) {
    a.0 < b.0 || (a.0 == b.0 && a.1 <= b.1)
  }

  predicate Ascending(s: seq<Cell>) {
    forall i, j :: 0 <= i < j < |s| ==> Le(s[i], s[j])
  }

  predicate NoDup(s: seq<Cell>) {
    forall i, j :: 0 <= i < j < |s| ==> s[i] != s[j]
  }

  /** Every coordinate is non-negative and both the minimum x and the minimum y are 0. */
  predicate Normalized(s: seq<Cell>) {
    && |s| > 0
    && (forall i :: 0 <= i < |s| ==> 0 <= s[i].0 && 0 <= s[i].1)
    && (exists i :: 0 <= i < |s| && s[i].0 == 0)
    && (exists i :: 0 <= i < |s| && s[i].1 == 0)
  }

  /** The form a Piece keeps its offsets in after every operation. */
  predicate Canonical(s: seq<Cell>) {
    Ascending(s) && Normalized(s)
  }

  /** Insert c before the first element it is at most. */
  function Insert(c: Cell, s: seq<Cell>): (r: seq<Cell>)
    ensures |r| == |s| + 1
  {
    if s == [] then [c]
    else if Le(c, s[0]) then [c] + s
    else [s[0]] + Insert(c, s[1..])
  }

  /** Inserting into an ascending list keeps it ascending, adds exactly c, and
      keeps the cells distinct when c is new. */
  lemma {:induction false} InsertSpec(c: Cell, s: seq<Cell>)
    requires Ascending(s)
    ensures Ascending(Insert(c, s))
    ensures multiset(Insert(c, s)) == multiset(s) + multiset{c}
    ensures NoDup(s) && c !in s ==> NoDup(Insert(c, s))
  {
    if s == [] {
    } else if Le(c, s[0]) {
      assert forall k :: 0 <= k < |s| ==> Le(c, s[k]) by {
        forall k | 0 <= k < |s| ensures Le(c, s[k]) {
          if k > 0 { assert Le(s[0], s[k]); }
        }
      }
      ConsAscending(c, s);
      ConsNoDup(c, s);
    } else {
      var t := Insert(c, s[1..]);
      assert s == [s[0]] + s[1..];
      InsertSpec(c, s[1..]);
      BoundedByHead(s, c, t);
      ConsAscending(s[0], t);
      assert NoDup(s) && c !in s ==> NoDup(s[1..]) && c != s[0] && s[0] !in s[1..];
      ConsNoDup(s[0], t);
    }
  }

  /** A cell at most every element of an ascending list can go in front of it. */
  lemma ConsAscending(x: Cell, t: seq<Cell>)
    requires Ascending(t) && forall k :: 0 <= k < |t| ==> Le(x, t[k])
    ensures Ascending([x] + t)
  {
    forall i, j | 0 <= i < j < |t| + 1 ensures Le(([x] + t)[i], ([x] + t)[j]) {
      if i == 0 {
        assert Le(x, t[j - 1]);
      } else {
        assert Le(t[i - 1], t[j - 1]);
      }
    }
  }

  lemma ConsNoDup(x: Cell, t: seq<Cell>)
    ensures NoDup(t) && x !in t ==> NoDup([x] + t)
  {
    if NoDup(t) && x !in t {
      forall i, j | 0 <= i < j < |t| + 1 ensures ([x] + t)[i] != ([x] + t)[j] {
        if i == 0 {
          assert t[j - 1] in t;
        } else {
          assert t[i - 1] != t[j - 1];
        }
      }
    }
  }

  /** Every element of the tail with c inserted is at least the head, and
      differs from it when the head occurs once and c is new. */
  lemma BoundedByHead(s: seq<Cell>, c: Cell, t: seq<Cell>)
    requires Ascending(s) && |s| > 0 && Le(s[0], c)
    requires multiset(t) == multiset(s[1..]) + multiset{c}
    ensures forall k :: 0 <= k < |t| ==> Le(s[0], t[k])
    ensures NoDup(s) && c !in s ==> s[0] !in t
  {
    forall k | 0 <= k < |t| ensures Le(s[0], t[k]) && (NoDup(s) && c !in s ==> t[k] != s[0]) {
      assert t[k] in multiset(t);
      if t[k] != c {
        assert t[k] in multiset(s[1..]);
        var j :| 0 <= j < |s[1..]| && s[1..][j] == t[k];
        assert s[j + 1] == t[k];
        assert Le(s[0], s[j + 1]);
      }
    }
  }

  /** Python's `sorted` on a list of pairs, as insertion sort. */
  function SortCells(s: seq<Cell>): (r: seq<Cell>)
    ensures |r| == |s|
  {
    if s == [] then [] else Insert(s[0], SortCells(s[1..]))
  }

  /** `sorted` returns an ascending permutation of its input. */
  predicate SortedFrom(s: seq<Cell>, r: seq<Cell>) {
    && Ascending(r)
    && multiset(r) == multiset(s)
    && (NoDup(s) ==> NoDup(r))
  }

  lemma SortStep(s: seq<Cell>, t: seq<Cell>)
    requires s != [] && SortedFrom(s[1..], t)
    ensures SortedFrom(s, Insert(s[0], t))
  {
    InsertSpec(s[0], t);
    assert multiset(s) == multiset(s[1..]) + multiset{s[0]} by {
      assert s == [s[0]] + s[1..];
    }
    assert NoDup(s) ==> NoDup(s[1..]) && s[0] !in multiset(t);
  }

  lemma {:induction false} SortSpec(s: seq<Cell>)
    ensures SortedFrom(s, SortCells(s))
  {
    if s != [] {
      SortSpec(s[1..]);
      SortStep(s, SortCells(s[1..]));
    }
  }

  /** Python's `min([x for (x, y) in offsets])`. */
  function MinX(s: seq<Cell>): int
    requires |s| > 0
  {
    if |s| == 1 then s[0].0
    else if s[0].0 <= MinX(s[1..]) then s[0].0 else MinX(s[1..])
  }

  /** MinX is a lower bound of the x coordinates that one of them attains. */
  lemma {:induction false} MinXSpec(s: seq<Cell>)
    requires |s| > 0
    ensures forall i :: 0 <= i < |s| ==> MinX(s) <= s[i].0
    ensures exists i :: 0 <= i < |s| && s[i].0 == MinX(s)
  {
    if |s| == 1 {
      assert s[0].0 == MinX(s);
    } else {
      MinXSpec(s[1..]);
      var j :| 0 <= j < |s| - 1 && s[1..][j].0 == MinX(s[1..]);
      assert s[j + 1].0 == MinX(s[1..]);
      forall i | 1 <= i < |s| ensures MinX(s) <= s[i].0 {
        assert s[i] == s[1..][i - 1];
      }
      if s[0].0 <= MinX(s[1..]) {
        assert s[0].0 == MinX(s);
      }
    }
  }

  /** Python's `min([y for (x, y) in offsets])`. */
  function MinY(s: seq<Cell>): int
    requires |s| > 0
  {
    if |s| == 1 then s[0].1
    else if s[0].1 <= MinY(s[1..]) then s[0].1 else MinY(s[1..])
  }

  /** MinY is a lower bound of the y coordinates that one of them attains. */
  lemma {:induction false} MinYSpec(s: seq<Cell>)
    requires |s| > 0
    ensures forall i :: 0 <= i < |s| ==> MinY(s) <= s[i].1
    ensures exists i :: 0 <= i < |s| && s[i].1 == MinY(s)
  {
    if |s| == 1 {
      assert s[0].1 == MinY(s);
    } else {
      MinYSpec(s[1..]);
      var j :| 0 <= j < |s| - 1 && s[1..][j].1 == MinY(s[1..]);
      assert s[j + 1].1 == MinY(s[1..]);
      forall i | 1 <= i < |s| ensures MinY(s) <= s[i].1 {
        assert s[i] == s[1..][i - 1];
      }
      if s[0].1 <= MinY(s[1..]) {
        assert s[0].1 == MinY(s);
      }
    }
  }

  /** Every offset moved by d, order kept. */
  function Translate(s: seq<Cell>, d: Cell): (r: seq<Cell>)
    ensures |r| == |s|
  {
    seq(|s|, i requires 0 <= i < |s| => (s[i].0 + d.0, s[i].1 + d.1))
  }

  lemma TranslateKeeps(s: seq<Cell>, d: Cell)
    ensures Ascending(s) ==> Ascending(Translate(s, d))
    ensures NoDup(s) ==> NoDup(Translate(s, d))
  {
  }

  /** `_normalize`: subtract the minimum x and the minimum y from every offset. */
  function NormalizeCells(s: seq<Cell>): (r: seq<Cell>)
    requires |s| > 0
  {
    Translate(s, (-MinX(s), -MinY(s)))
  }

  /** What `_normalize` guarantees: the result is normalised, has as many
      offsets as its input, and keeps the input's order and distinctness. */
  lemma NormalizeSpec(s: seq<Cell>)
    requires |s| > 0
    ensures Normalized(NormalizeCells(s)) && |NormalizeCells(s)| == |s|
    ensures Ascending(s) ==> Ascending(NormalizeCells(s))
    ensures NoDup(s) ==> NoDup(NormalizeCells(s))
  {
    NormalizedAfterShift(s, MinX(s), MinY(s));
    TranslateKeeps(s, (-MinX(s), -MinY(s)));
  }

  lemma NormalizedAfterShift(s: seq<Cell>, mx: int, my: int)
    requires |s| > 0 && mx == MinX(s) && my == MinY(s)
    ensures Normalized(Translate(s, (-mx, -my)))
  {
    MinXSpec(s);
    MinYSpec(s);
    var r := Translate(s, (-mx, -my));
    var ix :| 0 <= ix < |s| && s[ix].0 == mx;
    var iy :| 0 <= iy < |s| && s[iy].1 == my;
    assert r[ix].0 == 0 && r[iy].1 == 0;
  }

  /** Python's construction `sorted(...)` followed by `_normalize()`. */
  function Canon(s: seq<Cell>): (r: Shape)
    requires |s| > 0
    ensures |r| == |s|
  {
    NormalizeCells(SortCells(s))
  }

  /** The canonical form is canonical, keeps distinct cells distinct, and holds
      the input's cells shifted by one common offset. */
  lemma CanonSpec(s: seq<Cell>)
    requires |s| > 0
    ensures Canonical(Canon(s))
    ensures NoDup(s) ==> NoDup(Canon(s))
    ensures exists d :: multiset(Canon(s)) == multiset(Translate(s, d))
  {
    var t := SortCells(s);
    var d := (-MinX(t), -MinY(t));
    var r := NormalizeCells(t);
    assert SortedFrom(s, t) by { SortSpec(s); }
    assert Canonical(r) && (NoDup(t) ==> NoDup(r)) && r == Translate(t, d) by {
      NormalizeSpec(t);
    }
    assert multiset(r) == multiset(Translate(s, d)) by {
      TranslatePerm(t, s, d);
    }
  }

  // ---------------------------------------------------------------------
  // Sorted permutations are unique

  /** The head of an ascending list is its least element. */
  lemma HeadLeast(u: seq<Cell>, c: Cell)
    requires Ascending(u) && c in multiset(u)
    ensures Le(u[0], c)
  {
  }

  /** Two ascending permutations of each other start with the same cell. */
  lemma SameHead(u: seq<Cell>, v: seq<Cell>)
    requires Ascending(u) && Ascending(v) && multiset(u) == multiset(v) && |u| > 0
    ensures |v| > 0 && u[0] == v[0]
  {
    assert |v| == |multiset(v)| == |u|;
    assert u[0] in multiset(v) && v[0] in multiset(u);
    HeadLeast(v, u[0]);
    HeadLeast(u, v[0]);
  }

  /** Removing equal heads leaves permutations of each other. */
  lemma SameTail(u: seq<Cell>, v: seq<Cell>)
    requires multiset(u) == multiset(v) && |u| > 0 && |v| > 0 && u[0] == v[0]
    ensures multiset(u[1..]) == multiset(v[1..])
  {
    assert u == [u[0]] + u[1..] && v == [v[0]] + v[1..];
    assert multiset(u[1..]) == multiset(u) - multiset{u[0]};
    assert multiset(v[1..]) == multiset(v) - multiset{v[0]};
  }

  lemma {:induction false} SortedUnique(u: seq<Cell>, v: seq<Cell>)
    requires Ascending(u) && Ascending(v)
    requires multiset(u) == multiset(v)
    ensures u == v
  {
    if u == [] {
      assert |v| == |multiset(v)| == 0;
    } else {
      SameHead(u, v);
      SameTail(u, v);
      assert Ascending(u[1..]) && Ascending(v[1..]);
      SortedUnique(u[1..], v[1..]);
      assert u == [u[0]] + u[1..] && v == [v[0]] + v[1..];
    }
  }

  lemma SortOfAscending(s: seq<Cell>)
    requires Ascending(s)
    ensures SortCells(s) == s
  {
  }

  // ---------------------------------------------------------------------
  // Translation and multisets

  lemma {:induction false} CountTranslate(s: seq<Cell>, d: Cell, p: Cell)
    ensures multiset(Translate(s, d))[p] == multiset(s)[(p.0 - d.0, p.1 - d.1)]
  {
    if s != [] {
      CountTranslate(s[1..], d, p);
      assert s == [s[0]] + s[1..];
      assert Translate(s, d) == [(s[0].0 + d.0, s[0].1 + d.1)] + Translate(s[1..], d);
    }
  }

  lemma TranslatePerm(x: seq<Cell>, y: seq<Cell>, d: Cell)
    requires multiset(x) == multiset(y)
    ensures multiset(Translate(x, d)) == multiset(Translate(y, d))
  {
    forall p ensures multiset(Translate(x, d))[p] == multiset(Translate(y, d))[p] {
      CountTranslate(x, d, p);
      CountTranslate(y, d, p);
    }
  }

  lemma MinTranslate(s: seq<Cell>, d: Cell)
    requires |s| > 0
    ensures MinX(Translate(s, d)) == MinX(s) + d.0
    ensures MinY(Translate(s, d)) == MinY(s) + d.1
  {
    var t := Translate(s, d);
    MinXSpec(s); MinYSpec(s); MinXSpec(t); MinYSpec(t);
    var tx, ty, sx, sy := MinX(t), MinY(t), MinX(s), MinY(s);
    var i1 :| 0 <= i1 < |t| && t[i1].0 == tx;
    var i2 :| 0 <= i2 < |s| && s[i2].0 == sx;
    assert tx <= t[i2].0 && sx <= s[i1].0;
    var j1 :| 0 <= j1 < |t| && t[j1].1 == ty;
    var j2 :| 0 <= j2 < |s| && s[j2].1 == sy;
    assert ty <= t[j2].1 && sy <= s[j1].1;
  }

  /** Normalising forgets any translation applied before it. */
  lemma NormalizeTranslate(s: seq<Cell>, d: Cell)
    requires |s| > 0
    ensures NormalizeCells(Translate(s, d)) == NormalizeCells(s)
  {
    var t := Translate(s, d);
    var sx, sy := MinX(s), MinY(s);
    assert NormalizeCells(t) == Translate(s, (-sx, -sy)) by {
      MinTranslate(s, d);
      var tx, ty := MinX(t), MinY(t);
      TranslateTwice(s, d, (-tx, -ty));
      assert (d.0 + -tx, d.1 + -ty) == (-sx, -sy);
    }
  }

  lemma TranslateTwice(s: seq<Cell>, d: Cell, e: Cell)
    ensures Translate(Translate(s, d), e) == Translate(s, (d.0 + e.0, d.1 + e.1))
  {
  }

  /** Normalising twice is normalising once. */
  lemma NormalizeIdempotent(s: seq<Cell>)
    requires |s| > 0
    ensures NormalizeCells(NormalizeCells(s)) == NormalizeCells(s)
  {
    NormalizeTranslate(s, (-MinX(s), -MinY(s)));
  }

  lemma NormalizedFixed(s: seq<Cell>)
    requires Normalized(s)
    ensures NormalizeCells(s) == s
  {
    var i :| 0 <= i < |s| && s[i].0 == 0;
    var j :| 0 <= j < |s| && s[j].1 == 0;
    MinXSpec(s);
    MinYSpec(s);
    assert MinX(s) <= 0 && MinY(s) <= 0;
  }

  /** A canonical list is its own canonical form. */
  lemma CanonicalFixed(s: seq<Cell>)
    requires Canonical(s)
    ensures Canon(s) == s
  {
    SortOfAscending(s);
    NormalizedFixed(s);
  }

  /** Two lists that are permutations of each other up to a translation have the
      same canonical form. */
  lemma CanonCongruent(v: seq<Cell>, w: seq<Cell>, e: Cell)
    requires |w| > 0
    requires multiset(v) == multiset(Translate(w, e))
    ensures |v| == |w| && Canon(v) == Canon(w)
  {
    assert |v| == |multiset(v)| == |multiset(Translate(w, e))| == |w|;
    var sw := SortCells(w);
    SortSpec(w);
    SortSpec(v);
    TranslateKeeps(sw, e);
    TranslatePerm(sw, w, e);
    SortedUnique(SortCells(v), Translate(sw, e));
    NormalizeTranslate(sw, e);
  }
}
