/**
  What a store leaves of the stack cells: the written cell, the cells it
  misses, and at most two remainders of those it hits.
 */
module StorePieces {
  import opened Rcp
  import opened Cells
  import opened JoinWalk

  /* ----- what store leaves ----- */

  predicate Hit(c: Cell, o: int, w: int) {
    c.End() > o && c.offset < o + w
  }

  /** x is what is left of c below or above the stored range. */
  predicate Leftover(c: Cell, o: int, w: int, x: Cell) {
    || (c.offset < o && x == FromRange(c.offset, o, Partial(c.dom)))
    || (c.End() > o + w && x == FromRange(o + w, c.End(), Partial(c.dom)))
  }

  ghost predicate IsLeftover(before: seq<Cell>, o: int, w: int, x: Cell) {
    exists c :: c in before && Hit(c, o, w) && Leftover(c, o, w, x)
  }

  /** The new cell, the cells the range misses, and what is left of those it hits. */
  ghost predicate StoredCells(before: seq<Cell>, o: int, w: int, v: Rcp, after: seq<Cell>) {
    && Shaped(after)
    && forall x :: x in after <==> x == Cell(o, w, v) || (x in before && !Hit(x, o, w)) || IsLeftover(before, o, w, x)
  }

  /* ----- the pieces of store ----- */

  /** At most one piece below the range and one above it. */
  predicate PieceForm(pieces: seq<Cell>, o: int, w: int) {
    && |pieces| <= 2
    && (forall i :: 0 <= i < |pieces| ==> Proper(pieces[i]) && (pieces[i].End() == o || pieces[i].offset == o + w))
    && (|pieces| == 2 ==> pieces[0].End() == o && pieces[1].offset == o + w)
  }

  ghost predicate Pieces(seen: seq<Cell>, o: int, w: int, pieces: seq<Cell>) {
    PieceForm(pieces, o, w) && forall x :: (x in pieces) == IsLeftover(seen, o, w, x)
  }

  lemma PiecesMiss(seen: seq<Cell>, c: Cell, o: int, w: int, pieces: seq<Cell>)
    requires Pieces(seen, o, w, pieces) && !Hit(c, o, w)
    ensures Pieces(seen + [c], o, w, pieces)
  {}

  /** What the loop appends for a hit cell. */
  function PiecesOf(c: Cell, o: int, w: int): seq<Cell> {
    (if c.offset < o then [FromRange(c.offset, o, Partial(c.dom))] else []) +
    (if c.End() > o + w then [FromRange(o + w, c.End(), Partial(c.dom))] else [])
  }

  lemma PiecesOfMembers(c: Cell, o: int, w: int, x: Cell)
    ensures x in PiecesOf(c, o, w) <==> Leftover(c, o, w, x)
  {}

  lemma EarlierPieces(seen: seq<Cell>, c: Cell, o: int, w: int, before: seq<Cell>)
    requires Shaped(seen + [c]) && w > 0 && Hit(c, o, w) && Pieces(seen, o, w, before)
    ensures |before| <= 1
    ensures before != [] ==> before[0].End() == o && c.offset >= o
  {
    var all := seen + [c];
    assert all[|seen|] == c;
    forall i | 0 <= i < |before|
      ensures before[i].End() == o && before[i].offset != o + w && c.offset >= o
    {
      assert before[i] in before;
      assert IsLeftover(seen, o, w, before[i]);
      var d :| d in seen && Hit(d, o, w) && Leftover(d, o, w, before[i]);
      var k := OnePosition(seen, d);
      assert all[k] == d;
    }
  }

  lemma LeftoverGrows(seen: seq<Cell>, c: Cell, o: int, w: int, x: Cell)
    requires Hit(c, o, w)
    ensures IsLeftover(seen + [c], o, w, x) <==> IsLeftover(seen, o, w, x) || Leftover(c, o, w, x)
  {}

  lemma PiecesHit(seen: seq<Cell>, c: Cell, o: int, w: int, before: seq<Cell>, pieces: seq<Cell>)
    requires Shaped(seen + [c]) && w > 0 && Hit(c, o, w) && Pieces(seen, o, w, before)
    requires pieces == before + PiecesOf(c, o, w)
    ensures Pieces(seen + [c], o, w, pieces)
  {
    EarlierPieces(seen, c, o, w, before);
    assert (seen + [c])[|seen|] == c;
    forall x
      ensures (x in pieces) == IsLeftover(seen + [c], o, w, x)
    {
      assert (x in before) == IsLeftover(seen, o, w, x);
      PiecesOfMembers(c, o, w, x);
      LeftoverGrows(seen, c, o, w, x);
    }
  }

  lemma StoreAssembled(all: seq<Cell>, o: int, w: int, v: Rcp, kept: seq<Cell>, pieces: seq<Cell>,
                       unsorted: seq<Cell>, sorted: seq<Cell>)
    requires Shaped(all) && Shaped(kept) && w > 0 && o + w <= MAX_OFFSET
    requires Pieces(all, o, w, pieces)
    requires forall x :: x in kept <==> x in all && !Hit(x, o, w)
    requires unsorted == kept + pieces + [Cell(o, w, v)]
    requires multiset(sorted) == multiset(unsorted) && SortedByOffset(sorted)
    ensures StoredCells(all, o, w, v, sorted)
  {
    forall i, j | 0 <= i < |kept| && 0 <= j < |pieces|
      ensures Apart(kept[i], pieces[j])
    {
      assert pieces[j] in pieces;
      assert IsLeftover(all, o, w, pieces[j]);
      var c :| c in all && Hit(c, o, w) && Leftover(c, o, w, pieces[j]);
      assert kept[i] in kept;
      ShapedApart(all, kept[i], c);
    }
    AssembledApart(kept, pieces, Cell(o, w, v));
    ApartAfterSort(unsorted, sorted);
    forall i | 0 <= i < |sorted|
      ensures Proper(sorted[i])
    {
      SameMembers(sorted, unsorted, sorted[i]);
      if sorted[i] in kept {
        var k := OnePosition(kept, sorted[i]);
      } else if sorted[i] in pieces {
        var k := OnePosition(pieces, sorted[i]);
      }
    }
    SortedApartIsShaped(sorted);
    forall x
      ensures x in sorted <==> x == Cell(o, w, v) || (x in all && !Hit(x, o, w)) || IsLeftover(all, o, w, x)
    {
      SameMembers(sorted, unsorted, x);
      assert (x in pieces) == IsLeftover(all, o, w, x);
    }
  }

  lemma AssembledApart(kept: seq<Cell>, pieces: seq<Cell>, c: Cell)
    requires Shaped(kept) && c.width > 0 && PieceForm(pieces, c.offset, c.width)
    requires forall i :: 0 <= i < |kept| ==> !Hit(kept[i], c.offset, c.width)
    requires forall i, j :: 0 <= i < |kept| && 0 <= j < |pieces| ==> Apart(kept[i], pieces[j])
    ensures PairwiseApart(kept + pieces + [c])
    ensures forall i :: 0 <= i < |kept + pieces + [c]| ==> (kept + pieces + [c])[i].width > 0
  {}
}
