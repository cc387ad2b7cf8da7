/**
  Although the stack's cells are sorted by an algorithm that leaves the order
  of equal offsets open, every operation has one result: a sorted disjoint
  list is determined by its cells, and the join of increasing vectors does not
  depend on the order of its operands.
 */
module Determined {
  import opened Syntax
  import opened Rcp
  import opened Cells
  import opened JoinWalk
  import opened MemDom
  import opened MemTheory
  import opened Machine
  import opened MachineSound
  import S = SetDomains

  /* ----- lists of cells ----- */

  lemma ShapedTail(s: seq<Cell>)
    requires Shaped(s) && s != []
    ensures Shaped(s[1..]) && forall x :: x in s[1..] <==> x in s && x != s[0]
    ensures forall x :: x in s ==> x == s[0] || s[0].offset < x.offset
  {
    assert s == [s[0]] + s[1..];
  }

  lemma SameEmpty(s: seq<Cell>, t: seq<Cell>)
    requires forall x :: x in s <==> x in t
    ensures s == [] <==> t == []
  {
    assert s != [] ==> exists x :: x in s by { if s != [] { assert s[0] in s; } }
    assert t != [] ==> exists x :: x in t by { if t != [] { assert t[0] in t; } }
  }

  /** A sorted disjoint list is determined by its cells. */
  lemma {:induction false} ShapedUnique(s: seq<Cell>, t: seq<Cell>)
    requires Shaped(s) && Shaped(t) && forall x :: x in s <==> x in t
    ensures s == t
  {
    SameEmpty(s, t);
    if s == [] {
    } else {
      assert s[0] in s && t[0] in t;
      ShapedTail(s);
      ShapedTail(t);
      assert s[0] == t[0];
      ShapedUnique(s[1..], t[1..]);
      assert s == [s[0]] + s[1..] && t == [t[0]] + t[1..];
    }
  }

  /* ----- joins ----- */

  lemma SetJoinCommutes(x: S.IntSet, y: S.IntSet)
    requires x.Ordered() && y.Ordered()
    ensures S.Join(x, y) == S.Join(y, x)
  {
    S.UnionSorted(x.elems, y.elems);
    S.UnionSorted(y.elems, x.elems);
    forall e
      ensures e in S.SetUnion(x.elems, y.elems) <==> e in S.SetUnion(y.elems, x.elems)
    {
      S.UnionMembers(x.elems, y.elems, e);
      S.UnionMembers(y.elems, x.elems, e);
    }
    S.SortedUnique(S.SetUnion(x.elems, y.elems), S.SetUnion(y.elems, x.elems));
  }

  lemma JoinCommutes(d: Rcp, e: Rcp)
    requires Ordered(d) && Ordered(e)
    ensures Join(d, e) == Join(e, d)
  {
    SetJoinCommutes(d.num, e.num);
    forall r | IsRegion(r)
      ensures S.Join(Offsets(d, r), Offsets(e, r)) == S.Join(Offsets(e, r), Offsets(d, r))
    {
      SetJoinCommutes(Offsets(d, r), Offsets(e, r));
    }
    assert IsRegion(CtxMem) && IsRegion(StackMem) && IsRegion(PacketMem);
    assert Join(d, e).maps == Join(e, d).maps by {
      forall i | 0 <= i < NMAPS
        ensures Join(d, e).maps[i] == Join(e, d).maps[i]
      {
        assert IsRegion(MapValue(i));
      }
    }
  }

  lemma MeetCommutes(a: Cell, b: Cell)
    requires Ordered(a.dom) && Ordered(b.dom)
    ensures MeetCell(a, b) == MeetCell(b, a)
  {
    var lo, hi := Max(a.offset, b.offset), Min(a.End(), b.End());
    PartialOrdered(a.dom);
    PartialOrdered(b.dom);
    JoinCommutes(PartOf(a, lo, hi), PartOf(b, lo, hi));
  }

  lemma JoinedHas(A: seq<Cell>, B: seq<Cell>, R: seq<Cell>, R': seq<Cell>, x: Cell)
    requires Joined(A, B, R) && Joined(A, B, R') && CellsOrdered(A) && CellsOrdered(B) && x in R
    ensures x in R'
  {
    var a, b :| a in A && b in B && Overlap(a, b) && IsMeet(a, b, x);
    MeetCommutes(a, b);
  }

  lemma JoinedUnique(A: seq<Cell>, B: seq<Cell>, R: seq<Cell>, R': seq<Cell>)
    requires Joined(A, B, R) && Joined(A, B, R') && CellsOrdered(A) && CellsOrdered(B)
    ensures R == R'
  {
    forall x
      ensures x in R <==> x in R'
    {
      if x in R { JoinedHas(A, B, R, R', x); }
      if x in R' { JoinedHas(A, B, R', R, x); }
    }
    ShapedUnique(R, R');
  }

  /** The join of two machines is one machine. */
  lemma MachineJoinUnique(a: MachineVal, b: MachineVal, r: MachineVal, r': MachineVal)
    requires Sane(a) && Sane(b) && MachineJoinOf(a, b, r) && MachineJoinOf(a, b, r')
    ensures r == r'
  {
    assert r.regs == r'.regs;
    if !a.stack.bot && !b.stack.bot && !a.stack.IsTop() && !b.stack.IsTop() {
      JoinedUnique(a.stack.cells, b.stack.cells, r.stack.cells, r'.stack.cells);
    }
  }

  /* ----- instructions ----- */

  lemma StoreUnique(m: MemVal, offsets: S.IntSet, w: int, d: Rcp, r: MemVal, r': MemVal)
    requires StoreOf(m, offsets, w, d, r) && StoreOf(m, offsets, w, d, r')
    ensures r == r'
  {
    if offsets.IsSingle() { ShapedUnique(r.cells, r'.cells); }
  }

  /** An instruction has one effect. */
  lemma TransferUnique(ins: Instruction, m: MachineVal, r: MachineVal, r': MachineVal)
    requires Sane(m) && InScope(ins, m) && !Throws(ins, m) && TransferOf(ins, m, r) && TransferOf(ins, m, r')
    ensures r == r'
  {
    match ins {
      case Mem(access, value, isLoad) =>
        var addr := Address(m.regs[access.basereg].value, access.offset);
        if !isLoad && !addr.stack.IsBot() {
          StoreUnique(m.stack, if OnlyStack(addr) then addr.stack else S.TOP, access.width, Eval(m, value).value, r.stack, r'.stack);
        }
      case _ =>
    }
  }
}
