/**
  Merging a block with its only successor when it is that successor's only
  predecessor, and what the merge keeps: traces, edges and instructions.
 */
module Chains {
  import opened Syntax
  import opened Graph

  /* ----- traces ----- */

  /** What can be observed of a run: the instructions done, and the successor taken where there is a choice. */
  datatype Event = Did(ins: Instruction) | Took(next: Label)

  ghost predicate Walk(g: Blocks, l: Label, rest: seq<Label>)
    decreases |rest|
  {
    l in g && (rest != [] ==> rest[0] in g[l].nextlist && Walk(g, rest[0], rest[1..]))
  }

  ghost function Doing(insts: seq<Instruction>): (r: seq<Event>)
    ensures |r| == |insts| && forall i :: 0 <= i < |r| ==> r[i] == Did(insts[i])
  {
    seq(|insts|, i requires 0 <= i < |insts| => Did(insts[i]))
  }

  ghost function Choice(bb: BasicBlock, next: Label): seq<Event> {
    if |bb.nextlist| == 1 then [] else [Took(next)]
  }

  /** The events of a walk that starts at l and goes on through rest. */
  ghost function Trace(g: Blocks, l: Label, rest: seq<Label>): seq<Event>
    requires Walk(g, l, rest)
    decreases |rest|
  {
    Doing(g[l].insts) + if rest == [] then [] else Choice(g[l], rest[0]) + Trace(g, rest[0], rest[1..])
  }

  function Last(l: Label, rest: seq<Label>): Label {
    if rest == [] then l else rest[|rest| - 1]
  }

  lemma {:induction false} LastInside(g: Blocks, l: Label, rest: seq<Label>)
    requires Walk(g, l, rest)
    ensures Last(l, rest) in g
    decreases |rest|
  {
    if rest == [] {
    } else {
      LastInside(g, rest[0], rest[1..]);
    }
  }

  /** t can be observed, from l on, during some run. */
  ghost predicate Emits(g: Blocks, l: Label, t: seq<Event>) {
    exists rest :: Walk(g, l, rest) && t <= Trace(g, l, rest)
  }

  ghost predicate Final(g: Blocks, l: Label) {
    l in g && g[l].nextlist == []
  }

  /** t is all that is observed of some run that ends in a block without successors. */
  ghost predicate Halts(g: Blocks, l: Label, t: seq<Event>) {
    exists rest :: Walk(g, l, rest) && Final(g, Last(l, rest)) && t == Trace(g, l, rest)
  }

  ghost predicate SameTraces(g: Blocks, h: Blocks, l: Label) {
    forall t :: (Emits(g, l, t) <==> Emits(h, l, t)) && (Halts(g, l, t) <==> Halts(h, l, t))
  }

  /* ----- one merge ----- */

  /** The only successor of a is the different block b, whose only predecessor is a. */
  predicate Mergeable(g: Blocks, a: Label, b: Label) {
    a in g && b in g && g[a].nextlist == [b] && a != b && |g[b].prevlist| == 1
  }

  function Renamed(s: seq<Label>, from: Label, to: Label): (r: seq<Label>)
    ensures |r| == |s|
  {
    seq(|s|, i requires 0 <= i < |s| => if s[i] == from then to else s[i])
  }

  function MergedBlock(g: Blocks, a: Label, b: Label, l: Label): BasicBlock
    requires a in g && b in g && l in g
  {
    BasicBlock(if l == a then g[a].insts + g[b].insts else g[l].insts,
               if l == a then g[b].nextlist else g[l].nextlist,
               Renamed(g[l].prevlist, b, a))
  }

  /** h is g with b appended to a. */
  ghost predicate Merged(g: Blocks, a: Label, b: Label, h: Blocks)
    requires a in g && b in g
  {
    && (forall l :: l in h <==> l in g && l != b)
    && (forall l :: l in h ==> h[l] == MergedBlock(g, a, b, l))
  }

  lemma OnlyPredecessor(g: Blocks, a: Label, b: Label)
    requires Mirrored(g) && Mergeable(g, a, b)
    ensures g[b].prevlist == [a]
    ensures forall l :: l in g && b in g[l].nextlist ==> l == a
    ensures b !in g[b].nextlist
  {}

  /* ----- walks of the two graphs ----- */

  /** The walk without b. */
  function Without(rest: seq<Label>, b: Label): seq<Label> {
    if rest == [] then []
    else (if rest[0] == b then [] else [rest[0]]) + Without(rest[1..], b)
  }

  /** The walk with b after each a. */
  function Through(l: Label, rest: seq<Label>, a: Label, b: Label): seq<Label>
    decreases |rest|
  {
    (if l == a then [b] else []) + if rest == [] then [] else [rest[0]] + Through(rest[0], rest[1..], a, b)
  }

  lemma DoingConcat(x: seq<Instruction>, y: seq<Instruction>)
    ensures Doing(x + y) == Doing(x) + Doing(y)
  {}

  ghost predicate MergeInput(g: Blocks, a: Label, b: Label, h: Blocks) {
    Mirrored(g) && Mergeable(g, a, b) && Merged(g, a, b, h)
  }

  /** What a walk can see of a merge. */
  ghost predicate Spliced(g: Blocks, a: Label, b: Label, h: Blocks) {
    && a in g && b in g && a != b && g[a].nextlist == [b]
    && (forall l :: l in h <==> l in g && l != b)
    && h[a].insts == g[a].insts + g[b].insts && h[a].nextlist == g[b].nextlist
    && (forall l :: l in h && l != a ==> h[l].insts == g[l].insts && h[l].nextlist == g[l].nextlist)
    && (forall l, m :: l in g && l != a && m in g[l].nextlist ==> m != b) && b !in g[b].nextlist
  }

  lemma MergeSplices(g: Blocks, a: Label, b: Label, h: Blocks)
    requires MergeInput(g, a, b, h)
    ensures Spliced(g, a, b, h)
  {
    OnlyPredecessor(g, a, b);
  }

  lemma WalkCons(g: Blocks, l: Label, m: Label, r: seq<Label>)
    requires l in g && m in g[l].nextlist && Walk(g, m, r)
    ensures Walk(g, l, [m] + r) && Last(l, [m] + r) == Last(m, r)
    ensures Trace(g, l, [m] + r) == Doing(g[l].insts) + (Choice(g[l], m) + Trace(g, m, r))
  {}

  /** One step of a walk from a block that is not merged. */
  lemma StepSame(g: Blocks, a: Label, b: Label, h: Blocks, l: Label, m: Label, r: seq<Label>, r': seq<Label>, more: seq<Event>)
    requires Spliced(g, a, b, h) && l in h && l != a && m in g[l].nextlist
    requires Walk(g, m, r) && Walk(h, m, r') && Trace(h, m, r') == Trace(g, m, r) + more
    ensures Walk(h, l, [m] + r') && Walk(g, l, [m] + r)
    ensures Trace(h, l, [m] + r') == Trace(g, l, [m] + r) + more
  {
    WalkCons(g, l, m, r);
    WalkCons(h, l, m, r');
    Extend(Doing(g[l].insts), Choice(g[l], m), Trace(g, m, r), more);
  }

  lemma Extend(x: seq<Event>, c: seq<Event>, t: seq<Event>, more: seq<Event>)
    ensures x + (c + (t + more)) == (x + (c + t)) + more
  {}

  /** Two steps from the merged block, through b, are one step of the new graph. */
  lemma StepThrough(g: Blocks, a: Label, b: Label, h: Blocks, m: Label, r: seq<Label>, r': seq<Label>, more: seq<Event>)
    requires Spliced(g, a, b, h) && m in g[b].nextlist
    requires Walk(g, m, r) && Walk(h, m, r') && Trace(h, m, r') == Trace(g, m, r) + more
    ensures Walk(h, a, [m] + r') && Walk(g, a, [b] + ([m] + r))
    ensures Trace(h, a, [m] + r') == Trace(g, a, [b] + ([m] + r)) + more
  {
    WalkCons(g, b, m, r);
    WalkCons(g, a, b, [m] + r);
    WalkCons(h, a, m, r');
    DoingConcat(g[a].insts, g[b].insts);
    assert Choice(g[a], b) == [] && Choice(h[a], m) == Choice(g[b], m);
    Regroup(Doing(g[a].insts), Doing(g[b].insts), Choice(g[b], m), Trace(g, m, r), more);
  }

  lemma Regroup(x: seq<Event>, y: seq<Event>, c: seq<Event>, t: seq<Event>, more: seq<Event>)
    ensures (x + y) + (c + (t + more)) == (x + ([] + (y + (c + t)))) + more
  {}

  /** A walk that stops at b has done what the new graph does at a. */
  lemma StopAtB(g: Blocks, a: Label, b: Label, h: Blocks)
    requires Spliced(g, a, b, h)
    ensures Walk(g, a, [b]) && Walk(h, a, []) && Trace(h, a, []) == Trace(g, a, [b]) == Doing(g[a].insts) + Doing(g[b].insts)
  {}

  /** What the merged block has done beyond the events of an old walk that ends at the given block. */
  ghost function Ahead(g: Blocks, a: Label, b: Label, last: Label): seq<Event>
    requires b in g
  {
    if last == a then Doing(g[b].insts) else []
  }

  lemma TwoAhead(g: Blocks, a: Label, b: Label, h: Blocks, rest: seq<Label>)
    requires Spliced(g, a, b, h) && Walk(g, a, rest) && |rest| > 1
    ensures rest == [b] + ([rest[1]] + rest[2..]) && rest[1] in g[b].nextlist && rest[1] != b && Walk(g, rest[1], rest[2..])
    ensures Without(rest, b) == [rest[1]] + Without(rest[2..], b)
  {}

  /** A walk of the old graph, shortened, is a walk of the new one; it may already have done b's instructions. */
  lemma {:induction false} WalkShortens(g: Blocks, a: Label, b: Label, h: Blocks, l: Label, rest: seq<Label>)
    requires Spliced(g, a, b, h) && l != b && Walk(g, l, rest)
    ensures Walk(h, l, Without(rest, b))
    ensures Trace(h, l, Without(rest, b)) == Trace(g, l, rest) + Ahead(g, a, b, Last(l, rest))
    ensures Last(l, Without(rest, b)) == if Last(l, rest) == b then a else Last(l, rest)
    decreases |rest|
  {
    var more := Ahead(g, a, b, Last(l, rest));
    if rest == [] {
      StopHere(g, a, b, h, l);
    } else if l != a {
      var m, r := rest[0], rest[1..];
      assert rest == [m] + r && Last(l, rest) == Last(m, r);
      WalkShortens(g, a, b, h, m, r);
      assert Without(rest, b) == [m] + Without(r, b);
      StepSame(g, a, b, h, l, m, r, Without(r, b), more);
      assert Trace(h, l, Without(rest, b)) == Trace(g, l, rest) + more;
    } else if |rest| == 1 {
      StopAtB(g, a, b, h);
      assert rest == [b] && Without(rest[1..], b) == [];
      assert Trace(h, l, Without(rest, b)) == Trace(g, l, rest) + more;
    } else {
      var m, r := rest[1], rest[2..];
      TwoAhead(g, a, b, h, rest);
      assert Last(l, rest) == Last(m, r);
      WalkShortens(g, a, b, h, m, r);
      StepThrough(g, a, b, h, m, r, Without(r, b), more);
      assert Trace(h, l, Without(rest, b)) == Trace(g, l, rest) + more;
    }
  }

  lemma StopHere(g: Blocks, a: Label, b: Label, h: Blocks, l: Label)
    requires Spliced(g, a, b, h) && l in h
    ensures Walk(g, l, []) && Walk(h, l, [])
    ensures Trace(h, l, []) == Trace(g, l, []) + Ahead(g, a, b, l)
  {}

  /** A walk of the new graph, with b after each a, is a walk of the old one with the same events. */
  lemma {:induction false} WalkLengthens(g: Blocks, a: Label, b: Label, h: Blocks, l: Label, rest: seq<Label>)
    requires Spliced(g, a, b, h) && Walk(h, l, rest)
    ensures Walk(g, l, Through(l, rest, a, b)) && Trace(g, l, Through(l, rest, a, b)) == Trace(h, l, rest)
    ensures Last(l, Through(l, rest, a, b)) == if Last(l, rest) == a then b else Last(l, rest)
    decreases |rest|
  {
    if rest == [] {
      if l == a { StopAtB(g, a, b, h); }
    } else {
      var m, r := rest[0], rest[1..];
      assert rest == [m] + r;
      WalkLengthens(g, a, b, h, m, r);
      var r' := Through(m, r, a, b);
      if l == a {
        StepThrough(g, a, b, h, m, r', r, []);
        assert Through(l, rest, a, b) == [b] + ([m] + r');
      } else {
        StepSame(g, a, b, h, l, m, r', r, []);
        assert Through(l, rest, a, b) == [m] + r';
      }
    }
  }

  lemma EmitsShort(g: Blocks, a: Label, b: Label, h: Blocks, l: Label, t: seq<Event>)
    requires Spliced(g, a, b, h) && l in h
    ensures (Emits(g, l, t) ==> Emits(h, l, t)) && (Halts(g, l, t) ==> Halts(h, l, t))
  {
    if rest :| Walk(g, l, rest) && t <= Trace(g, l, rest) {
      WalkShortens(g, a, b, h, l, rest);
      assert t <= Trace(h, l, Without(rest, b));
    }
    if rest :| Walk(g, l, rest) && Final(g, Last(l, rest)) && t == Trace(g, l, rest) {
      WalkShortens(g, a, b, h, l, rest);
      LastInside(h, l, Without(rest, b));
      assert Final(h, Last(l, Without(rest, b)));
    }
  }

  lemma EmitsLong(g: Blocks, a: Label, b: Label, h: Blocks, l: Label, t: seq<Event>)
    requires Spliced(g, a, b, h) && l in h
    ensures (Emits(h, l, t) ==> Emits(g, l, t)) && (Halts(h, l, t) ==> Halts(g, l, t))
  {
    if rest :| Walk(h, l, rest) && t <= Trace(h, l, rest) {
      WalkLengthens(g, a, b, h, l, rest);
    }
    if rest :| Walk(h, l, rest) && Final(h, Last(l, rest)) && t == Trace(h, l, rest) {
      WalkLengthens(g, a, b, h, l, rest);
      assert Final(g, Last(l, Through(l, rest, a, b)));
    }
  }

  /** From every remaining block the same traces are observed after the merge. */
  lemma MergeKeepsTraces(g: Blocks, a: Label, b: Label, h: Blocks, l: Label)
    requires MergeInput(g, a, b, h) && l in h
    ensures SameTraces(g, h, l)
  {
    MergeSplices(g, a, b, h);
    forall t
      ensures (Emits(g, l, t) <==> Emits(h, l, t)) && (Halts(g, l, t) <==> Halts(h, l, t))
    {
      EmitsShort(g, a, b, h, l, t);
      EmitsLong(g, a, b, h, l, t);
    }
  }
}
