/**
  Building a graph from a labelled instruction sequence: one block for each
  instruction, linked to its jump target and to the instruction it falls to.
 */
module Made {
  import opened Syntax
  import opened Graph

  datatype LabeledInst = Slot(name: Label, ins: Instruction)

  type InstructionSeq = seq<LabeledInst>

  function GetJump(ins: Instruction): Option<Label> {
    match ins
    case Jmp(_, target) => Some(target)
    case _ => None
  }

  predicate HasFall(ins: Instruction) {
    match ins
    case Exit => false
    case Jmp(cond, _) => cond.Some?
    case _ => true
  }

  /** A slot that holds an instruction. */
  predicate Live(prog: InstructionSeq, i: int) {
    0 <= i < |prog| && !prog[i].ins.Undefined?
  }

  /** The first live slot after i and before k. */
  function NextLive(prog: InstructionSeq, i: nat, k: nat): (r: Option<nat>)
    requires k <= |prog|
    ensures r.Some? ==> i < r.value < k && Live(prog, r.value)
    decreases k - i
  {
    if i + 1 >= k then None
    else if Live(prog, i + 1) then Some(i + 1)
    else NextLive(prog, i + 1, k)
  }

  lemma {:induction false} NextLiveGrows(prog: InstructionSeq, i: nat, k: nat)
    requires i < k < |prog|
    ensures NextLive(prog, i, k + 1) ==
      if NextLive(prog, i, k).Some? || !Live(prog, k) then NextLive(prog, i, k) else Some(k)
    decreases k - i
  {
    if i + 1 >= k {
    } else {
      NextLiveGrows(prog, i + 1, k);
    }
  }

  lemma {:induction false} NextLiveFirst(prog: InstructionSeq, i: nat, k: nat, j: nat)
    requires i < j < k <= |prog| && Live(prog, j)
    ensures NextLive(prog, i, k).Some? && NextLive(prog, i, k).value <= j
    decreases k - i
  {
    if Live(prog, i + 1) {
    } else {
      NextLiveFirst(prog, i + 1, k, j);
    }
  }

  /** The successors of slot i among the first k slots: the jump target, then the slot it falls to. */
  function Successors(prog: InstructionSeq, i: nat, k: nat): seq<Label>
    requires i < k <= |prog|
  {
    (if GetJump(prog[i].ins).Some? then [GetJump(prog[i].ins).value] else []) +
    if HasFall(prog[i].ins) && NextLive(prog, i, k).Some? then [prog[NextLive(prog, i, k).value].name] else []
  }

  ghost predicate DistinctNames(prog: InstructionSeq) {
    forall i, j :: 0 <= i < j < |prog| && Live(prog, i) && Live(prog, j) ==> prog[i].name != prog[j].name
  }

  predicate Names(prog: InstructionSeq, i: int, x: Label) {
    Live(prog, i) && prog[i].name == x
  }

  predicate JumpsTo(prog: InstructionSeq, i: int, x: Label) {
    Live(prog, i) && GetJump(prog[i].ins) == Some(x)
  }

  ghost predicate TargetsDefined(prog: InstructionSeq) {
    forall i, x :: JumpsTo(prog, i, x) ==> exists j :: Names(prog, j, x)
  }

  /* ----- adding an edge ----- */

  const NoBlock := BasicBlock([], [], [])

  /** What the map's operator[] finds at x. */
  function BlockOf(g: Blocks, x: Label): BasicBlock {
    if x in g then g[x] else NoBlock
  }

  /** h is g with one more edge. */
  ghost predicate Linked(g: Blocks, from: Label, to: Label, h: Blocks) {
    && (forall x :: x in h <==> x in g || x == from || x == to)
    && (forall x :: x in h ==>
          h[x] == BasicBlock(BlockOf(g, x).insts,
                             BlockOf(g, x).nextlist + (if x == from then [to] else []),
                             BlockOf(g, x).prevlist + (if x == to then [from] else [])))
  }

  /** h is g with the block at x holding just ins. */
  ghost predicate Placed(g: Blocks, x: Label, ins: Instruction, h: Blocks) {
    && (forall y :: y in h <==> y in g || y == x)
    && (forall y :: y in h ==> h[y] == if y == x then BlockOf(g, x).(insts := [ins]) else g[y])
  }

  lemma OccursAppend(s: seq<Label>, t: seq<Label>, x: Label)
    ensures Occurs(s + t, x) == Occurs(s, x) + Occurs(t, x)
  {}

  lemma OccursOutside(g: Blocks, x: Label, y: Label)
    requires Mirrored(g)
    ensures Occurs(BlockOf(g, x).nextlist, y) == Occurs(BlockOf(g, y).prevlist, x)
  {}

  lemma LinkClosed(g: Blocks, from: Label, to: Label, h: Blocks)
    requires Closed(g) && Linked(g, from, to, h)
    ensures Closed(h)
  {}

  lemma LinkMirrorsAt(g: Blocks, from: Label, to: Label, h: Blocks, x: Label, y: Label)
    requires Mirrored(g) && Linked(g, from, to, h) && x in h && y in h
    ensures Occurs(h[x].nextlist, y) == Occurs(h[y].prevlist, x)
  {
    OccursOutside(g, x, y);
    OccursAppend(BlockOf(g, x).nextlist, if x == from then [to] else [], y);
    OccursAppend(BlockOf(g, y).prevlist, if y == to then [from] else [], x);
  }

  /** An edge is entered in both lists. */
  lemma LinkMirrors(g: Blocks, from: Label, to: Label, h: Blocks)
    requires Mirrored(g) && Linked(g, from, to, h)
    ensures Mirrored(h)
  {
    LinkClosed(g, from, to, h);
    forall x, y | x in h && y in h
      ensures Occurs(h[x].nextlist, y) == Occurs(h[y].prevlist, x)
    {
      LinkMirrorsAt(g, from, to, h, x, y);
    }
  }

  lemma PlaceMirrors(g: Blocks, x: Label, ins: Instruction, h: Blocks)
    requires Mirrored(g) && Placed(g, x, ins, h)
    ensures Mirrored(h)
  {
    forall y, z | y in h && z in h
      ensures Occurs(h[y].nextlist, z) == Occurs(h[z].prevlist, y)
    {
      OccursOutside(g, y, z);
    }
  }

  /* ----- the graph after k slots ----- */

  /** Slot i has fallen to no slot yet. */
  predicate Pending(prog: InstructionSeq, k: nat, i: nat)
    requires k <= |prog|
  {
    i < k && Live(prog, i) && NextLive(prog, i, k).None?
  }

  ghost predicate FallsFrom(prog: InstructionSeq, k: nat, from: Option<Label>)
    requires k <= |prog|
  {
    match from
    case Some(x) => exists i: nat :: Pending(prog, k, i) && HasFall(prog[i].ins) && prog[i].name == x
    case None => forall i: nat :: Pending(prog, k, i) ==> !HasFall(prog[i].ins)
  }

  ghost predicate BlockMade(prog: InstructionSeq, k: nat, g: Blocks, i: nat)
    requires k <= |prog|
  {
    && i < k && prog[i].name in g
    && g[prog[i].name].insts == [prog[i].ins]
    && g[prog[i].name].nextlist == Successors(prog, i, k)
  }

  /** x is a name or a jump target among the first k slots. */
  ghost predicate Mentioned(prog: InstructionSeq, k: nat, x: Label) {
    exists i :: 0 <= i < k && (Names(prog, i, x) || JumpsTo(prog, i, x))
  }

  ghost predicate NamedBefore(prog: InstructionSeq, k: nat, x: Label) {
    exists i :: 0 <= i < k && Names(prog, i, x)
  }

  /** The graph of the first k slots. */
  ghost predicate MadeUpTo(prog: InstructionSeq, k: nat, g: Blocks)
    requires k <= |prog|
  {
    KeysMade(prog, k, g) && BlocksMade(prog, k, g) && OthersEmpty(prog, k, g)
  }

  ghost predicate KeysMade(prog: InstructionSeq, k: nat, g: Blocks) {
    forall x :: x in g <==> Mentioned(prog, k, x)
  }

  ghost predicate BlocksMade(prog: InstructionSeq, k: nat, g: Blocks)
    requires k <= |prog|
  {
    forall i: nat {:trigger BlockMade(prog, k, g, i)} :: i < k && Live(prog, i) ==> BlockMade(prog, k, g, i)
  }

  /** Jump targets that no slot has named yet. */
  ghost predicate OthersEmpty(prog: InstructionSeq, k: nat, g: Blocks) {
    forall x {:trigger EmptyAt(g, x)} :: x in g && !NamedBefore(prog, k, x) ==> EmptyAt(g, x)
  }

  predicate EmptyAt(g: Blocks, x: Label)
    requires x in g
  {
    g[x].insts == [] && g[x].nextlist == []
  }

  /** After a live slot: its instruction is placed, the pending fall is linked, and its own jump is linked. */
  ghost predicate SlotDone(e: LabeledInst, from: Option<Label>, g: Blocks, g1: Blocks, g2: Blocks, g3: Blocks) {
    && Placed(g, e.name, e.ins, g1)
    && (if from.Some? then Linked(g1, from.value, e.name, g2) else g2 == g1)
    && (if GetJump(e.ins).Some? then Linked(g2, e.name, GetJump(e.ins).value, g3) else g3 == g2)
  }

  lemma SlotMirrors(e: LabeledInst, from: Option<Label>, g: Blocks, g1: Blocks, g2: Blocks, g3: Blocks)
    requires Mirrored(g) && SlotDone(e, from, g, g1, g2, g3)
    ensures Mirrored(g3)
  {
    PlaceMirrors(g, e.name, e.ins, g1);
    if from.Some? { LinkMirrors(g1, from.value, e.name, g2); }
    if GetJump(e.ins).Some? { LinkMirrors(g2, e.name, GetJump(e.ins).value, g3); }
  }

  lemma PendingUnique(prog: InstructionSeq, k: nat, i: nat, j: nat)
    requires k <= |prog| && Pending(prog, k, i) && Pending(prog, k, j)
    ensures i == j
  {
    if i < j {
      NextLiveFirst(prog, i, k, j);
    } else if j < i {
      NextLiveFirst(prog, j, k, i);
    }
  }

  /** What the slot's links do to one block. */
  lemma SlotBlock(e: LabeledInst, from: Option<Label>, g: Blocks, g1: Blocks, g2: Blocks, g3: Blocks, x: Label)
    requires SlotDone(e, from, g, g1, g2, g3) && x in g3
    ensures g3[x].insts == if x == e.name then [e.ins] else BlockOf(g, x).insts
    ensures g3[x].nextlist == BlockOf(g, x).nextlist + (if from == Some(x) then [e.name] else [])
                            + (if x == e.name && GetJump(e.ins).Some? then [GetJump(e.ins).value] else [])
  {
    assert x in g2 ==> g2[x].nextlist == BlockOf(g1, x).nextlist + (if from == Some(x) then [e.name] else []);
  }

  lemma MadeKeys(prog: InstructionSeq, k: nat, from: Option<Label>, g: Blocks, g1: Blocks, g2: Blocks, g3: Blocks)
    requires k < |prog| && Live(prog, k) && MadeUpTo(prog, k, g)
    requires (from.Some? ==> from.value in g) && SlotDone(prog[k], from, g, g1, g2, g3)
    ensures KeysMade(prog, k + 1, g3)
  {
    var e := prog[k];
    forall x
      ensures x in g3 <==> Mentioned(prog, k + 1, x)
    {
      SlotKeys(e, from, g, g1, g2, g3, x);
      MentionedGrows(prog, k, x);
      assert Names(prog, k, x) <==> x == e.name;
      assert JumpsTo(prog, k, x) <==> GetJump(e.ins) == Some(x);
    }
  }

  lemma SlotKeys(e: LabeledInst, from: Option<Label>, g: Blocks, g1: Blocks, g2: Blocks, g3: Blocks, x: Label)
    requires (from.Some? ==> from.value in g) && SlotDone(e, from, g, g1, g2, g3)
    ensures x in g3 <==> x in g || x == e.name || GetJump(e.ins) == Some(x)
  {}

  lemma MentionedGrows(prog: InstructionSeq, k: nat, x: Label)
    requires k < |prog|
    ensures Mentioned(prog, k + 1, x) <==> Mentioned(prog, k, x) || Names(prog, k, x) || JumpsTo(prog, k, x)
    ensures NamedBefore(prog, k + 1, x) <==> NamedBefore(prog, k, x) || Names(prog, k, x)
  {}

  /** The falling label is that of the pending slot. */
  lemma FallsOf(prog: InstructionSeq, k: nat, from: Option<Label>, i: nat)
    requires i < k <= |prog| && DistinctNames(prog) && FallsFrom(prog, k, from) && Live(prog, i)
    ensures from == Some(prog[i].name) <==> NextLive(prog, i, k).None? && HasFall(prog[i].ins)
  {
    if from.Some? {
      var f: nat :| Pending(prog, k, f) && HasFall(prog[f].ins) && prog[f].name == from.value;
      if Pending(prog, k, i) { PendingUnique(prog, k, i, f); }
    } else {
      assert Pending(prog, k, i) ==> !HasFall(prog[i].ins);
    }
  }

  lemma SuccessorsGrow(prog: InstructionSeq, k: nat, i: nat)
    requires i < k < |prog| && Live(prog, k)
    ensures Successors(prog, i, k + 1) == Successors(prog, i, k) +
      if HasFall(prog[i].ins) && NextLive(prog, i, k).None? then [prog[k].name] else []
  {
    NextLiveGrows(prog, i, k);
  }

  lemma MadeBlock(prog: InstructionSeq, k: nat, from: Option<Label>, g: Blocks, g1: Blocks, g2: Blocks, g3: Blocks, i: nat)
    requires i < k < |prog| && Live(prog, k) && DistinctNames(prog) && BlockMade(prog, k, g, i) && FallsFrom(prog, k, from)
    requires Live(prog, i) && SlotDone(prog[k], from, g, g1, g2, g3) && prog[i].name in g3
    ensures BlockMade(prog, k + 1, g3, i)
  {
    SlotBlock(prog[k], from, g, g1, g2, g3, prog[i].name);
    FallsOf(prog, k, from, i);
    SuccessorsGrow(prog, k, i);
    assert prog[i].name != prog[k].name;
  }

  lemma MadeNewBlock(prog: InstructionSeq, k: nat, from: Option<Label>, g: Blocks, g1: Blocks, g2: Blocks, g3: Blocks)
    requires k < |prog| && Live(prog, k) && DistinctNames(prog) && OthersEmpty(prog, k, g) && FallsFrom(prog, k, from)
    requires SlotDone(prog[k], from, g, g1, g2, g3) && prog[k].name in g3
    ensures BlockMade(prog, k + 1, g3, k)
  {
    var x := prog[k].name;
    SlotBlock(prog[k], from, g, g1, g2, g3, x);
    assert !NamedBefore(prog, k, x);
    assert x in g ==> EmptyAt(g, x);
    assert from != Some(x);
  }

  lemma MadeRest(prog: InstructionSeq, k: nat, from: Option<Label>, g: Blocks, g1: Blocks, g2: Blocks, g3: Blocks, x: Label)
    requires k < |prog| && Live(prog, k) && OthersEmpty(prog, k, g) && FallsFrom(prog, k, from)
    requires SlotDone(prog[k], from, g, g1, g2, g3) && x in g3 && !NamedBefore(prog, k + 1, x)
    ensures EmptyAt(g3, x)
  {
    SlotBlock(prog[k], from, g, g1, g2, g3, x);
    MentionedGrows(prog, k, x);
    assert Names(prog, k, x) <==> x == prog[k].name;
    assert x in g ==> EmptyAt(g, x);
    if from == Some(x) {
      FallingNamed(prog, k, from);
      assert false;
    }
  }

  /** One live slot more. */
  lemma MadeStep(prog: InstructionSeq, k: nat, from: Option<Label>, g: Blocks, g1: Blocks, g2: Blocks, g3: Blocks)
    requires k < |prog| && Live(prog, k) && DistinctNames(prog) && MadeUpTo(prog, k, g) && FallsFrom(prog, k, from)
    requires SlotDone(prog[k], from, g, g1, g2, g3)
    ensures MadeUpTo(prog, k + 1, g3)
  {
    FallingNamed(prog, k, from);
    MadeKeys(prog, k, from, g, g1, g2, g3);
    MadeBlocks(prog, k, from, g, g1, g2, g3);
    MadeOthers(prog, k, from, g, g1, g2, g3);
  }

  lemma MadeBlocks(prog: InstructionSeq, k: nat, from: Option<Label>, g: Blocks, g1: Blocks, g2: Blocks, g3: Blocks)
    requires k < |prog| && Live(prog, k) && DistinctNames(prog) && FallsFrom(prog, k, from)
    requires BlocksMade(prog, k, g) && OthersEmpty(prog, k, g) && SlotDone(prog[k], from, g, g1, g2, g3) && KeysMade(prog, k + 1, g3)
    ensures BlocksMade(prog, k + 1, g3)
  {
    forall i: nat | i < k + 1 && Live(prog, i)
      ensures BlockMade(prog, k + 1, g3, i)
    {
      NameMentioned(prog, k + 1, i);
      if i < k { assert BlockMade(prog, k, g, i); }
      MadeAt(prog, k, from, g, g1, g2, g3, i);
    }
  }

  lemma MadeAt(prog: InstructionSeq, k: nat, from: Option<Label>, g: Blocks, g1: Blocks, g2: Blocks, g3: Blocks, i: nat)
    requires i <= k < |prog| && Live(prog, k) && Live(prog, i) && DistinctNames(prog) && FallsFrom(prog, k, from)
    requires OthersEmpty(prog, k, g) && SlotDone(prog[k], from, g, g1, g2, g3)
    requires (i < k ==> BlockMade(prog, k, g, i)) && prog[i].name in g3
    ensures BlockMade(prog, k + 1, g3, i)
  {
    if i < k {
      MadeBlock(prog, k, from, g, g1, g2, g3, i);
    } else {
      MadeNewBlock(prog, k, from, g, g1, g2, g3);
    }
  }

  lemma NameMentioned(prog: InstructionSeq, k: nat, i: nat)
    requires i < k <= |prog| && Live(prog, i)
    ensures Mentioned(prog, k, prog[i].name)
  {
    assert Names(prog, i, prog[i].name);
  }

  lemma MadeOthers(prog: InstructionSeq, k: nat, from: Option<Label>, g: Blocks, g1: Blocks, g2: Blocks, g3: Blocks)
    requires k < |prog| && Live(prog, k) && FallsFrom(prog, k, from)
    requires OthersEmpty(prog, k, g) && SlotDone(prog[k], from, g, g1, g2, g3)
    ensures OthersEmpty(prog, k + 1, g3)
  {
    forall x | x in g3 && !NamedBefore(prog, k + 1, x)
      ensures EmptyAt(g3, x)
    {
      MadeRest(prog, k, from, g, g1, g2, g3, x);
    }
  }

  lemma FallingNamed(prog: InstructionSeq, k: nat, from: Option<Label>)
    requires k <= |prog| && FallsFrom(prog, k, from)
    ensures from.Some? ==> NamedBefore(prog, k, from.value) && Mentioned(prog, k, from.value)
  {
    if from.None? { return; }
    var f: nat :| Pending(prog, k, f) && HasFall(prog[f].ins) && prog[f].name == from.value;
    assert Names(prog, f, from.value);
  }

  /** An Undefined slot changes nothing. */
  lemma MadeSkip(prog: InstructionSeq, k: nat, from: Option<Label>, g: Blocks)
    requires k < |prog| && !Live(prog, k)
    ensures FallsFrom(prog, k, from) ==> FallsFrom(prog, k + 1, from)
    ensures MadeUpTo(prog, k, g) ==> MadeUpTo(prog, k + 1, g)
  {
    forall i: nat | i < k
      ensures NextLive(prog, i, k + 1) == NextLive(prog, i, k)
    {
      NextLiveGrows(prog, i, k);
    }
    forall i: nat
      ensures Pending(prog, k + 1, i) <==> Pending(prog, k, i)
    {}
    if MadeUpTo(prog, k, g) {
      MadeKeeps(prog, k, g);
    }
  }

  lemma MadeKeeps(prog: InstructionSeq, k: nat, g: Blocks)
    requires k < |prog| && !Live(prog, k) && MadeUpTo(prog, k, g)
    ensures MadeUpTo(prog, k + 1, g)
  {
    forall x
      ensures Mentioned(prog, k + 1, x) <==> Mentioned(prog, k, x)
      ensures NamedBefore(prog, k + 1, x) <==> NamedBefore(prog, k, x)
    {
      MentionedGrows(prog, k, x);
    }
    forall i: nat | i < k + 1 && Live(prog, i)
      ensures BlockMade(prog, k + 1, g, i)
    {
      assert BlockMade(prog, k, g, i);
      BlockKeeps(prog, k, g, i);
    }
  }

  lemma BlockKeeps(prog: InstructionSeq, k: nat, g: Blocks, i: nat)
    requires k < |prog| && !Live(prog, k) && i < k && BlockMade(prog, k, g, i)
    ensures BlockMade(prog, k + 1, g, i)
  {
    NextLiveGrows(prog, i, k);
  }

  /** After a live slot only that slot can be pending. */
  lemma FallsNext(prog: InstructionSeq, k: nat)
    requires k < |prog| && Live(prog, k)
    ensures FallsFrom(prog, k + 1, if HasFall(prog[k].ins) then Some(prog[k].name) else None)
  {
    var n := k + 1;
    forall i: nat
      ensures Pending(prog, n, i) ==> i == k
    {
      if i < k { NextLiveFirst(prog, i, n, k); }
    }
    assert Pending(prog, n, k);
  }
}
