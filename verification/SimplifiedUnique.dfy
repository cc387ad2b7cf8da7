/**
  Merging in any order leads to the same graph: in a graph without cycles the
  blocks that remain, and what they hold, are determined.
 */
module SimplifiedUnique {
  import opened Syntax
  import opened Graph
  import opened Chains
  import opened Contraction
  import opened Simplified

  /** x is the only successor of p, and p the only predecessor of x. */
  ghost predicate Follows(g: Blocks, p: Label, x: Label) {
    p in g && x in g && g[p].nextlist == [x] && g[x].prevlist == [p]
  }

  ghost predicate AllSettled(k: Blocks) {
    forall x :: x in k ==> Settled(k, x)
  }

  /** k is g contracted as far as possible. */
  ghost predicate FullyContracted(g: Blocks, k: Blocks, y: Layout) {
    Contracts(g, k, y) && KeepsJoins(g, k) && AllSettled(k)
  }

  /* ----- which blocks remain ----- */

  lemma {:induction false} RanksAlong(g: Blocks, rank: map<Label, nat>, c: seq<Label>, j: nat)
    requires Chain(g, c) && Numbering(g, rank) && j < |c|
    ensures rank[c[0]] <= rank[c[j]]
    decreases j
  {
    if j == 0 {
    } else {
      RanksAlong(g, rank, c, j - 1);
      assert Linked(g, c, j - 1);
      assert Edge(g, c[j - 1], c[j]);
    }
  }

  lemma HeadHome(g: Blocks, k: Blocks, y: Layout, x: Label)
    requires Contracts(g, k, y) && x in k
    ensures x in g && y.homes[x] == Place(x, 0)
  {
    assert Holds(g, k, x, y.chains[x]) && Recorded(y, x, 0);
  }

  /** If the last block of a chain is followed by another, there is still something to merge. */
  lemma LastNotFollowed(g: Blocks, k: Blocks, rank: map<Label, nat>, l: Label, c: seq<Label>, x: Label)
    requires Numbering(g, rank) && KeepsJoins(g, k) && Closed(k) && Holds(g, k, l, c) && Follows(g, c[|c| - 1], x)
    ensures !Settled(k, l)
  {
    RanksAlong(g, rank, c, |c| - 1);
    assert Edge(g, c[|c| - 1], x);
    assert Mergeable(k, l, x);
  }

  /** A block that follows another stands right after it. */
  lemma FollowerInChain(g: Blocks, k: Blocks, rank: map<Label, nat>, y: Layout, p: Label, x: Label)
    requires Numbering(g, rank) && FullyContracted(g, k, y) && Closed(k) && Follows(g, p, x)
    ensures Stands(y, p) && var Place(l, j) := y.homes[p]; j + 1 < |y.chains[l]| && y.chains[l][j + 1] == x
  {
    assert Stands(y, p);
    var Place(l, j) := y.homes[p];
    var c := y.chains[l];
    assert Holds(g, k, l, c);
    if j + 1 < |c| {
      assert Linked(g, c, j);
    } else {
      LastNotFollowed(g, k, rank, l, c, x);
      assert false;
    }
  }

  lemma FollowerIsGone(g: Blocks, k: Blocks, rank: map<Label, nat>, y: Layout, p: Label, x: Label)
    requires Numbering(g, rank) && FullyContracted(g, k, y) && Closed(k) && Follows(g, p, x)
    ensures x !in k
  {
    FollowerInChain(g, k, rank, y, p, x);
    var Place(l, j) := y.homes[p];
    assert Recorded(y, l, j + 1);
    if x in k { HeadHome(g, k, y, x); }
  }

  /** A block that is gone stands right after the one it follows. */
  lemma GoneFollows(g: Blocks, k: Blocks, y: Layout, x: Label)
    requires Contracts(g, k, y) && x in g && x !in k
    ensures Stands(y, x) && y.homes[x].index > 0
    ensures Follows(g, y.chains[y.homes[x].block][y.homes[x].index - 1], x)
  {
    assert Stands(y, x);
    var Place(l, j) := y.homes[x];
    assert Holds(g, k, l, y.chains[l]);
    assert Linked(g, y.chains[l], j - 1);
  }

  /** The blocks that remain are those that follow no other. */
  lemma RemainsIff(g: Blocks, k: Blocks, rank: map<Label, nat>, y: Layout, x: Label)
    requires Numbering(g, rank) && FullyContracted(g, k, y) && Closed(k) && x in g
    ensures x in k <==> !exists p :: Follows(g, p, x)
  {
    if p :| Follows(g, p, x) {
      FollowerIsGone(g, k, rank, y, p, x);
    }
    if x !in k {
      GoneFollows(g, k, y, x);
    }
  }

  /* ----- what they hold ----- */

  /** The chains of one block in two contractions agree as far as both go. */
  lemma {:induction false} ChainsAgree(g: Blocks, c: seq<Label>, c': seq<Label>, j: nat)
    requires Chain(g, c) && Chain(g, c') && c[0] == c'[0] && j < |c| && j < |c'|
    ensures c[j] == c'[j]
    decreases j
  {
    if j == 0 {
    } else {
      ChainsAgree(g, c, c', j - 1);
      assert Linked(g, c, j - 1) && Linked(g, c', j - 1);
    }
  }

  /** A full contraction leaves nothing after its chains. */
  lemma ChainsEnd(g: Blocks, k: Blocks, rank: map<Label, nat>, l: Label, c: seq<Label>, x: Label)
    requires Numbering(g, rank) && KeepsJoins(g, k) && AllSettled(k) && Closed(k) && Holds(g, k, l, c)
    ensures !Follows(g, c[|c| - 1], x)
  {
    if Follows(g, c[|c| - 1], x) {
      LastNotFollowed(g, k, rank, l, c, x);
    }
  }

  lemma NotLonger(g: Blocks, k: Blocks, rank: map<Label, nat>, l: Label, c: seq<Label>, c': seq<Label>)
    requires Numbering(g, rank) && KeepsJoins(g, k) && AllSettled(k) && Closed(k) && Holds(g, k, l, c)
    requires Chain(g, c') && c'[0] == l
    ensures |c'| <= |c|
  {
    if |c'| > |c| {
      var j := |c| - 1;
      ChainsAgree(g, c, c', j);
      assert Linked(g, c', j);
      ChainsEnd(g, k, rank, l, c, c'[j + 1]);
    }
  }

  lemma SameChain(g: Blocks, k: Blocks, k': Blocks, rank: map<Label, nat>, l: Label, c: seq<Label>, c': seq<Label>)
    requires Numbering(g, rank) && Holds(g, k, l, c) && Holds(g, k', l, c')
    requires KeepsJoins(g, k) && AllSettled(k) && Closed(k) && KeepsJoins(g, k') && AllSettled(k') && Closed(k')
    ensures c == c'
  {
    NotLonger(g, k, rank, l, c, c');
    NotLonger(g, k', rank, l, c', c);
    forall j | 0 <= j < |c|
      ensures c[j] == c'[j]
    {
      ChainsAgree(g, c, c', j);
    }
  }

  /** The same blocks with the same instructions, successors, and predecessors with multiplicity. */
  ghost predicate SameGraph(k: Blocks, k': Blocks) {
    && k.Keys == k'.Keys
    && forall l :: l in k ==> SameBlock(k[l], k'[l])
  }

  ghost predicate SameBlock(b: BasicBlock, b': BasicBlock) {
    && b.insts == b'.insts && b.nextlist == b'.nextlist
    && forall p :: Occurs(b.prevlist, p) == Occurs(b'.prevlist, p)
  }

  lemma SameHeads(g: Blocks, k: Blocks, k': Blocks, rank: map<Label, nat>, y: Layout, y': Layout)
    requires Numbering(g, rank) && FullyContracted(g, k, y) && Closed(k) && FullyContracted(g, k', y') && Closed(k')
    ensures forall x :: x in k <==> x in k'
  {
    forall x
      ensures x in k <==> x in k'
    {
      if x in g {
        RemainsIff(g, k, rank, y, x);
        RemainsIff(g, k', rank, y', x);
      }
    }
  }

  lemma SamePredecessors(k: Blocks, k': Blocks, l: Label, p: Label)
    requires Mirrored(k) && Mirrored(k') && (forall x :: x in k <==> x in k') && l in k
    requires p in k ==> k[p].nextlist == k'[p].nextlist
    ensures Occurs(k[l].prevlist, p) == Occurs(k'[l].prevlist, p)
  {
    if p in k {
      assert Occurs(k[p].nextlist, l) == Occurs(k[l].prevlist, p);
      assert Occurs(k'[p].nextlist, l) == Occurs(k'[l].prevlist, p);
    } else {
      assert p !in k[l].prevlist && p !in k'[l].prevlist;
    }
  }

  lemma SameContents(g: Blocks, k: Blocks, k': Blocks, rank: map<Label, nat>, y: Layout, y': Layout, l: Label)
    requires Numbering(g, rank) && FullyContracted(g, k, y) && Closed(k) && FullyContracted(g, k', y') && Closed(k')
    requires l in k && l in k'
    ensures k[l].insts == k'[l].insts && k[l].nextlist == k'[l].nextlist
  {
    assert Holds(g, k, l, y.chains[l]) && Holds(g, k', l, y'.chains[l]);
    SameChain(g, k, k', rank, l, y.chains[l], y'.chains[l]);
  }

  lemma SameAt(g: Blocks, k: Blocks, k': Blocks, rank: map<Label, nat>, y: Layout, y': Layout, l: Label)
    requires Numbering(g, rank) && FullyContracted(g, k, y) && FullyContracted(g, k', y')
    requires Mirrored(k) && Mirrored(k') && (forall x :: x in k <==> x in k') && l in k
    ensures SameBlock(k[l], k'[l])
  {
    SameContents(g, k, k', rank, y, y', l);
    forall p
      ensures Occurs(k[l].prevlist, p) == Occurs(k'[l].prevlist, p)
    {
      if p in k { SameContents(g, k, k', rank, y, y', p); }
      SamePredecessors(k, k', l, p);
    }
  }

  lemma SameContraction(g: Blocks, k: Blocks, k': Blocks, rank: map<Label, nat>, y: Layout, y': Layout)
    requires Numbering(g, rank) && FullyContracted(g, k, y) && FullyContracted(g, k', y') && Mirrored(k) && Mirrored(k')
    ensures SameGraph(k, k')
  {
    SameHeads(g, k, k', rank, y, y');
    forall l | l in k
      ensures SameBlock(k[l], k'[l])
    {
      SameAt(g, k, k', rank, y, y', l);
    }
  }

  /** In whatever order a graph without cycles is merged until nothing is left to merge, the same graph remains. */
  lemma SimplifiedOnce(g: Blocks, k: Blocks, k': Blocks)
    requires Acyclic(g) && SimplifiedFrom(g, k) && AllSettled(k) && SimplifiedFrom(g, k') && AllSettled(k')
    ensures SameGraph(k, k')
  {
    var rank :| Numbering(g, rank);
    var y :| Contracts(g, k, y);
    var y' :| Contracts(g, k', y');
    SameContraction(g, k, k', rank, y, y');
  }
}
