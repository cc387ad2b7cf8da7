/**
  The shape of a simplified graph: each of its blocks is a chain of blocks of
  the graph before, and the two graphs have the same runs.
 */
module Contraction {
  import opened Syntax
  import opened Graph
  import opened CfgRuns
  import opened Chains

  /* ----- chains ----- */

  /** Where a block of the old graph stands: the block that holds it, and its index in that block's chain. */
  datatype Place = Place(block: Label, index: nat)

  datatype Layout = Layout(chains: map<Label, seq<Label>>, homes: map<Label, Place>)

  /** The instructions of the listed blocks, in order. */
  ghost function Gathered(g: Blocks, c: seq<Label>): seq<Instruction>
    requires forall x :: x in c ==> x in g
  {
    if c == [] then [] else Gathered(g, c[..|c| - 1]) + g[c[|c| - 1]].insts
  }

  /** Each is the only successor of the one before, and has it as its only predecessor. */
  ghost predicate Chain(g: Blocks, c: seq<Label>) {
    && c != [] && (forall x :: x in c ==> x in g)
    && forall j :: 0 <= j < |c| - 1 ==> Linked(g, c, j)
  }

  ghost predicate Linked(g: Blocks, c: seq<Label>, j: nat)
    requires j + 1 < |c|
  {
    c[j] in g && c[j + 1] in g && g[c[j]].nextlist == [c[j + 1]] && g[c[j + 1]].prevlist == [c[j]]
  }

  /** The block l of k is the chain c of blocks of g. */
  ghost predicate Holds(g: Blocks, k: Blocks, l: Label, c: seq<Label>) {
    && Chain(g, c) && c[0] == l && l in k
    && k[l].insts == Gathered(g, c) && k[l].nextlist == g[c[|c| - 1]].nextlist
  }

  predicate Stands(y: Layout, x: Label) {
    && x in y.homes && y.homes[x].block in y.chains
    && y.homes[x].index < |y.chains[y.homes[x].block]| && y.chains[y.homes[x].block][y.homes[x].index] == x
  }

  predicate Recorded(y: Layout, l: Label, j: nat)
    requires l in y.chains && j < |y.chains[l]|
  {
    y.chains[l][j] in y.homes && y.homes[y.chains[l][j]] == Place(l, j)
  }

  /** Every home is a place in a chain, and every place in a chain is a home. */
  ghost predicate Sorted(y: Layout) {
    && (forall x {:trigger Stands(y, x)} :: x in y.homes ==> Stands(y, x))
    && (forall l, j: nat {:trigger Recorded(y, l, j)} :: l in y.chains && j < |y.chains[l]| ==> Recorded(y, l, j))
  }

  ghost predicate AllHold(g: Blocks, k: Blocks, chains: map<Label, seq<Label>>) {
    chains.Keys == k.Keys && forall l {:trigger Holds(g, k, l, chains[l])} :: l in k ==> Holds(g, k, l, chains[l])
  }

  /** The chains of the blocks of k hold every block of g exactly once. */
  ghost predicate Contracts(g: Blocks, k: Blocks, y: Layout) {
    y.homes.Keys == g.Keys && AllHold(g, k, y.chains) && Sorted(y)
  }

  ghost predicate Contracted(g: Blocks, k: Blocks) {
    exists y :: Contracts(g, k, y)
  }

  lemma {:induction false} GatheredConcat(g: Blocks, c: seq<Label>, d: seq<Label>)
    requires forall x :: x in c + d ==> x in g
    ensures Gathered(g, c + d) == Gathered(g, c) + Gathered(g, d)
  {
    if d == [] {
      assert c + d == c;
    } else {
      var init := d[..|d| - 1];
      assert (c + d)[..|c + d| - 1] == c + init;
      GatheredConcat(g, c, init);
    }
  }

  function SelfLayout(g: Blocks): Layout {
    Layout(map l | l in g :: [l], map l | l in g :: Place(l, 0))
  }

  lemma ContractsSelf(g: Blocks)
    ensures Contracts(g, g, SelfLayout(g))
  {
    var y := SelfLayout(g);
    forall l | l in g
      ensures Holds(g, g, l, y.chains[l])
    {
      assert [l][..0] == [];
      assert Gathered(g, [l]) == g[l].insts;
    }
  }

  /* ----- one more merge ----- */

  /** The chains after b has been appended to a. */
  function Appended(y: Layout, a: Label, b: Label): Layout
    requires a in y.chains && b in y.chains
  {
    Layout(map l | l in y.chains && l != b :: if l == a then y.chains[a] + y.chains[b] else y.chains[l],
           map x | x in y.homes :: if y.homes[x].block == b then Place(a, |y.chains[a]| + y.homes[x].index) else y.homes[x])
  }

  lemma ChainsLinked(g: Blocks, c: seq<Label>, d: seq<Label>)
    requires Chain(g, c) && Chain(g, d)
    requires g[c[|c| - 1]].nextlist == [d[0]] && g[d[0]].prevlist == [c[|c| - 1]]
    ensures Chain(g, c + d)
  {
    var e := c + d;
    forall j | 0 <= j < |e| - 1
      ensures Linked(g, e, j)
    {
      if j < |c| - 1 {
        assert Linked(g, c, j);
      } else if j >= |c| {
        assert Linked(g, d, j - |c|);
      }
    }
  }

  lemma AppendedHolds(g: Blocks, k: Blocks, a: Label, b: Label, c: seq<Label>, d: seq<Label>, k': Blocks)
    requires Holds(g, k, a, c) && Holds(g, k, b, d) && k[a].nextlist == [b] && g[b].prevlist == [c[|c| - 1]]
    requires a in k' && k'[a].insts == k[a].insts + k[b].insts && k'[a].nextlist == k[b].nextlist
    ensures Holds(g, k', a, c + d)
  {
    ChainsLinked(g, c, d);
    GatheredConcat(g, c, d);
  }

  lemma OnlyEntry(g: Blocks, l: Label, b: Label)
    requires Mirrored(g) && l in g && g[l].nextlist == [b] && b in g && |g[b].prevlist| == 1
    ensures g[b].prevlist == [l]
  {
    MirroredEdge(g, l, b);
  }

  lemma HoldsStill(g: Blocks, k: Blocks, a: Label, b: Label, k': Blocks, l: Label, c: seq<Label>)
    requires Spliced(k, a, b, k') && Holds(g, k, l, c) && l != a && l != b
    ensures Holds(g, k', l, c)
  {}

  lemma AppendedHomes(y: Layout, a: Label, b: Label)
    requires a in y.chains && b in y.chains && a != b && Sorted(y)
    ensures Sorted(Appended(y, a, b))
  {
    var z := Appended(y, a, b);
    forall x | x in y.homes
      ensures Stands(z, x)
    {
      assert Stands(y, x);
    }
    forall l, j: nat | l in z.chains && j < |z.chains[l]|
      ensures Recorded(z, l, j)
    {
      if l == a && j >= |y.chains[a]| {
        assert Recorded(y, b, j - |y.chains[a]|);
      } else {
        assert Recorded(y, l, j);
      }
    }
  }

  lemma AppendedAllHold(g: Blocks, k: Blocks, chains: map<Label, seq<Label>>, a: Label, b: Label, k': Blocks, l: Label)
    requires Mirrored(g) && Spliced(k, a, b, k') && b in g && |g[b].prevlist| == 1
    requires AllHold(g, k, chains) && l in k'
    ensures Holds(g, k', l, if l == a then chains[a] + chains[b] else chains[l])
  {
    if l == a {
      var c := chains[a];
      assert Holds(g, k, a, c) && Holds(g, k, b, chains[b]);
      OnlyEntry(g, c[|c| - 1], b);
      AppendedHolds(g, k, a, b, c, chains[b], k');
    } else {
      HoldsStill(g, k, a, b, k', l, chains[l]);
    }
  }

  lemma AppendedKeys(k: Blocks, a: Label, b: Label, k': Blocks, y: Layout)
    requires Spliced(k, a, b, k') && y.chains.Keys == k.Keys
    ensures Appended(y, a, b).chains.Keys == k'.Keys && Appended(y, a, b).homes.Keys == y.homes.Keys
  {}

  /** A merge joins two chains. */
  lemma MergeContracts(g: Blocks, k: Blocks, y: Layout, a: Label, b: Label, k': Blocks)
    requires Mirrored(g) && Contracts(g, k, y) && Spliced(k, a, b, k') && b in g && |g[b].prevlist| == 1
    ensures Contracts(g, k', Appended(y, a, b))
  {
    AppendedHomes(y, a, b);
    AppendedKeys(k, a, b, k', y);
    var chains := Appended(y, a, b).chains;
    assert AllHold(g, k', chains) by {
      forall l | l in k'
        ensures Holds(g, k', l, chains[l])
      {
        AppendedAllHold(g, k, y.chains, a, b, k', l);
      }
    }
  }

  /* ----- runs ----- */

  /** The number of instructions before the block x of g in the block of k that holds it. */
  ghost function Offset(g: Blocks, k: Blocks, y: Layout, x: Label): (n: nat)
    requires Contracts(g, k, y) && x in g
  {
    assert Stands(y, x);
    assert Holds(g, k, y.homes[x].block, y.chains[y.homes[x].block]);
    |Gathered(g, y.chains[y.homes[x].block][..y.homes[x].index])|
  }

  /** The block that holds x, and the instructions before x. */
  lemma HomeOf(g: Blocks, k: Blocks, y: Layout, x: Label)
    requires Contracts(g, k, y) && x in g
    ensures Stands(y, x) && var Place(l, j) := y.homes[x]; var c := y.chains[l];
            && Holds(g, k, l, c) && Offset(g, k, y, x) == |Gathered(g, c[..j])|
            && Offset(g, k, y, x) <= |k[l].insts| && k[l].insts[..Offset(g, k, y, x)] == Gathered(g, c[..j])
  {
    assert Stands(y, x);
    var Place(l, j) := y.homes[x];
    GatheredPrefix(g, k, l, y.chains[l], j);
  }

  /** A run of k to the block that holds b's, and then the instructions before it. */
  ghost predicate LeadsHome<S(!new)>(M: Meaning<S>, g: Blocks, k: Blocks, y: Layout, a: Arrival<S>, b: Arrival<S>)
    requires Contracts(g, k, y) && b.name in g
  {
    LeadsInto(M, k, a, y.homes[b.name].block, Offset(g, k, y, b.name), b.state)
  }

  /** Within a chain: the old graph goes from block to block. */
  lemma {:induction false} ChainLeads<S(!new)>(M: Meaning<S>, g: Blocks, a: Arrival<S>, c: seq<Label>, j: nat, s: S, t: S)
    requires Chain(g, c) && j < |c| && Leads(M, g, a, At(c[0], s)) && Executes(M, Gathered(g, c[..j]), s, t)
    ensures Leads(M, g, a, At(c[j], t))
    decreases j
  {
    if j == 0 {
      assert c[..0] == [];
    } else {
      assert c[..j][..j - 1] == c[..j - 1];
      ExecutesConcat(M, Gathered(g, c[..j - 1]), g[c[j - 1]].insts, s, t);
      var u :| Executes(M, Gathered(g, c[..j - 1]), s, u) && Executes(M, g[c[j - 1]].insts, u, t);
      ChainLeads(M, g, a, c, j - 1, s, u);
      assert Linked(g, c, j - 1);
      LeadsOn(M, g, a, At(c[j - 1], u), At(c[j], t));
    }
  }

  /** The instructions of the block up to and including the j-th of its chain. */
  lemma GatheredPrefix(g: Blocks, k: Blocks, l: Label, c: seq<Label>, j: nat)
    requires Holds(g, k, l, c) && j < |c|
    ensures Gathered(g, c[..j + 1]) == Gathered(g, c[..j]) + g[c[j]].insts
    ensures |Gathered(g, c[..j])| + |g[c[j]].insts| <= |k[l].insts|
    ensures Gathered(g, c[..j]) == k[l].insts[..|Gathered(g, c[..j])|]
    ensures g[c[j]].insts == k[l].insts[|Gathered(g, c[..j])|..][..|g[c[j]].insts|]
    ensures j + 1 == |c| ==> Gathered(g, c[..j]) + g[c[j]].insts == k[l].insts
  {
    assert c[..j + 1][..j] == c[..j];
    assert c == c[..j + 1] + c[j + 1..];
    GatheredConcat(g, c[..j + 1], c[j + 1..]);
  }

  /** A step of the old graph is a part of a block, or the end of one and the step to the next. */
  lemma StepInChain<S(!new)>(M: Meaning<S>, g: Blocks, k: Blocks, l: Label, c: seq<Label>, j: nat, s: S, t: S, next: Arrival<S>)
    requires Holds(g, k, l, c) && j < |c| && Executes(M, Gathered(g, c[..j]), s, t)
    requires FreeStep(M, g, At(c[j], t), next)
    ensures Executes(M, Gathered(g, c[..j + 1]), s, next.state)
    ensures if j + 1 < |c| then next.name == c[j + 1] else FreeStep(M, k, At(l, s), next)
  {
    GatheredPrefix(g, k, l, c, j);
    ExecutesConcat(M, Gathered(g, c[..j]), g[c[j]].insts, s, next.state);
    assert Executes(M, g[c[j]].insts, t, next.state);
    assert Executes(M, Gathered(g, c[..j]) + g[c[j]].insts, s, next.state);
    if j + 1 < |c| { assert Linked(g, c, j); }
  }

  lemma StepWithin<S(!new)>(M: Meaning<S>, g: Blocks, k: Blocks, a: Arrival<S>, l: Label, c: seq<Label>, j: nat, t: S, next: Arrival<S>)
    requires Closed(k) && Holds(g, k, l, c) && j < |c| && LeadsThrough(M, k, a, l, Gathered(g, c[..j]), t)
    requires FreeStep(M, g, At(c[j], t), next)
    ensures if j + 1 < |c| then next.name == c[j + 1] && LeadsThrough(M, k, a, l, Gathered(g, c[..j + 1]), next.state)
            else next.name in k && Leads(M, k, a, next)
  {
    var s :| Leads(M, k, a, At(l, s)) && Executes(M, Gathered(g, c[..j]), s, t);
    StepInChain(M, g, k, l, c, j, s, t, next);
    if j + 1 == |c| { LeadsOn(M, k, a, At(l, s), next); }
  }

  /** What HomeOf says of runs. */
  lemma IntoHome<S(!new)>(M: Meaning<S>, g: Blocks, k: Blocks, y: Layout, a: Arrival<S>, b: Arrival<S>)
    requires Contracts(g, k, y) && b.name in g
    ensures Stands(y, b.name) && Holds(g, k, y.homes[b.name].block, y.chains[y.homes[b.name].block])
    ensures var Place(l, j) := y.homes[b.name];
            LeadsHome(M, g, k, y, a, b) <==> LeadsThrough(M, k, a, l, Gathered(g, y.chains[l][..j]), b.state)
  {
    HomeOf(g, k, y, b.name);
  }

  lemma StepContracts<S(!new)>(M: Meaning<S>, g: Blocks, k: Blocks, y: Layout, a: Arrival<S>, b: Arrival<S>, next: Arrival<S>)
    requires Closed(k) && Contracts(g, k, y) && b.name in g && next.name in g
    requires LeadsHome(M, g, k, y, a, b) && FreeStep(M, g, b, next)
    ensures LeadsHome(M, g, k, y, a, next)
  {
    IntoHome(M, g, k, y, a, b);
    var Place(l, j) := y.homes[b.name];
    var c := y.chains[l];
    StepWithin(M, g, k, a, l, c, j, b.state, next);
    if j + 1 < |c| {
      assert Recorded(y, l, j + 1);
      IntoHome(M, g, k, y, a, next);
    } else {
      ArrivesAtStart(M, g, k, y, a, next);
    }
  }

  lemma ArrivesAtStart<S(!new)>(M: Meaning<S>, g: Blocks, k: Blocks, y: Layout, a: Arrival<S>, c: Arrival<S>)
    requires Contracts(g, k, y) && c.name in k && Leads(M, k, a, c)
    ensures c.name in g && LeadsHome(M, g, k, y, a, c)
  {
    assert Holds(g, k, c.name, y.chains[c.name]) && Recorded(y, c.name, 0);
    assert y.chains[c.name][..0] == [];
    assert k[c.name].insts[..0] == [] && Executes(M, [], c.state, c.state);
  }

  lemma {:induction false} RunContracts<S(!new)>(M: Meaning<S>, g: Blocks, k: Blocks, y: Layout, r: seq<Arrival<S>>)
    requires Closed(k) && Contracts(g, k, y) && FreeRun(M, g, r) && r[0].name in k
    ensures r[|r| - 1].name in g && LeadsHome(M, g, k, y, r[0], r[|r| - 1])
    decreases |r|
  {
    if |r| == 1 {
      LeadsNowhere(M, k, r[0]);
      ArrivesAtStart(M, g, k, y, r[0], r[0]);
    } else {
      FreeRunInit(M, g, r);
      RunContracts(M, g, k, y, r[..|r| - 1]);
      StepContracts(M, g, k, y, r[0], r[|r| - 2], r[|r| - 1]);
    }
  }

  /** A whole block of the new graph, and then a step, in the old one. */
  lemma StepExpands<S(!new)>(M: Meaning<S>, g: Blocks, k: Blocks, y: Layout, a: Arrival<S>, b: Arrival<S>, c: Arrival<S>)
    requires Contracts(g, k, y) && Leads(M, g, a, b) && FreeStep(M, k, b, c) && c.name in k
    ensures Leads(M, g, a, c)
  {
    var chain := y.chains[b.name];
    assert Holds(g, k, b.name, chain) && Holds(g, k, c.name, y.chains[c.name]);
    var j := |chain| - 1;
    GatheredPrefix(g, k, b.name, chain, j);
    ExecutesConcat(M, Gathered(g, chain[..j]), g[chain[j]].insts, b.state, c.state);
    var u :| Executes(M, Gathered(g, chain[..j]), b.state, u) && Executes(M, g[chain[j]].insts, u, c.state);
    ChainLeads(M, g, a, chain, j, b.state, u);
    LeadsOn(M, g, a, At(chain[j], u), c);
  }

  lemma {:induction false} RunExpands<S(!new)>(M: Meaning<S>, g: Blocks, k: Blocks, y: Layout, r: seq<Arrival<S>>)
    requires Contracts(g, k, y) && FreeRun(M, k, r)
    ensures Leads(M, g, r[0], r[|r| - 1])
    decreases |r|
  {
    if |r| == 1 {
      assert Holds(g, k, r[0].name, y.chains[r[0].name]);
      LeadsNowhere(M, g, r[0]);
    } else {
      FreeRunInit(M, k, r);
      RunExpands(M, g, k, y, r[..|r| - 1]);
      StepExpands(M, g, k, y, r[0], r[|r| - 2], r[|r| - 1]);
    }
  }

  /**
    The old graph arrives at a block in a state exactly when the new graph gets
    there: to the block that holds it, and through the instructions before it.
   */
  lemma SameArrivals<S(!new)>(M: Meaning<S>, g: Blocks, k: Blocks, y: Layout, a: Arrival<S>, b: Arrival<S>)
    requires Closed(k) && Contracts(g, k, y) && a.name in k && b.name in g
    ensures Leads(M, g, a, b) <==> LeadsHome(M, g, k, y, a, b)
  {
    if r :| FreeRun(M, g, r) && r[0] == a && r[|r| - 1] == b {
      RunContracts(M, g, k, y, r);
    }
    IntoHome(M, g, k, y, a, b);
    var Place(l, j) := y.homes[b.name];
    var c := y.chains[l];
    if LeadsThrough(M, k, a, l, Gathered(g, c[..j]), b.state) {
      var s :| Leads(M, k, a, At(l, s)) && Executes(M, Gathered(g, c[..j]), s, b.state);
      var r :| FreeRun(M, k, r) && r[0] == a && r[|r| - 1] == At(l, s);
      RunExpands(M, g, k, y, r);
      ChainLeads(M, g, a, c, j, s, b.state);
    }
  }
}
