/**
  The control-flow graph object: built from an instruction sequence, turned
  into a graph with assumptions, and simplified in place.
 */
module CfgObject {
  import opened Syntax
  import opened Graph
  import opened CfgRuns
  import opened Nondet
  import opened Made
  import opened Chains
  import opened Simplified
  import opened CfgSteps

  class Cfg {
    var graph: Blocks
    var orderedLabels: seq<Label>

    constructor ()
      ensures graph == map[] && orderedLabels == []
    {
      graph, orderedLabels := map[], [];
    }

    method Encountered(l: Label)
      modifies this`orderedLabels
      ensures orderedLabels == old(orderedLabels) + [l]
    {
      orderedLabels := orderedLabels + [l];
    }

    method Link(from: Label, to: Label)
      modifies this`graph
      ensures Linked(old(graph), from, to, graph)
    {
      var source := BlockOf(graph, from);
      graph := graph[from := source.(nextlist := source.nextlist + [to])];
      var target := BlockOf(graph, to);
      graph := graph[to := target.(prevlist := target.prevlist + [from])];
    }

    method Place(l: Label, ins: Instruction)
      modifies this`graph
      ensures Placed(old(graph), l, ins, graph)
    {
      graph := graph[l := BlockOf(graph, l).(insts := [ins])];
    }

    /** One live slot of the sequence. */
    method AddSlot(e: LabeledInst, from: Option<Label>) returns (ghost g1: Blocks, ghost g2: Blocks)
      modifies this
      ensures orderedLabels == old(orderedLabels) + [e.name]
      ensures SlotDone(e, from, old(graph), g1, g2, graph)
    {
      Encountered(e.name);
      Place(e.name, e.ins);
      g1 := graph;
      if from.Some? { Link(from.value, e.name); }
      g2 := graph;
      if GetJump(e.ins).Some? { Link(e.name, GetJump(e.ins).value); }
    }

    /**
      One block for each instruction that is not Undefined. The edges mirror
      each other whatever the labels are; it fails exactly when the last
      instruction would fall through.
     */
    static method Make(insts: InstructionSeq) returns (ok: bool, cfg: Cfg)
      ensures fresh(cfg) && Mirrored(cfg.graph)
      ensures cfg.orderedLabels == LiveNames(insts, |insts|)
      ensures ok <==> FallsFrom(insts, |insts|, None)
      ensures DistinctNames(insts) ==> MadeUpTo(insts, |insts|, cfg.graph)
    {
      cfg := new Cfg();
      var fallingFrom: Option<Label> := None;
      NothingMade(insts);
      for k := 0 to |insts|
        invariant fresh(cfg) && Mirrored(cfg.graph)
        invariant cfg.orderedLabels == LiveNames(insts, k)
        invariant FallsFrom(insts, k, fallingFrom)
        invariant DistinctNames(insts) ==> MadeUpTo(insts, k, cfg.graph)
      {
        ghost var g := cfg.graph;
        if insts[k].ins.Undefined? {
          MadeSkip(insts, k, fallingFrom, g);
        } else {
          ghost var g1, g2 := cfg.AddSlot(insts[k], fallingFrom);
          SlotAdded(insts, k, fallingFrom, g, g1, g2, cfg.graph);
          fallingFrom := if HasFall(insts[k].ins) then Some(insts[k].name) else None;
        }
      }
      FallsSome(insts, fallingFrom);
      ok := fallingFrom.None?;
    }

    /** res[l] = the block that assumes the condition. */
    method AddMid(l: Label, cond: Condition, from: Label, next: Label)
      modifies this
      ensures orderedLabels == old(orderedLabels) + [l]
      ensures graph == old(graph)[l := BasicBlock([AssumeIns(cond)], [next], [from])]
    {
      Encountered(l);
      graph := graph[l := BasicBlock([AssumeIns(cond)], [next], [from])];
    }

    /** The blocks on the way out of a block with two successors. */
    method AddMids(g: Blocks, l: Label)
      requires Input(g) && l in g && Branches(g[l])
      modifies this
      ensures MidsUpTo(g, old(graph), l, 2, graph)
      ensures orderedLabels == old(orderedLabels) + NextNames(g[l], l)
    {
      BranchesTwo(g[l]);
      var cond := LastCondition(g[l]);
      var jumps := [(g[l].nextlist[0], cond), (g[l].nextlist[1], ReverseCondition(cond))];
      for i := 0 to 2
        invariant MidsUpTo(g, old(graph), l, i, graph)
        invariant orderedLabels == old(orderedLabels) + NextNames(g[l], l)[..i]
      {
        ghost var h := graph;
        AddMid(Mid(l, jumps[i].0), jumps[i].1, l, jumps[i].0);
        MidsStep(g, old(graph), l, i, h, graph);
      }
    }

    /** What the loop of ToNondet does for one label. */
    method AddBlocks(g: Blocks, l: Label, expandLocks: bool)
      requires Input(g) && l in g
      modifies this
      ensures Added(g, expandLocks, old(graph), l, graph)
      ensures orderedLabels == old(orderedLabels) + ([l] + Outgoing(g, l))
    {
      var bb := g[l];
      BranchesTwo(bb);
      Encountered(l);
      var insts := KeptInstructions(bb.insts, expandLocks);
      var prevs := NewPrevlist(g, bb.prevlist, l);
      var nexts := Unique(bb.nextlist);
      if |nexts| == 2 {
        AddMids(g, l);
        nexts := [Mid(l, bb.nextlist[0]), Mid(l, bb.nextlist[1])];
      }
      ghost var h := graph;
      graph := graph[l := BasicBlock(insts, nexts, prevs)];
      BlockAdded(g, expandLocks, old(graph), l, h, graph);
    }

    /** Conditional jumps become assumptions in blocks of their own; this graph stays as it is. */
    method ToNondet(expandLocks: bool) returns (res: Cfg)
      requires Input(graph) && Distinct(orderedLabels) && forall l :: l in graph <==> l in orderedLabels
      ensures fresh(res) && IsNondet(graph, expandLocks, res.graph)
      ensures res.orderedLabels == NondetLabels(graph, orderedLabels)
    {
      res := new Cfg();
      for i := 0 to |orderedLabels|
        invariant fresh(res) && NondetUpTo(graph, expandLocks, orderedLabels[..i], res.graph)
        invariant res.orderedLabels == NondetLabels(graph, orderedLabels[..i])
      {
        var l := orderedLabels[i];
        ghost var h := res.graph;
        res.AddBlocks(graph, l, expandLocks);
        AddedUpTo(graph, expandLocks, orderedLabels[..i], h, l, res.graph);
        PrefixStep(orderedLabels, i);
      }
      PrefixAll(orderedLabels);
      UpToAll(graph, expandLocks, orderedLabels, res.graph);
    }

    /* ----- simplification ----- */

    /** Appending the only successor: its successors, its instructions, its removal, and the reconnection. */
    method Absorb(into: Label, next: Label)
      requires Mirrored(graph) && Mergeable(graph, into, next)
      modifies this`graph
      ensures MergeInput(old(graph), into, next, graph)
    {
      ghost var g := graph;
      var nextBb := graph[next];
      OnlyPredecessor(g, into, next);
      Append(into, nextBb);
      ghost var extended := graph;
      graph := graph - {next};
      ghost var joined := graph;
      JoinedWithout(g, into, next, extended, joined);
      NextsStay(g, into, next, joined);
      ReconnectAll(nextBb.nextlist, next, into);
      ReconnectedMerges(g, into, next, joined, graph);
    }

    method Append(into: Label, nextBb: BasicBlock)
      requires into in graph
      modifies this`graph
      ensures forall l :: l in graph <==> l in old(graph)
      ensures graph[into] == BasicBlock(old(graph)[into].insts + nextBb.insts, nextBb.nextlist, old(graph)[into].prevlist)
      ensures forall l :: l in graph && l != into ==> graph[l] == old(graph)[l]
    {
      var insts := graph[into].insts;
      for i := 0 to |nextBb.insts|
        invariant graph == old(graph) && insts == graph[into].insts + nextBb.insts[..i]
      {
        insts := insts + [nextBb.insts[i]];
      }
      graph := graph[into := BasicBlock(insts, nextBb.nextlist, graph[into].prevlist)];
    }

    method ReconnectAll(nexts: seq<Label>, from: Label, to: Label)
      requires from != to && forall l :: l in nexts ==> l in graph
      modifies this`graph
      ensures Reconnected(old(graph), nexts, from, to, graph)
    {
      for j := 0 to |nexts|
        invariant Reconnected(old(graph), nexts[..j], from, to, graph)
      {
        ghost var before := graph;
        Reconnect(nexts[j], from, to);
        ReconnectedStep(old(graph), nexts[..j], nexts[j], from, to, before, graph);
        PrefixStep(nexts, j);
      }
      PrefixAll(nexts);
    }

    /** In the predecessors of l, from becomes to. */
    method Reconnect(l: Label, from: Label, to: Label)
      requires l in graph
      modifies this`graph
      ensures Reconnected(old(graph), [l], from, to, graph)
    {
      var prevs := RenameAll(graph[l].prevlist, from, to);
      graph := graph[l := graph[l].(prevlist := prevs)];
    }

    /** Appends to a block its chain of only successors. No block on the worklist is ever erased. */
    method MergeChain(l: Label, rest: set<Label>, ghost labels: seq<Label>, ghost g: Blocks, ghost before: seq<Blocks>)
      returns (worklist: set<Label>, ghost hs: seq<Blocks>)
      requires Merging(g, before, graph) && Mirrored(graph) && l in graph && rest <= graph.Keys
      requires SettledBut(graph, labels, rest + {l})
      modifies this`graph
      ensures Merging(g, hs, graph) && Mirrored(graph) && worklist <= graph.Keys && worklist <= rest
      ensures SettledBut(graph, labels, worklist)
    {
      worklist, hs := rest, before;
      while |graph[l].nextlist| == 1
        invariant Merging(g, hs, graph) && Mirrored(graph) && l in graph && worklist <= graph.Keys && worklist <= rest
        invariant SettledBut(graph, labels, worklist + {l})
        decreases |graph|
      {
        var next := graph[l].nextlist[0];
        if next == l || |graph[next].prevlist| != 1 {
          break;
        }
        ghost var h := graph;
        assert graph[l].nextlist == [next];
        Absorb(l, next);
        MergesOn(g, hs, h, l, next, graph);
        hs := hs + [graph];
        MergeMirrors(h, l, next, graph);
        MergeSettlesBut(h, l, next, graph, labels, worklist);
        MergeShrinks(h, l, next, graph);
        worklist := worklist - {next};
      }
      assert Settled(graph, l);
      SettledAll(graph, labels, worklist, l);
    }

    /** Merges chains of blocks, taking the labels in any order. */
    method Simplify()
      requires Mirrored(graph) && forall l :: l in orderedLabels ==> l in graph
      modifies this
      ensures SimplifiedFrom(old(graph), graph)
      ensures forall l :: l in old(orderedLabels) && l in graph ==> Settled(graph, l)
      ensures orderedLabels == Present(old(orderedLabels), graph)
    {
      var worklist := set l | l in orderedLabels;
      ghost var g, labels, hs := graph, orderedLabels, [graph];
      while worklist != {}
        invariant Merging(g, hs, graph) && Mirrored(graph) && worklist <= graph.Keys
        invariant SettledBut(graph, labels, worklist) && orderedLabels == labels
        decreases |worklist|
      {
        var l :| l in worklist;
        var rest := worklist - {l};
        SettledPick(graph, labels, worklist, l);
        worklist, hs := MergeChain(l, rest, labels, g, hs);
        FewerLabels(worklist, rest);
      }
      MergesKeep(g, hs, graph);
      SettledDone(graph, labels);
      orderedLabels := Present(orderedLabels, graph);
    }
  }
}
