/**
  The loop of the analysis: Kahn's algorithm driven by a counter per block and
  by whether a block's post changed.
 */
module Worklist {
  import opened Syntax
  import opened Graph
  import opened Machine
  import opened Analyzer
  import opened Schedule
  import opened Solutions

  /**
    The loop. It runs through unless some ready block meets an instruction that
    throws or is outside the modelled fragment; whether one does is a matter of
    the graph alone. The graph must have no cycle, which the source notes.
   */
  method Run(g: Blocks, keys: seq<Label>, analysis: Analysis, ghost rank: map<Label, nat>)
    returns (ok: bool, ghost order: seq<Label>)
    requires keys != [] && g.Keys == Labels(keys)
    requires SchedulingGraph(g, keys[0], rank)
    requires Over(g, analysis.pre) && Over(g, analysis.post)
    requires forall l :: l in g ==> analysis.pre[l] == Initial(keys[0], l) && analysis.post[l] == Unreached()
    modifies analysis
    ensures ok ==> Complete(g, keys[0], order, analysis.pre, analysis.post)
    ensures ok <==> !GetsStuck(g, keys[0])
  {
    ghost var entry := keys[0];
    order := [];
    var w := [keys[0]];
    var count := ZeroCounts(keys);
    ScheduleStarts(g, entry, count);
    AnalysisStarts(g, entry, analysis.pre, analysis.post);
    ghost var V: set<Label> := {};
    while w != []
      invariant V == Labels(order) && Topological(g, entry, order)
      invariant Visited(g, entry, rank, V) && Scheduled(g, entry, V, w, count)
      invariant Analysed(g, entry, V, analysis.pre, analysis.post)
      invariant V == {} ==> w == [entry]
      decreases g.Keys - V
    {
      PopFront(g, entry, V, w, count);
      var here := w[0];
      ghost var pre, post := analysis.pre, analysis.post;
      var outcome := VisitBlock(g, entry, analysis, rank, V, here);
      if outcome.Stopped? {
        assert StuckAt(g, entry, order, pre, post, here, analysis.pre[here]);
        return false, order;
      }
      TopologicalGrows(g, entry, order, here);
      order := order + [here];
      var popped := w[1..];
      if outcome.Changed? {
        popped, count := CountSuccessors(g, entry, rank, V, here, w, popped, count);
        UniqueOfDistinct(popped);
        popped := Unique(popped);
      }
      w := popped;
      VisitedGrows(g, entry, rank, V, here);
      V := V + {here};
    }
    CompleteNeverStuck(g, entry, rank, order, analysis.pre, analysis.post);
    return true, order;
  }

  method ZeroCounts(keys: seq<Label>) returns (count: map<Label, int>)
    ensures count.Keys == Labels(keys) && forall l :: l in count ==> count[l] == 0
  {
    count := map[];
    for i := 0 to |keys|
      invariant count.Keys == Labels(keys[..i]) && forall l :: l in count ==> count[l] == 0
    {
      count := count[keys[i] := 0];
      assert keys[..i + 1] == keys[..i] + [keys[i]];
    }
    assert keys[..|keys|] == keys;
  }

  /** Joining a ready block's predecessors: its pre is reached, its post still is not. */
  method JoinReady(g: Blocks, ghost entry: Label, analysis: Analysis, ghost V: set<Label>, here: Label)
    requires here !in V && Ready(g, entry, V, here) && Analysed(g, entry, V, analysis.pre, analysis.post)
    modifies analysis`pre
    ensures Rejoined(g, entry, old(analysis.pre), old(analysis.post), here, analysis.pre, analysis.post)
  {
    ghost var pre := analysis.pre;
    assert Untouched(entry, pre, analysis.post, here);
    analysis.JoinPredecessors(g[here].prevlist, here);
    ReadyIsReached(g, entry, V, pre, analysis.post, here, analysis.pre[here]);
  }

  /** Its predecessors have been joined; pre and post are what was there before. */
  ghost predicate Rejoined(g: Blocks, entry: Label, pre: map<Label, MachineVal>, post: map<Label, MachineVal>, here: Label,
                           pre': map<Label, MachineVal>, post': map<Label, MachineVal>) {
    && here in g && (forall p :: p in g[here].prevlist ==> p in post)
    && ChangedAt(pre, here, pre') && post' == post && here in post && AllSane(pre') && AllSane(post')
    && JoinedAll(Initial(entry, here), Posts(g[here].prevlist, post), pre'[here])
    && !pre'[here].stack.bot && post[here].stack.bot
  }

  /** Recomputing a block whose predecessors have been joined: the first time always changes its post. */
  method RecomputeJoined(g: Blocks, ghost entry: Label, analysis: Analysis, here: Label,
                         ghost pre: map<Label, MachineVal>, ghost post: map<Label, MachineVal>)
    returns (outcome: Outcome)
    requires Rejoined(g, entry, pre, post, here, analysis.pre, analysis.post)
    modifies analysis`post
    ensures !outcome.Unchanged? && here in analysis.pre
    ensures outcome.Stopped? <==> Stops(g[here].insts, analysis.pre[here])
    ensures outcome.Changed? ==> Recomputed(g, entry, pre, post, here, analysis.pre, analysis.post)
  {
    outcome := analysis.Recompute(here, g[here].insts);
  }

  /** Joining a ready block's predecessors and recomputing it. */
  method RecomputeReady(g: Blocks, ghost entry: Label, analysis: Analysis, ghost V: set<Label>, here: Label)
    returns (outcome: Outcome)
    requires here !in V && Ready(g, entry, V, here) && Analysed(g, entry, V, analysis.pre, analysis.post)
    modifies analysis
    ensures !outcome.Unchanged? && here in analysis.pre
    ensures JoinedAll(Initial(entry, here), Posts(g[here].prevlist, old(analysis.post)), analysis.pre[here])
    ensures outcome.Stopped? <==> Stops(g[here].insts, analysis.pre[here])
    ensures outcome.Changed? ==> Recomputed(g, entry, old(analysis.pre), old(analysis.post), here, analysis.pre, analysis.post)
  {
    ghost var pre, post := analysis.pre, analysis.post;
    JoinReady(g, entry, analysis, V, here);
    outcome := RecomputeJoined(g, entry, analysis, here, pre, post);
  }

  /** One visit. */
  method VisitBlock(g: Blocks, ghost entry: Label, analysis: Analysis, ghost rank: map<Label, nat>, ghost V: set<Label>, here: Label)
    returns (outcome: Outcome)
    requires CanVisit(g, entry, rank, V, analysis.pre, analysis.post, here)
    modifies analysis
    ensures !outcome.Unchanged? && here in analysis.pre
    ensures JoinedAll(Initial(entry, here), Posts(g[here].prevlist, old(analysis.post)), analysis.pre[here])
    ensures outcome.Stopped? <==> Stops(g[here].insts, analysis.pre[here])
    ensures outcome.Changed? ==> Analysed(g, entry, V + {here}, analysis.pre, analysis.post)
  {
    ghost var pre, post := analysis.pre, analysis.post;
    outcome := RecomputeReady(g, entry, analysis, V, here);
    if outcome.Changed? {
      VisitDone(g, entry, rank, V, pre, post, here, analysis.pre, analysis.post);
    }
  }

  /** Counting the edges out of the front label; a successor joins the list when its count is full. */
  method CountSuccessors(g: Blocks, ghost entry: Label, ghost rank: map<Label, nat>, ghost V: set<Label>, here: Label,
                         ghost listed: seq<Label>, before: seq<Label>, counted: map<Label, int>)
    returns (w: seq<Label>, count: map<Label, int>)
    requires SchedulingGraph(g, entry, rank) && Visited(g, entry, rank, V)
    requires listed != [] && here == listed[0] && before == listed[1..]
    requires Scheduled(g, entry, V, listed, counted) && (V == {} ==> here == entry)
    ensures Scheduled(g, entry, V + {here}, w, count)
  {
    PopFront(g, entry, V, listed, counted);
    w, count := before, counted;
    var nexts := g[here].nextlist;
    for j := 0 to |nexts|
      invariant CountsAt(g, V, nexts, j, count) && PushedAt(g, nexts, j, before, w, count)
    {
      assert Edge(g, here, nexts[j]);
      NotListed(g, entry, rank, V, here, listed, counted, nexts[j]);
      CountsStep(g, V, nexts, j, count);
      CountBounded(g, V, here, j, nexts[j]);
      PushedStep(g, nexts, j, before, w, count);
      count := Bump(count, nexts[j]);
      w := PushFull(g, nexts[j], w, count);
    }
    CountingDone(g, entry, rank, V, here, before, w, count);
  }
}
