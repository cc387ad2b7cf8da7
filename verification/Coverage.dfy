/**
  Which blocks a schedule visits, and what holds whenever a block is arrived at
  along a run from the entry.
 */
module Coverage {
  import opened Syntax
  import opened Graph
  import opened CfgRuns
  import opened Schedule

  /* ----- which blocks are visited ----- */

  /** Every predecessor of a reachable block other than the entry is itself reachable. */
  ghost predicate NoStrayPredecessor(g: Blocks, entry: Label) {
    forall l, p :: l in g && Reachable(g, entry, l) && l != entry && p in g[l].prevlist ==> Reachable(g, entry, p)
  }

  ghost predicate Covers(g: Blocks, entry: Label, order: seq<Label>) {
    forall l :: Reachable(g, entry, l) ==> l in order
  }

  lemma {:induction false} VisitedReachable(g: Blocks, entry: Label, order: seq<Label>, i: nat)
    requires Mirrored(g) && entry in g && Topological(g, entry, order) && i < |order|
    ensures Reachable(g, entry, order[i])
    decreases i
  {
    assert Ready(g, entry, Labels(order[..i]), order[i]);
    if order[i] == entry {
      ReachableSelf(g, entry);
    } else {
      var p := g[order[i]].prevlist[0];
      assert p in g[order[i]].prevlist;
      var j :| 0 <= j < i && order[j] == p;
      VisitedReachable(g, entry, order, j);
      MirroredEdge(g, p, order[i]);
      ReachableStep(g, entry, p, order[i]);
    }
  }

  lemma ReachableHasPredecessor(g: Blocks, entry: Label, l: Label)
    requires Mirrored(g) && Reachable(g, entry, l) && l != entry
    ensures l in g && g[l].prevlist != []
  {
    var p :| Path(g, p) && p[0] == entry && p[|p| - 1] == l;
    ReachableInside(g, entry, l);
    var k := |p| - 2;
    assert Edge(g, p[k], p[k + 1]);
    MirroredEdge(g, p[k], l);
  }

  lemma {:induction false} ReachableVisited(g: Blocks, entry: Label, rank: map<Label, nat>, order: seq<Label>, l: Label)
    requires SchedulingGraph(g, entry, rank) && NoStrayPredecessor(g, entry)
    requires Exhausted(g, entry, order)
    requires Reachable(g, entry, l) && l in g
    ensures l in order
    decreases rank[l]
  {
    if l == entry {
    } else {
      ReachableHasPredecessor(g, entry, l);
      forall p | p in g[l].prevlist
        ensures p in order
      {
        MirroredEdge(g, p, l);
        assert Edge(g, p, l);
        ReachableVisited(g, entry, rank, order, p);
      }
    }
    assert Ready(g, entry, Labels(order), l);
  }

  /** The analysis visits every reachable block exactly when no unreachable block feeds one. */
  lemma CoversIffNoStray(g: Blocks, entry: Label, rank: map<Label, nat>, order: seq<Label>)
    requires SchedulingGraph(g, entry, rank) && Topological(g, entry, order) && Exhausted(g, entry, order)
    ensures Covers(g, entry, order) <==> NoStrayPredecessor(g, entry)
  {
    if NoStrayPredecessor(g, entry) {
      forall l | Reachable(g, entry, l)
        ensures l in order
      {
        ReachableInside(g, entry, l);
        ReachableVisited(g, entry, rank, order, l);
      }
    }
    if Covers(g, entry, order) {
      forall l, p | l in g && Reachable(g, entry, l) && l != entry && p in g[l].prevlist
        ensures Reachable(g, entry, p)
      {
        var i :| 0 <= i < |order| && order[i] == l;
        assert Ready(g, entry, Labels(order[..i]), order[i]);
        var j :| 0 <= j < |order| && order[j] == p;
        VisitedReachable(g, entry, order, j);
      }
    }
  }

  /** Of three different blocks, a and b both go on to c, and nothing goes to b. */
  function Stray(a: Label, b: Label, c: Label): Blocks {
    map[a := BasicBlock([], [c], []), b := BasicBlock([], [c], []), c := BasicBlock([Exit], [], [a, b])]
  }

  lemma StrayOccurs(a: Label, b: Label, c: Label, x: Label)
    requires a != b
    ensures Occurs([a, b], x) == (if x == a || x == b then 1 else 0)
    ensures Occurs([c], x) == (if x == c then 1 else 0) && Occurs([], x) == 0
  {}

  lemma StrayPair(a: Label, b: Label, c: Label, l: Label, m: Label)
    requires a != b && b != c && a != c && l in {a, b, c} && m in {a, b, c}
    ensures Occurs(Stray(a, b, c)[l].nextlist, m) == Occurs(Stray(a, b, c)[m].prevlist, l)
  {
    StrayOccurs(a, b, c, m);
    StrayOccurs(a, b, c, l);
  }

  lemma StrayClosed(a: Label, b: Label, c: Label)
    requires a != b && b != c && a != c
    ensures Closed(Stray(a, b, c)) && Edge(Stray(a, b, c), a, c)
  {}

  lemma StrayMirrored(a: Label, b: Label, c: Label)
    requires a != b && b != c && a != c
    ensures Mirrored(Stray(a, b, c)) && Edge(Stray(a, b, c), a, c)
  {
    var g := Stray(a, b, c);
    StrayClosed(a, b, c);
    forall l, m | l in g && m in g
      ensures Occurs(g[l].nextlist, m) == Occurs(g[m].prevlist, l)
    {
      StrayPair(a, b, c, l, m);
    }
  }

  lemma StrayNeverReady(a: Label, b: Label, c: Label, order: seq<Label>, i: nat)
    requires a != b && b != c && a != c && Topological(Stray(a, b, c), a, order) && i < |order|
    ensures order[i] != b
  {
    assert Ready(Stray(a, b, c), a, Labels(order[..i]), order[i]);
  }

  /** There c is reachable from a, and no schedule visits it. */
  lemma StrayIsMissed(a: Label, b: Label, c: Label, order: seq<Label>)
    requires a != b && b != c && a != c && Topological(Stray(a, b, c), a, order)
    ensures Reachable(Stray(a, b, c), a, c) && c !in order
  {
    var g := Stray(a, b, c);
    StrayMirrored(a, b, c);
    ReachableSelf(g, a);
    ReachableStep(g, a, a, c);
    forall i | 0 <= i < |order|
      ensures order[i] != c
    {
      forall j | 0 <= j < i
        ensures order[j] != b
      {
        StrayNeverReady(a, b, c, order, j);
      }
      assert Ready(g, a, Labels(order[..i]), order[i]);
      assert b in g[c].prevlist;
    }
  }

  /* ----- runs from the entry ----- */

  lemma {:induction false} ArrivalsReachable<S(!new)>(M: Meaning<S>, g: Blocks, r: seq<Arrival<S>>, k: nat)
    requires FreeRun(M, g, r) && k < |r|
    ensures Reachable(g, r[0].name, r[k].name)
    decreases k
  {
    FreeRunStep(M, g, r, 0);
    if k == 0 {
      ReachableSelf(g, r[0].name);
    } else {
      ArrivalsReachable(M, g, r, k - 1);
      FreeRunStep(M, g, r, k - 1);
      ReachableStep(g, r[0].name, r[k - 1].name, r[k].name);
    }
  }

  lemma {:induction false} RanksGrow<S(!new)>(M: Meaning<S>, g: Blocks, rank: map<Label, nat>, r: seq<Arrival<S>>, k: nat)
    requires Numbering(g, rank) && FreeRun(M, g, r) && k < |r|
    ensures r[k].name in g && r[0].name in g && (k > 0 ==> rank[r[0].name] < rank[r[k].name])
    decreases k
  {
    FreeRunStep(M, g, r, k);
    if k == 0 {
    } else {
      RanksGrow(M, g, rank, r, k - 1);
      FreeRunStep(M, g, r, k - 1);
      assert Edge(g, r[k - 1].name, r[k].name);
    }
  }

  /** What leads into a visited block other than the entry was visited. */
  lemma SourceVisited(g: Blocks, entry: Label, order: seq<Label>, l: Label, m: Label)
    requires Topological(g, entry, order) && Mirrored(g) && Edge(g, l, m) && m in order && m != entry
    ensures EdgeInto(g, order, l, m)
  {
    MirroredEdge(g, l, m);
    var i :| 0 <= i < |order| && order[i] == m;
    assert Ready(g, entry, Labels(order[..i]), order[i]);
    assert l in Labels(order[..i]);
  }

  /** Before a visited block the run was at a visited block. */
  lemma VisitedBefore<S(!new)>(M: Meaning<S>, g: Blocks, entry: Label, rank: map<Label, nat>, order: seq<Label>,
                               r: seq<Arrival<S>>, k: nat)
    requires SchedulingGraph(g, entry, rank) && Topological(g, entry, order)
    requires FreeRun(M, g, r) && r[0].name == entry && 0 < k < |r| && r[k].name in order
    ensures EdgeInto(g, order, r[k - 1].name, r[k].name)
  {
    RanksGrow(M, g, rank, r, k);
    FreeRunStep(M, g, r, k - 1);
    SourceVisited(g, entry, order, r[k - 1].name, r[k].name);
  }

  predicate EdgeInto(g: Blocks, order: seq<Label>, l: Label, m: Label) {
    l in order && m in order && l in g && m in g && l in g[m].prevlist
  }

  /** Every block's execution leads from what holds before it into what holds before its visited successors. */
  ghost predicate Inductive<S(!new)>(M: Meaning<S>, g: Blocks, order: seq<Label>, before: (Label, S) -> bool) {
    forall l, m, s, t :: EdgeInto(g, order, l, m) && before(l, s) && Executes(M, g[l].insts, s, t) ==> before(m, t)
  }

  /**
    What is inductive and holds at the entry holds at every arrival at a visited
    block, along any run from the entry; for any meaning of the instructions.
   */
  lemma {:induction false} HoldsAtArrivals<S(!new)>(M: Meaning<S>, g: Blocks, entry: Label, rank: map<Label, nat>, order: seq<Label>,
                                                   before: (Label, S) -> bool, r: seq<Arrival<S>>, k: nat)
    requires SchedulingGraph(g, entry, rank) && Topological(g, entry, order) && Inductive(M, g, order, before)
    requires FreeRun(M, g, r) && r[0].name == entry && before(entry, r[0].state)
    requires k < |r| && r[k].name in order
    ensures before(r[k].name, r[k].state)
    decreases k
  {
    if k == 0 {
    } else {
      VisitedBefore(M, g, entry, rank, order, r, k);
      HoldsAtArrivals(M, g, entry, rank, order, before, r, k - 1);
      FreeRunStep(M, g, r, k - 1);
    }
  }
}
