/**
  What the analysis has computed after some visits: the equations of the
  visited blocks hold and the other blocks are as initialised.
 */
module Solutions {
  import opened Syntax
  import opened Graph
  import opened Machine
  import opened Analyzer
  import opened Schedule
  import C = Confluence

  /* ----- the state of the analysis ----- */

  /** A visited block satisfies its equations and is reached. */
  ghost predicate BlockDone(g: Blocks, entry: Label, pre: map<Label, MachineVal>, post: map<Label, MachineVal>, v: Label) {
    && Closed(g) && Over(g, pre) && Over(g, post) && v in g
    && SolvedAt(g, entry, pre, post, v) && !post[v].stack.bot
  }

  /** A block not visited yet is as initialised. */
  ghost predicate Untouched(entry: Label, pre: map<Label, MachineVal>, post: map<Label, MachineVal>, n: Label) {
    n in pre && n in post && pre[n] == Initial(entry, n) && post[n] == Unreached()
  }

  ghost predicate Analysed(g: Blocks, entry: Label, V: set<Label>, pre: map<Label, MachineVal>, post: map<Label, MachineVal>) {
    && Closed(g) && Over(g, pre) && Over(g, post) && AllSane(pre) && AllSane(post)
    && AllDone(g, entry, V, pre, post) && RestUntouched(g, entry, V, pre, post)
  }

  lemma InitialSane(entry: Label, l: Label)
    ensures Sane(Initial(entry, l)) && Sane(Unreached())
  {}

  lemma JoinReached(a: MachineVal, b: MachineVal, r: MachineVal)
    requires MachineJoinOf(a, b, r)
    ensures r.stack.bot <==> a.stack.bot && b.stack.bot
  {}

  lemma {:induction false} JoinsReached(m: MachineVal, posts: seq<MachineVal>, steps: seq<MachineVal>, k: nat)
    requires JoinsFrom(m, posts, steps) && k <= |posts|
    ensures steps[k].stack.bot <==> m.stack.bot && forall i :: 0 <= i < k ==> posts[i].stack.bot
    decreases k
  {
    if k == 0 {
    } else {
      JoinsReached(m, posts, steps, k - 1);
      assert JoinAt(posts, steps, k - 1);
      JoinReached(steps[k - 1], posts[k - 1], steps[k]);
    }
  }

  lemma JoinedReached(m: MachineVal, posts: seq<MachineVal>, r: MachineVal)
    requires JoinedAll(m, posts, r)
    ensures r.stack.bot <==> m.stack.bot && forall i :: 0 <= i < |posts| ==> posts[i].stack.bot
  {
    var steps :| JoinsFrom(m, posts, steps) && steps[|posts|] == r;
    JoinsReached(m, posts, steps, |posts|);
  }

  /** A ready block's joined pre is reached, so recomputing it must change its post. */
  lemma ReadyIsReached(g: Blocks, entry: Label, V: set<Label>, pre: map<Label, MachineVal>, post: map<Label, MachineVal>,
                       here: Label, newPre: MachineVal)
    requires Analysed(g, entry, V, pre, post) && here !in V && Ready(g, entry, V, here)
    requires JoinedAll(Initial(entry, here), Posts(g[here].prevlist, post), newPre)
    ensures !newPre.stack.bot
  {
    JoinedReached(Initial(entry, here), Posts(g[here].prevlist, post), newPre);
    assert Untouched(entry, pre, post, here);
    if here != entry {
      assert g[here].prevlist[0] in g[here].prevlist;
      assert BlockDone(g, entry, pre, post, g[here].prevlist[0]);
      assert !Posts(g[here].prevlist, post)[0].stack.bot;
    }
  }

  lemma NotPredecessor(g: Blocks, entry: Label, rank: map<Label, nat>, V: set<Label>, here: Label, v: Label)
    requires SchedulingGraph(g, entry, rank) && Visited(g, entry, rank, V)
    requires here !in V && Ready(g, entry, V, here) && v in V + {here}
    ensures here !in g[v].prevlist
  {
    MirroredEdge(g, here, v);
    if Edge(g, here, v) {
      NoEdgeBack(g, entry, rank, V, here, v);
      assert false;
    }
  }

  lemma SolvedKept(g: Blocks, entry: Label, pre: map<Label, MachineVal>, post: map<Label, MachineVal>, here: Label,
                   pre': map<Label, MachineVal>, post': map<Label, MachineVal>, v: Label)
    requires Closed(g) && Over(g, pre) && Over(g, post) && v in g && v != here && SolvedAt(g, entry, pre, post, v)
    requires here in pre' && pre' == pre[here := pre'[here]] && here in g
    requires here in post' && post' == post[here := post'[here]]
    requires here !in g[v].prevlist
    ensures Over(g, pre') && Over(g, post') && SolvedAt(g, entry, pre', post', v)
  {
    assert Posts(g[v].prevlist, post') == Posts(g[v].prevlist, post);
  }

  lemma DoneHere(g: Blocks, entry: Label, post: map<Label, MachineVal>, here: Label,
                 pre': map<Label, MachineVal>, post': map<Label, MachineVal>)
    requires Closed(g) && here in g && Over(g, post) && Over(g, pre') && here !in g[here].prevlist
    requires ChangedAt(post, here, post')
    requires JoinedAll(Initial(entry, here), Posts(g[here].prevlist, post), pre'[here])
    requires Ran(g[here].insts, pre'[here], post'[here]) && !post'[here].stack.bot
    ensures BlockDone(g, entry, pre', post', here)
  {
    assert Posts(g[here].prevlist, post') == Posts(g[here].prevlist, post);
  }

  ghost predicate AllDone(g: Blocks, entry: Label, V: set<Label>, pre: map<Label, MachineVal>, post: map<Label, MachineVal>) {
    forall v :: v in V ==> BlockDone(g, entry, pre, post, v)
  }

  ghost predicate RestUntouched(g: Blocks, entry: Label, V: set<Label>, pre: map<Label, MachineVal>, post: map<Label, MachineVal>) {
    forall n :: n in g && n !in V ==> Untouched(entry, pre, post, n)
  }

  lemma DoneKept(g: Blocks, entry: Label, pre: map<Label, MachineVal>, post: map<Label, MachineVal>, here: Label,
                 pre': map<Label, MachineVal>, post': map<Label, MachineVal>, v: Label)
    requires BlockDone(g, entry, pre, post, v) && v != here && here !in g[v].prevlist
    requires ChangedAt(pre, here, pre') && ChangedAt(post, here, post') && here in g
    ensures BlockDone(g, entry, pre', post', v)
  {
    SolvedKept(g, entry, pre, post, here, pre', post', v);
  }

  lemma RestKept(g: Blocks, entry: Label, V: set<Label>, pre: map<Label, MachineVal>, post: map<Label, MachineVal>, here: Label,
                 pre': map<Label, MachineVal>, post': map<Label, MachineVal>)
    requires RestUntouched(g, entry, V, pre, post) && ChangedAt(pre, here, pre') && ChangedAt(post, here, post')
    ensures RestUntouched(g, entry, V + {here}, pre', post')
  {}

  lemma DoneGrows(g: Blocks, entry: Label, rank: map<Label, nat>, V: set<Label>,
                  pre: map<Label, MachineVal>, post: map<Label, MachineVal>, here: Label,
                  pre': map<Label, MachineVal>, post': map<Label, MachineVal>)
    requires SchedulingGraph(g, entry, rank) && Visited(g, entry, rank, V) && here !in V && Ready(g, entry, V, here)
    requires AllDone(g, entry, V, pre, post) && ChangedAt(pre, here, pre') && ChangedAt(post, here, post')
    requires BlockDone(g, entry, pre', post', here)
    ensures AllDone(g, entry, V + {here}, pre', post')
  {
    forall v | v in V + {here}
      ensures BlockDone(g, entry, pre', post', v)
    {
      if v != here {
        NotPredecessor(g, entry, rank, V, here, v);
        DoneKept(g, entry, pre, post, here, pre', post', v);
      }
    }
  }

  lemma StillOver(g: Blocks, f: map<Label, MachineVal>, here: Label, f': map<Label, MachineVal>)
    requires Over(g, f) && ChangedAt(f, here, f')
    ensures Over(g, f')
  {}

  lemma HereDone(g: Blocks, entry: Label, rank: map<Label, nat>, V: set<Label>, post: map<Label, MachineVal>, here: Label,
                 pre': map<Label, MachineVal>, post': map<Label, MachineVal>)
    requires SchedulingGraph(g, entry, rank) && Visited(g, entry, rank, V) && here !in V && Ready(g, entry, V, here)
    requires Over(g, post) && Over(g, pre') && ChangedAt(post, here, post')
    requires JoinedAll(Initial(entry, here), Posts(g[here].prevlist, post), pre'[here])
    requires Ran(g[here].insts, pre'[here], post'[here]) && !post'[here].stack.bot
    ensures BlockDone(g, entry, pre', post', here)
  {
    NotPredecessor(g, entry, rank, V, here, here);
    DoneHere(g, entry, post, here, pre', post');
  }

  lemma AnalysedGrows(g: Blocks, entry: Label, rank: map<Label, nat>, V: set<Label>,
                      pre: map<Label, MachineVal>, post: map<Label, MachineVal>, here: Label,
                      pre': map<Label, MachineVal>, post': map<Label, MachineVal>)
    requires SchedulingGraph(g, entry, rank) && Visited(g, entry, rank, V) && here !in V && Ready(g, entry, V, here)
    requires Analysed(g, entry, V, pre, post) && ChangedAt(pre, here, pre') && ChangedAt(post, here, post')
    requires AllSane(pre') && AllSane(post') && BlockDone(g, entry, pre', post', here)
    ensures Analysed(g, entry, V + {here}, pre', post')
  {
    DoneGrows(g, entry, rank, V, pre, post, here, pre', post');
    RestKept(g, entry, V, pre, post, here, pre', post');
  }

  /** The block here may be visited after the blocks V. */
  ghost predicate CanVisit(g: Blocks, entry: Label, rank: map<Label, nat>, V: set<Label>,
                           pre: map<Label, MachineVal>, post: map<Label, MachineVal>, here: Label) {
    && SchedulingGraph(g, entry, rank) && Visited(g, entry, rank, V)
    && here !in V && Ready(g, entry, V, here) && Analysed(g, entry, V, pre, post)
  }

  /** Its predecessors have been joined and its instructions have run. */
  ghost predicate Recomputed(g: Blocks, entry: Label, pre: map<Label, MachineVal>, post: map<Label, MachineVal>, here: Label,
                             pre': map<Label, MachineVal>, post': map<Label, MachineVal>) {
    && here in g && (forall p :: p in g[here].prevlist ==> p in post)
    && ChangedAt(pre, here, pre') && ChangedAt(post, here, post') && AllSane(pre') && AllSane(post')
    && JoinedAll(Initial(entry, here), Posts(g[here].prevlist, post), pre'[here])
    && Ran(g[here].insts, pre'[here], post'[here]) && !post'[here].stack.bot
  }

  lemma VisitDone(g: Blocks, entry: Label, rank: map<Label, nat>, V: set<Label>,
                  pre: map<Label, MachineVal>, post: map<Label, MachineVal>, here: Label,
                  pre': map<Label, MachineVal>, post': map<Label, MachineVal>)
    ensures CanVisit(g, entry, rank, V, pre, post, here) && Recomputed(g, entry, pre, post, here, pre', post') ==>
      Analysed(g, entry, V + {here}, pre', post')
  {
    if CanVisit(g, entry, rank, V, pre, post, here) && Recomputed(g, entry, pre, post, here, pre', post') {
      StillOver(g, pre, here, pre');
      HereDone(g, entry, rank, V, post, here, pre', post');
      AnalysedGrows(g, entry, rank, V, pre, post, here, pre', post');
    }
  }

  /** What a completed analysis has done. */
  ghost predicate Complete(g: Blocks, entry: Label, order: seq<Label>, pre: map<Label, MachineVal>, post: map<Label, MachineVal>) {
    && Topological(g, entry, order)
    && Exhausted(g, entry, order)
    && Analysed(g, entry, Labels(order), pre, post)
  }

  lemma AnalysisStarts(g: Blocks, entry: Label, pre: map<Label, MachineVal>, post: map<Label, MachineVal>)
    requires Closed(g) && Over(g, pre) && Over(g, post)
    requires forall l :: l in g ==> pre[l] == Initial(entry, l) && post[l] == Unreached()
    ensures Analysed(g, entry, {}, pre, post)
  {
    assert AllDone(g, entry, {}, pre, post);
    forall l | l in g
      ensures Sane(pre[l]) && Sane(post[l]) && Untouched(entry, pre, post, l)
    {
      InitialSane(entry, l);
    }
  }

  /* ----- one solution, whatever the order of the visits ----- */

  /** The equations that the analysis solves. */
  ghost function MachineEquations(g: Blocks, entry: Label): C.Equations<MachineVal> {
    C.Equations((l, posts, m) => SaneAll(posts) && JoinedAll(Initial(entry, l), posts, m),
                (l, m, r) => l in g && Sane(m) && Ran(g[l].insts, m, r))
  }

  ghost predicate SaneAll(posts: seq<MachineVal>) {
    forall i :: 0 <= i < |posts| ==> Sane(posts[i])
  }

  lemma MachineSingleValued(g: Blocks, entry: Label)
    ensures C.SingleValued(MachineEquations(g, entry))
  {
    var E := MachineEquations(g, entry);
    forall l, s, a, b | E.joins(l, s, a) && E.joins(l, s, b)
      ensures a == b
    {
      InitialSane(entry, l);
      JoinedAllUnique(Initial(entry, l), s, a, b);
    }
    forall l, m, a, b | E.runs(l, m, a) && E.runs(l, m, b)
      ensures a == b
    {
      RanUnique(g[l].insts, m, a, b);
    }
  }

  lemma PostsAreValues(prevs: seq<Label>, post: map<Label, MachineVal>)
    requires (forall p :: p in prevs ==> p in post) && AllSane(post)
    ensures Posts(prevs, post) == C.ValuesOf(prevs, post) && SaneAll(Posts(prevs, post))
  {}

  lemma DoneIsSolved(g: Blocks, entry: Label, pre: map<Label, MachineVal>, post: map<Label, MachineVal>, l: Label)
    requires BlockDone(g, entry, pre, post, l) && AllSane(pre) && AllSane(post)
    ensures C.Solved(MachineEquations(g, entry), g, pre, post, l)
  {
    PostsAreValues(g[l].prevlist, post);
  }

  lemma AnalysedIsStage(g: Blocks, entry: Label, order: seq<Label>, pre: map<Label, MachineVal>, post: map<Label, MachineVal>)
    requires Topological(g, entry, order) && Analysed(g, entry, Labels(order), pre, post)
    ensures C.Stage(MachineEquations(g, entry), g, entry, Unreached(), order, pre, post)
  {
    var E := MachineEquations(g, entry);
    forall l | l in order
      ensures C.Solved(E, g, pre, post, l)
    {
      assert BlockDone(g, entry, pre, post, l);
      DoneIsSolved(g, entry, pre, post, l);
    }
    forall l | l in g && l !in order
      ensures l in post && post[l] == Unreached()
    {
      assert Untouched(entry, pre, post, l);
    }
  }

  /** After the visits of the order, the ready block here meets an instruction that is refused. */
  ghost predicate StuckAt(g: Blocks, entry: Label, order: seq<Label>, pre: map<Label, MachineVal>, post: map<Label, MachineVal>,
                          here: Label, m: MachineVal) {
    && Topological(g, entry, order) && Analysed(g, entry, Labels(order), pre, post)
    && Ready(g, entry, Labels(order), here)
    && JoinedAll(Initial(entry, here), Posts(g[here].prevlist, post), m) && Stops(g[here].insts, m)
  }

  /** After some visits a ready block meets an instruction that throws or is outside the modelled fragment. */
  ghost predicate GetsStuck(g: Blocks, entry: Label) {
    exists order, pre, post, here, m :: StuckAt(g, entry, order, pre, post, here, m)
  }

  lemma ReadyRuns(g: Blocks, entry: Label, rank: map<Label, nat>,
                  order: seq<Label>, pre: map<Label, MachineVal>, post: map<Label, MachineVal>,
                  order': seq<Label>, pre': map<Label, MachineVal>, post': map<Label, MachineVal>, here: Label, m: MachineVal)
    requires SchedulingGraph(g, entry, rank) && Complete(g, entry, order, pre, post)
    requires Topological(g, entry, order') && Analysed(g, entry, Labels(order'), pre', post') && Ready(g, entry, Labels(order'), here)
    requires JoinedAll(Initial(entry, here), Posts(g[here].prevlist, post'), m)
    ensures !Stops(g[here].insts, m)
  {
    MachineSingleValued(g, entry);
    AnalysedIsStage(g, entry, order, pre, post);
    AnalysedIsStage(g, entry, order', pre', post');
    PostsAreValues(g[here].prevlist, post');
    var E := MachineEquations(g, entry);
    assert E.joins(here, C.ValuesOf(g[here].prevlist, post'), m);
    C.ReadyAgrees(E, g, entry, rank, Unreached(), order, pre, post, order', pre', post', here, m);
    assert E.runs(here, m, post[here]);
    RanNeverStops(g[here].insts, m, post[here]);
  }

  /** An analysis that can be completed never gets stuck, whatever the order of its visits. */
  lemma CompleteNeverStuck(g: Blocks, entry: Label, rank: map<Label, nat>,
                           order: seq<Label>, pre: map<Label, MachineVal>, post: map<Label, MachineVal>)
    requires SchedulingGraph(g, entry, rank) && Complete(g, entry, order, pre, post)
    ensures !GetsStuck(g, entry)
  {
    if order', pre', post', here, m :| StuckAt(g, entry, order', pre', post', here, m) {
      ReadyRuns(g, entry, rank, order, pre, post, order', pre', post', here, m);
    }
  }

  /** Two completed analyses visit the same blocks and end with the same machines. */
  lemma ResultIsUnique(g: Blocks, entry: Label, rank: map<Label, nat>,
                       order: seq<Label>, pre: map<Label, MachineVal>, post: map<Label, MachineVal>,
                       order': seq<Label>, pre': map<Label, MachineVal>, post': map<Label, MachineVal>)
    requires SchedulingGraph(g, entry, rank) && Complete(g, entry, order, pre, post) && Complete(g, entry, order', pre', post')
    ensures Labels(order) == Labels(order')
    ensures forall l :: l in g ==> C.AgreeAt(pre, post, pre', post', l)
  {
    MachineSingleValued(g, entry);
    AnalysedIsStage(g, entry, order, pre, post);
    AnalysedIsStage(g, entry, order', pre', post');
    C.SolutionIsUnique(MachineEquations(g, entry), g, entry, rank, Unreached(), order, pre, post, order', pre', post');
    forall l | l in g
      ensures C.AgreeAt(pre, post, pre', post', l)
    {
      if l !in Labels(order) {
        assert Untouched(entry, pre, post, l) && Untouched(entry, pre', post', l);
      }
    }
  }
}
