/**
  The analysis as a whole: what a completed run says about every execution of
  the graph.
 */
module AnalysisSound {
  import opened Syntax
  import opened Graph
  import opened CfgRuns
  import opened Rcp
  import opened Machine
  import opened MachineSound
  import opened Analyzer
  import opened Schedule
  import opened Solutions
  import opened Coverage

  /* ----- the tagged meaning of programs ----- */

  /** Instructions and conditions on states of tagged words. */
  ghost function Tagged(): Meaning<State> {
    Meaning((ins: Instruction, s: State, t: State) => ConcreteStep(ins, s, t),
            (c: Condition, s: State) => |s.regs| == NREGS && WordHolds(c.op, s.regs[c.left], ValueOf(s, c.right)))
  }

  lemma EffectIsStep(ins: Instruction, s: State, t: State)
    requires |s.regs| == NREGS
    ensures Effect(Tagged(), ins, s, t) <==> ConcreteStep(ins, s, t)
  {}

  /* ----- one block ----- */

  lemma {:induction false} RunSoundFrom(insts: seq<Instruction>, m: MachineVal, steps: seq<MachineVal>, k: nat, n: nat, s: State, t: State)
    requires RunsFrom(insts, m, steps) && k <= n <= |insts| && Executes(Tagged(), insts[k..n], s, t)
    requires Sane(steps[k]) && DescribesState(steps[k], s)
    ensures DescribesState(steps[n], t)
    decreases n - k
  {
    if k == n {
    } else {
      assert insts[k..n][0] == insts[k] && insts[k..n][1..] == insts[k + 1..n];
      var u :| Effect(Tagged(), insts[k], s, u) && Executes(Tagged(), insts[k + 1..n], u, t);
      assert TransferAt(insts, steps, k);
      EffectIsStep(insts[k], s, u);
      StepSound(insts[k], steps[k], steps[k + 1], s, u);
      TransferSane(insts[k], steps[k], steps[k + 1]);
      RunSoundFrom(insts, m, steps, k + 1, n, u, t);
    }
  }

  /** The state before the n-th instruction is described by the machine before it. */
  ghost predicate DescribedBefore(insts: seq<Instruction>, m: MachineVal, n: nat, t: State) {
    exists steps :: RunsFrom(insts, m, steps) && n < |steps| && DescribesState(steps[n], t)
  }

  lemma RunSoundInside(insts: seq<Instruction>, m: MachineVal, r: MachineVal, n: nat, s: State, t: State)
    requires Ran(insts, m, r) && n <= |insts| && Executes(Tagged(), insts[..n], s, t) && Sane(m) && DescribesState(m, s)
    ensures DescribedBefore(insts, m, n, t)
  {
    var steps :| RunsFrom(insts, m, steps) && steps[|insts|] == r;
    assert insts[0..n] == insts[..n];
    RunSoundFrom(insts, m, steps, 0, n, s, t);
  }

  /** A block's post describes every state in which the block can end. */
  lemma RunSound(insts: seq<Instruction>, m: MachineVal, r: MachineVal, s: State, t: State)
    requires Ran(insts, m, r) && Executes(Tagged(), insts, s, t) && Sane(m) && DescribesState(m, s)
    ensures DescribesState(r, t)
  {
    var steps :| RunsFrom(insts, m, steps) && steps[|insts|] == r;
    assert insts[0..|insts|] == insts;
    RunSoundFrom(insts, m, steps, 0, |insts|, s, t);
  }

  lemma {:induction false} JoinsSoundTo(m: MachineVal, posts: seq<MachineVal>, steps: seq<MachineVal>, s: State, k: nat)
    requires JoinsFrom(m, posts, steps) && k <= |posts|
    requires Sane(m) && forall i :: 0 <= i < |posts| ==> Sane(posts[i])
    requires DescribesState(m, s) || exists i :: 0 <= i < k && DescribesState(posts[i], s)
    ensures DescribesState(steps[k], s)
    decreases k
  {
    if k == 0 {
    } else {
      JoinsSaneTo(m, posts, steps, k - 1);
      assert JoinAt(posts, steps, k - 1);
      if !DescribesState(posts[k - 1], s) {
        JoinsSoundTo(m, posts, steps, s, k - 1);
      }
      MachineJoinSound(steps[k - 1], posts[k - 1], steps[k], s);
    }
  }

  lemma {:induction false} JoinsSaneTo(m: MachineVal, posts: seq<MachineVal>, steps: seq<MachineVal>, k: nat)
    requires JoinsFrom(m, posts, steps) && k <= |posts|
    requires Sane(m) && forall i :: 0 <= i < |posts| ==> Sane(posts[i])
    ensures Sane(steps[k])
    decreases k
  {
    if k == 0 {
    } else {
      JoinsSaneTo(m, posts, steps, k - 1);
      assert JoinAt(posts, steps, k - 1);
      MachineJoinSane(steps[k - 1], posts[k - 1], steps[k]);
    }
  }

  /** A joined pre describes what the initial machine or any predecessor's post describes. */
  lemma JoinedSound(m: MachineVal, posts: seq<MachineVal>, r: MachineVal, s: State)
    requires JoinedAll(m, posts, r) && Sane(m) && SaneAll(posts)
    requires DescribesState(m, s) || exists i :: 0 <= i < |posts| && DescribesState(posts[i], s)
    ensures DescribesState(r, s)
  {
    var steps :| JoinsFrom(m, posts, steps) && steps[|posts|] == r;
    JoinsSoundTo(m, posts, steps, s, |posts|);
  }

  /* ----- whole executions ----- */

  lemma JoinedAt(g: Blocks, entry: Label, pre: map<Label, MachineVal>, post: map<Label, MachineVal>, m: Label, s: State)
    requires BlockDone(g, entry, pre, post, m) && AllSane(post)
    requires DescribesState(Initial(entry, m), s) || exists l :: l in g[m].prevlist && l in post && DescribesState(post[l], s)
    ensures DescribesState(pre[m], s)
  {
    var posts := Posts(g[m].prevlist, post);
    PostsAreValues(g[m].prevlist, post);
    InitialSane(entry, m);
    if l :| l in g[m].prevlist && l in post && DescribesState(post[l], s) {
      var i :| 0 <= i < |g[m].prevlist| && g[m].prevlist[i] == l;
      assert DescribesState(posts[i], s);
    }
    JoinedSound(Initial(entry, m), posts, pre[m], s);
  }

  lemma StepInto(g: Blocks, entry: Label, order: seq<Label>, pre: map<Label, MachineVal>, post: map<Label, MachineVal>,
                 l: Label, m: Label, s: State, t: State)
    requires Analysed(g, entry, Labels(order), pre, post) && EdgeInto(g, order, l, m)
    requires DescribesState(pre[l], s) && Executes(Tagged(), g[l].insts, s, t)
    ensures DescribesState(pre[m], t)
  {
    assert BlockDone(g, entry, pre, post, l) && BlockDone(g, entry, pre, post, m);
    RunSound(g[l].insts, pre[l], post[l], s, t);
    JoinedAt(g, entry, pre, post, m, t);
  }

  lemma EntryDescribed(g: Blocks, entry: Label, order: seq<Label>, pre: map<Label, MachineVal>, post: map<Label, MachineVal>, s: State)
    requires Analysed(g, entry, Labels(order), pre, post) && entry in order && Started(s)
    ensures Described(pre, entry, s)
  {
    EntryIff(s);
    assert BlockDone(g, entry, pre, post, entry);
    JoinedAt(g, entry, pre, post, entry, s);
  }

  ghost predicate Described(pre: map<Label, MachineVal>, l: Label, s: State) {
    l in pre && DescribesState(pre[l], s)
  }

  /** What the analysis claims of the states that arrive at a block. */
  ghost function Before(pre: map<Label, MachineVal>): (Label, State) -> bool {
    (l, s) => Described(pre, l, s)
  }

  /** A solution of the equations is inductive. */
  lemma AnalysedInductive(g: Blocks, entry: Label, order: seq<Label>, pre: map<Label, MachineVal>, post: map<Label, MachineVal>)
    requires Analysed(g, entry, Labels(order), pre, post)
    ensures Inductive(Tagged(), g, order, Before(pre))
  {
    var M, before := Tagged(), Before(pre);
    forall l, m, s, t | EdgeInto(g, order, l, m) && before(l, s) && Executes(M, g[l].insts, s, t)
      ensures before(m, t)
    {
      StepInto(g, entry, order, pre, post, l, m, s, t);
    }
  }

  /** Every state that arrives at a visited block, along any run from the entry, is described by the block's pre. */
  lemma ArrivalsDescribed(g: Blocks, entry: Label, rank: map<Label, nat>, order: seq<Label>,
                          pre: map<Label, MachineVal>, post: map<Label, MachineVal>, r: seq<Arrival<State>>, k: nat)
    requires SchedulingGraph(g, entry, rank) && Complete(g, entry, order, pre, post)
    requires FreeRun(Tagged(), g, r) && r[0].name == entry && Started(r[0].state)
    requires k < |r| && r[k].name in order
    ensures Described(pre, r[k].name, r[k].state)
  {
    assert Ready(g, entry, Labels(order), entry);
    EntryDescribed(g, entry, order, pre, post, r[0].state);
    AnalysedInductive(g, entry, order, pre, post);
    HoldsAtArrivals(Tagged(), g, entry, rank, order, Before(pre), r, k);
  }

  /**
    Soundness of the whole analysis: when no unreachable block feeds a reachable
    one, every state that arrives at any block, along any run from the entry,
    is described by that block's pre.
   */
  lemma AnalysisIsSound(g: Blocks, entry: Label, rank: map<Label, nat>, order: seq<Label>,
                        pre: map<Label, MachineVal>, post: map<Label, MachineVal>, r: seq<Arrival<State>>)
    requires SchedulingGraph(g, entry, rank) && Complete(g, entry, order, pre, post) && NoStrayPredecessor(g, entry)
    requires FreeRun(Tagged(), g, r) && r[0].name == entry && Started(r[0].state)
    ensures forall k :: 0 <= k < |r| ==> Described(pre, r[k].name, r[k].state)
  {
    CoversIffNoStray(g, entry, rank, order);
    forall k | 0 <= k < |r|
      ensures Described(pre, r[k].name, r[k].state)
    {
      ArrivalsReachable(Tagged(), g, r, k);
      ArrivalsDescribed(g, entry, rank, order, pre, post, r, k);
    }
  }

  /** The pre of l and the instructions before the n-th one describe the state t. */
  ghost predicate DescribedAt(g: Blocks, pre: map<Label, MachineVal>, l: Label, n: nat, t: State) {
    l in g && l in pre && DescribedBefore(g[l].insts, pre[l], n, t)
  }

  lemma InsideBlock(g: Blocks, entry: Label, order: seq<Label>, pre: map<Label, MachineVal>, post: map<Label, MachineVal>,
                    l: Label, n: nat, s: State, t: State)
    requires Analysed(g, entry, Labels(order), pre, post) && l in order && l in g && n <= |g[l].insts|
    requires Described(pre, l, s) && Executes(Tagged(), g[l].insts[..n], s, t)
    ensures DescribedAt(g, pre, l, n, t)
  {
    assert BlockDone(g, entry, pre, post, l);
    RunSoundInside(g[l].insts, pre[l], post[l], n, s, t);
  }

  /** The same inside the blocks: what the analysis computes before an instruction describes every state there. */
  lemma InsideIsSound(g: Blocks, entry: Label, rank: map<Label, nat>, order: seq<Label>,
                      pre: map<Label, MachineVal>, post: map<Label, MachineVal>, s0: State, l: Label, n: nat, t: State)
    requires SchedulingGraph(g, entry, rank) && Complete(g, entry, order, pre, post) && NoStrayPredecessor(g, entry)
    requires Started(s0) && LeadsInto(Tagged(), g, At(entry, s0), l, n, t)
    ensures DescribedAt(g, pre, l, n, t)
  {
    CoversIffNoStray(g, entry, rank, order);
    var s :| Leads(Tagged(), g, At(entry, s0), At(l, s)) && Executes(Tagged(), g[l].insts[..n], s, t);
    var r :| FreeRun(Tagged(), g, r) && r[0] == At(entry, s0) && r[|r| - 1] == At(l, s);
    ArrivalsReachable(Tagged(), g, r, |r| - 1);
    ArrivalsDescribed(g, entry, rank, order, pre, post, r, |r| - 1);
    InsideBlock(g, entry, order, pre, post, l, n, s, t);
  }

  /** No concrete state is described by the machine of a block that was never visited. */
  lemma UnreachedDescribesNothing(s: State)
    ensures !DescribesState(Unreached(), s)
  {}

  /** A reachable block that is never visited keeps the machine that describes no state at all. */
  lemma NotVisitedDescribesNothing(g: Blocks, entry: Label, order: seq<Label>,
                                   pre: map<Label, MachineVal>, post: map<Label, MachineVal>, l: Label, s: State)
    requires entry in g && Complete(g, entry, order, pre, post) && l in g && l !in order
    ensures !DescribesState(pre[l], s)
  {
    assert Ready(g, entry, Labels(order), entry);
    assert Untouched(entry, pre, post, l);
    UnreachedDescribesNothing(s);
  }
}
