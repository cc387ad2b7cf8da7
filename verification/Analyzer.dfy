/**
  The worklist analysis: a machine before and after each block, and a list of
  blocks that are ready because all their predecessors have been counted.
 */
module Analyzer {
  import opened Syntax
  import opened Graph
  import opened Machine
  import opened MachineSound
  import opened MachineObject
  import opened Determined

  /* ----- the equations that the analysis solves ----- */

  ghost predicate JoinAt(posts: seq<MachineVal>, steps: seq<MachineVal>, i: int)
    requires 0 <= i < |posts| && |steps| == |posts| + 1
  {
    MachineJoinOf(steps[i], posts[i], steps[i + 1])
  }

  /** r is a join, from left to right, of m and the listed machines. */
  ghost predicate JoinedAll(m: MachineVal, posts: seq<MachineVal>, r: MachineVal) {
    exists steps :: JoinsFrom(m, posts, steps) && steps[|posts|] == r
  }

  ghost predicate JoinsFrom(m: MachineVal, posts: seq<MachineVal>, steps: seq<MachineVal>) {
    |steps| == |posts| + 1 && steps[0] == m && forall i :: 0 <= i < |posts| ==> JoinAt(posts, steps, i)
  }

  ghost predicate Transferred(ins: Instruction, m: MachineVal, r: MachineVal) {
    HasRegs(m) && InScope(ins, m) && !Throws(ins, m) && TransferOf(ins, m, r)
  }

  ghost predicate TransferAt(insts: seq<Instruction>, steps: seq<MachineVal>, i: int)
    requires 0 <= i < |insts| && |steps| == |insts| + 1
  {
    Transferred(insts[i], steps[i], steps[i + 1])
  }

  ghost predicate RunsFrom(insts: seq<Instruction>, m: MachineVal, steps: seq<MachineVal>) {
    |steps| == |insts| + 1 && steps[0] == m && forall i :: 0 <= i < |insts| ==> TransferAt(insts, steps, i)
  }

  /** r is the machine after the instructions, run in order from m. */
  ghost predicate Ran(insts: seq<Instruction>, m: MachineVal, r: MachineVal) {
    exists steps :: RunsFrom(insts, m, steps) && steps[|insts|] == r
  }

  lemma JoinsExtend(m: MachineVal, posts: seq<MachineVal>, steps: seq<MachineVal>, p: MachineVal, r: MachineVal)
    requires JoinsFrom(m, posts, steps) && MachineJoinOf(steps[|posts|], p, r)
    ensures JoinsFrom(m, posts + [p], steps + [r])
  {
    forall i | 0 <= i < |posts| + 1
      ensures JoinAt(posts + [p], steps + [r], i)
    {
      assert i < |posts| ==> JoinAt(posts, steps, i);
    }
  }

  lemma RunsExtend(insts: seq<Instruction>, m: MachineVal, steps: seq<MachineVal>, ins: Instruction, r: MachineVal)
    requires RunsFrom(insts, m, steps) && Transferred(ins, steps[|insts|], r)
    ensures RunsFrom(insts + [ins], m, steps + [r])
  {
    forall i | 0 <= i < |insts| + 1
      ensures TransferAt(insts + [ins], steps + [r], i)
    {
      assert i < |insts| ==> TransferAt(insts, steps, i);
    }
  }

  /* ----- when the instructions do not run through ----- */

  /** The source throws on this instruction, or it is outside the modelled fragment. */
  predicate Refuses(ins: Instruction, m: MachineVal)
    requires HasRegs(m)
  {
    !InScope(ins, m) || Throws(ins, m)
  }

  ghost predicate StopsAt(insts: seq<Instruction>, m: MachineVal, k: nat, steps: seq<MachineVal>) {
    k < |insts| && RunsFrom(insts[..k], m, steps) && HasRegs(steps[k]) && Refuses(insts[k], steps[k])
  }

  /** The instructions run from m up to one that is refused. */
  ghost predicate Stops(insts: seq<Instruction>, m: MachineVal) {
    exists k, steps :: StopsAt(insts, m, k, steps)
  }

  lemma {:induction false} RunsSane(insts: seq<Instruction>, m: MachineVal, steps: seq<MachineVal>, i: nat)
    requires RunsFrom(insts, m, steps) && i <= |insts| && Sane(m)
    ensures Sane(steps[i])
    decreases i
  {
    if i == 0 {
    } else {
      RunsSane(insts, m, steps, i - 1);
      assert TransferAt(insts, steps, i - 1);
      TransferSane(insts[i - 1], steps[i - 1], steps[i]);
    }
  }

  /** Two runs of the same instructions agree. */
  lemma {:induction false} RunsUnique(insts: seq<Instruction>, k: nat, m: MachineVal, steps: seq<MachineVal>, steps': seq<MachineVal>, i: nat)
    requires i <= k <= |insts| && Sane(m) && RunsFrom(insts, m, steps) && RunsFrom(insts[..k], m, steps')
    ensures steps[i] == steps'[i]
    decreases i
  {
    if i == 0 {
    } else {
      RunsUnique(insts, k, m, steps, steps', i - 1);
      RunsSane(insts, m, steps, i - 1);
      assert TransferAt(insts, steps, i - 1) && TransferAt(insts[..k], steps', i - 1);
      TransferUnique(insts[i - 1], steps[i - 1], steps[i], steps'[i]);
    }
  }

  /** Instructions that run through do not stop. */
  lemma RanNeverStops(insts: seq<Instruction>, m: MachineVal, r: MachineVal)
    requires Sane(m) && Ran(insts, m, r)
    ensures !Stops(insts, m)
  {
    var steps :| RunsFrom(insts, m, steps) && steps[|insts|] == r;
    forall k: nat, steps' | k < |insts| && RunsFrom(insts[..k], m, steps')
      ensures !StopsAt(insts, m, k, steps')
    {
      RunsUnique(insts, k, m, steps, steps', k);
      assert TransferAt(insts, steps, k);
    }
  }

  lemma RanUnique(insts: seq<Instruction>, m: MachineVal, r: MachineVal, r': MachineVal)
    requires Sane(m) && Ran(insts, m, r) && Ran(insts, m, r')
    ensures r == r'
  {
    var steps :| RunsFrom(insts, m, steps) && steps[|insts|] == r;
    var steps' :| RunsFrom(insts, m, steps') && steps'[|insts|] == r';
    assert insts[..|insts|] == insts;
    RunsUnique(insts, |insts|, m, steps, steps', |insts|);
  }

  lemma {:induction false} JoinsUnique(m: MachineVal, posts: seq<MachineVal>, steps: seq<MachineVal>, steps': seq<MachineVal>, i: nat)
    requires JoinsFrom(m, posts, steps) && JoinsFrom(m, posts, steps') && i <= |posts|
    requires Sane(m) && forall k :: 0 <= k < |posts| ==> Sane(posts[k])
    ensures steps[i] == steps'[i] && Sane(steps[i])
    decreases i
  {
    if i == 0 {
    } else {
      JoinsUnique(m, posts, steps, steps', i - 1);
      assert JoinAt(posts, steps, i - 1) && JoinAt(posts, steps', i - 1);
      MachineJoinUnique(steps[i - 1], posts[i - 1], steps[i], steps'[i]);
      MachineJoinSane(steps[i - 1], posts[i - 1], steps[i]);
    }
  }

  lemma JoinedAllUnique(m: MachineVal, posts: seq<MachineVal>, r: MachineVal, r': MachineVal)
    requires JoinedAll(m, posts, r) && JoinedAll(m, posts, r')
    requires Sane(m) && forall k :: 0 <= k < |posts| ==> Sane(posts[k])
    ensures r == r' && Sane(r)
  {
    var steps :| JoinsFrom(m, posts, steps) && steps[|posts|] == r;
    var steps' :| JoinsFrom(m, posts, steps') && steps'[|posts|] == r';
    JoinsUnique(m, posts, steps, steps', |posts|);
  }

  ghost predicate AllSane(f: map<Label, MachineVal>) {
    forall l :: l in f ==> Sane(f[l])
  }

  ghost function Posts(prevs: seq<Label>, post: map<Label, MachineVal>): (s: seq<MachineVal>)
    requires forall p :: p in prevs ==> p in post
    ensures |s| == |prevs| && forall i :: 0 <= i < |s| ==> s[i] == post[prevs[i]]
  {
    seq(|prevs|, i requires 0 <= i < |prevs| => post[prevs[i]])
  }

  ghost function Initial(entry: Label, l: Label): MachineVal {
    if l == entry then Entry() else Unreached()
  }

  ghost predicate Over(g: Blocks, f: map<Label, MachineVal>) {
    f.Keys == g.Keys
  }

  /** Only the value at here may have changed. */
  ghost predicate ChangedAt(f: map<Label, MachineVal>, here: Label, f': map<Label, MachineVal>) {
    here in f && here in f' && f' == f[here := f'[here]]
  }

  /** The equations of one block: its pre joins the posts of its predecessors, its post is its instructions' effect. */
  ghost predicate SolvedAt(g: Blocks, entry: Label, pre: map<Label, MachineVal>, post: map<Label, MachineVal>, l: Label)
    requires Closed(g) && Over(g, pre) && Over(g, post) && l in g
  {
    && JoinedAll(Initial(entry, l), Posts(g[l].prevlist, post), pre[l])
    && Ran(g[l].insts, pre[l], post[l])
  }

  /* ----- the object ----- */

  datatype Outcome = Changed | Unchanged | Stopped

  class Analysis {
    var pre: map<Label, MachineVal>
    var post: map<Label, MachineVal>

    constructor (keys: seq<Label>)
      requires keys != []
      ensures pre.Keys == post.Keys == set l | l in keys
      ensures forall l :: l in pre ==> pre[l] == Initial(keys[0], l) && post[l] == Unreached()
    {
      var a, b := map[], map[];
      for i := 0 to |keys|
        invariant a.Keys == b.Keys == set l | l in keys[..i]
        invariant forall l :: l in a ==> a[l] == b[l] == Unreached()
      {
        a := a[keys[i] := Unreached()];
        b := b[keys[i] := Unreached()];
      }
      pre := a[keys[0] := Entry()];
      post := b;
    }

    /** new_pre |= post.at(l) for each predecessor. */
    method JoinPredecessors(prevs: seq<Label>, into: Label)
      requires into in pre && AllSane(pre) && AllSane(post)
      requires forall p :: p in prevs ==> p in post
      modifies this`pre
      ensures ChangedAt(old(pre), into, pre)
      ensures AllSane(pre)
      ensures JoinedAll(old(pre)[into], Posts(prevs, post), pre[into])
    {
      var newPre := new MachineState(pre[into]);
      ghost var all := Posts(prevs, post);
      ghost var steps := [newPre.Value()];
      for i := 0 to |prevs|
        invariant fresh(newPre) && fresh(newPre.stackArr) && pre == old(pre) && post == old(post)
        invariant Sane(newPre.Value())
        invariant JoinsFrom(old(pre)[into], all[..i], steps) && steps[i] == newPre.Value()
      {
        var other := new MachineState(post[prevs[i]]);
        newPre.JoinWith(other);
        JoinsExtend(old(pre)[into], all[..i], steps, all[i], newPre.Value());
        steps := steps + [newPre.Value()];
        assert all[..i + 1] == all[..i] + [all[i]];
      }
      assert all[..|prevs|] == all;
      pre := pre[into := newPre.Value()];
    }

    /** Stopped exactly when the source would throw on an instruction, or one is outside the modelled fragment. */
    method Recompute(l: Label, insts: seq<Instruction>) returns (r: Outcome)
      requires l in pre && l in post && AllSane(pre) && AllSane(post)
      modifies this`post
      ensures r.Stopped? <==> Stops(insts, pre[l])
      ensures r.Stopped? ==> post == old(post)
      ensures !r.Stopped? ==> ChangedAt(old(post), l, post) && AllSane(post)
      ensures !r.Stopped? ==> Ran(insts, pre[l], post[l]) && (pre[l].stack.bot || !post[l].stack.bot)
      ensures r.Changed? ==> post[l] != old(post)[l]
      ensures r.Unchanged? ==> post[l] == old(post)[l]
    {
      var dom := new MachineState(pre[l]);
      ghost var steps := [dom.Value()];
      for i := 0 to |insts|
        invariant fresh(dom) && fresh(dom.stackArr) && pre == old(pre) && post == old(post)
        invariant Sane(dom.Value()) && RunsFrom(insts[..i], pre[l], steps) && steps[i] == dom.Value()
        invariant pre[l].stack.bot || !dom.Value().stack.bot
      {
        ghost var before := dom.Value();
        if !InScope(insts[i], dom.Value()) {
          assert StopsAt(insts, pre[l], i, steps);
          return Stopped;
        }
        var ok := dom.Visit(insts[i]);
        if !ok {
          assert StopsAt(insts, pre[l], i, steps);
          return Stopped;
        }
        TransferSane(insts[i], before, dom.Value());
        RunsExtend(insts[..i], pre[l], steps, insts[i], dom.Value());
        steps := steps + [dom.Value()];
        assert insts[..i + 1] == insts[..i] + [insts[i]];
      }
      assert insts[..|insts|] == insts;
      RanNeverStops(insts, pre[l], dom.Value());
      var changed := post[l] != dom.Value();
      post := post[l := dom.Value()];
      return if changed then Changed else Unchanged;
    }
  }
}
