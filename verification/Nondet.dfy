/**
  Replacing conditional jumps by assumptions: each edge out of a two-way block
  gets a block of its own that assumes the condition or its complement.
 */
module Nondet {
  import opened Syntax
  import opened Graph
  import opened CfgRuns

  /* ----- block bodies ----- */

  function ExpandLockAdd(access: Deref, valreg: Reg): seq<Instruction> {
    [Mem(access, RegOp(11), true), Bin(ADD, true, 11, RegOp(valreg)), Mem(access, RegOp(11), false)]
  }

  function ExpandLock(ins: Instruction): seq<Instruction> {
    match ins
    case LockAdd(access, valreg) => ExpandLockAdd(access, valreg)
    case _ => [ins]
  }

  function ExpandLocks(insts: seq<Instruction>): seq<Instruction> {
    if insts == [] then [] else ExpandLock(insts[0]) + ExpandLocks(insts[1..])
  }

  function WithoutJumps(insts: seq<Instruction>): seq<Instruction> {
    if insts == [] then [] else (if insts[0].Jmp? then [] else [insts[0]]) + WithoutJumps(insts[1..])
  }

  function Body(expand: bool, insts: seq<Instruction>): seq<Instruction> {
    WithoutJumps(if expand then ExpandLocks(insts) else insts)
  }

  /** A meaning in which LockAdd does what its expansion does. */
  ghost predicate LocksExpand<S(!new)>(M: Meaning<S>) {
    forall access, valreg, s, t ::
      M.exec(LockAdd(access, valreg), s, t) <==> Executes(M, ExpandLockAdd(access, valreg), s, t)
  }

  lemma {:induction false} WithoutJumpsRuns<S(!new)>(M: Meaning<S>, insts: seq<Instruction>, s: S, t: S)
    ensures Executes(M, WithoutJumps(insts), s, t) <==> Executes(M, insts, s, t)
  {
    if insts == [] {
    } else {
      forall u
        ensures Executes(M, WithoutJumps(insts[1..]), u, t) <==> Executes(M, insts[1..], u, t)
      {
        WithoutJumpsRuns(M, insts[1..], u, t);
      }
      if insts[0].Jmp? {
        assert WithoutJumps(insts) == WithoutJumps(insts[1..]);
        assert Effect(M, insts[0], s, s);
      } else {
        assert WithoutJumps(insts)[0] == insts[0] && WithoutJumps(insts)[1..] == WithoutJumps(insts[1..]);
      }
    }
  }

  lemma ExecutesOne<S(!new)>(M: Meaning<S>, ins: Instruction, s: S, t: S)
    ensures Executes(M, [ins], s, t) <==> Effect(M, ins, s, t)
  {
    assert [ins][1..] == [];
    assert Effect(M, ins, s, t) ==> Executes(M, [ins][1..], t, t);
  }

  lemma ExpandLockRuns<S(!new)>(M: Meaning<S>, ins: Instruction, s: S, t: S)
    requires LocksExpand(M)
    ensures Executes(M, ExpandLock(ins), s, t) <==> Effect(M, ins, s, t)
  {
    match ins {
      case LockAdd(access, valreg) => assert Effect(M, ins, s, t) <==> M.exec(LockAdd(access, valreg), s, t);
      case _ => ExecutesOne(M, ins, s, t);
    }
  }

  lemma {:induction false} ExpandLocksRuns<S(!new)>(M: Meaning<S>, insts: seq<Instruction>, s: S, t: S)
    requires LocksExpand(M)
    ensures Executes(M, ExpandLocks(insts), s, t) <==> Executes(M, insts, s, t)
  {
    if insts == [] {
    } else {
      var a, b := ExpandLock(insts[0]), ExpandLocks(insts[1..]);
      ExecutesConcat(M, a, b, s, t);
      if u :| Executes(M, a, s, u) && Executes(M, b, u, t) {
        ExpandLockRuns(M, insts[0], s, u);
        ExpandLocksRuns(M, insts[1..], u, t);
      }
      if u :| Effect(M, insts[0], s, u) && Executes(M, insts[1..], u, t) {
        ExpandLockRuns(M, insts[0], s, u);
        ExpandLocksRuns(M, insts[1..], u, t);
      }
    }
  }

  /** Dropping the jumps, and expanding LockAdd where it means its expansion, keeps what the block computes. */
  lemma BodyRuns<S(!new)>(M: Meaning<S>, expand: bool, insts: seq<Instruction>, s: S, t: S)
    requires expand ==> LocksExpand(M)
    ensures Executes(M, Body(expand, insts), s, t) <==> Executes(M, insts, s, t)
  {
    WithoutJumpsRuns(M, if expand then ExpandLocks(insts) else insts, s, t);
    if expand { ExpandLocksRuns(M, insts, s, t); }
  }

  /* ----- labels of the new blocks ----- */

  predicate Plain(l: Label) {
    ':' !in l
  }

  function Mid(l: Label, next: Label): Label {
    l + ":" + next
  }

  /** Where the first ':' stands. */
  function FirstColon(x: string): nat {
    if x == [] || x[0] == ':' then 0 else 1 + FirstColon(x[1..])
  }

  lemma {:induction false} FirstColonOfMid(l: Label, m: Label)
    requires Plain(l)
    ensures FirstColon(Mid(l, m)) == |l|
  {
    if l == [] {
    } else {
      assert Mid(l, m)[1..] == Mid(l[1..], m);
      FirstColonOfMid(l[1..], m);
    }
  }

  lemma MidInjective(l: Label, m: Label, l': Label, m': Label)
    requires Plain(l) && Plain(l') && Mid(l, m) == Mid(l', m')
    ensures l == l' && m == m'
  {
    FirstColonOfMid(l, m);
    FirstColonOfMid(l', m');
    assert Mid(l, m)[..|l|] == l && Mid(l', m')[..|l|] == l';
    assert Mid(l, m)[|l| + 1..] == m && Mid(l', m')[|l| + 1..] == m';
  }

  lemma MidNotPlain(l: Label, m: Label)
    ensures !Plain(Mid(l, m))
  {}

  /* ----- the new graph ----- */

  /** Two different successors. */
  predicate Branches(bb: BasicBlock) {
    |Unique(bb.nextlist)| == 2
  }

  /** At most two successors; two different ones only after a conditional jump. */
  predicate TwoWay(g: Blocks) {
    forall l | l in g :: |g[l].nextlist| <= 2 && (Branches(g[l]) ==> EndsInCondition(g[l]))
  }

  predicate PlainLabels(g: Blocks) {
    forall l | l in g :: Plain(l)
  }

  predicate Input(g: Blocks) {
    Closed(g) && TwoWay(g) && PlainLabels(g)
  }

  lemma BranchesTwo(bb: BasicBlock)
    requires |bb.nextlist| <= 2
    ensures Branches(bb) <==> |bb.nextlist| == 2 && bb.nextlist[0] != bb.nextlist[1]
    ensures !Branches(bb) ==> Unique(bb.nextlist) == if |bb.nextlist| == 2 then [bb.nextlist[0]] else bb.nextlist
  {
    var s := bb.nextlist;
    if |s| == 2 {
      assert s == [s[0], s[1]] && s[1..] == [s[1]];
      assert Unique(s) == if s[0] == s[1] then [s[1]] else [s[0]] + [s[1]];
    }
  }

  /** How the new graph names the way from p into l. */
  function PrevName(g: Blocks, p: Label, l: Label): Label
    requires p in g
  {
    if |Unique(g[p].nextlist)| > 1 then Mid(p, l) else p
  }

  function PrevNames(g: Blocks, prevs: seq<Label>, l: Label): (r: seq<Label>)
    requires forall p :: p in prevs ==> p in g
    ensures |r| == |prevs|
  {
    seq(|prevs|, i requires 0 <= i < |prevs| => PrevName(g, prevs[i], l))
  }

  function NextNames(bb: BasicBlock, l: Label): seq<Label>
    requires |bb.nextlist| <= 2
  {
    BranchesTwo(bb);
    if Branches(bb) then [Mid(l, bb.nextlist[0]), Mid(l, bb.nextlist[1])] else Unique(bb.nextlist)
  }

  function NewBlock(g: Blocks, expand: bool, l: Label): BasicBlock
    requires Input(g) && l in g
  {
    BasicBlock(Body(expand, g[l].insts), NextNames(g[l], l), PrevNames(g, g[l].prevlist, l))
  }

  /** The block on the edge from l to its first (second) successor assumes the condition (its complement). */
  function MidBlock(g: Blocks, l: Label, first: bool): BasicBlock
    requires Input(g) && l in g && Branches(g[l])
  {
    BranchesTwo(g[l]);
    var c := LastCondition(g[l]);
    BasicBlock([AssumeIns(if first then c else ReverseCondition(c))], [g[l].nextlist[if first then 0 else 1]], [l])
  }

  predicate MidOf(g: Blocks, x: Label, l: Label, first: bool)
    requires Input(g)
  {
    l in g && Branches(g[l]) && (BranchesTwo(g[l]); x == Mid(l, g[l].nextlist[if first then 0 else 1]))
  }

  ghost predicate IsMid(g: Blocks, x: Label)
    requires Input(g)
  {
    exists l, first :: MidOf(g, x, l, first)
  }

  /** The old labels with their new blocks, and one block for each edge out of a two-way block. */
  ghost predicate IsNondet(g: Blocks, expand: bool, h: Blocks)
    requires Input(g)
  {
    && (forall x :: x in h <==> x in g || IsMid(g, x))
    && (forall l :: l in g ==> h[l] == NewBlock(g, expand, l))
    && (forall x, l, first :: MidOf(g, x, l, first) ==> x in h && h[x] == MidBlock(g, l, first))
  }

  /* ----- runs of the two graphs ----- */

  /** The arrivals of the new graph that stand for a and for the way from it to b. */
  ghost function Hop<S(!new)>(g: Blocks, a: Arrival<S>, b: Arrival<S>): seq<Arrival<S>>
    requires a.name in g
  {
    if Branches(g[a.name]) then [a, At(Mid(a.name, b.name), b.state)] else [a]
  }

  ghost function Embed<S(!new)>(g: Blocks, r: seq<Arrival<S>>): seq<Arrival<S>>
    requires forall a :: a in r ==> a.name in g
  {
    if |r| <= 1 then r else Hop(g, r[0], r[1]) + Embed(g, r[1..])
  }

  ghost function Project<S(!new)>(g: Blocks, q: seq<Arrival<S>>): (r: seq<Arrival<S>>)
    ensures forall a :: a in r ==> a.name in g
  {
    if q == [] then []
    else (if q[0].name in g then [q[0]] else []) + Project(g, q[1..])
  }

  lemma {:induction false} RunInside<S(!new)>(M: Meaning<S>, g: Blocks, r: seq<Arrival<S>>)
    requires DetRun(M, g, r)
    ensures forall a :: a in r ==> a.name in g
  {
    if |r| <= 1 {
    } else {
      RunInside(M, g, r[1..]);
      assert r == [r[0]] + r[1..];
    }
  }

  lemma FreeRunCons<S(!new)>(M: Meaning<S>, h: Blocks, a: Arrival<S>, r: seq<Arrival<S>>)
    requires FreeRun(M, h, r) && FreeStep(M, h, a, r[0])
    ensures FreeRun(M, h, [a] + r)
  {}

  lemma PlainStepEmbeds<S(!new)>(M: Meaning<S>, g: Blocks, expand: bool, h: Blocks, a: Arrival<S>, b: Arrival<S>)
    requires Input(g) && IsNondet(g, expand, h) && (expand ==> LocksExpand(M))
    requires DetStep(M, g, a, b) && !Branches(g[a.name])
    ensures FreeStep(M, h, a, b)
  {
    BodyRuns(M, expand, g[a.name].insts, a.state, b.state);
    BranchesTwo(g[a.name]);
  }

  /** Passing the block on the edge from a to b: possible exactly when the conditional jump chooses b. */
  lemma MidPasses<S(!new)>(M: Meaning<S>, g: Blocks, a: Label, first: bool, s: S, t: S)
    requires Input(g) && a in g && Branches(g[a])
    ensures |g[a].nextlist| == 2 && EndsInCondition(g[a])
    ensures Executes(M, MidBlock(g, a, first).insts, s, t) <==> s == t && Chooses(M, g[a], s, g[a].nextlist[if first then 0 else 1])
  {
    BranchesTwo(g[a]);
    var c := LastCondition(g[a]);
    ExecutesOne(M, AssumeIns(if first then c else ReverseCondition(c)), s, t);
  }

  lemma BranchStepEmbeds<S(!new)>(M: Meaning<S>, g: Blocks, expand: bool, h: Blocks, a: Arrival<S>, b: Arrival<S>)
    requires Input(g) && IsNondet(g, expand, h) && (expand ==> LocksExpand(M))
    requires DetStep(M, g, a, b) && Branches(g[a.name])
    ensures FreeStep(M, h, a, At(Mid(a.name, b.name), b.state))
    ensures FreeStep(M, h, At(Mid(a.name, b.name), b.state), b)
  {
    BodyRuns(M, expand, g[a.name].insts, a.state, b.state);
    var first := b.name == g[a.name].nextlist[0];
    MidPasses(M, g, a.name, first, b.state, b.state);
    assert MidOf(g, Mid(a.name, b.name), a.name, first);
  }

  /** One step of the graph with jumps is one or two steps of the new graph, the second through the assumption. */
  lemma HopRuns<S(!new)>(M: Meaning<S>, g: Blocks, expand: bool, h: Blocks, a: Arrival<S>, b: Arrival<S>, rest: seq<Arrival<S>>)
    requires Input(g) && IsNondet(g, expand, h) && (expand ==> LocksExpand(M))
    requires DetStep(M, g, a, b) && FreeRun(M, h, rest) && rest[0] == b
    ensures FreeRun(M, h, Hop(g, a, b) + rest)
  {
    if Branches(g[a.name]) {
      BranchStepEmbeds(M, g, expand, h, a, b);
      var mid := At(Mid(a.name, b.name), b.state);
      FreeRunCons(M, h, mid, rest);
      FreeRunCons(M, h, a, [mid] + rest);
      assert Hop(g, a, b) + rest == [a] + ([mid] + rest);
    } else {
      PlainStepEmbeds(M, g, expand, h, a, b);
      FreeRunCons(M, h, a, rest);
    }
  }

  lemma {:induction false} EmbedEnds<S(!new)>(g: Blocks, r: seq<Arrival<S>>)
    requires r != [] && forall a :: a in r ==> a.name in g
    ensures Embed(g, r) != [] && Embed(g, r)[0] == r[0] && Embed(g, r)[|Embed(g, r)| - 1] == r[|r| - 1]
  {
    if |r| <= 1 {
    } else {
      EmbedEnds(g, r[1..]);
    }
  }

  /** Every run of the graph with jumps is, through the assumption blocks, a run of the new graph. */
  lemma {:induction false} RunEmbeds<S(!new)>(M: Meaning<S>, g: Blocks, expand: bool, h: Blocks, r: seq<Arrival<S>>)
    requires Input(g) && IsNondet(g, expand, h) && (expand ==> LocksExpand(M)) && DetRun(M, g, r)
    ensures forall a :: a in r ==> a.name in g
    ensures FreeRun(M, h, Embed(g, r)) && Embed(g, r)[0] == r[0] && Embed(g, r)[|Embed(g, r)| - 1] == r[|r| - 1]
  {
    RunInside(M, g, r);
    EmbedEnds(g, r);
    if |r| <= 1 {
    } else {
      EmbedEnds(g, r[1..]);
      RunEmbeds(M, g, expand, h, r[1..]);
      HopRuns(M, g, expand, h, r[0], r[1], Embed(g, r[1..]));
    }
  }

  /** Out of an old block that does not branch, the new graph steps as the old one does. */
  lemma PlainStepBack<S(!new)>(M: Meaning<S>, g: Blocks, expand: bool, h: Blocks, a: Arrival<S>, b: Arrival<S>)
    requires Input(g) && IsNondet(g, expand, h) && (expand ==> LocksExpand(M))
    requires a.name in g && !Branches(g[a.name]) && FreeStep(M, h, a, b)
    ensures DetStep(M, g, a, b) && b.name in g
  {
    BodyRuns(M, expand, g[a.name].insts, a.state, b.state);
    BranchesTwo(g[a.name]);
  }

  /** Out of an old block that branches, the new graph passes an assumption block, which lets through only the chosen successor. */
  lemma MidStepBack<S(!new)>(M: Meaning<S>, g: Blocks, expand: bool, h: Blocks, a: Arrival<S>, mid: Arrival<S>, b: Arrival<S>)
    requires Input(g) && IsNondet(g, expand, h) && (expand ==> LocksExpand(M))
    requires a.name in g && Branches(g[a.name]) && FreeStep(M, h, a, mid) && FreeStep(M, h, mid, b)
    ensures mid.name !in g && b.name in g && mid == At(Mid(a.name, b.name), b.state)
    ensures DetStep(M, g, a, b)
  {
    var bb := g[a.name];
    BodyRuns(M, expand, bb.insts, a.state, mid.state);
    BranchesTwo(bb);
    var first := mid.name == Mid(a.name, bb.nextlist[0]);
    MidPasses(M, g, a.name, first, mid.state, b.state);
    assert MidOf(g, mid.name, a.name, first);
    MidNotPlain(a.name, b.name);
  }

  lemma MidStepOut<S(!new)>(M: Meaning<S>, g: Blocks, expand: bool, h: Blocks, a: Arrival<S>, mid: Arrival<S>)
    requires Input(g) && IsNondet(g, expand, h) && a.name in g && Branches(g[a.name]) && FreeStep(M, h, a, mid)
    ensures mid.name !in g
  {}

  lemma ProjectCons<S(!new)>(g: Blocks, q: seq<Arrival<S>>)
    requires q != [] && q[0].name in g
    ensures Project(g, q) == [q[0]] + Project(g, q[1..])
  {}

  lemma DetRunCons<S(!new)>(M: Meaning<S>, g: Blocks, a: Arrival<S>, r: seq<Arrival<S>>)
    requires DetRun(M, g, r) && DetStep(M, g, a, r[0])
    ensures DetRun(M, g, [a] + r)
  {}

  lemma HopShape<S(!new)>(g: Blocks, q: seq<Arrival<S>>, k: nat)
    requires |q| > k && q[0].name in g
    requires if Branches(g[q[0].name]) then k == 2 && q[1].name !in g && q[1] == At(Mid(q[0].name, q[2].name), q[2].state) else k == 1
    ensures q[..k] == Hop(g, q[0], q[k]) && Project(g, q) == [q[0]] + Project(g, q[k..])
  {}

  lemma BranchBack<S(!new)>(M: Meaning<S>, g: Blocks, expand: bool, h: Blocks, q: seq<Arrival<S>>)
    requires Input(g) && IsNondet(g, expand, h) && (expand ==> LocksExpand(M))
    requires FreeRun(M, h, q) && |q| > 1 && q[0].name in g && q[|q| - 1].name in g && Branches(g[q[0].name])
    ensures |q| > 2 && FreeRun(M, h, q[2..]) && DetStep(M, g, q[0], q[2])
    ensures q[2].name in g && q[1].name !in g && q[1] == At(Mid(q[0].name, q[2].name), q[2].state)
  {
    MidStepOut(M, g, expand, h, q[0], q[1]);
    assert q[1..][1..] == q[2..];
    MidStepBack(M, g, expand, h, q[0], q[1], q[2]);
  }

  /** A run of the new graph that starts at an old label and does not end there begins with a hop to the next old label. */
  lemma HopBack<S(!new)>(M: Meaning<S>, g: Blocks, expand: bool, h: Blocks, q: seq<Arrival<S>>) returns (k: nat)
    requires Input(g) && IsNondet(g, expand, h) && (expand ==> LocksExpand(M))
    requires FreeRun(M, h, q) && |q| > 1 && q[0].name in g && q[|q| - 1].name in g
    ensures 0 < k < |q| && FreeRun(M, h, q[k..]) && q[k].name in g && DetStep(M, g, q[0], q[k])
    ensures q[..k] == Hop(g, q[0], q[k]) && Project(g, q) == [q[0]] + Project(g, q[k..])
  {
    if Branches(g[q[0].name]) {
      BranchBack(M, g, expand, h, q);
      k := 2;
    } else {
      PlainStepBack(M, g, expand, h, q[0], q[1]);
      k := 1;
    }
    HopShape(g, q, k);
  }

  /** The run r of the graph with jumps is what stands behind q. */
  ghost predicate Behind<S(!new)>(M: Meaning<S>, g: Blocks, q: seq<Arrival<S>>, r: seq<Arrival<S>>) {
    DetRun(M, g, r) && (forall a :: a in r ==> a.name in g) && Embed(g, r) == q && q != [] && r[0] == q[0]
  }

  lemma EmbedBack<S(!new)>(g: Blocks, q: seq<Arrival<S>>, k: nat, r: seq<Arrival<S>>)
    requires 0 < k < |q| && q[0].name in g && r != [] && forall x :: x in r ==> x.name in g
    requires Embed(g, r) == q[k..] && r[0] == q[k] && q[..k] == Hop(g, q[0], q[k])
    ensures Embed(g, [q[0]] + r) == q
  {}

  lemma BehindOne<S(!new)>(M: Meaning<S>, g: Blocks, q: seq<Arrival<S>>)
    requires |q| == 1 && q[0].name in g
    ensures Project(g, q) == q && Behind(M, g, q, q)
  {
    assert q[1..] == [];
  }

  lemma BehindHop<S(!new)>(M: Meaning<S>, g: Blocks, q: seq<Arrival<S>>, k: nat, r: seq<Arrival<S>>)
    requires 0 < k < |q| && q[0].name in g && Behind(M, g, q[k..], r)
    requires DetStep(M, g, q[0], q[k]) && q[..k] == Hop(g, q[0], q[k])
    ensures Behind(M, g, q, [q[0]] + r)
  {
    DetRunCons(M, g, q[0], r);
    EmbedBack(g, q, k, r);
  }

  lemma {:induction false} ProjectBehind<S(!new)>(M: Meaning<S>, g: Blocks, expand: bool, h: Blocks, q: seq<Arrival<S>>)
    requires Input(g) && IsNondet(g, expand, h) && (expand ==> LocksExpand(M))
    requires FreeRun(M, h, q) && q[0].name in g && q[|q| - 1].name in g
    ensures Behind(M, g, q, Project(g, q))
    decreases |q|
  {
    if |q| == 1 {
      BehindOne(M, g, q);
    } else {
      var k := HopBack(M, g, expand, h, q);
      ProjectBehind(M, g, expand, h, q[k..]);
      BehindHop(M, g, q, k, Project(g, q[k..]));
    }
  }

  /** Every run of the new graph between old labels is the embedding of exactly one run of the graph with jumps. */
  lemma RunProjects<S(!new)>(M: Meaning<S>, g: Blocks, expand: bool, h: Blocks, q: seq<Arrival<S>>)
    requires Input(g) && IsNondet(g, expand, h) && (expand ==> LocksExpand(M))
    requires FreeRun(M, h, q) && q[0].name in g && q[|q| - 1].name in g
    ensures DetRun(M, g, Project(g, q)) && Embed(g, Project(g, q)) == q && Project(g, q)[0] == q[0]
  {
    ProjectBehind(M, g, expand, h, q);
  }

  lemma ProjectHop<S(!new)>(g: Blocks, a: Arrival<S>, b: Arrival<S>, rest: seq<Arrival<S>>)
    requires Input(g) && a.name in g && b.name in g
    ensures Project(g, Hop(g, a, b) + rest) == [a] + Project(g, rest)
  {
    var q := Hop(g, a, b) + rest;
    ProjectCons(g, q);
    if Branches(g[a.name]) {
      var mid := At(Mid(a.name, b.name), b.state);
      MidNotPlain(a.name, b.name);
      assert q[1..] == [mid] + rest;
      assert ([mid] + rest)[1..] == rest;
    } else {
      assert q[1..] == rest;
    }
  }

  /** Projecting the embedding gives back the run. */
  lemma {:induction false} ProjectEmbeds<S(!new)>(g: Blocks, r: seq<Arrival<S>>)
    requires Input(g) && forall a :: a in r ==> a.name in g
    ensures Project(g, Embed(g, r)) == r
  {
    if |r| == 0 {
    } else if |r| == 1 {
      assert r[1..] == [];
    } else {
      ProjectEmbeds(g, r[1..]);
      ProjectHop(g, r[0], r[1], Embed(g, r[1..]));
    }
  }
}
