/**
  What a control-flow graph does: the runs of a graph whose conditional jumps
  choose the successor, the runs of a graph whose blocks may go to any
  successor. The runs are stated over any meaning of the instructions and of
  the conditions.
 */
module CfgRuns {
  import opened Syntax
  import opened Graph

  /* ----- the complement of a comparison ----- */

  function Reverse(op: CondOp): CondOp {
    match op
    case EQ => NE
    case NE => EQ
    case GE => LT
    case LT => GE
    case SGE => SLT
    case SLT => SGE
    case LE => GT
    case GT => LE
    case SLE => SGT
    case SGT => SLE
    case SET => NSET
    case NSET => SET
  }

  function ReverseCondition(c: Condition): Condition {
    Condition(Reverse(c.op), c.left, c.right)
  }

  /** The reversed comparison holds exactly when the comparison does not, on all words. */
  lemma ReverseIsComplement(op: CondOp, a: U64, b: U64)
    ensures EvalOp(Reverse(op), a, b) <==> !EvalOp(op, a, b)
    ensures Reverse(Reverse(op)) == op && Reverse(op) != op
  {}

  /* ----- meanings ----- */

  /** Which states an instruction may lead to, and which conditions hold in a state. */
  datatype Meaning<!S(!new)> = Meaning(exec: (Instruction, S, S) -> bool, holds: (Condition, S) -> bool)

  datatype Arrival<S> = At(name: Label, state: S)

  /** Every condition or its reverse holds, and never both. */
  ghost predicate Complementary<S(!new)>(M: Meaning<S>) {
    forall c, s :: M.holds(ReverseCondition(c), s) <==> !M.holds(c, s)
  }

  function WordIn<S>(reg: (S, Reg) -> U64, v: Operand, s: S): U64 {
    match v
    case Imm(k) => k
    case RegOp(r) => reg(s, r)
  }

  /** Conditions compare the words that registers hold, as in section 4.3 of RFC 9669. */
  function OnWords<S(!new)>(exec: (Instruction, S, S) -> bool, reg: (S, Reg) -> U64): Meaning<S> {
    Meaning(exec, (c: Condition, s: S) => EvalOp(c.op, reg(s, c.left), WordIn(reg, c.right, s)))
  }

  lemma OnWordsComplementary<S(!new)>(exec: (Instruction, S, S) -> bool, reg: (S, Reg) -> U64)
    ensures Complementary(OnWords(exec, reg))
  {
    var M := OnWords(exec, reg);
    forall c, s
      ensures M.holds(ReverseCondition(c), s) <==> !M.holds(c, s)
    {
      ReverseIsComplement(c.op, reg(s, c.left), WordIn(reg, c.right, s));
    }
  }

  /** A jump leaves the state as it is; an assumption blocks the states that do not satisfy it. */
  ghost predicate Effect<S(!new)>(M: Meaning<S>, ins: Instruction, s: S, t: S) {
    match ins
    case Jmp(_, _) => s == t
    case AssumeIns(c) => s == t && M.holds(c, s)
    case _ => M.exec(ins, s, t)
  }

  ghost predicate Executes<S(!new)>(M: Meaning<S>, insts: seq<Instruction>, s: S, t: S) {
    if insts == [] then s == t
    else exists u :: Effect(M, insts[0], s, u) && Executes(M, insts[1..], u, t)
  }

  lemma {:induction false} ExecutesConcat<S(!new)>(M: Meaning<S>, a: seq<Instruction>, b: seq<Instruction>, s: S, t: S)
    ensures Executes(M, a + b, s, t) <==> exists u :: Executes(M, a, s, u) && Executes(M, b, u, t)
  {
    if a == [] {
      assert a + b == b;
      assert Executes(M, a, s, s);
    } else {
      assert (a + b)[0] == a[0] && (a + b)[1..] == a[1..] + b;
      forall v
        ensures Executes(M, a[1..] + b, v, t) <==> exists u :: Executes(M, a[1..], v, u) && Executes(M, b, u, t)
      {
        ExecutesConcat(M, a[1..], b, v, t);
      }
      if Executes(M, a + b, s, t) {
        var v :| Effect(M, a[0], s, v) && Executes(M, a[1..] + b, v, t);
        var u :| Executes(M, a[1..], v, u) && Executes(M, b, u, t);
        assert Executes(M, a, s, u);
      }
      if u :| Executes(M, a, s, u) && Executes(M, b, u, t) {
        var v :| Effect(M, a[0], s, v) && Executes(M, a[1..], v, u);
        assert Executes(M, a[1..] + b, v, t);
      }
    }
  }

  /* ----- runs of a graph with conditional jumps ----- */

  /** The block ends in a conditional jump. */
  predicate EndsInCondition(bb: BasicBlock) {
    bb.insts != [] && bb.insts[|bb.insts| - 1].Jmp? && bb.insts[|bb.insts| - 1].cond.Some?
  }

  function LastCondition(bb: BasicBlock): Condition
    requires EndsInCondition(bb)
  {
    bb.insts[|bb.insts| - 1].cond.value
  }

  /**
    Of two different successors a conditional jump takes the first when its
    condition holds and the second when the reverse holds; it is stuck when
    neither does. A jump to its own fallthrough goes there in any case.
   */
  ghost predicate Chooses<S(!new)>(M: Meaning<S>, bb: BasicBlock, s: S, next: Label) {
    && next in bb.nextlist
    && (EndsInCondition(bb) && |bb.nextlist| == 2 && bb.nextlist[0] != bb.nextlist[1] ==>
         || (next == bb.nextlist[0] && M.holds(LastCondition(bb), s))
         || (next == bb.nextlist[1] && M.holds(ReverseCondition(LastCondition(bb)), s)))
  }

  /** Where reversing is complementing, the jump takes the first successor when its condition holds and the second otherwise. */
  lemma ChoosesOne<S(!new)>(M: Meaning<S>, bb: BasicBlock, s: S, next: Label)
    requires Complementary(M) && EndsInCondition(bb) && |bb.nextlist| == 2
    ensures Chooses(M, bb, s, next) <==> next == bb.nextlist[if M.holds(LastCondition(bb), s) then 0 else 1]
  {}

  ghost predicate DetStep<S(!new)>(M: Meaning<S>, g: Blocks, a: Arrival<S>, b: Arrival<S>) {
    a.name in g && Executes(M, g[a.name].insts, a.state, b.state) && Chooses(M, g[a.name], b.state, b.name)
  }

  /** A run: every block before the last arrival has run and has chosen the next one. */
  ghost predicate DetRun<S(!new)>(M: Meaning<S>, g: Blocks, r: seq<Arrival<S>>) {
    r != [] && r[0].name in g && (|r| > 1 ==> DetStep(M, g, r[0], r[1]) && DetRun(M, g, r[1..]))
  }

  /* ----- runs of a graph whose blocks go to any successor ----- */

  ghost predicate FreeStep<S(!new)>(M: Meaning<S>, g: Blocks, a: Arrival<S>, b: Arrival<S>) {
    a.name in g && Executes(M, g[a.name].insts, a.state, b.state) && b.name in g[a.name].nextlist
  }

  ghost predicate FreeRun<S(!new)>(M: Meaning<S>, g: Blocks, r: seq<Arrival<S>>) {
    r != [] && r[0].name in g && (|r| > 1 ==> FreeStep(M, g, r[0], r[1]) && FreeRun(M, g, r[1..]))
  }

  /* ----- steps of a run ----- */

  lemma {:induction false} FreeRunStep<S(!new)>(M: Meaning<S>, g: Blocks, r: seq<Arrival<S>>, i: nat)
    requires FreeRun(M, g, r) && i < |r|
    ensures r[i].name in g && (i + 1 < |r| ==> FreeStep(M, g, r[i], r[i + 1]))
  {
    if i == 0 {
    } else {
      FreeRunStep(M, g, r[1..], i - 1);
    }
  }

  /** A run with one more step. */
  lemma {:induction false} FreeRunSnoc<S(!new)>(M: Meaning<S>, g: Blocks, r: seq<Arrival<S>>, b: Arrival<S>)
    requires FreeRun(M, g, r) && FreeStep(M, g, r[|r| - 1], b) && b.name in g
    ensures FreeRun(M, g, r + [b])
  {
    if |r| == 1 {
      assert (r + [b])[1..] == [b];
    } else {
      FreeRunSnoc(M, g, r[1..], b);
      assert (r + [b])[1..] == r[1..] + [b];
    }
  }

  /** A run without its last step. */
  lemma {:induction false} FreeRunInit<S(!new)>(M: Meaning<S>, g: Blocks, r: seq<Arrival<S>>)
    requires FreeRun(M, g, r) && |r| > 1
    ensures FreeRun(M, g, r[..|r| - 1]) && FreeStep(M, g, r[|r| - 2], r[|r| - 1]) && r[|r| - 1].name in g
  {
    if |r| == 2 {
    } else {
      FreeRunInit(M, g, r[1..]);
      assert r[..|r| - 1][1..] == r[1..][..|r| - 2];
    }
  }

  /** Some run of the graph leads from a to b. */
  ghost predicate Leads<S(!new)>(M: Meaning<S>, g: Blocks, a: Arrival<S>, b: Arrival<S>) {
    exists r :: FreeRun(M, g, r) && r[0] == a && r[|r| - 1] == b
  }

  lemma LeadsNowhere<S(!new)>(M: Meaning<S>, g: Blocks, a: Arrival<S>)
    requires a.name in g
    ensures Leads(M, g, a, a)
  {
    var r := [a];
    assert FreeRun(M, g, r) && r[0] == a && r[|r| - 1] == a;
  }

  lemma LeadsOn<S(!new)>(M: Meaning<S>, g: Blocks, a: Arrival<S>, b: Arrival<S>, c: Arrival<S>)
    requires Leads(M, g, a, b) && FreeStep(M, g, b, c) && c.name in g
    ensures Leads(M, g, a, c)
  {
    var r :| FreeRun(M, g, r) && r[0] == a && r[|r| - 1] == b;
    FreeRunSnoc(M, g, r, c);
    var q := r + [c];
    assert FreeRun(M, g, q) && q[0] == a && q[|q| - 1] == c;
  }

  /** A run of g to l, and then the instructions. */
  ghost predicate LeadsThrough<S(!new)>(M: Meaning<S>, g: Blocks, a: Arrival<S>, l: Label, insts: seq<Instruction>, t: S) {
    exists s :: Leads(M, g, a, At(l, s)) && Executes(M, insts, s, t)
  }

  /** A run of g to l, and then the first n instructions there. */
  ghost predicate LeadsInto<S(!new)>(M: Meaning<S>, g: Blocks, a: Arrival<S>, l: Label, n: nat, t: S) {
    l in g && n <= |g[l].insts| && LeadsThrough(M, g, a, l, g[l].insts[..n], t)
  }
}
