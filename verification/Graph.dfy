/**
  Control-flow graphs: labelled basic blocks with successor and predecessor
  lists, in which an edge may occur several times.
 */
module Graph {
  import opened Syntax

  datatype BasicBlock = BasicBlock(insts: seq<Instruction>, nextlist: seq<Label>, prevlist: seq<Label>)

  type Blocks = map<Label, BasicBlock>

  /** How often x occurs in s. */
  function Occurs(s: seq<Label>, x: Label): nat {
    multiset(s)[x]
  }

  lemma OccursCons(s: seq<Label>, x: Label)
    requires s != []
    ensures Occurs(s, x) == (if s[0] == x then 1 else 0) + Occurs(s[1..], x)
  {
    assert s == [s[0]] + s[1..];
  }

  /** Every listed label has a block. */
  predicate Closed(g: Blocks) {
    forall l | l in g ::
      && (forall m | m in g[l].nextlist :: m in g)
      && (forall m | m in g[l].prevlist :: m in g)
  }

  /** Successor and predecessor lists agree, with multiplicity. */
  ghost predicate Mirrored(g: Blocks) {
    && Closed(g)
    && forall l, m :: l in g && m in g ==> Occurs(g[l].nextlist, m) == Occurs(g[m].prevlist, l)
  }

  ghost predicate Edge(g: Blocks, l: Label, m: Label) {
    l in g && m in g[l].nextlist
  }

  lemma MirroredEdge(g: Blocks, l: Label, m: Label)
    requires Mirrored(g)
    ensures Edge(g, l, m) <==> m in g && l in g[m].prevlist
  {}

  lemma PrefixStep<T>(s: seq<T>, i: nat)
    requires i < |s|
    ensures s[..i + 1] == s[..i] + [s[i]]
  {}

  lemma PrefixAll<T>(s: seq<T>)
    ensures s[..|s|] == s
  {}

  predicate Distinct(s: seq<Label>) {
    forall i, j :: 0 <= i < j < |s| ==> s[i] != s[j]
  }

  /** std::unique: adjacent repetitions are dropped. */
  function Unique(s: seq<Label>): seq<Label> {
    if |s| <= 1 then s
    else if s[0] == s[1] then Unique(s[1..])
    else [s[0]] + Unique(s[1..])
  }

  lemma {:induction false} UniqueOfDistinct(s: seq<Label>)
    requires Distinct(s)
    ensures Unique(s) == s
  {
    if |s| <= 1 {
    } else {
      UniqueOfDistinct(s[1..]);
    }
  }

  /* ----- paths ----- */

  ghost predicate Path(g: Blocks, p: seq<Label>) {
    && p != [] && p[0] in g
    && forall i :: 0 <= i < |p| - 1 ==> Edge(g, p[i], p[i + 1])
  }

  ghost predicate Reachable(g: Blocks, from: Label, l: Label) {
    exists p :: Path(g, p) && p[0] == from && p[|p| - 1] == l
  }

  lemma ReachableStep(g: Blocks, from: Label, l: Label, m: Label)
    requires Reachable(g, from, l) && Edge(g, l, m)
    ensures Reachable(g, from, m)
  {
    var p :| Path(g, p) && p[0] == from && p[|p| - 1] == l;
    var q := p + [m];
    assert Path(g, q);
    assert q[0] == from && q[|q| - 1] == m;
  }

  lemma ReachableSelf(g: Blocks, from: Label)
    requires from in g
    ensures Reachable(g, from, from)
  {
    var p := [from];
    assert Path(g, p) && p[0] == from && p[|p| - 1] == from;
  }

  lemma ReachableInside(g: Blocks, from: Label, l: Label)
    requires Closed(g) && Reachable(g, from, l)
    ensures l in g
  {
    var p :| Path(g, p) && p[0] == from && p[|p| - 1] == l;
    assert |p| > 1 ==> Edge(g, p[|p| - 2], p[|p| - 2 + 1]);
  }

  /** A numbering of the blocks that grows along every edge: the graph has no cycle. */
  ghost predicate Numbering(g: Blocks, rank: map<Label, nat>) {
    && g.Keys <= rank.Keys
    && forall l, m :: Edge(g, l, m) && m in g ==> rank[l] < rank[m]
  }

  ghost predicate Acyclic(g: Blocks) {
    exists rank :: Numbering(g, rank)
  }
}
