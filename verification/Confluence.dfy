/**
  A system of equations over a graph without cycles, one for each block, has
  one solution, in whatever order the blocks are visited. The equations are
  stated over any values and any single-valued join and transfer.
 */
module Confluence {
  import opened Syntax
  import opened Graph
  import opened Schedule

  /** How the value before a block follows from the values after its predecessors, and the value after it from the one before. */
  datatype Equations<!T(!new)> = Equations(joins: (Label, seq<T>, T) -> bool, runs: (Label, T, T) -> bool)

  ghost predicate SingleValued<T(!new)>(E: Equations<T>) {
    && (forall l, s, a, b :: E.joins(l, s, a) && E.joins(l, s, b) ==> a == b)
    && (forall l, m, a, b :: E.runs(l, m, a) && E.runs(l, m, b) ==> a == b)
  }

  ghost function ValuesOf<T(!new)>(prevs: seq<Label>, post: map<Label, T>): (s: seq<T>)
    requires forall p :: p in prevs ==> p in post
    ensures |s| == |prevs| && forall i :: 0 <= i < |s| ==> s[i] == post[prevs[i]]
  {
    seq(|prevs|, i requires 0 <= i < |prevs| => post[prevs[i]])
  }

  /** The values around l solve its equations. */
  ghost predicate Solved<T(!new)>(E: Equations<T>, g: Blocks, pre: map<Label, T>, post: map<Label, T>, l: Label) {
    && l in g && l in pre && l in post && (forall p :: p in g[l].prevlist ==> p in post)
    && E.joins(l, ValuesOf(g[l].prevlist, post), pre[l]) && E.runs(l, pre[l], post[l])
  }

  /** The values after visiting the blocks of the order; the others still have the initial value. */
  ghost predicate Stage<T(!new)>(E: Equations<T>, g: Blocks, entry: Label, unreached: T, order: seq<Label>,
                                 pre: map<Label, T>, post: map<Label, T>) {
    && Topological(g, entry, order)
    && (forall l :: l in order ==> Solved(E, g, pre, post, l))
    && (forall l :: l in g && l !in order ==> l in post && post[l] == unreached)
  }

  ghost predicate AgreeAt<T(!new)>(pre: map<Label, T>, post: map<Label, T>, pre': map<Label, T>, post': map<Label, T>, l: Label) {
    l in pre && l in pre' && l in post && l in post' && pre[l] == pre'[l] && post[l] == post'[l]
  }

  /** Before a ready block the values agree: the visited predecessors agree, the others are unreached in both. */
  lemma PostsAgree<T(!new)>(E: Equations<T>, g: Blocks, entry: Label, rank: map<Label, nat>, unreached: T,
                            order: seq<Label>, pre: map<Label, T>, post: map<Label, T>,
                            order': seq<Label>, pre': map<Label, T>, post': map<Label, T>, k: nat, l: Label, p: Label)
    requires SchedulingGraph(g, entry, rank)
    requires Stage(E, g, entry, unreached, order, pre, post) && Stage(E, g, entry, unreached, order', pre', post')
    requires k <= |order'| && Ready(g, entry, Labels(order'[..k]), l) && p in g[l].prevlist
    requires forall i :: 0 <= i < k ==> AgreeAt(pre, post, pre', post', order'[i])
    ensures p in post && p in post' && post[p] == post'[p]
  {
    if l == entry {
      EntryFirst(g, entry, rank, order, p);
      EntryFirst(g, entry, rank, order', p);
      assert p in g;
    } else {
      assert p in Labels(order'[..k]);
      var i :| 0 <= i < k && order'[i] == p;
    }
  }

  lemma AllPostsAgree<T(!new)>(E: Equations<T>, g: Blocks, entry: Label, rank: map<Label, nat>, unreached: T,
                               order: seq<Label>, pre: map<Label, T>, post: map<Label, T>,
                               order': seq<Label>, pre': map<Label, T>, post': map<Label, T>, k: nat, l: Label)
    requires SchedulingGraph(g, entry, rank)
    requires Stage(E, g, entry, unreached, order, pre, post) && Stage(E, g, entry, unreached, order', pre', post')
    requires k <= |order'| && Ready(g, entry, Labels(order'[..k]), l)
    requires forall i :: 0 <= i < k ==> AgreeAt(pre, post, pre', post', order'[i])
    ensures PostsEqual(g, post, post', l)
  {
    forall p | p in g[l].prevlist
      ensures p in post && p in post' && post[p] == post'[p]
    {
      PostsAgree(E, g, entry, rank, unreached, order, pre, post, order', pre', post', k, l, p);
    }
  }

  ghost predicate PostsEqual<T(!new)>(g: Blocks, post: map<Label, T>, post': map<Label, T>, l: Label)
    requires l in g
  {
    forall p :: p in g[l].prevlist ==> p in post && p in post' && post[p] == post'[p]
  }

  /** The next block of one stage is solved alike in a complete one. */
  lemma NextAgrees<T(!new)>(E: Equations<T>, g: Blocks, entry: Label, rank: map<Label, nat>, unreached: T,
                            order: seq<Label>, pre: map<Label, T>, post: map<Label, T>,
                            order': seq<Label>, pre': map<Label, T>, post': map<Label, T>, k: nat)
    requires SingleValued(E) && SchedulingGraph(g, entry, rank)
    requires Stage(E, g, entry, unreached, order, pre, post) && Stage(E, g, entry, unreached, order', pre', post')
    requires k < |order'| && order'[k] in order
    requires forall i :: 0 <= i < k ==> AgreeAt(pre, post, pre', post', order'[i])
    ensures AgreeAt(pre, post, pre', post', order'[k])
  {
    var l := order'[k];
    assert Ready(g, entry, Labels(order'[..k]), l);
    AllPostsAgree(E, g, entry, rank, unreached, order, pre, post, order', pre', post', k, l);
    SolutionsAgree(E, g, pre, post, pre', post', l);
  }

  lemma {:induction false} StagesAgree<T(!new)>(E: Equations<T>, g: Blocks, entry: Label, rank: map<Label, nat>, unreached: T,
                                                order: seq<Label>, pre: map<Label, T>, post: map<Label, T>,
                                                order': seq<Label>, pre': map<Label, T>, post': map<Label, T>, k: nat)
    requires SingleValued(E) && SchedulingGraph(g, entry, rank)
    requires Stage(E, g, entry, unreached, order, pre, post) && Stage(E, g, entry, unreached, order', pre', post')
    requires k <= |order'| && forall i :: 0 <= i < k ==> order'[i] in order
    ensures forall i :: 0 <= i < k ==> AgreeAt(pre, post, pre', post', order'[i])
    decreases k
  {
    if k == 0 {
    } else {
      StagesAgree(E, g, entry, rank, unreached, order, pre, post, order', pre', post', k - 1);
      NextAgrees(E, g, entry, rank, unreached, order, pre, post, order', pre', post', k - 1);
    }
  }

  lemma Nested(g: Blocks, entry: Label, order: seq<Label>, order': seq<Label>)
    requires Exhausted(g, entry, order) && Topological(g, entry, order')
    ensures Labels(order') <= Labels(order) && forall i :: 0 <= i < |order'| ==> order'[i] in order
  {
    OrdersNested(g, entry, order, order', |order'|);
    assert order'[..|order'|] == order';
    forall i | 0 <= i < |order'|
      ensures order'[i] in order
    {
      assert order'[i] in Labels(order');
    }
  }

  lemma SolutionsAgree<T(!new)>(E: Equations<T>, g: Blocks, pre: map<Label, T>, post: map<Label, T>,
                                pre': map<Label, T>, post': map<Label, T>, l: Label)
    requires SingleValued(E) && Solved(E, g, pre, post, l) && Solved(E, g, pre', post', l)
    requires PostsEqual(g, post, post', l)
    ensures AgreeAt(pre, post, pre', post', l)
  {
    assert ValuesOf(g[l].prevlist, post) == ValuesOf(g[l].prevlist, post');
  }

  /** A complete solution agrees with any partial one, and with the value before any block that is ready there. */
  lemma ReadyAgrees<T(!new)>(E: Equations<T>, g: Blocks, entry: Label, rank: map<Label, nat>, unreached: T,
                             order: seq<Label>, pre: map<Label, T>, post: map<Label, T>,
                             order': seq<Label>, pre': map<Label, T>, post': map<Label, T>, here: Label, m: T)
    requires SingleValued(E) && SchedulingGraph(g, entry, rank) && Exhausted(g, entry, order)
    requires Stage(E, g, entry, unreached, order, pre, post) && Stage(E, g, entry, unreached, order', pre', post')
    requires Ready(g, entry, Labels(order'), here) && forall p :: p in g[here].prevlist ==> p in post'
    requires E.joins(here, ValuesOf(g[here].prevlist, post'), m)
    ensures here in order && here in pre && here in post && m == pre[here] && E.runs(here, m, post[here])
  {
    Nested(g, entry, order, order');
    assert order'[..|order'|] == order';
    assert Ready(g, entry, Labels(order), here);
    StagesAgree(E, g, entry, rank, unreached, order, pre, post, order', pre', post', |order'|);
    AllPostsAgree(E, g, entry, rank, unreached, order, pre, post, order', pre', post', |order'|, here);
    assert Solved(E, g, pre, post, here);
    assert ValuesOf(g[here].prevlist, post) == ValuesOf(g[here].prevlist, post');
  }

  /** Two complete solutions visit the same blocks and agree everywhere. */
  lemma SolutionIsUnique<T(!new)>(E: Equations<T>, g: Blocks, entry: Label, rank: map<Label, nat>, unreached: T,
                                  order: seq<Label>, pre: map<Label, T>, post: map<Label, T>,
                                  order': seq<Label>, pre': map<Label, T>, post': map<Label, T>)
    requires SingleValued(E) && SchedulingGraph(g, entry, rank) && Exhausted(g, entry, order) && Exhausted(g, entry, order')
    requires Stage(E, g, entry, unreached, order, pre, post) && Stage(E, g, entry, unreached, order', pre', post')
    ensures Labels(order) == Labels(order')
    ensures forall l :: l in order ==> AgreeAt(pre, post, pre', post', l)
  {
    Nested(g, entry, order, order');
    Nested(g, entry, order', order);
    StagesAgree(E, g, entry, rank, unreached, order, pre, post, order', pre', post', |order'|);
    forall l | l in order
      ensures AgreeAt(pre, post, pre', post', l)
    {
      assert l in Labels(order');
      var i :| 0 <= i < |order'| && order'[i] == l;
    }
  }
}
