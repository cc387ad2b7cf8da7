/**
  The schedule of the analysis: a counter per block, and a list of the blocks
  that are ready because all their predecessors have been visited.
 */
module Schedule {
  import opened Syntax
  import opened Graph

  /* ----- counting ----- */

  /** How many entries of s are in V. */
  function CountIn(s: seq<Label>, V: set<Label>): nat {
    if s == [] then 0 else (if s[0] in V then 1 else 0) + CountIn(s[1..], V)
  }

  lemma {:induction false} CountInBound(s: seq<Label>, V: set<Label>)
    ensures CountIn(s, V) <= |s|
    ensures CountIn(s, V) == |s| <==> forall p :: p in s ==> p in V
  {
    if s == [] {
    } else {
      CountInBound(s[1..], V);
      assert s == [s[0]] + s[1..];
    }
  }

  lemma {:induction false} CountInNone(s: seq<Label>)
    ensures CountIn(s, {}) == 0
  {
    if s == [] {
    } else {
      CountInNone(s[1..]);
    }
  }

  lemma {:induction false} CountInAdd(s: seq<Label>, V: set<Label>, x: Label)
    requires x !in V
    ensures CountIn(s, V + {x}) == CountIn(s, V) + Occurs(s, x)
  {
    if s == [] {
    } else {
      CountInAdd(s[1..], V, x);
      assert s == [s[0]] + s[1..];
    }
  }

  /* ----- the schedule ----- */

  /** A block may be visited when it is the entry or all its predecessors have been. */
  ghost predicate Ready(g: Blocks, entry: Label, V: set<Label>, n: Label) {
    n in g && (n == entry || (g[n].prevlist != [] && forall p :: p in g[n].prevlist ==> p in V))
  }

  /** The visited blocks: each was ready before it was visited, and the entry comes first. */
  ghost predicate Visited(g: Blocks, entry: Label, rank: map<Label, nat>, V: set<Label>) {
    && V <= g.Keys && g.Keys <= rank.Keys && (V != {} ==> entry in V)
    && (forall v :: v in V ==> Ready(g, entry, V, v))
    && (forall v :: v in V && v != entry ==> entry in g && rank[entry] < rank[v])
  }

  ghost predicate Scheduled(g: Blocks, entry: Label, V: set<Label>, w: seq<Label>, count: map<Label, int>) {
    && count.Keys == g.Keys
    && (forall n :: n in g ==> count[n] == CountIn(g[n].prevlist, V))
    && Distinct(w)
    && (forall n :: n in w <==> n !in V && Ready(g, entry, V, n))
  }

  ghost predicate SchedulingGraph(g: Blocks, entry: Label, rank: map<Label, nat>) {
    Mirrored(g) && entry in g && Numbering(g, rank)
  }

  /** No visited block has an edge to a block that was ready before. */
  lemma NoEdgeBack(g: Blocks, entry: Label, rank: map<Label, nat>, V: set<Label>, here: Label, n: Label)
    requires SchedulingGraph(g, entry, rank) && Visited(g, entry, rank, V)
    requires here !in V && Ready(g, entry, V, here) && Edge(g, here, n)
    ensures n !in V && n != here && n != entry
    ensures !Ready(g, entry, V, n)
    ensures rank[entry] < rank[n]
  {
    MirroredEdge(g, here, n);
    if here != entry {
      var p := g[here].prevlist[0];
      assert p in g[here].prevlist;
      MirroredEdge(g, p, here);
      assert Edge(g, p, here);
    }
  }

  lemma VisitedGrows(g: Blocks, entry: Label, rank: map<Label, nat>, V: set<Label>, here: Label)
    requires SchedulingGraph(g, entry, rank) && Visited(g, entry, rank, V)
    requires here !in V && Ready(g, entry, V, here) && (V == {} ==> here == entry)
    ensures Visited(g, entry, rank, V + {here})
  {
    if here != entry {
      var p := g[here].prevlist[0];
      assert p in g[here].prevlist;
      MirroredEdge(g, p, here);
      assert Edge(g, p, here);
    }
  }

  /* ----- counting the edges out of the block just visited ----- */

  /** The counts after j of the block's successor entries s. */
  ghost predicate CountsAt(g: Blocks, V: set<Label>, s: seq<Label>, j: nat, count: map<Label, int>)
    requires j <= |s|
  {
    count.Keys == g.Keys && forall n :: n in g ==> count[n] == CountIn(g[n].prevlist, V) + Occurs(s[..j], n)
  }

  ghost predicate Full(g: Blocks, s: seq<Label>, j: nat, count: map<Label, int>, n: Label)
    requires j <= |s| && count.Keys == g.Keys
  {
    n in g && n in s[..j] && count[n] == |g[n].prevlist|
  }

  /** The list: what it was, and the counted blocks whose count is full. */
  ghost predicate PushedAt(g: Blocks, s: seq<Label>, j: nat, w0: seq<Label>, w: seq<Label>, count: map<Label, int>)
    requires j <= |s| && count.Keys == g.Keys
  {
    Distinct(w) && forall n :: (n in w) == (n in w0 || Full(g, s, j, count, n))
  }

  lemma {:induction false} PrefixOccurs(s: seq<Label>, j: nat, x: Label)
    requires j < |s|
    ensures Occurs(s[..j + 1], x) == Occurs(s[..j], x) + if s[j] == x then 1 else 0
    ensures Occurs(s[..j + 1], x) <= Occurs(s, x)
    ensures x in s[..j + 1] <==> x in s[..j] || x == s[j]
  {
    assert s[..j + 1] == s[..j] + [s[j]];
    assert s == s[..j + 1] + s[j + 1..];
    assert multiset(s) == multiset(s[..j + 1]) + multiset(s[j + 1..]);
  }

  /** A block's count never exceeds the number of its predecessors. */
  lemma CountBounded(g: Blocks, V: set<Label>, here: Label, j: nat, n: Label)
    requires Mirrored(g) && here in g && here !in V && n in g && j < |g[here].nextlist|
    ensures CountIn(g[n].prevlist, V) + Occurs(g[here].nextlist[..j + 1], n) <= |g[n].prevlist|
  {
    PrefixOccurs(g[here].nextlist, j, n);
    CountInAdd(g[n].prevlist, V, here);
    CountInBound(g[n].prevlist, V + {here});
    assert Occurs(g[here].nextlist, n) == Occurs(g[n].prevlist, here);
  }

  /** count[n]++ */
  function Bump(count: map<Label, int>, n: Label): (r: map<Label, int>)
    requires n in count
    ensures r.Keys == count.Keys
  {
    count[n := count[n] + 1]
  }

  /** n joins the list when its count has reached the number of its predecessors. */
  function PushFull(g: Blocks, n: Label, w: seq<Label>, count: map<Label, int>): seq<Label>
    requires n in g && n in count
  {
    if count[n] >= |g[n].prevlist| then w + [n] else w
  }

  lemma CountsStep(g: Blocks, V: set<Label>, s: seq<Label>, j: nat, count: map<Label, int>)
    requires j < |s| && s[j] in g && CountsAt(g, V, s, j, count)
    ensures CountsAt(g, V, s, j + 1, Bump(count, s[j]))
  {
    forall n | n in g
      ensures Occurs(s[..j + 1], n) == Occurs(s[..j], n) + if s[j] == n then 1 else 0
    {
      PrefixOccurs(s, j, n);
    }
  }

  lemma PushedStep(g: Blocks, s: seq<Label>, j: nat, w0: seq<Label>, w: seq<Label>, count: map<Label, int>)
    requires j < |s| && s[j] in g && count.Keys == g.Keys && PushedAt(g, s, j, w0, w, count)
    requires s[j] !in w0 && count[s[j]] + 1 <= |g[s[j]].prevlist|
    ensures PushedAt(g, s, j + 1, w0, PushFull(g, s[j], w, Bump(count, s[j])), Bump(count, s[j]))
  {}

  /** With all successors of the block counted, the counts are those of one more visited block. */
  lemma CountsDone(g: Blocks, V: set<Label>, here: Label, count: map<Label, int>)
    requires Mirrored(g) && here in g && here !in V
    requires CountsAt(g, V, g[here].nextlist, |g[here].nextlist|, count)
    ensures forall n :: n in g ==> count[n] == CountIn(g[n].prevlist, V + {here})
  {
    var s := g[here].nextlist;
    assert s[..|s|] == s;
    forall n | n in g
      ensures count[n] == CountIn(g[n].prevlist, V + {here})
    {
      CountInAdd(g[n].prevlist, V, here);
      assert Occurs(s, n) == Occurs(g[n].prevlist, here);
    }
  }

  lemma FullIsReady(g: Blocks, entry: Label, rank: map<Label, nat>, V: set<Label>, here: Label, count: map<Label, int>, n: Label)
    requires SchedulingGraph(g, entry, rank) && Visited(g, entry, rank, V)
    requires here !in V && Ready(g, entry, V, here) && (V == {} ==> here == entry)
    requires count.Keys == g.Keys && forall n :: n in g ==> count[n] == CountIn(g[n].prevlist, V + {here})
    ensures n !in V + {here} && Ready(g, entry, V + {here}, n) <==>
      (n != here && n !in V && Ready(g, entry, V, n)) || Full(g, g[here].nextlist, |g[here].nextlist|, count, n)
  {
    var s := g[here].nextlist;
    assert s[..|s|] == s;
    if n in g {
      CountInBound(g[n].prevlist, V + {here});
      MirroredEdge(g, here, n);
      if n in s { NoEdgeBack(g, entry, rank, V, here, n); }
    }
  }

  lemma CountingDone(g: Blocks, entry: Label, rank: map<Label, nat>, V: set<Label>, here: Label,
                     w0: seq<Label>, w: seq<Label>, count: map<Label, int>)
    requires SchedulingGraph(g, entry, rank) && Visited(g, entry, rank, V)
    requires here !in V && Ready(g, entry, V, here) && (V == {} ==> here == entry)
    requires forall n :: n in w0 <==> n != here && n !in V && Ready(g, entry, V, n)
    requires CountsAt(g, V, g[here].nextlist, |g[here].nextlist|, count)
    requires PushedAt(g, g[here].nextlist, |g[here].nextlist|, w0, w, count)
    ensures Scheduled(g, entry, V + {here}, w, count)
  {
    CountsDone(g, V, here, count);
    forall n
      ensures n in w <==> n !in V + {here} && Ready(g, entry, V + {here}, n)
    {
      FullIsReady(g, entry, rank, V, here, count, n);
      assert (n in w) == (n in w0 || Full(g, g[here].nextlist, |g[here].nextlist|, count, n));
    }
  }

  lemma ScheduleStarts(g: Blocks, entry: Label, count: map<Label, int>)
    requires entry in g && count.Keys == g.Keys && forall n :: n in g ==> count[n] == 0
    ensures Scheduled(g, entry, {}, [entry], count)
  {
    forall n | n in g
      ensures count[n] == CountIn(g[n].prevlist, {})
    {
      CountInNone(g[n].prevlist);
    }
    forall n
      ensures n in [entry] <==> n !in {} && Ready(g, entry, {}, n)
    {
      if n in g && g[n].prevlist != [] { assert g[n].prevlist[0] in g[n].prevlist; }
    }
  }

  /** Removing the front label of the list. */
  lemma PopFront(g: Blocks, entry: Label, V: set<Label>, w: seq<Label>, count: map<Label, int>)
    requires w != [] && Scheduled(g, entry, V, w, count)
    ensures w[0] !in w[1..] && w[0] !in V && Ready(g, entry, V, w[0])
    ensures Distinct(w[1..])
    ensures forall n :: n in w[1..] <==> n != w[0] && n !in V && Ready(g, entry, V, n)
  {}

  lemma NotListed(g: Blocks, entry: Label, rank: map<Label, nat>, V: set<Label>, here: Label,
                  listed: seq<Label>, count: map<Label, int>, next: Label)
    requires SchedulingGraph(g, entry, rank) && Visited(g, entry, rank, V)
    requires listed != [] && here == listed[0] && Scheduled(g, entry, V, listed, count) && Edge(g, here, next)
    ensures next !in listed[1..]
  {
    PopFront(g, entry, V, listed, count);
    NoEdgeBack(g, entry, rank, V, here, next);
  }

  /* ----- the order of the visits ----- */

  ghost function Labels(order: seq<Label>): set<Label> {
    set l | l in order
  }

  /** The labels in the order they were recomputed: each once, the entry first, each after all its predecessors. */
  ghost predicate Topological(g: Blocks, entry: Label, order: seq<Label>) {
    && Distinct(order)
    && (order != [] ==> order[0] == entry)
    && forall i :: 0 <= i < |order| ==> Ready(g, entry, Labels(order[..i]), order[i])
  }

  lemma TopologicalGrows(g: Blocks, entry: Label, order: seq<Label>, here: Label)
    requires Topological(g, entry, order) && here !in order && Ready(g, entry, Labels(order), here)
    requires order == [] ==> here == entry
    ensures Topological(g, entry, order + [here])
    ensures Labels(order + [here]) == Labels(order) + {here}
  {
    var t := order + [here];
    forall i | 0 <= i < |t|
      ensures Ready(g, entry, Labels(t[..i]), t[i])
    {
      if i < |order| {
        assert t[..i] == order[..i];
      } else {
        assert t[..i] == order;
      }
    }
  }

  lemma LabelsGrow(order: seq<Label>, k: nat)
    requires k < |order|
    ensures Labels(order[..k + 1]) == Labels(order[..k]) + {order[k]}
  {
    assert order[..k + 1] == order[..k] + [order[k]];
  }

  /** A prefix of an order of visits is a set of visited blocks. */
  lemma {:induction false} PrefixVisited(g: Blocks, entry: Label, rank: map<Label, nat>, order: seq<Label>, k: nat)
    requires SchedulingGraph(g, entry, rank) && Topological(g, entry, order) && k <= |order|
    ensures Visited(g, entry, rank, Labels(order[..k]))
    decreases k
  {
    if k == 0 {
    } else {
      PrefixVisited(g, entry, rank, order, k - 1);
      LabelsGrow(order, k - 1);
      assert Ready(g, entry, Labels(order[..k - 1]), order[k - 1]);
      assert k > 1 ==> order[0] in Labels(order[..k - 1]);
      VisitedGrows(g, entry, rank, Labels(order[..k - 1]), order[k - 1]);
    }
  }

  /** No visited block leads back to the entry. */
  lemma EntryFirst(g: Blocks, entry: Label, rank: map<Label, nat>, order: seq<Label>, p: Label)
    requires SchedulingGraph(g, entry, rank) && Topological(g, entry, order) && p in g[entry].prevlist
    ensures p !in order
  {
    PrefixVisited(g, entry, rank, order, |order|);
    assert order[..|order|] == order;
    MirroredEdge(g, p, entry);
    assert rank[p] < rank[entry];
    assert p in Labels(order) <==> p in order;
  }

  /** Nothing more is ready after the visits of the order. */
  ghost predicate Exhausted(g: Blocks, entry: Label, order: seq<Label>) {
    forall n :: Ready(g, entry, Labels(order), n) ==> n in order
  }

  /** Every block of one order of visits is in any exhausted one. */
  lemma {:induction false} OrdersNested(g: Blocks, entry: Label, order: seq<Label>, order': seq<Label>, k: nat)
    requires Exhausted(g, entry, order) && Topological(g, entry, order') && k <= |order'|
    ensures Labels(order'[..k]) <= Labels(order)
    decreases k
  {
    if k == 0 {
    } else {
      OrdersNested(g, entry, order, order', k - 1);
      LabelsGrow(order', k - 1);
      assert Ready(g, entry, Labels(order'[..k - 1]), order'[k - 1]);
      assert Ready(g, entry, Labels(order), order'[k - 1]);
    }
  }
}
