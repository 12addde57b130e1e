/**
 Breadth-first exploration of a finite graph with labelled edges, with the
 predecessor links from which a witness word is read back. The leaf-local walks
 (src/cegar/certify.cc, src/cegar/loop.cc) and the product searches
 (src/cegar/loop.cc, src/cegar/model.cc) all run this loop, each on its own graph.
 */
module Exploration {
  import opened Words
  import opened Finite
  import opened Leaves

  /** The edges of a graph: the successor of a node on a label, if it has one. */
  type Edges<!P> = (P, nat) -> Option<P>

  /** The node the word `w` leads to from `root`. */
  ghost function Path<P>(root: P, n: nat, succ: Edges<P>, w: Word): Option<P>
    requires Over(w, n)
    decreases |w|
  {
    if w == [] then Some(root)
    else
      var p := Path(root, n, succ, Init(w));
      if p.None? then None else succ(p.value, Last(w))
  }

  lemma PathStep<P>(root: P, n: nat, succ: Edges<P>, w: Word, a: nat)
    requires Over(w, n) && a < n
    ensures Over(w + [a], n)
    ensures var p := Path(root, n, succ, w);
            Path(root, n, succ, w + [a]) == if p.None? then None else succ(p.value, a)
  {
    assert Init(w + [a]) == w && Last(w + [a]) == a;
  }

  /** `set` holds the root and every successor of its members. */
  ghost predicate Closed<P(!new)>(root: P, n: nat, succ: Edges<P>, s: set<P>) {
    && root in s
    && forall p, a :: p in s && 0 <= a < n && succ(p, a).Some? ==> succ(p, a).value in s
  }

  /** A closed set holds every node some word leads to. */
  lemma {:induction false} ClosedCovers<P(!new)>(root: P, n: nat, succ: Edges<P>, s: set<P>, w: Word)
    requires Closed(root, n, succ, s) && Over(w, n)
    ensures var p := Path(root, n, succ, w);
            p.Some? ==> p.value in s
    decreases |w|
  {
    if w != [] {
      ClosedCovers(root, n, succ, s, Init(w));
    }
  }

  /** Predecessor links: node `i > 0` was first reached from an earlier node by a label. */
  type Links = seq<(nat, nat)>

  /** `access[i]` is the word the links of node `i` spell. */
  ghost predicate Linked(links: Links, access: seq<Word>) {
    && |links| == |access| >= 1
    && access[0] == []
    && forall i :: 0 < i < |links| ==>
         links[i].0 < i && access[i] == access[links[i].0] + [links[i].1]
  }

  /** Follow the links back to the root; the labels, read forward, are the witness. */
  method Rebuild(links: Links, at: nat, ghost access: seq<Word>) returns (w: Word)
    requires Linked(links, access) && at < |links|
    ensures w == access[at]
  {
    w := [];
    var i := at;
    while i != 0
      invariant 0 <= i < |links| && access[at] == access[i] + w
      decreases i
    {
      w := [links[i].1] + w;
      i := links[i].0;
    }
  }

  ghost predicate Reaches<P(!new)>(root: P, n: nat, succ: Edges<P>, p: P) {
    exists w :: Over(w, n) && Path(root, n, succ, w) == Some(p)
  }

  /** The root is visited whatever the cap. */
  function AtLeastOne(cap: nat): nat {
    if cap == 0 then 1 else cap
  }

  /** A closed list that holds the root holds all that can be reached, so no more than it holds. */
  lemma ExhaustedAll<P(!new)>(root: P, n: nat, succ: Edges<P>, visited: seq<P>, k: nat)
    requires Closed(root, n, succ, Elements(visited)) && Distinct(visited) && |visited| <= k
    ensures !MoreThan(root, n, succ, k)
  {
    forall ps: seq<P> | Distinct(ps) && forall i :: 0 <= i < |ps| ==> Reaches(root, n, succ, ps[i])
      ensures |ps| <= k
    {
      forall i | 0 <= i < |ps|
        ensures ps[i] in Elements(visited)
      {
        assert Reaches(root, n, succ, ps[i]);
        var w :| Over(w, n) && Path(root, n, succ, w) == Some(ps[i]);
        ClosedCovers(root, n, succ, Elements(visited), w);
      }
      DistinctBound(ps, Elements(visited));
      DistinctSize(visited);
    }
  }

  /** More than `k` nodes can be reached. */
  ghost predicate MoreThan<P(!new)>(root: P, n: nat, succ: Edges<P>, k: nat) {
    exists ps: seq<P> :: Distinct(ps) && |ps| > k && forall i :: 0 <= i < |ps| ==> Reaches(root, n, succ, ps[i])
  }

  /** ... the root and nodes that are not bad. */
  ghost predicate MoreGood<P(!new)>(root: P, n: nat, succ: Edges<P>, bad: P -> bool, k: nat) {
    exists ps: seq<P> ::
      && Distinct(ps) && |ps| > k
      && forall i :: 0 <= i < |ps| ==> Reaches(root, n, succ, ps[i]) && (ps[i] == root || !bad(ps[i]))
  }

  /** How an exploration ends. */
  datatype Outcome<P> =
    | Found(trail: Word)
    | Exhausted(visited: seq<P>)
    | Capped(size: nat)

  /** The visited nodes, each reached by its access word; no node but the root is bad. */
  ghost predicate Visited<P(!new)>(root: P, n: nat, succ: Edges<P>, bad: P -> bool, nodes: seq<P>, links: Links,
                                   access: seq<Word>) {
    && Linked(links, access) && |nodes| == |links|
    && nodes[0] == root && Distinct(nodes)
    && (forall i :: 0 <= i < |nodes| ==> Over(access[i], n) && Path(root, n, succ, access[i]) == Some(nodes[i]))
    && (forall i :: 0 < i < |nodes| ==> !bad(nodes[i]))
  }

  /** The first `head` nodes have all their successors among the nodes, node `head` those on labels below `a`. */
  ghost predicate Expanded<P>(n: nat, succ: Edges<P>, nodes: seq<P>, head: nat, a: nat) {
    && head <= |nodes|
    && (forall i, b :: 0 <= i < head && 0 <= b < n && succ(nodes[i], b).Some? ==> succ(nodes[i], b).value in nodes)
    && (a > 0 ==> head < |nodes|)
    && (forall b :: 0 <= b < a && succ(nodes[head], b).Some? ==> succ(nodes[head], b).value in nodes)
  }

  lemma ExpandedGrows<P>(n: nat, succ: Edges<P>, nodes: seq<P>, head: nat, a: nat, p: P)
    requires Expanded(n, succ, nodes, head, a) && head < |nodes| && succ(nodes[head], a) == Some(p)
    ensures Expanded(n, succ, nodes + [p], head, a + 1)
  {
    var nodes' := nodes + [p];
    assert forall q :: q in nodes ==> q in nodes';
    assert p in nodes' by { assert nodes'[|nodes|] == p; }
  }

  /** A successor of node `head` is reached by extending its access word. */
  lemma VisitedReaches<P(!new)>(root: P, n: nat, succ: Edges<P>, bad: P -> bool, nodes: seq<P>, links: Links,
                                access: seq<Word>, head: nat, a: nat)
    requires Visited(root, n, succ, bad, nodes, links, access)
    requires head < |nodes| && a < n && succ(nodes[head], a).Some?
    ensures Over(access[head] + [a], n)
    ensures Path(root, n, succ, access[head] + [a]) == succ(nodes[head], a)
    ensures Linked(links + [(head, a)], access + [access[head] + [a]])
  {
    PathStep(root, n, succ, access[head], a);
  }

  /** Breadth-first search from `root` for a bad node other than the root itself. */
  method Explore<P(==, !new)>(root: P, n: nat, succ: Edges<P>, bad: P -> bool, cap: Option<nat>,
                              ghost universe: set<P>) returns (r: Outcome<P>)
    requires Closed(root, n, succ, universe)
    ensures r.Found? ==>
              && Over(r.trail, n)
              && var p := Path(root, n, succ, r.trail); p.Some? && bad(p.value)
    ensures r.Exhausted? ==>
              && Closed(root, n, succ, Elements(r.visited))
              && |r.visited| >= 1 && r.visited[0] == root && Distinct(r.visited)
              && (forall i :: 0 < i < |r.visited| ==> !bad(r.visited[i]))
              && (forall p :: p in r.visited ==> Reaches(root, n, succ, p))
    ensures r.Exhausted? && cap.Some? ==> |r.visited| <= AtLeastOne(cap.value)
    ensures r.Capped? ==> cap.Some? && r.size > cap.value && MoreGood(root, n, succ, bad, cap.value)
  {
    hide Path, Closed, Elements;
    var nodes, links: Links := [root], [(0, 0)];
    ghost var access: seq<Word> := [[]];
    VisitedStart(root, n, succ, bad);
    var head: nat := 0;
    while head < |nodes|
      invariant Visited(root, n, succ, bad, nodes, links, access)
      invariant Expanded(n, succ, nodes, head, 0)
      invariant cap.Some? ==> |nodes| <= AtLeastOne(cap.value)
      decreases |universe| - head
    {
      NodesBound(root, n, succ, bad, nodes, links, access, universe);
      for a: nat := 0 to n
        invariant Visited(root, n, succ, bad, nodes, links, access)
        invariant head < |nodes| && Expanded(n, succ, nodes, head, a)
        invariant cap.Some? ==> |nodes| <= AtLeastOne(cap.value)
      {
        var next := succ(nodes[head], a);
        if next.Some? && next.value !in nodes {
          VisitedReaches(root, n, succ, bad, nodes, links, access, head, a);
          ExpandedGrows(n, succ, nodes, head, a, next.value);
          nodes, links, access := nodes + [next.value], links + [(head, a)], access + [access[head] + [a]];
          if bad(next.value) {
            var w := Rebuild(links, |nodes| - 1, access);
            return Found(w);
          }
          if cap.Some? && |nodes| > cap.value {
            Crowd(root, n, succ, bad, nodes, access, cap.value);
            return Capped(|nodes|);
          }
        }
      }
      head := head + 1;
    }
    AllExplored(root, n, succ, bad, nodes, links, access);
    r := Exhausted(nodes);
  }

  /** Distinct nodes, each with its access word, more of them than the cap. */
  lemma Crowd<P(!new)>(root: P, n: nat, succ: Edges<P>, bad: P -> bool, nodes: seq<P>, access: seq<Word>, cap: nat)
    requires Distinct(nodes) && |nodes| > cap && |access| == |nodes| && nodes[0] == root
    requires forall i :: 0 < i < |nodes| ==> !bad(nodes[i])
    requires forall i :: 0 <= i < |nodes| ==> Over(access[i], n) && Path(root, n, succ, access[i]) == Some(nodes[i])
    ensures MoreGood(root, n, succ, bad, cap)
  {
    hide Path;
    forall i | 0 <= i < |nodes|
      ensures Reaches(root, n, succ, nodes[i])
    {
      assert Over(access[i], n) && Path(root, n, succ, access[i]) == Some(nodes[i]);
    }
  }

  lemma VisitedStart<P(!new)>(root: P, n: nat, succ: Edges<P>, bad: P -> bool)
    ensures Visited(root, n, succ, bad, [root], [(0, 0)], [[]])
  {
  }

  /** When every node is expanded, the nodes are what can be reached. */
  lemma AllExplored<P(!new)>(root: P, n: nat, succ: Edges<P>, bad: P -> bool, nodes: seq<P>, links: Links, access: seq<Word>)
    requires Visited(root, n, succ, bad, nodes, links, access) && Expanded(n, succ, nodes, |nodes|, 0)
    ensures Closed(root, n, succ, Elements(nodes))
    ensures forall p :: p in nodes ==> Reaches(root, n, succ, p)
  {
    hide Path;
    forall p | p in nodes
      ensures Reaches(root, n, succ, p)
    {
      var i :| 0 <= i < |nodes| && nodes[i] == p;
      assert Over(access[i], n) && Path(root, n, succ, access[i]) == Some(p);
    }
  }

  /** There are no more nodes than the universe holds. */
  lemma NodesBound<P(!new)>(root: P, n: nat, succ: Edges<P>, bad: P -> bool, nodes: seq<P>, links: Links,
                            access: seq<Word>, universe: set<P>)
    requires Closed(root, n, succ, universe)
    requires Visited(root, n, succ, bad, nodes, links, access)
    ensures |nodes| <= |universe|
  {
    forall i | 0 <= i < |nodes|
      ensures nodes[i] in universe
    {
      ClosedCovers(root, n, succ, universe, access[i]);
    }
    DistinctBound(nodes, universe);
  }
}
