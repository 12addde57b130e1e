/**
 Canonical class tables: dead-closure, Moore minimisation and shortlex renaming
 (src/cegar/classifier.cc), and the theorem they exist for: two raw tables with
 the same dead-closed language publish the same classifier.
 */
module Classifiers {
  import opened Words
  import opened Finite

  /** A complete class table before canonicalisation; class 0 is the class of the empty word. */
  datatype RawTable = RawTable(nLetters: nat, act: seq<seq<nat>>, live: seq<bool>) {
    ghost predicate Valid() {
      && |act| >= 1
      && Table(act, nLetters)
      && |live| == |act|
    }

    ghost predicate HasDead()
      requires Valid()
    {
      exists c :: 0 <= c < |live| && !live[c]
    }
  }

  /** The canonical presentation. `dead` is the index of the dead class, or -1. */
  datatype Classifier = Classifier(nLetters: nat, dead: int, act: seq<seq<nat>>, reps: seq<Word>) {
    function K(): nat { |act| }

    predicate Live(c: nat) { c != dead }

    ghost predicate WellFormed() {
      && |act| >= 1
      && Table(act, nLetters)
      && -1 <= dead < |act|
    }

    /** The class of `w`, read from class `c`. */
    ghost function From(c: nat, w: Word): (d: nat)
      requires WellFormed() && c < |act| && Over(w, nLetters)
      ensures d < |act|
    {
      Walk(act, nLetters, c, w)
    }

    ghost predicate Accepts(w: Word)
      requires WellFormed() && Over(w, nLetters)
    {
      Live(From(0, w))
    }

    /** One absorbing dead class at most. */
    ghost predicate DeadAbsorbs()
      requires WellFormed()
    {
      dead >= 0 ==> forall a :: 0 <= a < nLetters ==> act[dead][a] == dead
    }

    /** Some word tells the classes `i` and `j` apart. */
    ghost predicate Separates(i: nat, j: nat)
      requires WellFormed() && i < |act| && j < |act|
    {
      exists w :: Over(w, nLetters) && Live(From(i, w)) != Live(From(j, w))
    }

    /** Classes are numbered by their shortlex-least access word. */
    ghost predicate Named()
      requires WellFormed()
    {
      && |reps| == |act|
      && (forall i :: 0 <= i < |reps| ==> Over(reps[i], nLetters))
      && (forall i :: 0 <= i < |reps| ==> From(0, reps[i]) == i)
      && (forall i, j :: 0 <= i < j < |reps| ==> Before(reps[i], reps[j]))
      && (forall w :: Over(w, nLetters) ==> AtMost(reps[From(0, w)], w))
    }

    ghost predicate Canonical() {
      && WellFormed()
      && DeadAbsorbs()
      && Named()
      && forall i, j :: 0 <= i < j < |act| ==> Separates(i, j)
    }
  }

  /** Every prefix of `w`, read from class `c`, reaches a live class. */
  ghost predicate Alive(t: RawTable, c: nat, w: Word)
    requires t.Valid() && c < |t.act| && Over(w, t.nLetters)
    decreases |w|
  {
    if w == [] then t.live[c]
    else Alive(t, c, Init(w)) && t.live[Walk(t.act, t.nLetters, c, w)]
  }

  /** `Alive` says what its name says: each prefix is live. */
  lemma {:induction false} AliveIsEveryPrefix(t: RawTable, c: nat, w: Word)
    requires t.Valid() && c < |t.act| && Over(w, t.nLetters)
    ensures Alive(t, c, w) <==>
            forall i :: 0 <= i <= |w| ==> t.live[Walk(t.act, t.nLetters, c, w[..i])]
    decreases |w|
  {
    assert w[..|w|] == w;
    if w != [] {
      AliveIsEveryPrefix(t, c, Init(w));
      assert forall i :: 0 <= i < |w| ==> Init(w)[..i] == w[..i];
    }
  }

  lemma {:induction false} AliveConcat(t: RawTable, c: nat, u: Word, v: Word)
    requires t.Valid() && c < |t.act| && Over(u, t.nLetters) && Over(v, t.nLetters)
    ensures Over(u + v, t.nLetters)
    ensures Alive(t, c, u + v) <==> Alive(t, c, u) && Alive(t, Walk(t.act, t.nLetters, c, u), v)
    decreases |v|
  {
    WalkConcat(t.act, t.nLetters, c, u, v);
    if v == [] {
      assert u + v == u;
      if u == [] {} else {}
    } else {
      AliveConcat(t, c, u, Init(v));
      assert Init(u + v) == u + Init(v);
      assert Last(u + v) == Last(v);
    }
  }

  /** Some word is alive from exactly one of `c` and `d`. */
  ghost predicate Apart(t: RawTable, c: nat, d: nat)
    requires t.Valid() && c < |t.act| && d < |t.act|
  {
    exists w :: Over(w, t.nLetters) && Alive(t, c, w) != Alive(t, d, w)
  }

  lemma {:induction false} AliveHead(t: RawTable, c: nat, w: Word)
    requires t.Valid() && c < |t.act| && Over(w, t.nLetters)
    ensures Alive(t, c, w) ==> t.live[c]
    decreases |w|
  {
    if w != [] {
      AliveHead(t, c, Init(w));
    }
  }

  lemma AliveStep(t: RawTable, c: nat, a: nat, w: Word)
    requires t.Valid() && c < |t.act| && a < t.nLetters && Over(w, t.nLetters)
    ensures Over([a] + w, t.nLetters)
    ensures Alive(t, c, [a] + w) <==> t.live[c] && Alive(t, t.act[c][a], w)
  {
    AliveConcat(t, c, [a], w);
    assert Init([a]) == [] && Alive(t, c, []) == t.live[c];
    assert Walk(t.act, t.nLetters, c, [a]) == t.act[Walk(t.act, t.nLetters, c, [])][a];
    AliveHead(t, t.act[c][a], w);
  }

  /** Live classes whose successors on `a` are apart are themselves apart. */
  lemma ApartByLetter(t: RawTable, c: nat, d: nat, a: nat)
    requires t.Valid() && c < |t.act| && d < |t.act| && a < t.nLetters
    requires t.live[c] && t.live[d]
    requires Apart(t, t.act[c][a], t.act[d][a])
    ensures Apart(t, c, d)
  {
    var w :| Over(w, t.nLetters) && Alive(t, t.act[c][a], w) != Alive(t, t.act[d][a], w);
    AliveStep(t, c, a, w);
    AliveStep(t, d, a, w);
    assert Over([a] + w, t.nLetters) && Alive(t, c, [a] + w) != Alive(t, d, [a] + w);
  }

  // ----- Moore refinement -----

  /** The signature Moore refinement groups live classes by: the block, then the block of each successor. */
  function Signature(t: RawTable, part: seq<nat>, c: nat): (sig: seq<nat>)
    requires t.Valid() && |part| == |t.act| && c < |t.act|
    ensures |sig| == t.nLetters + 1
  {
    [part[c]] + seq(t.nLetters, a requires 0 <= a < t.nLetters => part[t.act[c][a]])
  }

  /** Blocks group classes of one liveness, and classes in different blocks are apart. */
  ghost predicate Sound(t: RawTable, part: seq<nat>)
    requires t.Valid()
  {
    && |part| == |t.act|
    && (forall c, d :: 0 <= c < |part| && 0 <= d < |part| && part[c] == part[d] ==> t.live[c] == t.live[d])
    && (forall c, d :: 0 <= c < |part| && 0 <= d < |part| && part[c] != part[d] ==> Apart(t, c, d))
  }

  /** Live classes of one block have successors in one block, letter by letter. */
  ghost predicate Stable(t: RawTable, part: seq<nat>)
    requires t.Valid() && |part| == |t.act|
  {
    forall c, d, a :: 0 <= c < |part| && 0 <= d < |part| && 0 <= a < t.nLetters
                      && part[c] == part[d] && t.live[c] && t.live[d]
                      ==> part[t.act[c][a]] == part[t.act[d][a]]
  }

  /** The block numbers in use are exactly `0..n`. */
  ghost predicate Uses(part: seq<nat>, n: nat) {
    && (forall c :: 0 <= c < |part| ==> part[c] < n)
    && (forall b :: 0 <= b < n ==> b in part)
  }

  /** `next` splits the blocks of `part`, never joining two of them. */
  ghost predicate Refines(next: seq<nat>, part: seq<nat>) {
    && |next| == |part|
    && forall c, d :: 0 <= c < |next| && 0 <= d < |next| && next[c] == next[d] ==> part[c] == part[d]
  }

  /** One class of each block. */
  ghost function Pick(part: seq<nat>, n: nat): (p: seq<nat>)
    requires Uses(part, n)
    ensures |p| == n
    ensures forall b :: 0 <= b < n ==> p[b] < |part| && part[p[b]] == b
  {
    seq(n, b requires 0 <= b < n => assert b in part; var c :| 0 <= c < |part| && part[c] == b; c)
  }

  /** There are no more blocks than classes. */
  lemma UsedBlocks(part: seq<nat>, n: nat)
    requires Uses(part, n)
    ensures n <= |part|
  {
    DistinctBound<int>(Pick(part, n), Range(|part|));
  }

  /** The blocks of `next` that hold the picked classes of `part`. */
  ghost function Picked(part: seq<nat>, n: nat, next: seq<nat>): (s: seq<int>)
    requires Uses(part, n) && Refines(next, part)
    ensures |s| == n
    ensures forall b :: 0 <= b < n ==> s[b] == next[Pick(part, n)[b]]
  {
    seq(n, b requires 0 <= b < n => next[Pick(part, n)[b]])
  }

  lemma PickedDistinct(part: seq<nat>, n: nat, next: seq<nat>)
    requires Uses(part, n) && Refines(next, part)
    ensures Distinct(Picked(part, n, next))
  {
    var p, s := Pick(part, n), Picked(part, n, next);
    forall i, j | 0 <= i < j < n
      ensures s[i] != s[j]
    {
      assert part[p[i]] != part[p[j]];
    }
  }

  /** Refining never loses a block. */
  lemma MoreBlocks(part: seq<nat>, n: nat, next: seq<nat>, m: nat)
    requires Uses(part, n) && Uses(next, m) && Refines(next, part)
    ensures n <= m
  {
    PickedDistinct(part, n, next);
    DistinctBound(Picked(part, n, next), Range(m));
  }

  /** A refinement with no more blocks is no refinement at all. */
  lemma SamePartition(part: seq<nat>, next: seq<nat>, n: nat)
    requires Uses(part, n) && Uses(next, n) && Refines(next, part)
    ensures Refines(part, next)
  {
    var s := Picked(part, n, next);
    PickedDistinct(part, n, next);
    DistinctSize(s);
    SubsetSize(Elements(s), Range(n));
    forall c | 0 <= c < |next|
      ensures part[c] < n && next[c] == s[part[c]]
    {
      assert next[c] in Range(n);
      assert next[c] in s;
      var b :| 0 <= b < n && s[b] == next[c];
      assert part[Pick(part, n)[b]] == part[c];
    }
  }

  /** One round: number the live classes by signature, in order of first appearance; -1 for the dead. */
  method Group(t: RawTable, part: seq<nat>) returns (next: seq<int>, liveBlocks: nat)
    requires t.Valid() && |part| == |t.act|
    ensures |next| == |part|
    ensures forall c :: 0 <= c < |next| ==> -1 <= next[c] < liveBlocks
    ensures forall c :: 0 <= c < |next| ==> (next[c] == -1 <==> !t.live[c])
    ensures forall c, d :: 0 <= c < |next| && 0 <= d < |next| && t.live[c] && t.live[d]
                           ==> (next[c] == next[d] <==> Signature(t, part, c) == Signature(t, part, d))
    ensures forall b :: 0 <= b < liveBlocks ==> b in next
  {
    next := [];
    var sigToBlock: map<seq<nat>, nat> := map[];
    for c := 0 to |t.act|
      invariant |next| == c
      invariant forall i :: 0 <= i < c ==> -1 <= next[i] < |sigToBlock|
      invariant forall i :: 0 <= i < c ==> (next[i] == -1 <==> !t.live[i])
      invariant forall i :: 0 <= i < c && t.live[i] ==>
                  Signature(t, part, i) in sigToBlock && next[i] == sigToBlock[Signature(t, part, i)]
      invariant forall s, s' :: s in sigToBlock && s' in sigToBlock && sigToBlock[s] == sigToBlock[s'] ==> s == s'
      invariant forall s :: s in sigToBlock ==> sigToBlock[s] < |sigToBlock|
      invariant forall b :: 0 <= b < |sigToBlock| ==> b in next
    {
      if !t.live[c] {
        next := next + [-1];
      } else {
        var sig := Signature(t, part, c);
        if sig !in sigToBlock {
          sigToBlock := sigToBlock[sig := |sigToBlock|];
        }
        next := next + [sigToBlock[sig]];
        assert next[c] == sigToBlock[sig];
      }
    }
    liveBlocks := |sigToBlock|;
  }

  /** The dead classes share the block `n - 1`, and only they are in it. */
  ghost predicate DeadLast(t: RawTable, part: seq<nat>, n: nat)
    requires t.Valid() && |part| == |t.act|
  {
    forall c :: 0 <= c < |part| ==> (!t.live[c] <==> t.HasDead() && part[c] == n - 1)
  }

  /** What Moore refinement computes: the coarsest stable partition, its blocks numbered `0..n`. */
  ghost predicate Minimal(t: RawTable, part: seq<nat>, n: nat)
    requires t.Valid()
  {
    && Sound(t, part)
    && Stable(t, part)
    && Uses(part, n)
    && DeadLast(t, part, n)
  }

  /** `next` is one Moore round after `part`: live classes grouped by signature, the dead after them. */
  ghost predicate Round(t: RawTable, part: seq<nat>, next: seq<nat>)
    requires t.Valid()
  {
    && |part| == |next| == |t.act|
    && (forall c, d :: 0 <= c < |next| && 0 <= d < |next| && t.live[c] && t.live[d]
                       ==> (next[c] == next[d] <==> Signature(t, part, c) == Signature(t, part, d)))
    && (forall c, d :: 0 <= c < |next| && 0 <= d < |next| && !t.live[c]
                       ==> (next[c] == next[d] <==> !t.live[d]))
  }

  lemma RoundKeepsSound(t: RawTable, part: seq<nat>, next: seq<nat>)
    requires t.Valid() && Sound(t, part) && Round(t, part, next)
    ensures Sound(t, next)
  {
    forall c, d | 0 <= c < |next| && 0 <= d < |next| && next[c] != next[d]
      ensures Apart(t, c, d)
    {
      if t.live[c] != t.live[d] {
        assert Alive(t, c, []) != Alive(t, d, []) && Over([], t.nLetters);
      } else if t.live[c] {
        var s, s' := Signature(t, part, c), Signature(t, part, d);
        var i :| 0 <= i < |s| && s[i] != s'[i];
        if i > 0 {
          ApartByLetter(t, c, d, i - 1);
        }
      }
    }
  }

  lemma RoundRefines(t: RawTable, part: seq<nat>, next: seq<nat>)
    requires t.Valid() && Sound(t, part) && Round(t, part, next)
    ensures Refines(next, part)
  {
    forall c, d | 0 <= c < |next| && 0 <= d < |next| && next[c] == next[d]
      ensures part[c] == part[d]
    {
      if t.live[c] {
        assert Signature(t, part, c)[0] == Signature(t, part, d)[0];
      } else if part[c] != part[d] {
        var w :| Over(w, t.nLetters) && Alive(t, c, w) != Alive(t, d, w);
        AliveHead(t, c, w);
        AliveHead(t, d, w);
      }
    }
  }

  /** A round that splits nothing has reached a stable partition. */
  lemma UnsplitIsStable(t: RawTable, part: seq<nat>, next: seq<nat>)
    requires t.Valid() && Sound(t, part) && Round(t, part, next)
    requires Refines(part, next)
    ensures Stable(t, next)
  {
    hide Apart, Alive;
    RoundRefines(t, part, next);
    forall c, d, a | 0 <= c < |next| && 0 <= d < |next| && 0 <= a < t.nLetters
                     && next[c] == next[d] && t.live[c] && t.live[d]
      ensures next[t.act[c][a]] == next[t.act[d][a]]
    {
      assert Signature(t, part, c)[a + 1] == Signature(t, part, d)[a + 1];
    }
  }

  lemma LiveDeadSplit(t: RawTable, part: seq<nat>)
    requires t.Valid() && |part| == |t.act|
    requires forall c :: 0 <= c < |part| ==> part[c] == if t.live[c] then 0 else 1
    ensures Sound(t, part)
  {
    forall c, d | 0 <= c < |part| && 0 <= d < |part| && part[c] != part[d]
      ensures Apart(t, c, d)
    {
      assert Alive(t, c, []) != Alive(t, d, []) && Over([], t.nLetters);
    }
  }

  /** One round: the live classes grouped by signature, the dead one block past the live ones. */
  method Regroup(t: RawTable, part: seq<nat>, hasDead: bool) returns (next: seq<nat>, total: nat)
    requires t.Valid() && Sound(t, part) && hasDead == t.HasDead()
    ensures Round(t, part, next) && Uses(next, total) && DeadLast(t, next, total)
  {
    hide Apart, Alive;
    var grouped, liveBlocks := Group(t, part);
    total := liveBlocks + if hasDead then 1 else 0;
    next := seq(|grouped|, c requires 0 <= c < |grouped| => if grouped[c] < 0 then liveBlocks else grouped[c]);
    forall b | 0 <= b < total
      ensures b in next
    {
      if b < liveBlocks {
        assert b in grouped;
        var c :| 0 <= c < |grouped| && grouped[c] == b;
        assert next[c] == b;
      } else {
        var c :| 0 <= c < |t.live| && !t.live[c];
        assert next[c] == b;
      }
    }
  }

  /** Moore refinement from the live/dead split until the number of blocks stops growing. */
  method Refine(t: RawTable) returns (part: seq<nat>, nBlocks: nat, hasDead: bool)
    requires t.Valid()
    ensures hasDead == t.HasDead()
    ensures Minimal(t, part, nBlocks)
  {
    hide Apart, Alive, Signature;
    part := seq(|t.act|, c requires 0 <= c < |t.live| => if t.live[c] then 0 else 1);
    hasDead := exists c :: 0 <= c < |t.live| && !t.live[c];
    nBlocks := if hasDead then 2 else 1;
    // With no live class at all, block 0 of the initial split is empty.
    ghost var hollow := forall c :: 0 <= c < |t.live| ==> !t.live[c];
    LiveDeadSplit(t, part);
    assert part[0] == if t.live[0] then 0 else 1;
    assert hasDead && !hollow ==> 0 in part && 1 in part;
    while true
      invariant Sound(t, part)
      invariant if hollow then nBlocks == 2 && forall c :: 0 <= c < |t.live| ==> !t.live[c] else Uses(part, nBlocks)
      decreases hollow, |t.act| - nBlocks
    {
      var next, total := Regroup(t, part, hasDead);
      RoundKeepsSound(t, part, next);
      RoundRefines(t, part, next);
      if total == nBlocks {
        if !hollow {
          SamePartition(part, next, nBlocks);
          UnsplitIsStable(t, part, next);
        }
        part := next;
        break;
      }
      if !hollow {
        MoreBlocks(part, nBlocks, next, total);
      }
      UsedBlocks(next, total);
      nBlocks := total;
      part := next;
      hollow := false;
    }
  }

  // ----- Shortlex renaming -----

  /** The successor of a block: the block of its representative's successor; the dead block absorbs. */
  function BlockStep(t: RawTable, part: seq<nat>, rep: seq<nat>, deadBlock: int, b: nat, a: nat): nat
    requires t.Valid() && |part| == |t.act| && b < |rep| && rep[b] < |t.act| && a < t.nLetters
  {
    if b == deadBlock then b else part[t.act[rep[b]][a]]
  }

  /** The first class of every block. */
  method Representatives(part: seq<nat>, n: nat) returns (rep: seq<nat>)
    requires Uses(part, n)
    ensures |rep| == n
    ensures forall b :: 0 <= b < n ==> rep[b] < |part| && part[rep[b]] == b
    ensures forall b, c :: 0 <= b < n && 0 <= c < rep[b] ==> part[c] != b
  {
    var first: seq<int> := seq(n, _ => -1);
    for c := 0 to |part|
      invariant |first| == n
      invariant forall b :: 0 <= b < n && first[b] >= 0 ==> first[b] < c && part[first[b]] == b
      invariant forall b, i :: 0 <= b < n && 0 <= i < c && (first[b] < 0 || i < first[b]) ==> part[i] != b
    {
      if first[part[c]] < 0 {
        first := first[part[c] := c];
      }
    }
    assert forall b :: 0 <= b < n ==> first[b] >= 0 by {
      forall b | 0 <= b < n
        ensures first[b] >= 0
      {
        assert b in part;
      }
    }
    rep := seq(n, b requires 0 <= b < |first| && first[b] >= 0 => first[b]);
  }

  /** The quotient automaton on blocks. */
  ghost function Quotient(t: RawTable, part: seq<nat>, n: nat, rep: seq<nat>, deadBlock: int): (q: seq<seq<nat>>)
    requires t.Valid() && |part| == |t.act| && Uses(part, n)
    requires |rep| == n && forall b :: 0 <= b < n ==> rep[b] < |t.act|
    ensures |q| == n && Table(q, t.nLetters)
    ensures forall b, a :: 0 <= b < n && 0 <= a < t.nLetters ==> q[b][a] == BlockStep(t, part, rep, deadBlock, b, a)
  {
    seq(n, b requires 0 <= b < n =>
      seq(t.nLetters, a requires 0 <= a < t.nLetters => BlockStep(t, part, rep, deadBlock, b, a)))
  }

  /** The state of the breadth-first numbering: visited blocks in `bfs`, each with its access word. */
  ghost predicate Visited(q: seq<seq<nat>>, n: nat, start: nat, order: seq<int>, bfs: seq<nat>, reps: seq<Word>)
    requires Table(q, n) && start < |q|
  {
    && |order| == |q| && |bfs| == |reps| >= 1
    && (forall i :: 0 <= i < |bfs| ==> bfs[i] < |q| && order[bfs[i]] == i)
    && (forall b :: 0 <= b < |q| ==> -1 <= order[b] < |bfs|)
    && (forall b :: 0 <= b < |q| && order[b] >= 0 ==> bfs[order[b]] == b)
    && bfs[0] == start && reps[0] == []
    && (forall i :: 0 <= i < |reps| ==> Over(reps[i], n) && Walk(q, n, start, reps[i]) == bfs[i])
    && (forall i, j :: 0 <= i < j < |reps| ==> Before(reps[i], reps[j]))
  }

  /** The successor of the i-th visited block on `a` is visited, by a word no later than `reps[i]·a`. */
  ghost predicate Expanded(q: seq<seq<nat>>, order: seq<int>, bfs: seq<nat>, reps: seq<Word>, i: nat, a: nat)
    requires i < |bfs| == |reps| && bfs[i] < |q| && a < |q[bfs[i]]|
  {
    var b := q[bfs[i]][a];
    b < |order| && 0 <= order[b] < |reps| && AtMost(reps[order[b]], reps[i] + [a])
  }

  ghost predicate AllExpanded(q: seq<seq<nat>>, n: nat, order: seq<int>, bfs: seq<nat>, reps: seq<Word>, upto: nat)
    requires Table(q, n) && upto <= |bfs| == |reps| && forall i :: 0 <= i < |bfs| ==> bfs[i] < |q|
  {
    forall i, a :: 0 <= i < upto && 0 <= a < n ==> Expanded(q, order, bfs, reps, i, a)
  }

  /** One `visit`: a new block is appended with its word, after every word so far. */
  lemma VisitNew(q: seq<seq<nat>>, n: nat, start: nat, order: seq<int>, bfs: seq<nat>, reps: seq<Word>,
                 i: nat, a: nat)
    requires Table(q, n) && start < |q| && Visited(q, n, start, order, bfs, reps)
    requires i < |bfs| && a < n && order[q[bfs[i]][a]] < 0
    requires forall j :: 0 <= j < |reps| ==> Before(reps[j], reps[i] + [a])
    ensures var b := q[bfs[i]][a];
            Visited(q, n, start, order[b := |bfs|], bfs + [b], reps + [reps[i] + [a]])
  {
    var w := reps[i] + [a];
    assert Init(w) == reps[i] && Last(w) == a;
    assert Over(w, n);
    assert Walk(q, n, start, w) == q[bfs[i]][a];
  }

  lemma ExpandedStays(q: seq<seq<nat>>, order: seq<int>, bfs: seq<nat>, reps: seq<Word>, i: nat, a: nat,
                      b: nat, w: Word)
    requires i < |bfs| == |reps| && bfs[i] < |q| && a < |q[bfs[i]]|
    requires Expanded(q, order, bfs, reps, i, a)
    requires b < |order| && order[b] < 0
    ensures Expanded(q, order[b := |bfs|], bfs + [b], reps + [w], i, a)
  {
  }

  /** Every word read so far comes before the next word to try. */
  ghost predicate AllBefore(reps: seq<Word>, w: Word) {
    forall j :: 0 <= j < |reps| ==> Before(reps[j], w)
  }

  /** Words tried in shortlex order: from `u·a` on to `u·(a+1)`. */
  lemma NextLetter(reps: seq<Word>, u: Word, a: nat, w: Word)
    requires AllBefore(reps, u + [a])
    ensures AllBefore(reps, u + [a + 1])
    ensures Before(u + [a], u + [a + 1])
    ensures w == u + [a] ==> AllBefore(reps + [w], u + [a + 1])
  {
    var v, v' := u + [a], u + [a + 1];
    assert Init(v) == u == Init(v') && Last(v) == a && Last(v') == a + 1;
    forall j | 0 <= j < |reps|
      ensures Before(reps[j], v')
    {
      BeforeTransitive(reps[j], v, v');
    }
  }

  /** ... and from the last letter after `u` on to the first letter after the next word `v`. */
  lemma NextHead(reps: seq<Word>, u: Word, a: nat, v: Word)
    requires AllBefore(reps, u + [a]) && Before(u, v)
    ensures AllBefore(reps, v + [0])
  {
    var w, w' := u + [a], v + [0];
    assert Init(w) == u && Init(w') == v && Last(w) == a;
    forall j | 0 <= j < |reps|
      ensures Before(reps[j], w')
    {
      BeforeTransitive(reps[j], w, w');
    }
  }

  /** The numbering while the successors of the block at `head` are tried, `a` of them done. */
  ghost predicate Expanding(q: seq<seq<nat>>, n: nat, start: nat, order: seq<int>, bfs: seq<nat>, reps: seq<Word>,
                            head: nat, a: nat)
    requires Table(q, n) && start < |q| && a <= n
  {
    && Visited(q, n, start, order, bfs, reps)
    && head < |bfs|
    && AllExpanded(q, n, order, bfs, reps, head)
    && (forall i :: 0 <= i < a ==> Expanded(q, order, bfs, reps, head, i))
    && AllBefore(reps, reps[head] + [a])
  }

  lemma TryKnown(q: seq<seq<nat>>, n: nat, start: nat, order: seq<int>, bfs: seq<nat>, reps: seq<Word>,
                 head: nat, a: nat)
    requires Table(q, n) && start < |q| && a < n && Expanding(q, n, start, order, bfs, reps, head, a)
    requires order[q[bfs[head]][a]] >= 0
    ensures Expanding(q, n, start, order, bfs, reps, head, a + 1)
  {
    NextLetter(reps, reps[head], a, []);
  }

  lemma TryNew(q: seq<seq<nat>>, n: nat, start: nat, order: seq<int>, bfs: seq<nat>, reps: seq<Word>,
               head: nat, a: nat)
    requires Table(q, n) && start < |q| && a < n && Expanding(q, n, start, order, bfs, reps, head, a)
    requires order[q[bfs[head]][a]] < 0
    ensures var b := q[bfs[head]][a];
            Expanding(q, n, start, order[b := |bfs|], bfs + [b], reps + [reps[head] + [a]], head, a + 1)
  {
    var via, b := reps[head] + [a], q[bfs[head]][a];
    NextLetter(reps, reps[head], a, via);
    VisitNew(q, n, start, order, bfs, reps, head, a);
    var order', bfs', reps' := order[b := |bfs|], bfs + [b], reps + [via];
    forall i, j | 0 <= i < head && 0 <= j < n
      ensures Expanded(q, order', bfs', reps', i, j)
    {
      ExpandedStays(q, order, bfs, reps, i, j, b, via);
    }
    forall i | 0 <= i < a
      ensures Expanded(q, order', bfs', reps', head, i)
    {
      ExpandedStays(q, order, bfs, reps, head, i, b, via);
    }
  }

  /** The dead block absorbs: it is its own successor, already visited. */
  lemma SkipDead(q: seq<seq<nat>>, n: nat, start: nat, order: seq<int>, bfs: seq<nat>, reps: seq<Word>, head: nat)
    requires Table(q, n) && start < |q| && Expanding(q, n, start, order, bfs, reps, head, 0)
    requires forall a :: 0 <= a < n ==> q[bfs[head]][a] == bfs[head]
    ensures Expanding(q, n, start, order, bfs, reps, head, n)
  {
    forall j | 0 <= j < |reps|
      ensures Before(reps[j], reps[head] + [n])
    {
      var v, v' := reps[head] + [0], reps[head] + [n];
      assert Init(v) == Init(v') && Last(v') == n;
      if n > 0 {
        BeforeTransitive(reps[j], v, v');
      }
    }
  }

  lemma NextBlock(q: seq<seq<nat>>, n: nat, start: nat, order: seq<int>, bfs: seq<nat>, reps: seq<Word>, head: nat)
    requires Table(q, n) && start < |q| && Expanding(q, n, start, order, bfs, reps, head, n)
    ensures AllExpanded(q, n, order, bfs, reps, head + 1)
    ensures head + 1 < |bfs| ==> Expanding(q, n, start, order, bfs, reps, head + 1, 0)
  {
    if head + 1 < |bfs| {
      NextHead(reps, reps[head], n, reps[head + 1]);
    }
  }

  /** Breadth-first numbering of the blocks reachable from the block of the empty word. */
  method NumberBlocks(t: RawTable, part: seq<nat>, n: nat, rep: seq<nat>, deadBlock: int)
    returns (order: seq<int>, bfs: seq<nat>, reps: seq<Word>)
    requires t.Valid() && |part| == |t.act| && Uses(part, n)
    requires |rep| == n && forall b :: 0 <= b < n ==> rep[b] < |t.act|
    ensures var q := Quotient(t, part, n, rep, deadBlock);
            && Visited(q, t.nLetters, part[0], order, bfs, reps)
            && AllExpanded(q, t.nLetters, order, bfs, reps, |bfs|)
            && forall w :: Over(w, t.nLetters) ==>
                 var b := Walk(q, t.nLetters, part[0], w);
                 0 <= order[b] < |reps| && AtMost(reps[order[b]], w)
  {
    ghost var q := Quotient(t, part, n, rep, deadBlock);
    order := seq(n, _ => -1)[part[0] := 0];
    bfs, reps := [part[0]], [[]];
    var head := 0;
    while head < |bfs|
      invariant Visited(q, t.nLetters, part[0], order, bfs, reps)
      invariant 0 <= head <= |bfs|
      invariant AllExpanded(q, t.nLetters, order, bfs, reps, head)
      invariant head < |bfs| ==> Expanding(q, t.nLetters, part[0], order, bfs, reps, head, 0)
      decreases n - head
    {
      VisitedBound(q, t.nLetters, part[0], order, bfs, reps);
      if bfs[head] == deadBlock {
        SkipDead(q, t.nLetters, part[0], order, bfs, reps, head);
      } else {
        for a := 0 to t.nLetters
          invariant Expanding(q, t.nLetters, part[0], order, bfs, reps, head, a)
          invariant bfs[head] != deadBlock
        {
          var via := reps[head] + [a];
          var b := part[t.act[rep[bfs[head]]][a]];
          if order[b] < 0 {
            TryNew(q, t.nLetters, part[0], order, bfs, reps, head, a);
            order := order[b := |bfs|];
            bfs := bfs + [b];
            reps := reps + [via];
          } else {
            TryKnown(q, t.nLetters, part[0], order, bfs, reps, head, a);
          }
        }
      }
      NextBlock(q, t.nLetters, part[0], order, bfs, reps, head);
      head := head + 1;
    }
    forall w | Over(w, t.nLetters)
      ensures var b := Walk(q, t.nLetters, part[0], w);
              0 <= order[b] < |reps| && AtMost(reps[order[b]], w)
    {
      NumberedLeast(q, t.nLetters, part[0], order, bfs, reps, w);
    }
  }

  lemma VisitedBound(q: seq<seq<nat>>, n: nat, start: nat, order: seq<int>, bfs: seq<nat>, reps: seq<Word>)
    requires Table(q, n) && start < |q| && Visited(q, n, start, order, bfs, reps)
    ensures |bfs| <= |q|
  {
    DistinctBound<int>(bfs, Range(|q|));
  }

  /** The numbering names every block by its shortlex-least access word. */
  lemma {:induction false} NumberedLeast(q: seq<seq<nat>>, n: nat, start: nat, order: seq<int>, bfs: seq<nat>,
                                         reps: seq<Word>, w: Word)
    requires Table(q, n) && start < |q| && Visited(q, n, start, order, bfs, reps)
    requires AllExpanded(q, n, order, bfs, reps, |bfs|)
    requires Over(w, n)
    ensures order[Walk(q, n, start, w)] >= 0
    ensures AtMost(reps[order[Walk(q, n, start, w)]], w)
    decreases |w|
  {
    if w != [] {
      var u, a := Init(w), Last(w);
      NumberedLeast(q, n, start, order, bfs, reps, u);
      var i := order[Walk(q, n, start, u)];
      assert Expanded(q, order, bfs, reps, i, a);
      var v := reps[i] + [a];
      assert Init(v) == reps[i] && Last(v) == a;
      assert w == u + [a];
      AtMostTransitive(reps[order[q[bfs[i]][a]]], v, w);
    }
  }

  /** Reading `w` in the quotient: the block of the class reached while alive, the dead block afterwards. */
  lemma {:induction false} QuotientWalk(t: RawTable, part: seq<nat>, n: nat, rep: seq<nat>, deadBlock: int,
                                        c: nat, w: Word)
    requires t.Valid() && Minimal(t, part, n) && c < |t.act| && Over(w, t.nLetters)
    requires |rep| == n && forall b :: 0 <= b < n ==> rep[b] < |part| && part[rep[b]] == b
    requires deadBlock == if t.HasDead() then n - 1 else -1
    ensures var b := Walk(Quotient(t, part, n, rep, deadBlock), t.nLetters, part[c], w);
            if Alive(t, c, w) then b == part[Walk(t.act, t.nLetters, c, w)] && b != deadBlock else b == deadBlock
    decreases |w|
  {
    if w != [] {
      var q := Quotient(t, part, n, rep, deadBlock);
      var u, a := Init(w), Last(w);
      QuotientWalk(t, part, n, rep, deadBlock, c, u);
      var b := Walk(q, t.nLetters, part[c], u);
      assert Walk(q, t.nLetters, part[c], w) == q[b][a] == BlockStep(t, part, rep, deadBlock, b, a);
      if Alive(t, c, u) {
        var d := Walk(t.act, t.nLetters, c, u);
        assert part[rep[b]] == part[d] && t.live[d] == t.live[rep[b]];
        assert t.live[d];
        assert part[t.act[rep[b]][a]] == part[t.act[d][a]];
      }
    }
  }

  /** The classifier read off a numbering walks as the quotient does, renamed. */
  lemma {:induction false} RenamedWalk(q: seq<seq<nat>>, n: nat, start: nat, order: seq<int>, bfs: seq<nat>,
                                       reps: seq<Word>, act: seq<seq<nat>>, i: nat, w: Word)
    requires Table(q, n) && start < |q| && Visited(q, n, start, order, bfs, reps)
    requires AllExpanded(q, n, order, bfs, reps, |bfs|)
    requires Table(act, n) && |act| == |bfs|
    requires forall j, a :: 0 <= j < |act| && 0 <= a < n ==> act[j][a] == order[q[bfs[j]][a]]
    requires i < |act| && Over(w, n)
    ensures order[Walk(q, n, bfs[i], w)] == Walk(act, n, i, w)
    decreases |w|
  {
    if w != [] {
      RenamedWalk(q, n, start, order, bfs, reps, act, i, Init(w));
      var j := Walk(act, n, i, Init(w));
      assert bfs[j] == Walk(q, n, bfs[i], Init(w));
      assert Expanded(q, order, bfs, reps, j, Last(w));
    }
  }

  /** The words all of whose prefixes are live in the raw table. */
  ghost predicate DeadClosed(t: RawTable, w: Word)
    requires t.Valid() && Over(w, t.nLetters)
  {
    Alive(t, 0, w)
  }

  /** `h` accepts exactly the dead-closed language of `t`. */
  ghost predicate Recognises(h: Classifier, t: RawTable)
    requires t.Valid()
  {
    && h.WellFormed()
    && h.nLetters == t.nLetters
    && forall w :: Over(w, t.nLetters) ==> (h.Accepts(w) <==> DeadClosed(t, w))
  }

  /** The renaming, as `Canonicalize` assembles it. */
  ghost predicate Assembled(h: Classifier, q: seq<seq<nat>>, order: seq<int>, bfs: seq<nat>, reps: seq<Word>,
                            deadBlock: int) {
    && h.reps == reps
    && |h.act| == |bfs|
    && h.dead == (if 0 <= deadBlock < |order| then order[deadBlock] else -1)
    && Table(h.act, h.nLetters)
    && (forall j :: 0 <= j < |bfs| ==> bfs[j] < |q| && |q[bfs[j]]| == h.nLetters)
    && (forall j, a :: 0 <= j < |bfs| && 0 <= a < h.nLetters ==> q[bfs[j]][a] < |order|)
    && (forall j, a :: 0 <= j < |bfs| && 0 <= a < h.nLetters ==> h.act[j][a] == order[q[bfs[j]][a]])
  }

  /** Acceptance from class `i` of the assembled classifier is aliveness from any raw class of its block. */
  lemma AssembledAccepts(t: RawTable, part: seq<nat>, n: nat, rep: seq<nat>, deadBlock: int,
                         order: seq<int>, bfs: seq<nat>, reps: seq<Word>, h: Classifier, c: nat, i: nat, w: Word)
    requires t.Valid() && Minimal(t, part, n) && c < |t.act| && Over(w, t.nLetters)
    requires |rep| == n && forall b :: 0 <= b < n ==> rep[b] < |part| && part[rep[b]] == b
    requires deadBlock == if t.HasDead() then n - 1 else -1
    requires var q := Quotient(t, part, n, rep, deadBlock);
             && Visited(q, t.nLetters, part[0], order, bfs, reps)
             && AllExpanded(q, t.nLetters, order, bfs, reps, |bfs|)
             && Assembled(h, q, order, bfs, reps, deadBlock)
    requires h.nLetters == t.nLetters && i < |bfs| && bfs[i] == part[c]
    ensures h.WellFormed()
    ensures h.Live(h.From(i, w)) <==> Alive(t, c, w)
  {
    var q := Quotient(t, part, n, rep, deadBlock);
    QuotientWalk(t, part, n, rep, deadBlock, c, w);
    RenamedWalk(q, t.nLetters, part[0], order, bfs, reps, h.act, i, w);
    var b := Walk(q, t.nLetters, bfs[i], w);
    assert bfs[order[b]] == b;
  }

  lemma AssembledCanonical(t: RawTable, part: seq<nat>, n: nat, rep: seq<nat>, deadBlock: int,
                           order: seq<int>, bfs: seq<nat>, reps: seq<Word>, h: Classifier)
    requires t.Valid() && Minimal(t, part, n)
    requires |rep| == n && forall b :: 0 <= b < n ==> rep[b] < |part| && part[rep[b]] == b
    requires deadBlock == if t.HasDead() then n - 1 else -1
    requires var q := Quotient(t, part, n, rep, deadBlock);
             && Visited(q, t.nLetters, part[0], order, bfs, reps)
             && AllExpanded(q, t.nLetters, order, bfs, reps, |bfs|)
             && Assembled(h, q, order, bfs, reps, deadBlock)
    requires h.nLetters == t.nLetters
    ensures h.Canonical() && Recognises(h, t)
  {
    var q := Quotient(t, part, n, rep, deadBlock);
    assert h.WellFormed();
    forall w | Over(w, t.nLetters)
      ensures h.Accepts(w) <==> DeadClosed(t, w)
      ensures AtMost(reps[h.From(0, w)], w)
    {
      AssembledAccepts(t, part, n, rep, deadBlock, order, bfs, reps, h, 0, 0, w);
      NumberedLeast(q, t.nLetters, part[0], order, bfs, reps, w);
      RenamedWalk(q, t.nLetters, part[0], order, bfs, reps, h.act, 0, w);
    }
    forall i | 0 <= i < |reps|
      ensures h.From(0, reps[i]) == i
    {
      RenamedWalk(q, t.nLetters, part[0], order, bfs, reps, h.act, 0, reps[i]);
    }
    forall i, j | 0 <= i < j < |bfs|
      ensures h.Separates(i, j)
    {
      var c, d := rep[bfs[i]], rep[bfs[j]];
      assert Apart(t, c, d);
      var w :| Over(w, t.nLetters) && Alive(t, c, w) != Alive(t, d, w);
      AssembledAccepts(t, part, n, rep, deadBlock, order, bfs, reps, h, c, i, w);
      AssembledAccepts(t, part, n, rep, deadBlock, order, bfs, reps, h, d, j, w);
      assert Over(w, h.nLetters) && h.Live(h.From(i, w)) != h.Live(h.From(j, w));
    }
  }

  /** The successors of the i-th visited block, by their places in the numbering. */
  method RenamedRow(t: RawTable, part: seq<nat>, n: nat, rep: seq<nat>, deadBlock: int,
                    order: seq<int>, bfs: seq<nat>, ghost reps: seq<Word>, i: nat) returns (row: seq<nat>)
    requires t.Valid() && |part| == |t.act| && Uses(part, n)
    requires |rep| == n && forall b :: 0 <= b < n ==> rep[b] < |t.act|
    requires var q := Quotient(t, part, n, rep, deadBlock);
             && Visited(q, t.nLetters, part[0], order, bfs, reps)
             && AllExpanded(q, t.nLetters, order, bfs, reps, |bfs|)
    requires i < |bfs|
    ensures |row| == t.nLetters
    ensures forall a :: 0 <= a < t.nLetters ==>
              row[a] < |bfs| && row[a] == order[Quotient(t, part, n, rep, deadBlock)[bfs[i]][a]]
  {
    hide Walk, Before, AtMost, Over, Uses;
    ghost var q := Quotient(t, part, n, rep, deadBlock);
    var block := bfs[i];
    row := [];
    for a := 0 to t.nLetters
      invariant |row| == a
      invariant forall j :: 0 <= j < a ==> row[j] < |bfs| && row[j] == order[q[block][j]]
    {
      assert Expanded(q, order, bfs, reps, i, a);
      assert q[block][a] == BlockStep(t, part, rep, deadBlock, block, a);
      row := row + [if block == deadBlock then i else order[part[t.act[rep[block]][a]]]];
    }
  }

  method RenamedRows(t: RawTable, part: seq<nat>, n: nat, rep: seq<nat>, deadBlock: int,
                     order: seq<int>, bfs: seq<nat>, ghost reps: seq<Word>) returns (act: seq<seq<nat>>)
    requires t.Valid() && |part| == |t.act| && Uses(part, n)
    requires |rep| == n && forall b :: 0 <= b < n ==> rep[b] < |t.act|
    requires var q := Quotient(t, part, n, rep, deadBlock);
             && Visited(q, t.nLetters, part[0], order, bfs, reps)
             && AllExpanded(q, t.nLetters, order, bfs, reps, |bfs|)
    ensures |act| == |bfs| && Table(act, t.nLetters)
    ensures forall j, a :: 0 <= j < |bfs| && 0 <= a < t.nLetters ==>
              act[j][a] == order[Quotient(t, part, n, rep, deadBlock)[bfs[j]][a]]
  {
    hide Walk, Before, AtMost, Over, Uses, AllExpanded, Expanded;
    ghost var q := Quotient(t, part, n, rep, deadBlock);
    act := [];
    for i := 0 to |bfs|
      invariant |act| == i
      invariant forall j :: 0 <= j < i ==> |act[j]| == t.nLetters
      invariant forall j, a :: 0 <= j < i && 0 <= a < t.nLetters ==>
                  act[j][a] < |bfs| && act[j][a] == order[q[bfs[j]][a]]
    {
      var row := RenamedRow(t, part, n, rep, deadBlock, order, bfs, reps, i);
      act := act + [row];
    }
  }

  /** Dead-close, minimise, drop the unreachable, rename in shortlex order. */
  method Canonicalize(t: RawTable) returns (h: Classifier)
    requires t.Valid()
    ensures h.Canonical() && Recognises(h, t)
  {
    var part, n, hasDead := Refine(t);
    var deadBlock := if hasDead then n - 1 else -1;
    var rep := Representatives(part, n);
    var order, bfs, reps := NumberBlocks(t, part, n, rep, deadBlock);
    var dead := if deadBlock >= 0 && order[deadBlock] >= 0 then order[deadBlock] else -1;
    var act := RenamedRows(t, part, n, rep, deadBlock, order, bfs, reps);
    h := Classifier(t.nLetters, dead, act, reps);
    AssembledCanonical(t, part, n, rep, deadBlock, order, bfs, reps, h);
  }

  // ----- Canonicity -----

  ghost predicate SameLanguage(h: Classifier, g: Classifier)
    requires h.WellFormed() && g.WellFormed()
  {
    && h.nLetters == g.nLetters
    && forall w :: Over(w, h.nLetters) ==> (h.Accepts(w) <==> g.Accepts(w))
  }

  lemma AcceptsFrom(h: Classifier, u: Word, w: Word)
    requires h.WellFormed() && Over(u, h.nLetters) && Over(w, h.nLetters)
    ensures Over(u + w, h.nLetters)
    ensures h.Accepts(u + w) <==> h.Live(h.From(h.From(0, u), w))
  {
    WalkConcat(h.act, h.nLetters, 0, u, w);
  }

  /** Words that one classifier puts in one class are in one class of the other: both have the Nerode classes. */
  lemma SameClass(h: Classifier, g: Classifier, u: Word, v: Word)
    requires h.WellFormed() && g.WellFormed() && SameLanguage(h, g)
    requires forall i, j :: 0 <= i < j < |g.act| ==> g.Separates(i, j)
    requires Over(u, h.nLetters) && Over(v, h.nLetters)
    requires h.From(0, u) == h.From(0, v)
    ensures g.From(0, u) == g.From(0, v)
  {
    var i, j := g.From(0, u), g.From(0, v);
    if i != j {
      assert g.Separates(if i < j then i else j, if i < j then j else i);
      var w :| Over(w, g.nLetters) && g.Live(g.From(i, w)) != g.Live(g.From(j, w));
      AcceptsFrom(g, u, w);
      AcceptsFrom(g, v, w);
      AcceptsFrom(h, u, w);
      AcceptsFrom(h, v, w);
    }
  }

  /** The least access word of a class of `h` is the least access word of its class in `g`. */
  lemma SameRep(h: Classifier, g: Classifier, i: nat)
    requires h.Canonical() && g.Canonical() && SameLanguage(h, g) && i < |h.reps|
    ensures g.reps[g.From(0, h.reps[i])] == h.reps[i]
  {
    var u := h.reps[i];
    var v := g.reps[g.From(0, u)];
    SameClass(g, h, u, v);
    AtMostAntisymmetric(u, v);
  }

  /** Two strictly increasing sequences of words with the same elements are equal up to any index. */
  lemma {:induction false} SortedAgree(r: seq<Word>, s: seq<Word>, i: nat)
    requires forall j, k :: 0 <= j < k < |r| ==> Before(r[j], r[k])
    requires forall j, k :: 0 <= j < k < |s| ==> Before(s[j], s[k])
    requires forall j :: 0 <= j < |r| ==> r[j] in s
    requires forall j :: 0 <= j < |s| ==> s[j] in r
    ensures i < |r| <==> i < |s|
    ensures i < |r| ==> r[i] == s[i]
    decreases i
  {
    forall j | 0 <= j < i
      ensures j < |r| <==> j < |s|
      ensures j < |r| ==> r[j] == s[j]
    {
      SortedAgree(r, s, j);
    }
    if i < |r| {
      NotEarlier(r, s, i);
    }
    if i < |s| {
      NotEarlier(s, r, i);
    }
    if i < |r| && i < |s| && r[i] != s[i] {
      BeforeTransitive(r[i], s[i], r[i]);
      BeforeIrreflexive(r[i]);
    }
  }

  /** If the sequences agree before `i`, the i-th word of `r` sits at `i` or later in `s`. */
  lemma NotEarlier(r: seq<Word>, s: seq<Word>, i: nat)
    requires forall j, k :: 0 <= j < k < |r| ==> Before(r[j], r[k])
    requires forall j, k :: 0 <= j < k < |s| ==> Before(s[j], s[k])
    requires i < |r| && r[i] in s
    requires forall j :: 0 <= j < i && j < |s| ==> r[j] == s[j]
    ensures i < |s| && AtMost(s[i], r[i])
  {
    var k :| 0 <= k < |s| && s[k] == r[i];
    if k < i {
      BeforeIrreflexive(r[i]);
    }
  }

  lemma SameReps(h: Classifier, g: Classifier)
    requires h.Canonical() && g.Canonical() && SameLanguage(h, g)
    ensures h.reps == g.reps
  {
    forall j | 0 <= j < |h.reps|
      ensures h.reps[j] in g.reps
    {
      SameRep(h, g, j);
    }
    forall j | 0 <= j < |g.reps|
      ensures g.reps[j] in h.reps
    {
      SameRep(g, h, j);
    }
    SortedAgree(h.reps, g.reps, |h.reps|);
    SortedAgree(h.reps, g.reps, |g.reps|);
    forall i | 0 <= i < |h.reps|
      ensures h.reps[i] == g.reps[i]
    {
      SortedAgree(h.reps, g.reps, i);
    }
  }

  /** Canonicity: classifiers of one language are one classifier. */
  lemma CanonicalUnique(h: Classifier, g: Classifier)
    requires h.Canonical() && g.Canonical() && SameLanguage(h, g)
    ensures h == g
  {
    SameReps(h, g);
    var n := h.nLetters;
    forall i, a | 0 <= i < |h.act| && 0 <= a < n
      ensures h.act[i][a] == g.act[i][a]
    {
      var w := h.reps[i] + [a];
      assert Init(w) == h.reps[i] && Last(w) == a && Over(w, n);
      var j := h.From(0, w);
      SameClass(h, g, w, h.reps[j]);
    }
    forall i | 0 <= i < |h.act|
      ensures h.act[i] == g.act[i]
    {
    }
    forall i | 0 <= i < |h.act|
      ensures h.Live(i) == g.Live(i)
    {
      assert h.Accepts(h.reps[i]) == g.Accepts(h.reps[i]);
    }
    assert h.dead >= 0 ==> !h.Live(h.dead);
    assert g.dead >= 0 ==> !g.Live(g.dead);
  }

  /** Two raw tables with one dead-closed language publish one classifier. */
  lemma CanonicalizeCanonical(t: RawTable, t': RawTable, h: Classifier, h': Classifier)
    requires t.Valid() && t'.Valid() && t.nLetters == t'.nLetters
    requires forall w :: Over(w, t.nLetters) ==> (DeadClosed(t, w) <==> DeadClosed(t', w))
    requires h.Canonical() && Recognises(h, t) && h'.Canonical() && Recognises(h', t')
    ensures h == h'
  {
    assert SameLanguage(h, h');
    CanonicalUnique(h, h');
  }

  /** A classifier read back as a raw table. */
  function AsTable(h: Classifier): RawTable {
    RawTable(h.nLetters, h.act, seq(|h.act|, c requires 0 <= c => h.Live(c)))
  }

  /** Canonicalisation is idempotent. */
  lemma CanonicalizeIdempotent(h: Classifier, g: Classifier)
    requires h.Canonical() && AsTable(h).Valid()
    requires g.Canonical() && Recognises(g, AsTable(h))
    ensures g == h
  {
    forall w | Over(w, h.nLetters)
      ensures h.Accepts(w) <==> DeadClosed(AsTable(h), w)
    {
      AsTableAccepts(h, w);
    }
    CanonicalUnique(g, h);
  }

  /** Dead absorption makes acceptance prefix-closed. */
  lemma {:induction false} AsTableAccepts(h: Classifier, w: Word)
    requires h.WellFormed() && h.DeadAbsorbs() && AsTable(h).Valid() && Over(w, h.nLetters)
    ensures h.Accepts(w) <==> DeadClosed(AsTable(h), w)
    decreases |w|
  {
    if w != [] {
      AsTableAccepts(h, Init(w));
    }
  }

  lemma {:induction false} PrefixClosed(h: Classifier, u: Word, v: Word)
    requires h.WellFormed() && h.DeadAbsorbs() && Over(u, h.nLetters) && Over(v, h.nLetters)
    requires Over(u + v, h.nLetters) && h.Accepts(u + v)
    ensures h.Accepts(u)
    decreases |v|
  {
    if v == [] {
      assert u + v == u;
    } else {
      assert Init(u + v) == u + Init(v);
      PrefixClosed(h, u, Init(v));
    }
  }

  // ----- Reading a table -----

  /** The class of `w` in a complete table. */
  method Classify(act: seq<seq<nat>>, n: nat, w: Word) returns (c: nat)
    requires |act| >= 1 && Table(act, n) && Over(w, n)
    ensures c == Walk(act, n, 0, w)
  {
    c := 0;
    for i := 0 to |w|
      invariant c == Walk(act, n, 0, w[..i])
    {
      assert Init(w[..i + 1]) == w[..i];
      c := act[c][w[i]];
    }
    assert w[..|w|] == w;
  }

  /** The one-class table accepting every word. */
  function Chaos(n: nat): (h: Classifier) {
    Classifier(n, -1, [seq(n, _ => 0)], [[]])
  }

  lemma {:induction false} ChaosWalk(n: nat, w: Word)
    requires Over(w, n)
    ensures Chaos(n).WellFormed() && Chaos(n).From(0, w) == 0
    decreases |w|
  {
    if w != [] {
      ChaosWalk(n, Init(w));
    }
  }

  /** Chaos is canonical and accepts every word. */
  lemma ChaosAcceptsAll(n: nat)
    ensures Chaos(n).Canonical()
    ensures forall w :: Over(w, n) ==> Chaos(n).Accepts(w)
  {
    forall w | Over(w, n)
      ensures Chaos(n).WellFormed() && Chaos(n).From(0, w) == 0 && AtMost([], w)
    {
      ChaosWalk(n, w);
    }
    ChaosWalk(n, []);
  }

  // ----- The index -----

  /** A word of the dead class meets a dead raw class. */
  lemma DeadRaw(t: RawTable, h: Classifier, i: nat) returns (c: nat)
    requires t.Valid() && h.Canonical() && Recognises(h, t) && i < |h.act| && !h.Live(i)
    ensures c < |t.act| && !t.live[c]
  {
    var w := h.reps[i];
    assert !h.Accepts(w);
    AliveIsEveryPrefix(t, 0, w);
    var k :| 0 <= k <= |w| && !t.live[Walk(t.act, t.nLetters, 0, w[..k])];
    c := Walk(t.act, t.nLetters, 0, w[..k]);
  }

  /** The raw class of a live class's least access word is live. */
  lemma LiveRaw(t: RawTable, h: Classifier, i: nat)
    requires t.Valid() && h.Canonical() && Recognises(h, t) && i < |h.act| && h.Live(i)
    ensures Alive(t, 0, h.reps[i]) && t.live[Walk(t.act, t.nLetters, 0, h.reps[i])]
  {
    assert h.Accepts(h.reps[i]);
  }

  /** Live classes have different raw classes. */
  lemma LiveRawApart(t: RawTable, h: Classifier, i: nat, j: nat)
    requires t.Valid() && h.Canonical() && Recognises(h, t) && i < j < |h.act| && h.Live(i) && h.Live(j)
    ensures Walk(t.act, t.nLetters, 0, h.reps[i]) != Walk(t.act, t.nLetters, 0, h.reps[j])
  {
    LiveRaw(t, h, i);
    LiveRaw(t, h, j);
    assert h.Separates(i, j);
    var w :| Over(w, h.nLetters) && h.Live(h.From(i, w)) != h.Live(h.From(j, w));
    AcceptsFrom(h, h.reps[i], w);
    AcceptsFrom(h, h.reps[j], w);
    AliveConcat(t, 0, h.reps[i], w);
    AliveConcat(t, 0, h.reps[j], w);
  }

  /** A canonical classifier has no more classes than any raw table with its language. */
  lemma IndexBound(t: RawTable, h: Classifier)
    requires t.Valid() && h.Canonical() && Recognises(h, t)
    ensures |h.act| <= |t.act|
  {
    var dead := 0;
    if h.dead >= 0 {
      dead := DeadRaw(t, h, h.dead);
    }
    var raw: seq<int> := seq(|h.act|, i requires 0 <= i < |h.act| && |h.reps| == |h.act| && Over(h.reps[i], t.nLetters) && t.Valid() =>
      if h.Live(i) then Walk(t.act, t.nLetters, 0, h.reps[i]) else dead);
    forall i, j | 0 <= i < j < |raw|
      ensures raw[i] != raw[j]
    {
      if h.Live(i) && h.Live(j) {
        LiveRawApart(t, h, i, j);
      } else {
        LiveRaw(t, h, if h.Live(i) then i else j);
      }
    }
    DistinctBound<int>(raw, Range(|t.act|));
  }
}
