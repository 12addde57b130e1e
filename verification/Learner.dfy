/**
 The learner: L* with Rivest–Schapire counterexample handling, one instance per
 leaf; membership is executing the leaf (src/cegar/learner.cc).
 */
module Learning {
  import opened Words
  import opened Finite
  import opened Classifiers
  import opened Leaves
  import opened Teacher

  // ----- Observation tables, as values -----

  ghost predicate AllOver(ws: seq<Word>, n: nat) {
    forall i :: 0 <= i < |ws| ==> Over(ws[i], n)
  }

  lemma OverConcat(u: Word, v: Word, n: nat)
    requires Over(u, n) && Over(v, n)
    ensures Over(u + v, n)
  {
  }

  /** What the experiments `E` observe after the access word `u`. */
  ghost function Row(l: Lts, E: seq<Word>, u: Word): (r: seq<bool>)
    requires l.Valid() && AllOver(E, l.nLetters) && Over(u, l.nLetters)
    ensures |r| == |E|
    ensures forall i :: 0 <= i < |E| ==> Over(u + E[i], l.nLetters) && r[i] == l.Fires(u + E[i])
  {
    seq(|E|, i requires 0 <= i < |E| => OverConcat(u, E[i], l.nLetters); l.Fires(u + E[i]))
  }

  /** Access words and experiments over the leaf's alphabet, the empty word first in both. */
  ghost predicate Observes(l: Lts, S: seq<Word>, E: seq<Word>) {
    && l.Valid()
    && |S| >= 1 && S[0] == [] && AllOver(S, l.nLetters)
    && |E| >= 1 && E[0] == [] && AllOver(E, l.nLetters)
  }

  /** The row of `u` is the row of some access word. */
  ghost predicate Matched(l: Lts, S: seq<Word>, E: seq<Word>, u: Word)
    requires l.Valid() && AllOver(S, l.nLetters) && AllOver(E, l.nLetters) && Over(u, l.nLetters)
    decreases |S|
  {
    S != [] && (Row(l, E, S[|S| - 1]) == Row(l, E, u) || Matched(l, S[..|S| - 1], E, u))
  }

  /** `rows` are the rows of the access words. */
  ghost predicate RowsOf(l: Lts, S: seq<Word>, E: seq<Word>, rows: seq<seq<bool>>)
    requires l.Valid() && AllOver(S, l.nLetters) && AllOver(E, l.nLetters)
  {
    |rows| == |S| && forall i :: 0 <= i < |S| ==> rows[i] == Row(l, E, S[i])
  }

  ghost function AllRows(l: Lts, S: seq<Word>, E: seq<Word>): (rows: seq<seq<bool>>)
    requires l.Valid() && AllOver(S, l.nLetters) && AllOver(E, l.nLetters)
    ensures RowsOf(l, S, E, rows)
  {
    seq(|S|, i requires 0 <= i < |S| => Row(l, E, S[i]))
  }

  lemma {:induction false} MatchedIn(l: Lts, S: seq<Word>, E: seq<Word>, u: Word, rows: seq<seq<bool>>, row: seq<bool>)
    requires l.Valid() && AllOver(S, l.nLetters) && AllOver(E, l.nLetters) && Over(u, l.nLetters)
    requires RowsOf(l, S, E, rows) && row == Row(l, E, u)
    ensures Matched(l, S, E, u) <==> row in rows
    decreases |S|
  {
    hide Row, Over;
    if S != [] {
      var n := |S| - 1;
      MatchedIn(l, S[..n], E, u, rows[..n], row);
      assert rows == rows[..n] + [rows[n]];
    }
  }

  lemma MatchedAt(l: Lts, S: seq<Word>, E: seq<Word>, u: Word)
    requires l.Valid() && AllOver(S, l.nLetters) && AllOver(E, l.nLetters) && Over(u, l.nLetters)
    ensures Matched(l, S, E, u) <==> exists j :: 0 <= j < |S| && Row(l, E, S[j]) == Row(l, E, u)
  {
    MatchedIn(l, S, E, u, AllRows(l, S, E), Row(l, E, u));
  }

  /** The access words have pairwise different rows. */
  ghost predicate RowsDiffer(l: Lts, S: seq<Word>, E: seq<Word>)
    requires l.Valid() && AllOver(S, l.nLetters) && AllOver(E, l.nLetters)
    decreases |S|
  {
    S == [] || (RowsDiffer(l, S[..|S| - 1], E) && !Matched(l, S[..|S| - 1], E, S[|S| - 1]))
  }

  lemma {:induction false} RowsDistinct(l: Lts, S: seq<Word>, E: seq<Word>, rows: seq<seq<bool>>)
    requires l.Valid() && AllOver(S, l.nLetters) && AllOver(E, l.nLetters) && RowsOf(l, S, E, rows)
    ensures RowsDiffer(l, S, E) <==> Distinct(rows)
    decreases |S|
  {
    if S != [] {
      hide Row, Matched, Distinct, Over;
      var n := |S| - 1;
      RowsDistinct(l, S[..n], E, rows[..n]);
      MatchedIn(l, S[..n], E, S[n], rows[..n], rows[n]);
      DistinctGrows(rows, rows[..n]);
    }
  }

  lemma RowsDifferAt(l: Lts, S: seq<Word>, E: seq<Word>)
    requires l.Valid() && AllOver(S, l.nLetters) && AllOver(E, l.nLetters)
    ensures RowsDiffer(l, S, E) <==> forall i, j :: 0 <= i < j < |S| ==> Row(l, E, S[i]) != Row(l, E, S[j])
  {
    var rows := AllRows(l, S, E);
    RowsDistinct(l, S, E, rows);
    hide RowsDiffer, Row;
  }

  lemma OverAppend(u: Word, a: nat, n: nat)
    requires Over(u, n) && a < n
    ensures Over(u + [a], n)
  {
  }

  ghost predicate ClosedAt(l: Lts, S: seq<Word>, E: seq<Word>, i: nat, a: nat)
    requires Observes(l, S, E) && i < |S| && a < l.nLetters
  {
    OverAppend(S[i], a, l.nLetters);
    Matched(l, S, E, S[i] + [a])
  }

  /** The extensions of `S[i]` by the first `n` letters all have rows. */
  ghost predicate RowClosed(l: Lts, S: seq<Word>, E: seq<Word>, i: nat, n: nat)
    requires Observes(l, S, E) && i < |S| && n <= l.nLetters
  {
    n == 0 || (RowClosed(l, S, E, i, n - 1) && ClosedAt(l, S, E, i, n - 1))
  }

  lemma {:induction false} RowClosedAt(l: Lts, S: seq<Word>, E: seq<Word>, i: nat, n: nat, a: nat)
    requires Observes(l, S, E) && i < |S| && n <= l.nLetters && RowClosed(l, S, E, i, n) && a < n
    ensures ClosedAt(l, S, E, i, a)
    decreases n
  {
    if a < n - 1 {
      RowClosedAt(l, S, E, i, n - 1, a);
    }
  }

  ghost predicate TableClosed(l: Lts, S: seq<Word>, E: seq<Word>)
    requires Observes(l, S, E)
  {
    forall i :: 0 <= i < |S| ==> RowClosed(l, S, E, i, l.nLetters)
  }

  /** Words that lead the leaf to one place have one row. */
  lemma SameRunSameRow(l: Lts, E: seq<Word>, u: Word, v: Word)
    requires l.Valid() && AllOver(E, l.nLetters) && Over(u, l.nLetters) && Over(v, l.nLetters)
    requires l.Run(0, u) == l.Run(0, v)
    ensures Row(l, E, u) == Row(l, E, v)
  {
    forall i | 0 <= i < |E|
      ensures l.Fires(u + E[i]) == l.Fires(v + E[i])
    {
      RunConcat(l, 0, u, E[i]);
      RunConcat(l, 0, v, E[i]);
    }
  }

  /** There are at most |Q| + 1 different rows. */
  lemma RowBound(l: Lts, S: seq<Word>, E: seq<Word>)
    requires Observes(l, S, E) && RowsDiffer(l, S, E)
    ensures |S| <= l.nStates + 1
  {
    hide Row, RowsDiffer;
    RowsDifferAt(l, S, E);
    var runs := seq(|S|, i requires 0 <= i < |S| => l.Run(0, S[i]));
    forall i, j | 0 <= i < j < |S|
      ensures runs[i] != runs[j]
    {
      assert Row(l, E, S[i]) != Row(l, E, S[j]);
      if l.Run(0, S[i]) == l.Run(0, S[j]) {
        SameRunSameRow(l, E, S[i], S[j]);
      }
    }
    DistinctBound(runs, Range(l.nStates) + {-1});
  }

  /** `row` names, letter by letter, the access word with the row of `S[i]·a`. */
  ghost predicate RowRight(l: Lts, S: seq<Word>, E: seq<Word>, i: nat, row: seq<nat>)
    requires Observes(l, S, E) && i < |S|
  {
    && |row| == l.nLetters
    && forall a :: 0 <= a < |row| ==>
         row[a] < |S| && Over(S[i] + [a], l.nLetters) && Row(l, E, S[row[a]]) == Row(l, E, S[i] + [a])
  }

  /** The hypothesis table: classes are rows, a class is live when its access word is a trace. */
  ghost predicate IsTable(l: Lts, S: seq<Word>, E: seq<Word>, t: RawTable)
    requires Observes(l, S, E)
  {
    && t.nLetters == l.nLetters && |t.act| == |S| == |t.live|
    && (forall i :: 0 <= i < |S| ==> t.live[i] == l.Fires(S[i]))
    && (forall i :: 0 <= i < |S| ==> RowRight(l, S, E, i, t.act[i]))
  }

  /** Pairwise different rows determine the table. */
  lemma TableUnique(l: Lts, S: seq<Word>, E: seq<Word>, t: RawTable, t': RawTable)
    requires Observes(l, S, E) && RowsDiffer(l, S, E) && IsTable(l, S, E, t) && IsTable(l, S, E, t')
    ensures t == t'
  {
    RowsDifferAt(l, S, E);
    forall i, a | 0 <= i < |S| && 0 <= a < l.nLetters
      ensures t.act[i][a] == t'.act[i][a]
    {
      var x, y := t.act[i][a], t'.act[i][a];
      assert Row(l, E, S[x]) == Row(l, E, S[y]);
    }
    forall i | 0 <= i < |S|
      ensures t.act[i] == t'.act[i]
    {
    }
  }

  // ----- Counterexamples -----

  /** The raw table puts `p` on the wrong side. */
  ghost predicate Misplaced(l: Lts, S: seq<Word>, E: seq<Word>, t: RawTable, p: Word)
    requires Observes(l, S, E) && IsTable(l, S, E, t) && t.Valid() && Over(p, l.nLetters)
  {
    t.live[Walk(t.act, t.nLetters, 0, p)] != l.Fires(p)
  }

  /** The raw table is right on the first `n` prefixes of `w`. */
  ghost predicate RightUpTo(l: Lts, S: seq<Word>, E: seq<Word>, t: RawTable, w: Word, n: nat)
    requires Observes(l, S, E) && IsTable(l, S, E, t) && t.Valid() && Over(w, l.nLetters) && n <= |w| + 1
  {
    n == 0 || (RightUpTo(l, S, E, t, w, n - 1) && !Misplaced(l, S, E, t, w[..n - 1]))
  }

  lemma {:induction false} RightEverywhere(l: Lts, S: seq<Word>, E: seq<Word>, t: RawTable, w: Word, n: nat)
    requires Observes(l, S, E) && IsTable(l, S, E, t) && t.Valid() && Over(w, l.nLetters) && n <= |w| + 1
    requires RightUpTo(l, S, E, t, w, n)
    ensures forall i :: 0 <= i < n ==> !Misplaced(l, S, E, t, w[..i])
  {
    hide Misplaced, IsTable, Observes;
    if n > 0 {
      RightEverywhere(l, S, E, t, w, n - 1);
    }
  }

  /** If the raw table is right on every prefix of `w`, its dead-closure is right on `w`. */
  lemma RightOnPrefixes(l: Lts, S: seq<Word>, E: seq<Word>, t: RawTable, w: Word)
    requires Observes(l, S, E) && IsTable(l, S, E, t) && t.Valid() && Over(w, l.nLetters)
    requires forall i :: 0 <= i <= |w| ==> !Misplaced(l, S, E, t, w[..i])
    ensures DeadClosed(t, w) <==> l.Fires(w)
  {
    hide Walk, RowRight, Alive;
    AliveIsEveryPrefix(t, 0, w);
    if l.Fires(w) {
      forall i | 0 <= i <= |w|
        ensures t.live[Walk(t.act, t.nLetters, 0, w[..i])]
      {
        assert w == w[..i] + w[i..];
        FiresPrefix(l, w[..i], w[i..]);
        assert !Misplaced(l, S, E, t, w[..i]);
      }
    } else {
      assert w[..|w|] == w;
      assert !Misplaced(l, S, E, t, w[..|w|]);
    }
  }

  /** The Rivest–Schapire question: replace the first `i` letters by the access word of their class. */
  ghost function Question(l: Lts, S: seq<Word>, t: RawTable, bad: Word, i: nat): (u: Word)
    requires l.Valid() && AllOver(S, l.nLetters) && t.Valid() && |t.act| == |S| && t.nLetters == l.nLetters
    requires Over(bad, l.nLetters) && i <= |bad|
    ensures Over(u, l.nLetters)
  {
    S[Walk(t.act, t.nLetters, 0, bad[..i])] + bad[i..]
  }

  /** The two ends of the search disagree. */
  lemma QuestionEnds(l: Lts, S: seq<Word>, E: seq<Word>, t: RawTable, bad: Word)
    requires Observes(l, S, E) && IsTable(l, S, E, t) && t.Valid() && Over(bad, l.nLetters)
    requires Misplaced(l, S, E, t, bad)
    ensures l.Fires(Question(l, S, t, bad, 0)) != l.Fires(Question(l, S, t, bad, |bad|))
  {
    assert bad[..0] == [] && bad[0..] == bad;
    assert bad[..|bad|] == bad && bad[|bad|..] == [];
    assert Question(l, S, t, bad, 0) == bad;
    assert Question(l, S, t, bad, |bad|) == S[Walk(t.act, t.nLetters, 0, bad)];
  }

  /** A flip between `i` and `i + 1`: the remaining suffix tells `rep·letter` from the class it was mapped to. */
  lemma FlipSplits(l: Lts, S: seq<Word>, E: seq<Word>, t: RawTable, bad: Word, i: nat)
    requires Observes(l, S, E) && IsTable(l, S, E, t) && t.Valid() && Over(bad, l.nLetters) && i < |bad|
    requires l.Fires(Question(l, S, t, bad, i)) != l.Fires(Question(l, S, t, bad, i + 1))
    ensures var c, a, e := Walk(t.act, t.nLetters, 0, bad[..i]), bad[i], bad[i + 1..];
            && Over(S[c] + [a], l.nLetters) && Over(e, l.nLetters)
            && Over(S[c] + [a] + e, l.nLetters) && Over(S[t.act[c][a]] + e, l.nLetters)
            && l.Fires(S[c] + [a] + e) != l.Fires(S[t.act[c][a]] + e)
  {
    hide RowRight;
    var c, a, e := Walk(t.act, t.nLetters, 0, bad[..i]), bad[i], bad[i + 1..];
    assert Init(bad[..i + 1]) == bad[..i];
    assert bad[i..] == [a] + e;
    assert Question(l, S, t, bad, i) == S[c] + ([a] + e) == S[c] + [a] + e;
    assert Question(l, S, t, bad, i + 1) == S[t.act[c][a]] + e;
  }

  /** The separating suffix is a new experiment ... */
  lemma ExperimentIsNew(l: Lts, S: seq<Word>, E: seq<Word>, u: Word, v: Word, e: Word)
    requires l.Valid() && AllOver(E, l.nLetters) && Over(u, l.nLetters) && Over(v, l.nLetters)
    requires Row(l, E, u) == Row(l, E, v)
    requires Over(u + e, l.nLetters) && Over(v + e, l.nLetters) && l.Fires(u + e) != l.Fires(v + e)
    ensures e !in E
  {
    forall i | 0 <= i < |E|
      ensures E[i] != e
    {
      assert Row(l, E, u)[i] == Row(l, E, v)[i];
    }
  }

  /** ... that keeps the old rows apart ... */
  lemma ExperimentKeeps(l: Lts, S: seq<Word>, E: seq<Word>, e: Word, u: Word, v: Word)
    requires l.Valid() && AllOver(E, l.nLetters) && Over(e, l.nLetters) && Over(u, l.nLetters) && Over(v, l.nLetters)
    requires Row(l, E, u) != Row(l, E, v)
    ensures AllOver(E + [e], l.nLetters) && Row(l, E + [e], u) != Row(l, E + [e], v)
  {
    var r, r' := Row(l, E, u), Row(l, E, v);
    var i :| 0 <= i < |E| && r[i] != r'[i];
    assert (E + [e])[i] == E[i];
    assert Row(l, E + [e], u)[i] != Row(l, E + [e], v)[i];
  }

  /** ... and leaves the split word without a row among the access words. */
  lemma ExperimentSplits(l: Lts, S: seq<Word>, E: seq<Word>, j: nat, u: Word, e: Word)
    requires Observes(l, S, E) && RowsDiffer(l, S, E) && j < |S| && Over(u, l.nLetters) && Over(e, l.nLetters)
    requires Row(l, E, S[j]) == Row(l, E, u)
    requires Over(u + e, l.nLetters) && Over(S[j] + e, l.nLetters) && l.Fires(u + e) != l.Fires(S[j] + e)
    ensures Observes(l, S, E + [e]) && RowsDiffer(l, S, E + [e]) && !Matched(l, S, E + [e], u)
  {
    assert AllOver(E + [e], l.nLetters);
    RowsDifferAt(l, S, E);
    RowsDifferAt(l, S, E + [e]);
    MatchedAt(l, S, E + [e], u);
    forall x, y | 0 <= x < y < |S|
      ensures Row(l, E + [e], S[x]) != Row(l, E + [e], S[y])
    {
      ExperimentKeeps(l, S, E, e, S[x], S[y]);
    }
    forall x | 0 <= x < |S|
      ensures Row(l, E + [e], S[x]) != Row(l, E + [e], u)
    {
      if x == j {
        assert (E + [e])[|E|] == e;
        assert Row(l, E + [e], S[j])[|E|] != Row(l, E + [e], u)[|E|];
      } else {
        assert Row(l, E, S[x]) != Row(l, E, S[j]);
        ExperimentKeeps(l, S, E, e, S[x], u);
      }
    }
  }

  // ----- Publication -----

  /** Chaos until the table is exposed, then the canonical form of the table. */
  ghost predicate PublishedBy(l: Lts, S: seq<Word>, E: seq<Word>, virgin: bool, h: Classifier)
    requires Observes(l, S, E)
  {
    && h.Canonical() && h.nLetters == l.nLetters
    && (virgin ==> h == Chaos(l.nLetters))
    && (!virgin ==> exists t :: IsTable(l, S, E, t) && t.Valid() && Recognises(h, t))
  }

  /** The published classifier has at most one class more than the leaf has states. */
  lemma PublishedIndex(l: Lts, S: seq<Word>, E: seq<Word>, virgin: bool, h: Classifier)
    requires Observes(l, S, E) && RowsDiffer(l, S, E) && PublishedBy(l, S, E, virgin, h)
    ensures h.K() <= l.nStates + 1
  {
    RowBound(l, S, E);
    if !virgin {
      var t :| IsTable(l, S, E, t) && t.Valid() && Recognises(h, t);
      IndexBound(t, h);
    }
  }

  /** A learner publishes one classifier. */
  lemma PublishedUnique(l: Lts, S: seq<Word>, E: seq<Word>, virgin: bool, h: Classifier, h': Classifier)
    requires Observes(l, S, E) && RowsDiffer(l, S, E)
    requires PublishedBy(l, S, E, virgin, h) && PublishedBy(l, S, E, virgin, h')
    ensures h == h'
  {
    if !virgin {
      var t :| IsTable(l, S, E, t) && t.Valid() && Recognises(h, t);
      var t' :| IsTable(l, S, E, t') && t'.Valid() && Recognises(h', t');
      TableUnique(l, S, E, t, t');
      CanonicalizeCanonical(t, t', h, h');
    }
  }

  /** The class of the empty word is live: the empty word is a trace. */
  lemma PublishedLive(l: Lts, S: seq<Word>, E: seq<Word>, virgin: bool, h: Classifier)
    requires Observes(l, S, E) && PublishedBy(l, S, E, virgin, h)
    ensures h.Live(0)
  {
    if !virgin {
      var t :| IsTable(l, S, E, t) && t.Valid() && Recognises(h, t);
      assert l.Fires([]) && t.live[0];
      assert Over([], t.nLetters) && DeadClosed(t, []);
      assert h.Accepts([]);
    }
  }

  /** The exposed table gets some prefix of `w` wrong. */
  ghost predicate Refuted(l: Lts, S: seq<Word>, E: seq<Word>, w: Word)
    requires Observes(l, S, E) && Over(w, l.nLetters)
  {
    forall t :: IsTable(l, S, E, t) && t.Valid() ==>
      exists i :: 0 <= i <= |w| && Misplaced(l, S, E, t, w[..i])
  }

  /** A word that the exposed table's published form misclassifies refutes the table itself, on some prefix. */
  lemma WrongIsRefuted(l: Lts, S: seq<Word>, E: seq<Word>, virgin: bool, h: Classifier, w: Word)
    requires Observes(l, S, E) && RowsDiffer(l, S, E) && PublishedBy(l, S, E, virgin, h)
    requires Over(w, l.nLetters) && h.Accepts(w) != l.Fires(w)
    ensures virgin || Refuted(l, S, E, w)
  {
    if !virgin {
      var t' :| IsTable(l, S, E, t') && t'.Valid() && Recognises(h, t');
      forall t | IsTable(l, S, E, t) && t.Valid()
        ensures exists i :: 0 <= i <= |w| && Misplaced(l, S, E, t, w[..i])
      {
        TableUnique(l, S, E, t, t');
        if forall i :: 0 <= i <= |w| ==> !Misplaced(l, S, E, t, w[..i]) {
          RightOnPrefixes(l, S, E, t, w);
        }
      }
    }
  }

  // ----- The learner -----

  class Learner {
    const leaf: Lts
    var S: seq<Word>
    var E: seq<Word>
    var memo: map<Word, bool>
    var hypothesis: Classifier
    var current: bool
    var virgin: bool
    var nCex: nat

    /** The observation table is well formed and every remembered membership answer is right. */
    ghost predicate Sound()
      reads this
    {
      && Observes(leaf, S, E)
      && (forall w :: w in memo ==> Over(w, leaf.nLetters) && memo[w] == leaf.Fires(w))
    }

    /** `h` is what the learner publishes. */
    ghost predicate Publishes(h: Classifier)
      requires Sound()
      reads this
    {
      PublishedBy(leaf, S, E, virgin, h)
    }

    ghost predicate Valid()
      reads this
    {
      && Sound()
      && RowsDiffer(leaf, S, E)
      && TableClosed(leaf, S, E)
      && nCex + 1 <= |S|
      && (current ==> Publishes(hypothesis))
    }

    /** The loop's measure: unexposed, plus the rows still to be found. */
    ghost function Potential(): int
      reads this
    {
      (if virgin then 1 else 0) + leaf.nStates + 1 - |S|
    }

    constructor (l: Lts)
      requires l.Valid()
      ensures Valid() && leaf == l && virgin && nCex == 0
      ensures 0 <= Potential() <= l.nStates + 1
    {
      leaf := l;
      S, E, memo := [[]], [[]], map[];
      hypothesis, current, virgin, nCex := Chaos(l.nLetters), false, true, 0;
      new;
      Close();
      RowBound(leaf, S, E);
    }

    method Member(w: Word) returns (b: bool)
      requires Sound() && Over(w, leaf.nLetters)
      modifies this`memo
      ensures Sound() && b == leaf.Fires(w)
    {
      if w !in memo {
        var r := leaf.Fire(w);
        memo := memo[w := r.Some?];
      }
      return memo[w];
    }

    method RowOf(u: Word) returns (r: seq<bool>)
      requires Sound() && Over(u, leaf.nLetters)
      modifies this`memo
      ensures Sound() && r == Row(leaf, E, u)
    {
      r := [];
      for i := 0 to |E|
        invariant Sound() && |r| == i
        invariant forall j :: 0 <= j < i ==> r[j] == Row(leaf, E, u)[j]
      {
        var b := Member(u + E[i]);
        r := r + [b];
      }
    }

    /** The first access word with this row, or |S|. */
    method Lookup(r: seq<bool>) returns (j: nat)
      requires Sound()
      modifies this`memo
      ensures Sound() && j <= |S|
      ensures j < |S| ==> Row(leaf, E, S[j]) == r
      ensures j == |S| ==> forall i :: 0 <= i < |S| ==> Row(leaf, E, S[i]) != r
    {
      j := 0;
      while j < |S|
        invariant Sound() && 0 <= j <= |S|
        invariant forall i :: 0 <= i < j ==> Row(leaf, E, S[i]) != r
      {
        var r' := RowOf(S[j]);
        if r' == r {
          return;
        }
        j := j + 1;
      }
    }

    /** The access word with the row of `S[s]·a`, or |S| when that row is new. */
    method Extension(s: nat, a: nat) returns (j: nat)
      requires Sound() && s < |S| && a < leaf.nLetters
      modifies this`memo
      ensures Sound() && j <= |S| && Over(S[s] + [a], leaf.nLetters)
      ensures j < |S| ==> ClosedAt(leaf, S, E, s, a) && Row(leaf, E, S[j]) == Row(leaf, E, S[s] + [a])
      ensures j == |S| ==> !ClosedAt(leaf, S, E, s, a)
    {
      OverAppend(S[s], a, leaf.nLetters);
      var r := RowOf(S[s] + [a]);
      j := Lookup(r);
      MatchedAt(leaf, S, E, S[s] + [a]);
    }

    /** The first letter that takes `S[s]` to a new row, or the size of the alphabet. */
    method FindOpenLetter(s: nat) returns (a: nat)
      requires Sound() && s < |S|
      modifies this`memo
      ensures Sound() && a <= leaf.nLetters
      ensures a < leaf.nLetters ==> !ClosedAt(leaf, S, E, s, a)
      ensures a == leaf.nLetters ==> RowClosed(leaf, S, E, s, a)
    {
      ghost var l, S0, E0 := leaf, S, E;
      a := 0;
      while a < leaf.nLetters
        invariant Sound() && S == S0 && E == E0 && a <= leaf.nLetters
        invariant RowClosed(l, S0, E0, s, a)
      {
        var j := Extension(s, a);
        if j == |S| {
          return;
        }
        a := a + 1;
      }
    }

    /** The first one-letter extension whose row is new, if there is one. */
    method FindOpen() returns (open: bool, u: Word)
      requires Sound()
      modifies this`memo
      ensures Sound()
      ensures open ==> Over(u, leaf.nLetters) && !Matched(leaf, S, E, u)
      ensures !open ==> TableClosed(leaf, S, E)
    {
      ghost var l, S0, E0 := leaf, S, E;
      for s: nat := 0 to |S|
        invariant Sound() && S == S0 && E == E0
        invariant forall i :: 0 <= i < s ==> RowClosed(l, S0, E0, i, l.nLetters)
      {
        var a := FindOpenLetter(s);
        if a < leaf.nLetters {
          OverAppend(S[s], a, leaf.nLetters);
          return true, S[s] + [a];
        }
      }
      return false, [];
    }

    /** Close the table: promote until every extension has its row among the access words. */
    method Close()
      requires Sound() && RowsDiffer(leaf, S, E)
      modifies this`memo, this`S, this`current
      ensures Sound() && RowsDiffer(leaf, S, E) && TableClosed(leaf, S, E) && !current
      ensures |S| >= |old(S)| && S[..|old(S)|] == old(S)
    {
      hide RowsDiffer, TableClosed;
      var grew := true;
      while grew
        invariant Sound() && RowsDiffer(leaf, S, E)
        invariant |S| >= |old(S)| && S[..|old(S)|] == old(S)
        invariant !grew ==> TableClosed(leaf, S, E)
        decreases leaf.nStates + 1 - |S|, grew
      {
        var u;
        grew, u := FindOpen();
        if grew {
          PromoteKeeps(leaf, S, E, u);
          S := S + [u];
        }
        RowBound(leaf, S, E);
      }
      current := false;
    }

    /** The successors of one class. */
    method TableRow(s: nat) returns (row: seq<nat>)
      requires Sound() && TableClosed(leaf, S, E) && s < |S|
      modifies this`memo
      ensures Sound() && RowRight(leaf, S, E, s, row)
    {
      row := [];
      ghost var l, S0, E0 := leaf, S, E;
      for a: nat := 0 to leaf.nLetters
        invariant Sound() && S == S0 && E == E0 && |row| == a
        invariant forall b: nat :: b < a ==>
                    && row[b] < |S0| && Over(S0[s] + [b], l.nLetters)
                    && Row(l, E0, S0[row[b]]) == Row(l, E0, S0[s] + [b])
      {
        var j := Extension(s, a);
        RowClosedAt(l, S0, E0, s, l.nLetters, a);
        // "table not closed" is never reported:
        assert j < |S|;
        row := row + [j];
      }
    }

    /** The observation table read as a raw class table. */
    method Table() returns (t: RawTable)
      requires Sound() && TableClosed(leaf, S, E)
      modifies this`memo
      ensures Sound() && IsTable(leaf, S, E, t) && t.Valid()
    {
      var live: seq<bool>, act: seq<seq<nat>> := [], [];
      for s: nat := 0 to |S|
        invariant Sound() && |live| == |act| == s
        invariant forall i :: 0 <= i < s ==> live[i] == leaf.Fires(S[i])
        invariant forall i :: 0 <= i < s ==> RowRight(leaf, S, E, i, act[i])
      {
        var b := Member(S[s]);
        var row := TableRow(s);
        live, act := live + [b], act + [row];
      }
      t := RawTable(leaf.nLetters, act, live);
    }

    /** The current hypothesis, canonical; rebuilt after growth. */
    method Published() returns (h: Classifier)
      requires Valid()
      modifies this`memo, this`hypothesis, this`current
      ensures Valid() && h == hypothesis && Publishes(h) && h.Live(0)
    {
      if !current {
        if virgin {
          hypothesis := Chaos(leaf.nLetters);
          ChaosAcceptsAll(leaf.nLetters);
        } else {
          var t := Table();
          hypothesis := Canonicalize(t);
          assert IsTable(leaf, S, E, t) && t.Valid() && Recognises(hypothesis, t);
        }
        current := true;
      }
      h := hypothesis;
      PublishedLive(leaf, S, E, virgin, h);
    }

    /** The shortest prefix the raw table puts on the wrong side, if there is one. */
    method LocateBad(t: RawTable, w: Word) returns (found: bool, bad: Word)
      requires Sound() && IsTable(leaf, S, E, t) && t.Valid() && Over(w, leaf.nLetters)
      modifies this`memo
      ensures Sound()
      ensures found ==> Over(bad, leaf.nLetters) && Misplaced(leaf, S, E, t, bad)
      ensures !found ==> forall i :: 0 <= i <= |w| ==> !Misplaced(leaf, S, E, t, w[..i])
    {
      ghost var l, S0, E0 := leaf, S, E;
      for len := 0 to |w| + 1
        invariant Sound() && S == S0 && E == E0
        invariant RightUpTo(l, S0, E0, t, w, len)
      {
        var c := Classify(t.act, t.nLetters, w[..len]);
        var b := Member(w[..len]);
        if t.live[c] != b {
          return true, w[..len];
        }
      }
      RightEverywhere(l, S0, E0, t, w, |w| + 1);
      return false, [];
    }

    /** The Rivest–Schapire question at `i`, put to the leaf. */
    method Ask(t: RawTable, bad: Word, i: nat) returns (b: bool)
      requires Sound() && IsTable(leaf, S, E, t) && t.Valid() && Over(bad, leaf.nLetters) && i <= |bad|
      modifies this`memo
      ensures Sound() && b == leaf.Fires(Question(leaf, S, t, bad, i))
    {
      var c := Classify(t.act, t.nLetters, bad[..i]);
      b := Member(S[c] + bad[i..]);
    }

    /** Binary search for a position where the answer flips. */
    method SplitPoint(t: RawTable, bad: Word) returns (lo: nat)
      requires Sound() && IsTable(leaf, S, E, t) && t.Valid() && Over(bad, leaf.nLetters)
      requires Misplaced(leaf, S, E, t, bad)
      modifies this`memo
      ensures Sound() && lo < |bad|
      ensures leaf.Fires(Question(leaf, S, t, bad, lo)) != leaf.Fires(Question(leaf, S, t, bad, lo + 1))
    {
      ghost var l, S0, E0 := leaf, S, E;
      QuestionEnds(l, S0, E0, t, bad);
      var hi: nat := |bad|;
      lo := 0;
      var a0 := Ask(t, bad, 0);
      var aN := Ask(t, bad, |bad|);
      // "no flip in counterexample" is never reported:
      assert a0 != aN;
      while hi - lo > 1
        invariant Sound() && S == S0 && E == E0
        invariant 0 <= lo < hi <= |bad|
        invariant l.Fires(Question(l, S0, t, bad, lo)) == a0 != l.Fires(Question(l, S0, t, bad, hi))
        decreases hi - lo
      {
        var mid := (lo + hi) / 2;
        var b := Ask(t, bad, mid);
        if b == a0 {
          lo := mid;
        } else {
          hi := mid;
        }
      }
    }

    /** Process a word the published classifier misclassifies: expose the table, or grow it. */
    method AddCounterexample(w: Word, ghost h: Classifier)
      requires Valid() && Over(w, leaf.nLetters)
      requires Publishes(h) && h.Accepts(w) != leaf.Fires(w)
      modifies this
      ensures Valid() && !virgin
      ensures |S| >= |old(S)| && S[..|old(S)|] == old(S)
      ensures || (old(virgin) && |S| == |old(S)| && E == old(E) && nCex == old(nCex))
              || (|S| > |old(S)| && nCex == old(nCex) + 1)
      ensures 0 <= Potential() < old(Potential())
    {
      WrongIsRefuted(leaf, S, E, virgin, h, w);
      Process(w);
    }

    method Process(w: Word)
      requires Valid() && Over(w, leaf.nLetters)
      requires virgin || Refuted(leaf, S, E, w)
      modifies this
      ensures Valid() && !virgin
      ensures |S| >= |old(S)| && S[..|old(S)|] == old(S)
      ensures || (old(virgin) && |S| == |old(S)| && E == old(E) && nCex == old(nCex))
              || (|S| > |old(S)| && nCex == old(nCex) + 1)
      ensures 0 <= Potential() < old(Potential())
    {
      var t, found, bad := Diagnose(w);
      if found {
        Grow(t, bad);
      } else {
        Expose();
      }
    }

    /** Read the table and look for a misplaced prefix; without one the table was not exposed yet. */
    method Diagnose(w: Word) returns (t: RawTable, found: bool, bad: Word)
      requires Valid() && Over(w, leaf.nLetters)
      requires virgin || Refuted(leaf, S, E, w)
      modifies this`memo
      ensures Valid() && IsTable(leaf, S, E, t) && t.Valid()
      ensures found ==> Over(bad, leaf.nLetters) && Misplaced(leaf, S, E, t, bad)
      ensures !found ==> virgin
    {
      hide IsTable, RowsDiffer, TableClosed;
      t := Table();
      found, bad := LocateBad(t, w);
      // "counterexample agrees with the raw table" is never reported:
      assert found || virgin;
    }

    /** First exposure: publish the real table from now on. */
    method Expose()
      requires Valid() && virgin
      modifies this`virgin, this`current
      ensures Valid() && !virgin
      ensures 0 <= Potential() < old(Potential())
    {
      RowBound(leaf, S, E);
      virgin, current := false, false;
    }

    /** Add the experiment a misplaced word yields, and close the table again. */
    method Grow(t: RawTable, bad: Word)
      requires Sound() && RowsDiffer(leaf, S, E) && IsTable(leaf, S, E, t) && t.Valid() && Over(bad, leaf.nLetters)
      requires Misplaced(leaf, S, E, t, bad) && nCex + 1 <= |S|
      modifies this
      ensures Valid() && !virgin
      ensures |S| > |old(S)| && S[..|old(S)|] == old(S) && nCex == old(nCex) + 1
      ensures 0 <= Potential() < old(Potential())
    {
      var lo := SplitPoint(t, bad);
      CounterexampleSplits(leaf, S, E, t, bad, lo);
      // "experiment already present" is never reported:
      assert bad[lo + 1..] !in E;
      AddExperiment(bad[lo + 1..]);
    }

    method AddExperiment(exp: Word)
      requires Sound() && Observes(leaf, S, E + [exp])
      requires RowsDiffer(leaf, S, E + [exp]) && !TableClosed(leaf, S, E + [exp])
      requires nCex + 1 <= |S|
      modifies this
      ensures Valid() && !virgin
      ensures |S| > |old(S)| && S[..|old(S)|] == old(S) && nCex == old(nCex) + 1
      ensures 0 <= Potential() < old(Potential())
    {
      ghost var S0 := S;
      virgin, E := false, E + [exp];
      Close();
      // "counterexample did not grow the table" is never reported:
      assert |S| > |S0| by {
        assert |S| == |S0| ==> S == S0;
      }
      nCex := nCex + 1;
      RowBound(leaf, S, E);
    }
  }

  /** The suffix after a flip is a new experiment; it keeps the rows apart and opens the table. */
  lemma CounterexampleSplits(l: Lts, S: seq<Word>, E: seq<Word>, t: RawTable, bad: Word, lo: nat)
    requires Observes(l, S, E) && RowsDiffer(l, S, E) && IsTable(l, S, E, t) && t.Valid() && Over(bad, l.nLetters)
    requires lo < |bad| && l.Fires(Question(l, S, t, bad, lo)) != l.Fires(Question(l, S, t, bad, lo + 1))
    ensures var exp := bad[lo + 1..];
            && exp !in E
            && Observes(l, S, E + [exp]) && RowsDiffer(l, S, E + [exp]) && !TableClosed(l, S, E + [exp])
  {
    var exp := bad[lo + 1..];
    FlipSplits(l, S, E, t, bad, lo);
    var c := Walk(t.act, t.nLetters, 0, bad[..lo]);
    var u, j := S[c] + [bad[lo]], t.act[c][bad[lo]];
    assert RowRight(l, S, E, c, t.act[c]);
    ExperimentIsNew(l, S, E, u, S[j], exp);
    ExperimentSplits(l, S, E, j, u, exp);
    if TableClosed(l, S, E + [exp]) {
      RowClosedAt(l, S, E + [exp], c, l.nLetters, bad[lo]);
    }
  }

  /** A word with a row of its own may be promoted. */
  lemma PromoteKeeps(l: Lts, S: seq<Word>, E: seq<Word>, u: Word)
    requires Observes(l, S, E) && RowsDiffer(l, S, E) && Over(u, l.nLetters) && !Matched(l, S, E, u)
    ensures Observes(l, S + [u], E) && RowsDiffer(l, S + [u], E)
  {
    var S' := S + [u];
    assert S'[..|S'| - 1] == S;
    assert AllOver(S', l.nLetters);
  }
}
