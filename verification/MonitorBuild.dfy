/**
 The monitor as the exact sub-product of the property leaves: reachable tuples
 of their local states, explored breadth first (src/surface_cegar.cc).
 */
module MonitorBuild {
  import opened Words
  import opened Finite
  import opened Leaves
  import opened Models

  type Tuple = seq<nat>

  /** The property leaves: leaf indices, in increasing order. */
  ghost predicate PropertyLeaves(leaves: seq<Lts>, props: seq<nat>) {
    Increasing(props) && forall k :: 0 <= k < |props| ==> props[k] < |leaves|
  }

  ghost predicate InRange(leaves: seq<Lts>, props: seq<nat>, t: Tuple)
    requires PropertyLeaves(leaves, props)
  {
    |t| == |props| && forall k :: 0 <= k < |t| ==> t[k] < leaves[props[k]].nStates
  }

  /** Where event `e` takes the k-th property leaf, -1 if it blocks. */
  function LocalStep(leaves: seq<Lts>, events: seq<Event>, props: seq<nat>, t: Tuple, e: nat, k: nat): (q: int)
    requires FitsEvents(leaves, events) && PropertyLeaves(leaves, props) && InRange(leaves, props, t)
    requires e < |events| && k < |props|
    ensures -1 <= q < leaves[props[k]].nStates
  {
    assert FitsEvent(leaves, events[e]);
    match LetterFor(events[e], props[k])
    case Some(a) => leaves[props[k]].Step(t[k], a)
    case None => t[k]
  }

  /** Step every property leaf; none if one of them blocks. */
  method StepTuple(leaves: seq<Lts>, events: seq<Event>, props: seq<nat>, t: Tuple, e: nat) returns (r: Option<Tuple>)
    requires FitsEvents(leaves, events) && PropertyLeaves(leaves, props) && InRange(leaves, props, t) && e < |events|
    ensures r.Some? <==> forall k :: 0 <= k < |props| ==> LocalStep(leaves, events, props, t, e, k) >= 0
    ensures r.Some? ==> InRange(leaves, props, r.value)
    ensures r.Some? ==> forall k :: 0 <= k < |props| ==> r.value[k] == LocalStep(leaves, events, props, t, e, k)
  {
    var nxt: Tuple := t;
    for k: nat := 0 to |props|
      invariant InRange(leaves, props, nxt)
      invariant forall j :: 0 <= j < k ==> nxt[j] == LocalStep(leaves, events, props, t, e, j)
      invariant forall j :: k <= j < |nxt| ==> nxt[j] == t[j]
    {
      var q := LocalStep(leaves, events, props, t, e, k);
      if q < 0 {
        return None;
      }
      nxt := nxt[k := q];
    }
    return Some(nxt);
  }

  /** Entry `d` of row `i`: blocked, or the number of the successor tuple. */
  ghost predicate EntryRight(leaves: seq<Lts>, events: seq<Event>, props: seq<nat>, tuples: seq<Tuple>, t: Tuple,
                             e: nat, d: int)
    requires FitsEvents(leaves, events) && PropertyLeaves(leaves, props) && InRange(leaves, props, t) && e < |events|
  {
    && -1 <= d < |tuples|
    && (d >= 0 <==> forall k :: 0 <= k < |props| ==> LocalStep(leaves, events, props, t, e, k) >= 0)
    && (d >= 0 ==> |tuples[d]| == |props|
                   && forall k :: 0 <= k < |props| ==> tuples[d][k] == LocalStep(leaves, events, props, t, e, k))
  }

  ghost predicate RowRight(leaves: seq<Lts>, events: seq<Event>, props: seq<nat>, tuples: seq<Tuple>, t: Tuple,
                           row: seq<int>)
    requires FitsEvents(leaves, events) && PropertyLeaves(leaves, props) && InRange(leaves, props, t)
    requires |row| <= |events|
  {
    forall e :: 0 <= e < |row| ==> EntryRight(leaves, events, props, tuples, t, e, row[e])
  }

  /** The tuples found so far, without repetition, the initial one first. */
  ghost predicate Found(leaves: seq<Lts>, props: seq<nat>, tuples: seq<Tuple>)
    requires PropertyLeaves(leaves, props)
  {
    && |tuples| >= 1 && tuples[0] == seq(|props|, _ => 0)
    && Distinct(tuples)
    && forall i :: 0 <= i < |tuples| ==> InRange(leaves, props, tuples[i])
  }

  lemma RowGrows(leaves: seq<Lts>, events: seq<Event>, props: seq<nat>, tuples: seq<Tuple>, more: seq<Tuple>, t: Tuple,
                 row: seq<int>)
    requires FitsEvents(leaves, events) && PropertyLeaves(leaves, props) && InRange(leaves, props, t)
    requires |row| <= |events| && RowRight(leaves, events, props, tuples, t, row) && tuples <= more
    ensures RowRight(leaves, events, props, more, t, row)
  {
    forall e | 0 <= e < |row|
      ensures EntryRight(leaves, events, props, more, t, e, row[e])
    {
      assert EntryRight(leaves, events, props, tuples, t, e, row[e]);
    }
  }

  /** Some word takes the property leaves to the states of the tuple. */
  ghost predicate Joint(leaves: seq<Lts>, events: seq<Event>, props: seq<nat>, t: Tuple)
    requires FitsEvents(leaves, events) && PropertyLeaves(leaves, props)
  {
    |t| == |props|
    && exists w :: Over(w, |events|) && forall k :: 0 <= k < |props| ==> At(leaves, events, w, props[k]) == t[k]
  }

  ghost predicate AllJoint(leaves: seq<Lts>, events: seq<Event>, props: seq<nat>, tuples: seq<Tuple>)
    requires FitsEvents(leaves, events) && PropertyLeaves(leaves, props)
  {
    forall i :: 0 <= i < |tuples| ==> Joint(leaves, events, props, tuples[i])
  }

  lemma JointStart(leaves: seq<Lts>, events: seq<Event>, props: seq<nat>)
    requires FitsEvents(leaves, events) && PropertyLeaves(leaves, props)
    ensures Joint(leaves, events, props, seq(|props|, _ => 0))
  {
    var w: EventWord := [];
    assert Over(w, |events|) && forall k :: 0 <= k < |props| ==> At(leaves, events, w, props[k]) == 0;
  }

  lemma JointStep(leaves: seq<Lts>, events: seq<Event>, props: seq<nat>, t: Tuple, e: nat, t': Tuple)
    requires FitsEvents(leaves, events) && PropertyLeaves(leaves, props) && InRange(leaves, props, t) && e < |events|
    requires Joint(leaves, events, props, t) && |t'| == |props|
    requires forall k :: 0 <= k < |props| ==> t'[k] == LocalStep(leaves, events, props, t, e, k)
    ensures Joint(leaves, events, props, t')
  {
    hide FitsEvents, At, LocalStep;
    var w :| Over(w, |events|) && forall k :: 0 <= k < |props| ==> At(leaves, events, w, props[k]) == t[k];
    var w' := w + [e];
    assert Init(w') == w && Last(w') == e && Over(w', |events|);
    forall k | 0 <= k < |props|
      ensures At(leaves, events, w', props[k]) == t'[k]
    {
      JointLocal(leaves, events, props, t, e, w, k);
    }
  }

  lemma JointLocal(leaves: seq<Lts>, events: seq<Event>, props: seq<nat>, t: Tuple, e: nat, w: EventWord, k: nat)
    requires FitsEvents(leaves, events) && PropertyLeaves(leaves, props) && InRange(leaves, props, t) && e < |events|
    requires Over(w, |events|) && k < |props| && At(leaves, events, w, props[k]) == t[k]
    ensures Over(w + [e], |events|) && At(leaves, events, w + [e], props[k]) == LocalStep(leaves, events, props, t, e, k)
  {
    assert Init(w + [e]) == w && Last(w + [e]) == e;
    AtStep(leaves, events, w + [e], props[k]);
    hide At;
  }

  lemma JointMore(leaves: seq<Lts>, events: seq<Event>, props: seq<nat>, tuples: seq<Tuple>, more: seq<Tuple>, t: Tuple)
    requires FitsEvents(leaves, events) && PropertyLeaves(leaves, props) && AllJoint(leaves, events, props, tuples)
    requires Joint(leaves, events, props, t) && tuples <= more && forall i :: |tuples| <= i < |more| ==> more[i] == t
    ensures AllJoint(leaves, events, props, more)
  {
    hide Joint;
    forall i | 0 <= i < |more|
      ensures Joint(leaves, events, props, more[i])
    {
      if i < |tuples| {
        assert more[i] == tuples[i];
      }
    }
  }

  /** Number a tuple, appending it if it is new. */
  method Number(tuples: seq<Tuple>, t: Tuple) returns (more: seq<Tuple>, d: nat)
    requires Distinct(tuples)
    ensures tuples <= more && Distinct(more) && d < |more| && more[d] == t
    ensures forall i :: |tuples| <= i < |more| ==> more[i] == t
  {
    d := 0;
    while d < |tuples|
      invariant d <= |tuples|
      invariant forall i :: 0 <= i < d ==> tuples[i] != t
    {
      if tuples[d] == t {
        return tuples, d;
      }
      d := d + 1;
    }
    more := tuples + [t];
  }

  /** The row of the tuple at `head`: one entry per event, new tuples appended. */
  method BuildRow(leaves: seq<Lts>, events: seq<Event>, props: seq<nat>, tuples: seq<Tuple>, head: nat)
    returns (more: seq<Tuple>, row: seq<int>)
    requires FitsEvents(leaves, events) && PropertyLeaves(leaves, props) && Found(leaves, props, tuples)
    requires head < |tuples| && AllJoint(leaves, events, props, tuples)
    ensures Found(leaves, props, more) && tuples <= more && |row| == |events| && AllJoint(leaves, events, props, more)
    ensures RowRight(leaves, events, props, more, tuples[head], row)
  {
    more, row := tuples, [];
    var cur := tuples[head];
    for e: nat := 0 to |events|
      invariant Found(leaves, props, more) && tuples <= more && |row| == e && AllJoint(leaves, events, props, more)
      invariant RowRight(leaves, events, props, more, cur, row)
    {
      var nxt := StepTuple(leaves, events, props, cur, e);
      if nxt.None? {
        row := row + [-1];
      } else {
        ghost var before := more;
        var d;
        more, d := Number(more, nxt.value);
        RowGrows(leaves, events, props, before, more, cur, row);
        JointStep(leaves, events, props, cur, e, nxt.value);
        JointMore(leaves, events, props, before, more, nxt.value);
        row := row + [d];
      }
    }
  }

  /** The rows of the first tuples. */
  ghost predicate RowsRight(leaves: seq<Lts>, events: seq<Event>, props: seq<nat>, tuples: seq<Tuple>,
                            delta: seq<seq<int>>)
    requires FitsEvents(leaves, events) && PropertyLeaves(leaves, props) && Found(leaves, props, tuples)
  {
    && |delta| <= |tuples|
    && forall i :: 0 <= i < |delta| ==>
         |delta[i]| == |events| && RowRight(leaves, events, props, tuples, tuples[i], delta[i])
  }

  ghost function PropBounds(leaves: seq<Lts>, props: seq<nat>): seq<nat>
    requires PropertyLeaves(leaves, props)
  {
    seq(|props|, k requires 0 <= k < |props| => leaves[props[k]].nStates)
  }

  /** The transition table of the sub-product, one row per reachable tuple. */
  method BuildDelta(leaves: seq<Lts>, events: seq<Event>, props: seq<nat>)
    returns (tuples: seq<Tuple>, delta: seq<seq<int>>)
    requires FitsEvents(leaves, events) && PropertyLeaves(leaves, props)
    ensures Found(leaves, props, tuples) && |delta| == |tuples| && AllJoint(leaves, events, props, tuples)
    ensures RowsRight(leaves, events, props, tuples, delta)
  {
    tuples, delta := [seq(|props|, _ => 0)], [];
    JointStart(leaves, events, props);
    while |delta| < |tuples|
      invariant Found(leaves, props, tuples) && RowsRight(leaves, events, props, tuples, delta)
      invariant AllJoint(leaves, events, props, tuples)
      decreases |Tuples(PropBounds(leaves, props))| - |delta|
    {
      forall i | 0 <= i < |tuples|
        ensures tuples[i] in Tuples(PropBounds(leaves, props))
      {
        InTuples(PropBounds(leaves, props), tuples[i]);
      }
      DistinctBound(tuples, Tuples(PropBounds(leaves, props)));
      ghost var before := tuples;
      var head := |delta|;
      var row;
      tuples, row := BuildRow(leaves, events, props, tuples, head);
      forall i | 0 <= i < head
        ensures RowRight(leaves, events, props, tuples, tuples[i], delta[i])
      {
        RowGrows(leaves, events, props, before, tuples, before[i], delta[i]);
      }
      delta := delta + [row];
    }
  }

  /** The sub-product follows a word exactly when every property leaf does, and then stands at their states. */
  lemma {:induction false} SubProductExact(leaves: seq<Lts>, events: seq<Event>, props: seq<nat>, tuples: seq<Tuple>,
                                           mon: Monitor, w: EventWord)
    requires Synchronised(leaves, events, mon) && PropertyLeaves(leaves, props) && Found(leaves, props, tuples)
    requires |mon.delta| == |tuples| && RowsRight(leaves, events, props, tuples, mon.delta)
    requires Over(w, |events|)
    ensures var s := MonitorAt(mon, |events|, w);
            && (s >= 0 <==> forall k :: 0 <= k < |props| ==> At(leaves, events, w, props[k]) >= 0)
            && (s >= 0 ==> forall k :: 0 <= k < |props| ==> tuples[s][k] == At(leaves, events, w, props[k]))
    decreases |w|
  {
    if w != [] {
      var e := Last(w);
      SubProductExact(leaves, events, props, tuples, mon, Init(w));
      var s := MonitorAt(mon, |events|, Init(w));
      forall k | 0 <= k < |props|
        ensures At(leaves, events, w, props[k]) < 0 || At(leaves, events, Init(w), props[k]) >= 0
        ensures s >= 0 ==> At(leaves, events, w, props[k]) == LocalStep(leaves, events, props, tuples[s], e, k)
      {
        AtStep(leaves, events, w, props[k]);
      }
      if s >= 0 {
        assert EntryRight(leaves, events, props, tuples, tuples[s], e, mon.delta[s][e]);
      } else {
        var k :| 0 <= k < |props| && At(leaves, events, Init(w), props[k]) < 0;
        assert At(leaves, events, w, props[k]) < 0;
      }
    }
  }

  /** The values the property leaves show in a tuple of local states. */
  function Shown(valueOf: seq<seq<int>>, props: seq<nat>, t: Tuple): (vals: seq<int>)
    requires |t| == |props|
    requires forall k :: 0 <= k < |props| ==> props[k] < |valueOf| && t[k] < |valueOf[props[k]]|
    ensures |vals| == |props| && forall k :: 0 <= k < |props| ==> vals[k] == valueOf[props[k]][t[k]]
  {
    seq(|props|, k requires 0 <= k < |props| => valueOf[props[k]][t[k]])
  }

  ghost predicate Valued(leaves: seq<Lts>, valueOf: seq<seq<int>>) {
    |valueOf| == |leaves| && forall i :: 0 <= i < |leaves| ==> |valueOf[i]| == leaves[i].nStates
  }

  /** The model with its monitor, or none when the property is undefined on a reachable tuple. */
  method BuildModel(leaves: seq<Lts>, events: seq<Event>, props: seq<nat>, valueOf: seq<seq<int>>,
                    property: seq<int> -> Option<bool>) returns (r: Option<Model>, ghost tuples: seq<Tuple>)
    requires FitsEvents(leaves, events) && PropertyLeaves(leaves, props) && Valued(leaves, valueOf)
    ensures AllJoint(leaves, events, props, tuples)
    ensures r.Some? ==>
              && ValidModel(r.value)
              && r.value.leaves == leaves && r.value.events == events && r.value.propLeaves == props
              && |tuples| == |r.value.mon.delta|
    ensures r.Some? ==> forall s :: 0 <= s < |tuples| ==>
              && InRange(leaves, props, tuples[s])
              && r.value.monitorValues[s] == Shown(valueOf, props, tuples[s])
              && property(r.value.monitorValues[s]) == Some(r.value.mon.bad[s])
    ensures r.Some? ==> forall w, k :: Over(w, |events|) && 0 <= k < |props| ==>
              var s := MonitorAt(r.value.mon, |events|, w);
              s >= 0 ==> |tuples[s]| == |props| && tuples[s][k] == At(leaves, events, w, props[k])
    ensures r.Some? && (forall k :: 0 <= k < |props| ==> Distinct(valueOf[props[k]])) ==> Shows(r.value)
    ensures r.None? ==> exists s :: 0 <= s < |tuples| && InRange(leaves, props, tuples[s])
                                    && property(Shown(valueOf, props, tuples[s])).None?
  {
    var reached, delta := BuildDelta(leaves, events, props);
    tuples := reached;
    var bad: seq<bool>, values: seq<seq<int>> := [], [];
    for s := 0 to |reached|
      invariant |bad| == |values| == s
      invariant forall i :: 0 <= i < s ==> values[i] == Shown(valueOf, props, reached[i])
      invariant forall i :: 0 <= i < s ==> property(values[i]) == Some(bad[i])
    {
      assert InRange(leaves, props, reached[s]);
      var vals := Shown(valueOf, props, reached[s]);
      var verdict := property(vals);
      if verdict.None? {
        return None, tuples;
      }
      bad, values := bad + [verdict.value], values + [vals];
    }
    var mon := Monitor(delta, bad);
    MonitorFits(leaves, events, props, reached, mon);
    var m := Model(leaves, events, mon, props, values);
    forall w | Over(w, |events|)
      ensures MonitorAt(mon, |events|, w) >= 0 <==>
              forall i :: 0 <= i < |leaves| && i in props ==> At(leaves, events, w, i) >= 0
      ensures MonitorAt(mon, |events|, w) >= 0 ==>
              forall k :: 0 <= k < |props| ==> reached[MonitorAt(mon, |events|, w)][k] == At(leaves, events, w, props[k])
    {
      SubProductExact(leaves, events, props, reached, mon, w);
      if forall i :: 0 <= i < |leaves| && i in props ==> At(leaves, events, w, i) >= 0 {
        forall k | 0 <= k < |props|
          ensures At(leaves, events, w, props[k]) >= 0
        {
          assert props[k] in props;
        }
      }
    }
    r := Some(m);
    if forall k :: 0 <= k < |props| ==> Distinct(valueOf[props[k]]) {
      ShownDistinct(leaves, valueOf, props, reached, values);
    }
  }

  /** Different tuples show different values when the states of each property leaf do. */
  lemma ShownDistinct(leaves: seq<Lts>, valueOf: seq<seq<int>>, props: seq<nat>, tuples: seq<Tuple>, values: seq<seq<int>>)
    requires PropertyLeaves(leaves, props) && Valued(leaves, valueOf) && Found(leaves, props, tuples)
    requires forall k :: 0 <= k < |props| ==> Distinct(valueOf[props[k]])
    requires |values| == |tuples| && forall s :: 0 <= s < |tuples| ==>
               InRange(leaves, props, tuples[s]) && values[s] == Shown(valueOf, props, tuples[s])
    ensures Distinct(values)
  {
    forall s, s' | 0 <= s < s' < |tuples|
      ensures values[s] != values[s']
    {
      assert tuples[s] != tuples[s'];
      var k :| 0 <= k < |props| && tuples[s][k] != tuples[s'][k];
      assert values[s][k] == valueOf[props[k]][tuples[s][k]];
      assert values[s'][k] == valueOf[props[k]][tuples[s'][k]];
      assert Distinct(valueOf[props[k]]);
    }
  }

  lemma MonitorFits(leaves: seq<Lts>, events: seq<Event>, props: seq<nat>, tuples: seq<Tuple>, mon: Monitor)
    requires FitsEvents(leaves, events) && PropertyLeaves(leaves, props) && Found(leaves, props, tuples)
    requires |mon.delta| == |tuples| == |mon.bad| && RowsRight(leaves, events, props, tuples, mon.delta)
    ensures FitsMonitor(mon, |events|)
  {
    forall q, a | 0 <= q < |mon.delta| && 0 <= a < |events|
      ensures |mon.delta[q]| == |events| && -1 <= mon.delta[q][a] < |mon.delta|
    {
      assert EntryRight(leaves, events, props, tuples, tuples[q], a, mon.delta[q][a]);
    }
  }
}
