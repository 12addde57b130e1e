/**
 Backward search inside a bound set, and the forward refinement of such a set
 (src/surface_backward.cc).
 */
module Backward {
  import opened Finite
  import opened Leaves
  import opened Closures
  import opened Impossibility
  import Diagrams
  import Terms
  import Inversion

  /** The leaves an event writes; no leaf listed means that its writes are unknown. */
  type Writes = seq<set<nat>>

  /** An event with listed writes changes no other leaf. */
  ghost predicate Honest(sys: System, writes: Writes) {
    && |writes| <= |sys.events|
    && forall i: nat, s, t :: i < |writes| && writes[i] != {} && Leads(sys, i, s, t) ==> AgreeOutside(s, t, writes[i])
  }

  ghost predicate AgreeOutside(s: State, t: State, changed: set<nat>) {
    |s| == |t| && forall p: nat :: p < |s| && p !in changed ==> s[p] == t[p]
  }

  ghost predicate AgreeOn(s: State, t: State, leaves: set<nat>) {
    |s| == |t| && forall p: nat :: p < |s| && p in leaves ==> s[p] == t[p]
  }

  /** Whether a state is in `X` depends on these leaves only; no leaf listed means all of them. */
  ghost predicate Decided(X: set<State>, leaves: set<nat>) {
    leaves != {} ==> forall s, t :: AgreeOn(s, t, leaves) ==> (s in X <==> t in X)
  }

  /** The events that write one of the leaves, or may: all of them when no leaf is listed. */
  method EventsWriting(sys: System, writes: Writes, leaves: set<nat>) returns (which: seq<nat>)
    ensures forall i: nat :: i in which <==>
              i < |sys.events| && (leaves == {} || i >= |writes| || writes[i] == {} || !(writes[i] !! leaves))
  {
    which := [];
    for i: nat := 0 to |sys.events|
      invariant forall j: nat :: j in which <==>
                  j < i && (leaves == {} || j >= |writes| || writes[j] == {} || !(writes[j] !! leaves))
    {
      if leaves == {} || i >= |writes| || writes[i] == {} || !(writes[i] !! leaves) {
        which := which + [i];
      }
    }
  }

  // ----- One step -----

  /** The converses relative to the set: only true pairs, and all whose source lies in the set. */
  ghost predicate Converses(sys: System, set': set<State>, conv: seq<Relation>) {
    && |conv| == |sys.events|
    && (forall i: nat, s, t :: i < |conv| && (t, s) in conv[i] ==> Leads(sys, i, s, t))
    && (forall i: nat, s, t :: i < |conv| && s in set' && Leads(sys, i, s, t) ==> (t, s) in conv[i])
  }

  function ImageOf(rel: Relation, x: set<State>): set<State> {
    set p | p in rel && p.0 in x :: p.1
  }

  ghost predicate StepsInto(sys: System, which: seq<nat>, s: State, x: set<State>) {
    exists i, t :: i in which && t in x && Leads(sys, i, s, t)
  }

  /** The predecessors inside the set, under the listed events; none when stopped. */
  method PreWithin(sys: System, x: set<State>, set': set<State>, conv: seq<Relation>, which: seq<nat>, mayStop: bool)
    returns (r: Option<set<State>>)
    requires Converses(sys, set', conv) && forall k :: 0 <= k < |which| ==> which[k] < |sys.events|
    ensures r.Some? ==> forall s :: s in r.value <==> s in set' && StepsInto(sys, which, s, x)
    ensures !mayStop ==> r.Some?
  {
    var acc: set<State> := {};
    for k := 0 to |which|
      invariant forall s :: s in acc <==> s in set' && StepsInto(sys, which[..k], s, x)
    {
      var stop: bool := *;
      if mayStop && stop {
        return None;
      }
      var p := ImageOf(conv[which[k]], x) * set';
      ghost var was := acc;
      acc := acc + p;
      PreStep(sys, x, set', conv, which, k, was, p);
    }
    assert which[..|which|] == which;
    return Some(acc);
  }

  lemma PreStep(sys: System, x: set<State>, set': set<State>, conv: seq<Relation>, which: seq<nat>, k: nat,
                acc: set<State>, p: set<State>)
    requires Converses(sys, set', conv) && (forall j :: 0 <= j < |which| ==> which[j] < |sys.events|) && k < |which|
    requires p == ImageOf(conv[which[k]], x) * set'
    requires forall s :: s in acc <==> s in set' && StepsInto(sys, which[..k], s, x)
    ensures forall s :: s in acc + p <==> s in set' && StepsInto(sys, which[..k + 1], s, x)
  {
    var i := which[k];
    assert which[..k + 1] == which[..k] + [i];
    forall s
      ensures s in acc + p <==> s in set' && StepsInto(sys, which[..k + 1], s, x)
    {
      if s in p {
        var c :| c in conv[i] && c.0 in x && c.1 == s;
        assert c == (c.0, s) && i in which[..k + 1] && Leads(sys, i, s, c.0);
      }
      if s in acc {
        var j, t :| j in which[..k] && t in x && Leads(sys, j, s, t);
        assert j in which[..k + 1];
      }
      if s in set' && StepsInto(sys, which[..k + 1], s, x) {
        var j, t :| j in which[..k + 1] && t in x && Leads(sys, j, s, t);
        if j == i {
          assert (t, s) in conv[i];
          assert s in ImageOf(conv[i], x);
        } else {
          assert j in which[..k];
        }
      }
    }
  }

  // ----- The layers -----

  datatype How = ReachedInit | ClosedOff | Open | Partial

  /** From every state of `seen` some run leads into `X`. */
  ghost predicate LeadTo(sys: System, seen: set<State>, X: set<State>) {
    forall s {:trigger RunsInto(sys, s, X)} :: s in seen ==> RunsInto(sys, s, X)
  }

  ghost predicate RunsInto(sys: System, s: State, X: set<State>) {
    exists t :: t in X && Star(StepOf(sys), s, t)
  }

  /** What steps into a state of `seen` behind the frontier is seen. */
  ghost predicate Behind(sys: System, set': set<State>, seen: set<State>, frontier: set<State>) {
    forall i: nat, s, t :: s in set' && t in seen && t !in frontier && Leads(sys, i, s, t) ==> s in seen
  }

  lemma LeadToMore(sys: System, seen: set<State>, frontier: set<State>, fresh': set<State>, which: seq<nat>, X: set<State>)
    requires LeadTo(sys, seen, X) && frontier <= seen && forall s :: s in fresh' ==> StepsInto(sys, which, s, frontier)
    ensures LeadTo(sys, seen + fresh', X)
  {
    forall s | s in fresh'
      ensures RunsInto(sys, s, X)
    {
      var i, t :| i in which && t in frontier && Leads(sys, i, s, t);
      assert RunsInto(sys, t, X);
      var u :| u in X && Star(StepOf(sys), t, u);
      StarStep(StepOf(sys), s, t);
      StarTrans(StepOf(sys), s, t, u);
    }
  }

  /** An event that writes no leaf `X` reads neither enters nor leaves `X`. */
  lemma NoEntryWithoutWriting(sys: System, writes: Writes, leaves: set<nat>, X: set<State>, which: seq<nat>, i: nat, s: State, t: State)
    requires Honest(sys, writes) && Decided(X, leaves) && Leads(sys, i, s, t) && i !in which && t in X
    requires forall j: nat :: j in which <==>
               j < |sys.events| && (leaves == {} || j >= |writes| || writes[j] == {} || !(writes[j] !! leaves))
    ensures s in X
  {
    assert i < |writes| && writes[i] != {} && writes[i] !! leaves && leaves != {};
    assert AgreeOutside(s, t, writes[i]);
    assert AgreeOn(s, t, leaves);
  }

  /** The first layer, through the events that write a leaf of `X`, misses no entry. */
  lemma FirstLayer(sys: System, writes: Writes, leaves: set<nat>, X: set<State>, set': set<State>, which: seq<nat>,
                   seen: set<State>, pre: set<State>)
    requires Honest(sys, writes) && Decided(X, leaves) && seen == X * set'
    requires forall j: nat :: j in which <==>
               j < |sys.events| && (leaves == {} || j >= |writes| || writes[j] == {} || !(writes[j] !! leaves))
    requires forall s :: s in pre <==> s in set' && StepsInto(sys, which, s, seen)
    ensures Behind(sys, set', seen + (pre - seen), pre - seen)
  {
    forall i: nat, s, t | s in set' && t in seen && Leads(sys, i, s, t)
      ensures s in seen + (pre - seen)
    {
      if i in which {
        assert StepsInto(sys, which, s, seen);
      } else {
        NoEntryWithoutWriting(sys, writes, leaves, X, which, i, s, t);
      }
    }
  }

  lemma NextLayer(sys: System, set': set<State>, which: seq<nat>, seen: set<State>, frontier: set<State>, pre: set<State>)
    requires Behind(sys, set', seen, frontier) && frontier <= seen
    requires forall j: nat :: j in which <==> j < |sys.events|
    requires forall s :: s in pre <==> s in set' && StepsInto(sys, which, s, frontier)
    ensures Behind(sys, set', seen + (pre - seen), pre - seen)
  {
    forall i: nat, s, t | s in set' && t in seen && Leads(sys, i, s, t)
      ensures s in seen + (pre - seen)
    {
      if t in frontier {
        assert i in which;
        assert StepsInto(sys, which, s, frontier);
      }
    }
  }

  /** A set behind which nothing of the bound leads, and which is not initial, is never reached. */
  lemma NeverReached(sys: System, set': set<State>, seen: set<State>)
    requires Covers(sys, set') && Behind(sys, set', seen, {}) && seen !! sys.init
    ensures forall s :: Reachable(sys, s) ==> s !in seen
  {
    Invariant(sys, OutOf(seen));
  }

  lemma InitRuns(sys: System, X: set<State>, seen: set<State>, frontier: set<State>)
    requires LeadTo(sys, seen, X) && frontier <= seen && !(frontier !! sys.init)
    ensures exists t :: t in X && Reachable(sys, t)
  {
    var s :| s in frontier && s in sys.init;
    assert RunsInto(sys, s, X);
    var t :| t in X && Star(StepOf(sys), s, t);
    assert Reachable(sys, t);
  }

  // ----- How many steps a state is away -----

  ghost predicate StepsAnyhow(sys: System, s: State, x: set<State>) {
    exists i: nat, t :: t in x && Leads(sys, i, s, t)
  }

  /** The states of the set from which at most `k` steps inside it lead into `X`. */
  ghost function Near(sys: System, set': set<State>, X: set<State>, k: nat): set<State>
    decreases k
  {
    if k == 0 then X * set'
    else
      var before := Near(sys, set', X, k - 1);
      before + set s | s in set' && StepsAnyhow(sys, s, before)
  }

  /** A step that stays in the set. */
  ghost function StepIn(sys: System, set': set<State>): (State, State) -> bool {
    (s, t) => s in set' && t in set' && Steps(sys, s, t)
  }

  /** A run inside the set leads into `X`. */
  ghost predicate RunsInside(sys: System, set': set<State>, X: set<State>, s: State) {
    s in set' && exists t :: t in X && t in set' && Star(StepIn(sys, set'), s, t)
  }

  lemma {:induction false} NearInside(sys: System, set': set<State>, X: set<State>, k: nat)
    ensures Near(sys, set', X, k) <= set' && X * set' <= Near(sys, set', X, k)
    decreases k
  {
    if k > 0 {
      NearInside(sys, set', X, k - 1);
    }
  }

  /** Every state that is near has its run. */
  lemma {:induction false} NearRuns(sys: System, set': set<State>, X: set<State>, k: nat, s: State)
    requires s in Near(sys, set', X, k)
    ensures RunsInside(sys, set', X, s)
    decreases k
  {
    var R := StepIn(sys, set');
    if k == 0 {
      StarRefl(R, s);
    } else {
      var before := Near(sys, set', X, k - 1);
      if s in before {
        NearRuns(sys, set', X, k - 1, s);
      } else {
        var i: nat, t :| t in before && Leads(sys, i, s, t);
        NearRuns(sys, set', X, k - 1, t);
        NearInside(sys, set', X, k - 1);
        var u :| u in X && u in set' && Star(R, t, u);
        assert R(s, t);
        StarStep(R, s, t);
        StarTrans(R, s, t, u);
      }
    }
  }

  ghost function FarFrom(seen: set<State>): State -> bool {
    (s: State) => s !in seen
  }

  /** Once a layer adds nothing, a step into it comes from it. */
  lemma NearTakes(sys: System, set': set<State>, X: set<State>, k: nat, x: State, y: State)
    requires Near(sys, set', X, k) == Near(sys, set', X, k + 1) && StepIn(sys, set')(x, y) && y in Near(sys, set', X, k)
    ensures x in Near(sys, set', X, k)
  {
    assert StepsAnyhow(sys, x, Near(sys, set', X, k));
  }

  /** Once a layer adds nothing, every state with a run is near. */
  lemma NearAll(sys: System, set': set<State>, X: set<State>, k: nat, s: State)
    requires Near(sys, set', X, k) == Near(sys, set', X, k + 1) && RunsInside(sys, set', X, s)
    ensures s in Near(sys, set', X, k)
  {
    var R, seen := StepIn(sys, set'), Near(sys, set', X, k);
    NearInside(sys, set', X, k);
    var t :| t in X && t in set' && Star(R, s, t);
    var p :| Path(R, p, s, t);
    if s !in seen {
      forall x, y | FarFrom(seen)(x) && R(x, y)
        ensures FarFrom(seen)(y)
      {
        if y in seen {
          NearTakes(sys, set', X, k, x, y);
        }
      }
      ClosedHolds(R, FarFrom(seen), p, s, t);
    }
  }

  /** A layer: exactly the states one step further. */
  lemma NearStep(sys: System, set': set<State>, X: set<State>, k: nat, seen: set<State>, more: set<State>)
    requires seen == Near(sys, set', X, k) && more <= set' && more !! seen && Behind(sys, set', seen + more, more)
    requires forall s :: s in more ==> StepsAnyhow(sys, s, seen)
    ensures seen + more == Near(sys, set', X, k + 1)
  {
    forall s | s in set' && StepsAnyhow(sys, s, seen)
      ensures s in seen + more
    {
      var i: nat, t :| t in seen && Leads(sys, i, s, t);
    }
  }

  /** The layers so far, one state further each, and none of them initial. */
  ghost predicate Layered(sys: System, set': set<State>, X: set<State>, k: nat) {
    && (forall j: nat :: j < k ==> Near(sys, set', X, j) != Near(sys, set', X, j + 1))
    && (forall j: nat :: j < k ==> Near(sys, set', X, j) !! sys.init)
  }

  /** What the answer and the number of layers say, where `seen` holds the states near `X`. */
  ghost predicate Counted(sys: System, set': set<State>, X: set<State>, how: How, k: nat, seen: set<State>) {
    && seen == Near(sys, set', X, k)
    && (how.ClosedOff? ==> k > 0 && seen == Near(sys, set', X, k - 1) && Layered(sys, set', X, k - 1))
    && (!how.ClosedOff? ==> Layered(sys, set', X, k))
  }

  /** What a finished search says. */
  ghost predicate Says(sys: System, writes: Writes, leaves: set<nat>, X: set<State>, set': set<State>, how: How) {
    && (how.ReachedInit? ==> exists t :: t in X && Reachable(sys, t))
    && (how.ClosedOff? && Covers(sys, set') && Honest(sys, writes) && Decided(X, leaves) ==>
          forall t :: Reachable(sys, t) ==> t !in X)
  }

  /** One layer, without what was seen before; none when stopped. */
  method Layer(sys: System, conv: seq<Relation>, writes: Writes, leaves: set<nat>, X: set<State>, set': set<State>,
               seen: set<State>, frontier: set<State>, k: nat, first: seq<nat>, all: seq<nat>, mayStop: bool)
    returns (more: Option<set<State>>)
    requires Converses(sys, set', conv) && LeadTo(sys, seen, X) && frontier <= seen <= set'
    requires k == 0 ==> seen == X * set' == frontier
    requires k > 0 && Honest(sys, writes) && Decided(X, leaves) ==> Behind(sys, set', seen, frontier)
    requires forall j: nat :: j in all <==> j < |sys.events|
    requires forall j: nat :: j in first <==>
               j < |sys.events| && (leaves == {} || j >= |writes| || writes[j] == {} || !(writes[j] !! leaves))
    ensures !mayStop ==> more.Some?
    ensures more.Some? ==> more.value <= set' && more.value !! seen && LeadTo(sys, seen + more.value, X)
    ensures more.Some? ==> forall s :: s in more.value ==> StepsAnyhow(sys, s, seen)
    ensures more.Some? && Honest(sys, writes) && Decided(X, leaves) ==> Behind(sys, set', seen + more.value, more.value)
  {
    var which := if k == 0 then first else all;
    assert forall j :: 0 <= j < |which| ==> which[j] in which;
    var pre := PreWithin(sys, frontier, set', conv, which, mayStop);
    more := None;
    if pre.Some? {
      LeadToMore(sys, seen, frontier, pre.value - seen, which, X);
      forall s | s in pre.value
        ensures StepsAnyhow(sys, s, seen)
      {
        var i, t :| i in which && t in frontier && Leads(sys, i, s, t);
      }
      if Honest(sys, writes) && Decided(X, leaves) {
        if k == 0 {
          FirstLayer(sys, writes, leaves, X, set', first, seen, pre.value);
        } else {
          NextLayer(sys, set', all, seen, frontier, pre.value);
        }
      }
      more := Some(pre.value - seen);
    }
  }

  lemma LeadToSelf(sys: System, X: set<State>, seen: set<State>)
    requires seen <= X
    ensures LeadTo(sys, seen, X)
  {
    forall s | s in seen
      ensures RunsInto(sys, s, X)
    {
      StarRefl(StepOf(sys), s);
    }
  }

  /** Backward from `X` inside the set, layer by layer. */
  method SearchBackward(sys: System, conv: seq<Relation>, writes: Writes, leaves: set<nat>, X: set<State>, set': set<State>,
                        steps: nat, mayStop: bool)
    returns (how: How, k: nat, seen: set<State>)
    requires Converses(sys, set', conv)
    ensures Says(sys, writes, leaves, X, set', how)
    ensures how.ReachedInit? <==> !(seen !! sys.init)
    ensures how.Open? ==> steps != 0 && k == steps
    ensures steps != 0 ==> k <= steps
    ensures !mayStop ==> !how.Partial?
    ensures X * set' <= seen <= set' && LeadTo(sys, seen, X)
    ensures Honest(sys, writes) && Decided(X, leaves) ==> Counted(sys, set', X, how, k, seen)
    ensures Honest(sys, writes) && Decided(X, leaves) && how.ClosedOff? ==>
              forall s :: s in seen <==> RunsInside(sys, set', X, s)
  {
    hide LeadTo, Behind, Honest, Decided, Converses, RunsInside, Grown, Counted, Says;
    ghost var sure := Honest(sys, writes) && Decided(X, leaves);
    var all := EventsWriting(sys, writes, {});
    var first := EventsWriting(sys, writes, leaves);
    seen, k := X * set', 0;
    var frontier := seen;
    LeadToSelf(sys, X, seen);
    NearStart(sys, set', X);
    while true
      invariant X * set' <= seen <= set' && frontier <= seen && LeadTo(sys, seen, X)
      invariant k == 0 ==> seen == X * set' == frontier
      invariant k > 0 && sure ==> Behind(sys, set', seen, frontier)
      invariant (seen - frontier) !! sys.init && (steps != 0 ==> k <= steps)
      invariant sure ==> Grown(sys, set', X, k, seen)
      decreases |set' - seen|, if k == 0 then 1 else 0
    {
      Unfinished(sys, writes, leaves, X, set', k, seen);
      if !(frontier !! sys.init) {
        InitSays(sys, writes, leaves, X, set', seen, frontier);
        return ReachedInit, k, seen;
      }
      assert seen !! sys.init;
      if steps != 0 && k >= steps {
        return Open, k, seen;
      }
      var layer := Layer(sys, conv, writes, leaves, X, set', seen, frontier, k, first, all, mayStop);
      if layer.None? {
        return Partial, k, seen;
      }
      var more := layer.value;
      if sure {
        GrowsOn(sys, set', X, k, seen, more);
      }
      k := k + 1;
      if more == {} {
        assert seen + more == seen;
        ClosedSays(sys, writes, leaves, X, set', seen);
        return ClosedOff, k, seen;
      }
      Fewer(set', seen, more);
      seen, frontier := seen + more, more;
    }
  }

  /** The states near `X` after `k` layers, each of which added something and none of which met the initial states before. */
  ghost predicate Grown(sys: System, set': set<State>, X: set<State>, k: nat, seen: set<State>) {
    seen == Near(sys, set', X, k) && Layered(sys, set', X, k)
  }

  lemma Fewer(set': set<State>, seen: set<State>, more: set<State>)
    requires more <= set' && more !! seen && more != {}
    ensures |set' - (seen + more)| < |set' - seen|
  {
    var m := AnElement(more);
    SubsetSize(set' - (seen + more), set' - seen - {m});
  }

  /** What is said before the search closes. */
  lemma Unfinished(sys: System, writes: Writes, leaves: set<nat>, X: set<State>, set': set<State>, k: nat, seen: set<State>)
    ensures Says(sys, writes, leaves, X, set', Open) && Says(sys, writes, leaves, X, set', Partial)
    ensures Grown(sys, set', X, k, seen) ==> forall how: How :: !how.ClosedOff? ==> Counted(sys, set', X, how, k, seen)
  {
    hide Near, Layered;
  }

  lemma InitSays(sys: System, writes: Writes, leaves: set<nat>, X: set<State>, set': set<State>, seen: set<State>,
                 frontier: set<State>)
    requires LeadTo(sys, seen, X) && frontier <= seen && !(frontier !! sys.init)
    ensures Says(sys, writes, leaves, X, set', ReachedInit)
  {
    InitRuns(sys, X, seen, frontier);
  }

  /** One layer more, or the last. */
  lemma GrowsOn(sys: System, set': set<State>, X: set<State>, k: nat, seen: set<State>, more: set<State>)
    requires Grown(sys, set', X, k, seen) && seen !! sys.init
    requires more <= set' && more !! seen && Behind(sys, set', seen + more, more)
    requires forall s :: s in more ==> StepsAnyhow(sys, s, seen)
    ensures more != {} ==> Grown(sys, set', X, k + 1, seen + more)
    ensures more == {} ==>
              Counted(sys, set', X, ClosedOff, k + 1, seen) && forall s :: s in seen <==> RunsInside(sys, set', X, s)
  {
    hide Near, Behind, StepsAnyhow, Layered, RunsInside;
    NearStep(sys, set', X, k, seen, more);
    if more == {} {
      assert seen + more == seen;
      NearExactly(sys, set', X, k, seen);
    } else {
      var m := AnElement(more);
      LayeredMore(sys, set', X, k, seen, seen + more);
    }
  }

  lemma NearStart(sys: System, set': set<State>, X: set<State>)
    ensures Grown(sys, set', X, 0, X * set')
  {
  }

  lemma LayeredMore(sys: System, set': set<State>, X: set<State>, k: nat, seen: set<State>, now: set<State>)
    requires Layered(sys, set', X, k) && seen == Near(sys, set', X, k) && now == Near(sys, set', X, k + 1)
    requires seen != now && seen !! sys.init
    ensures Layered(sys, set', X, k + 1)
  {
    hide Near;
  }

  lemma NearExactly(sys: System, set': set<State>, X: set<State>, k: nat, seen: set<State>)
    requires seen == Near(sys, set', X, k) == Near(sys, set', X, k + 1)
    ensures forall s :: s in seen <==> RunsInside(sys, set', X, s)
  {
    hide Near, RunsInside;
    forall s
      ensures s in seen <==> RunsInside(sys, set', X, s)
    {
      if s in seen {
        NearRuns(sys, set', X, k, s);
      }
      if RunsInside(sys, set', X, s) {
        NearAll(sys, set', X, k, s);
      }
    }
  }

  lemma ClosedSays(sys: System, writes: Writes, leaves: set<nat>, X: set<State>, set': set<State>, seen: set<State>)
    requires X * set' <= seen && seen !! sys.init
    requires Honest(sys, writes) && Decided(X, leaves) ==> Behind(sys, set', seen, {})
    ensures Says(sys, writes, leaves, X, set', ClosedOff)
  {
    if Covers(sys, set') && Honest(sys, writes) && Decided(X, leaves) {
      NeverReached(sys, set', seen);
    }
  }

  // ----- Support -----

  /** The successors inside the set, under the listed events; none when stopped. */
  method PostWithin(sys: System, x: set<State>, set': set<State>, which: seq<nat>, mayStop: bool) returns (r: Option<set<State>>)
    requires forall k :: 0 <= k < |which| ==> which[k] < |sys.events|
    ensures r.Some? ==> forall t :: t in r.value <==> t in set' && SteppedFrom(sys, which, x, t)
    ensures !mayStop ==> r.Some?
  {
    var acc: set<State> := {};
    for k := 0 to |which|
      invariant forall t :: t in acc <==> t in set' && SteppedFrom(sys, which[..k], x, t)
    {
      var stop: bool := *;
      if mayStop && stop {
        return None;
      }
      var p := ImageOf(sys.events[which[k]], x) * set';
      ghost var was := acc;
      acc := acc + p;
      PostStep(sys, x, set', which, k, was, p);
    }
    assert which[..|which|] == which;
    return Some(acc);
  }

  ghost predicate SteppedFrom(sys: System, which: seq<nat>, x: set<State>, t: State) {
    exists i, s :: i in which && s in x && Leads(sys, i, s, t)
  }

  lemma PostStep(sys: System, x: set<State>, set': set<State>, which: seq<nat>, k: nat, acc: set<State>, p: set<State>)
    requires (forall j :: 0 <= j < |which| ==> which[j] < |sys.events|) && k < |which|
    requires p == ImageOf(sys.events[which[k]], x) * set'
    requires forall t :: t in acc <==> t in set' && SteppedFrom(sys, which[..k], x, t)
    ensures forall t :: t in acc + p <==> t in set' && SteppedFrom(sys, which[..k + 1], x, t)
  {
    var i := which[k];
    assert which[..k + 1] == which[..k] + [i];
    forall t
      ensures t in acc + p <==> t in set' && SteppedFrom(sys, which[..k + 1], x, t)
    {
      if t in p {
        var c :| c in sys.events[i] && c.0 in x && c.1 == t;
        assert c == (c.0, t) && i in which[..k + 1] && Leads(sys, i, c.0, t);
      }
      if t in acc {
        var j, s :| j in which[..k] && s in x && Leads(sys, j, s, t);
        assert j in which[..k + 1];
      }
      if t in set' && SteppedFrom(sys, which[..k + 1], x, t) {
        var j, s :| j in which[..k + 1] && s in x && Leads(sys, j, s, t);
        if j == i {
          assert (s, t) in sys.events[i];
          assert t in ImageOf(sys.events[i], x);
        } else {
          assert j in which[..k];
        }
      }
    }
  }

  /** Every state of `Y` is initial or stepped to from inside `Y`. */
  ghost predicate Supported(sys: System, which: seq<nat>, Y: set<State>) {
    forall t {:trigger SteppedFrom(sys, which, Y, t)} :: t in Y ==> t in sys.init || SteppedFrom(sys, which, Y, t)
  }

  /** The events that are left out never fire. */
  ghost predicate Enough(sys: System, which: seq<nat>) {
    forall i: nat :: i < |sys.events| && i !in which ==> NeverFires(sys, i)
  }

  /** One round keeps every supported set and every reachable state. */
  lemma RoundKeeps(sys: System, which: seq<nat>, cur: set<State>, img: set<State>)
    requires forall t :: t in img <==> t in cur && SteppedFrom(sys, which, cur, t)
    ensures forall Y: set<State> :: Y <= cur && Supported(sys, which, Y) ==> Y <= cur * (img + sys.init)
    ensures Covers(sys, cur) && Enough(sys, which) ==> Covers(sys, cur * (img + sys.init))
  {
    forall Y: set<State> | Y <= cur && Supported(sys, which, Y)
      ensures Y <= cur * (img + sys.init)
    {
      forall t | t in Y
        ensures t in cur * (img + sys.init)
      {
        if t !in sys.init {
          assert SteppedFrom(sys, which, Y, t);
          var i, s :| i in which && s in Y && Leads(sys, i, s, t);
          assert SteppedFrom(sys, which, cur, t);
        }
      }
    }
    if Covers(sys, cur) && Enough(sys, which) {
      ReachableKept(sys, which, cur, img);
    }
  }

  lemma ReachableKept(sys: System, which: seq<nat>, cur: set<State>, img: set<State>)
    requires forall t :: t in img <==> t in cur && SteppedFrom(sys, which, cur, t)
    requires Covers(sys, cur) && Enough(sys, which)
    ensures Covers(sys, cur * (img + sys.init))
  {
    var keep := InSet(cur * (img + sys.init));
    forall s | s in sys.init
      ensures keep(s)
    {
      InitReachable(sys, s);
    }
    forall i: nat, x, y | Reachable(sys, x) && Leads(sys, i, x, y)
      ensures keep(y)
    {
      StepReachable(sys, i, x, y);
      assert Enabled(sys, i, x);
      assert i in which;
      assert SteppedFrom(sys, which, cur, y);
    }
    Invariant(sys, keep);
  }

  ghost function InSet(X: set<State>): State -> bool {
    (s: State) => s in X
  }

  lemma ClosedIsSupported(sys: System, which: seq<nat>, cur: set<State>, img: set<State>)
    requires (forall t :: t in img <==> t in cur && SteppedFrom(sys, which, cur, t)) && cur * (img + sys.init) == cur
    ensures Supported(sys, which, cur)
  {
    forall t | t in cur
      ensures t in sys.init || SteppedFrom(sys, which, cur, t)
    {
      assert t in cur * (img + sys.init);
    }
  }

  /** The set after `k` rounds of keeping what is initial or stepped to. */
  ghost function Shrunk(sys: System, which: seq<nat>, set': set<State>, k: nat): set<State>
    decreases k
  {
    if k == 0 then set'
    else
      var cur := Shrunk(sys, which, set', k - 1);
      set t | t in cur && (t in sys.init || SteppedFrom(sys, which, cur, t))
  }

  /** The greatest supported set below the given one, by forward images; every iterate holds the reachable set. */
  method Support(sys: System, set': set<State>, which: seq<nat>, rounds: nat, mayStop: bool)
    returns (how: How, k: nat, cur: set<State>)
    requires forall k :: 0 <= k < |which| ==> which[k] < |sys.events|
    ensures cur <= set' && (Covers(sys, set') && Enough(sys, which) ==> Covers(sys, cur))
    ensures forall Y: set<State> :: Y <= set' && Supported(sys, which, Y) ==> Y <= cur
    ensures how.ClosedOff? ==> Supported(sys, which, cur)
    ensures how.Open? ==> rounds != 0 && k == rounds
    ensures rounds != 0 ==> k <= rounds
    ensures cur == Shrunk(sys, which, set', k) && (how.ClosedOff? ==> k > 0 && cur == Shrunk(sys, which, set', k - 1))
    ensures forall j: nat :: j + 1 < k || (j < k && !how.ClosedOff?) ==>
              Shrunk(sys, which, set', j) != Shrunk(sys, which, set', j + 1)
    ensures !how.ReachedInit? && (!mayStop && rounds == 0 ==> how.ClosedOff?)
  {
    hide SteppedFrom, Supported, Covers, Enough;
    cur, k := set', 0;
    while true
      invariant cur <= set' && (Covers(sys, set') && Enough(sys, which) ==> Covers(sys, cur))
      invariant forall Y: set<State> :: Y <= set' && Supported(sys, which, Y) ==> Y <= cur
      invariant cur == Shrunk(sys, which, set', k) && (rounds != 0 ==> k <= rounds)
      invariant forall j: nat :: j < k ==> Shrunk(sys, which, set', j) != Shrunk(sys, which, set', j + 1)
      decreases |cur|
    {
      if rounds != 0 && k >= rounds {
        return Open, k, cur;
      }
      var img := PostWithin(sys, cur, cur, which, mayStop);
      if img.None? {
        return Partial, k, cur;
      }
      RoundKeeps(sys, which, cur, img.value);
      var next := cur * (img.value + sys.init);
      assert next == Shrunk(sys, which, set', k + 1);
      k := k + 1;
      if next == cur {
        ClosedIsSupported(sys, which, cur, img.value);
        return ClosedOff, k, cur;
      }
      SubsetSize(next, cur);
      cur := next;
    }
  }

  // ----- Converses of terms -----

  /** The pairs of states a term leads between, on the words of a finite set. */
  ghost function PairsOf(U: set<Diagrams.Tree>, t: Terms.Term): Relation {
    set w, u | w in U && u in U && Terms.Maps(t, w, u) :: (Diagrams.Frontier(w), Diagrams.Frontier(u))
  }

  ghost function StatesOf(U: set<Diagrams.Tree>, P: Diagrams.Diag): set<State> {
    set w | w in U && Diagrams.Has(P, w) :: Diagrams.Frontier(w)
  }

  /** One event of the system: the pairs of a term, and of its converse relative to the potential. */
  ghost predicate Inverted(sh: Diagrams.Shape, U: set<Diagrams.Tree>, P: Diagrams.Diag, t: Terms.Term, r: Terms.Term) {
    && (forall w :: w in U ==> Diagrams.Laid(sh, w))
    && Inversion.Converse(sh, t, Inversion.WordSet(P), r, false) && Inversion.Settled(t, Inversion.WordSet(P))
  }

  lemma InvertedOnly(sh: Diagrams.Shape, U: set<Diagrams.Tree>, P: Diagrams.Diag, t: Terms.Term, r: Terms.Term, a: State, b: State)
    requires Inverted(sh, U, P, t, r) && (b, a) in PairsOf(U, r)
    ensures (a, b) in PairsOf(U, t)
  {
    var u, w :| u in U && w in U && Terms.Maps(r, u, w) && (Diagrams.Frontier(u), Diagrams.Frontier(w)) == (b, a);
    assert Terms.Maps(t, w, u);
  }

  lemma InvertedAll(sh: Diagrams.Shape, U: set<Diagrams.Tree>, P: Diagrams.Diag, t: Terms.Term, r: Terms.Term, a: State, b: State)
    requires Inverted(sh, U, P, t, r) && (a, b) in PairsOf(U, t) && a in StatesOf(U, P)
    ensures (b, a) in PairsOf(U, r)
  {
    var w, u :| w in U && u in U && Terms.Maps(t, w, u) && (Diagrams.Frontier(w), Diagrams.Frontier(u)) == (a, b);
    var x :| x in U && Diagrams.Has(P, x) && Diagrams.Frontier(x) == a;
    Diagrams.FrontierInjective(sh, w, x);
    assert Terms.Maps(r, u, w);
  }

  /** What the inverter returns for the events, read as relations on states, is what the search asks of its converses. */
  lemma InvertedConverses(sh: Diagrams.Shape, U: set<Diagrams.Tree>, P: Diagrams.Diag, ts: seq<Terms.Term>, rs: seq<Terms.Term>,
                          sys: System, conv: seq<Relation>)
    requires |ts| == |rs| == |sys.events| == |conv|
    requires forall i :: 0 <= i < |ts| ==> Inverted(sh, U, P, ts[i], rs[i])
    requires forall i :: 0 <= i < |ts| ==> sys.events[i] == PairsOf(U, ts[i])
    requires forall i :: 0 <= i < |rs| ==> conv[i] == PairsOf(U, rs[i])
    ensures Converses(sys, StatesOf(U, P), conv)
  {
    hide PairsOf, StatesOf, Inverted;
    forall i: nat, s, t | i < |conv| && (t, s) in conv[i]
      ensures Leads(sys, i, s, t)
    {
      InvertedOnly(sh, U, P, ts[i], rs[i], s, t);
    }
    forall i: nat, s, t | i < |conv| && s in StatesOf(U, P) && Leads(sys, i, s, t)
      ensures (t, s) in conv[i]
    {
      InvertedAll(sh, U, P, ts[i], rs[i], s, t);
    }
  }
}
