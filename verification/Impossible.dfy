/**
 Systems of events over finite sets of states, and the events that can be shown
 never to fire from any set that holds the reachable states (src/linear/dead.cc).
 */
module Impossibility {
  import opened Finite
  import opened Leaves
  import opened Closures

  /** A state: one value per leaf. */
  type State = seq<int>

  /** An event, as the pairs of states it leads between. */
  type Relation = set<(State, State)>

  datatype System = System(init: set<State>, events: seq<Relation>)

  ghost predicate Leads(sys: System, i: nat, s: State, t: State) {
    i < |sys.events| && (s, t) in sys.events[i]
  }

  ghost predicate Steps(sys: System, s: State, t: State) {
    exists i: nat :: Leads(sys, i, s, t)
  }

  ghost function StepOf(sys: System): (State, State) -> bool {
    (s, t) => Steps(sys, s, t)
  }

  ghost predicate Reachable(sys: System, t: State) {
    exists s :: s in sys.init && Star(StepOf(sys), s, t)
  }

  /** Event `i` can fire. */
  ghost predicate Enabled(sys: System, i: nat, s: State) {
    exists t :: Leads(sys, i, s, t)
  }

  /** A set that holds every reachable state. */
  ghost predicate Covers(sys: System, set': set<State>) {
    forall s :: Reachable(sys, s) ==> s in set'
  }

  lemma InitReachable(sys: System, s: State)
    requires s in sys.init
    ensures Reachable(sys, s)
  {
    StarRefl(StepOf(sys), s);
  }

  lemma StepReachable(sys: System, i: nat, s: State, t: State)
    requires Reachable(sys, s) && Leads(sys, i, s, t)
    ensures Reachable(sys, t)
  {
    var s0 :| s0 in sys.init && Star(StepOf(sys), s0, s);
    StarStep(StepOf(sys), s, t);
    StarTrans(StepOf(sys), s0, s, t);
  }

  /** What holds initially and is kept by every step from a reachable state holds of every reachable state. */
  lemma {:induction false} InvariantAlong(sys: System, X: State -> bool, p: seq<State>, s: State, t: State)
    requires Path(StepOf(sys), p, s, t) && Reachable(sys, s) && X(s)
    requires forall i, x, y :: Reachable(sys, x) && X(x) && Leads(sys, i, x, y) ==> X(y)
    ensures X(t)
    decreases |p|
  {
    if p != [] {
      var i: nat :| Leads(sys, i, s, p[0]);
      StepReachable(sys, i, s, p[0]);
      InvariantAlong(sys, X, p[1..], p[0], t);
    }
  }

  lemma Invariant(sys: System, X: State -> bool)
    requires forall s :: s in sys.init ==> X(s)
    requires forall i, x, y :: Reachable(sys, x) && X(x) && Leads(sys, i, x, y) ==> X(y)
    ensures forall t :: Reachable(sys, t) ==> X(t)
  {
    forall t | Reachable(sys, t)
      ensures X(t)
    {
      var s :| s in sys.init && Star(StepOf(sys), s, t);
      var p :| Path(StepOf(sys), p, s, t);
      InitReachable(sys, s);
      InvariantAlong(sys, X, p, s, t);
    }
  }

  // ----- Dead transitions -----

  datatype Verdict = Untested | NeverEnabled | OneStep | Alive

  /** The entering predecessors of a slice: some, none, or the question was stopped. */
  datatype Entry = Entered | NoEntry | Stopped

  /** The entry test: the event asked about, its slice, and which events are live. */
  type EntryTest = (nat, set<State>, seq<bool>) -> Entry

  /** Some live event leads from the set outside the slice into it. */
  ghost predicate Enters(sys: System, set': set<State>, slice: set<State>, live: seq<bool>) {
    exists j: nat, s, t :: j < |live| && live[j] && s in set' && s !in slice && t in slice && Leads(sys, j, s, t)
  }

  /** The test answers "no entry" only when there is none. */
  ghost predicate Faithful(sys: System, set': set<State>, entries: EntryTest) {
    forall i, slice, live :: entries(i, slice, live).NoEntry? && |live| == |sys.events| ==> !Enters(sys, set', slice, live)
  }

  /** A guard holds wherever its event can fire. */
  ghost predicate Guards(sys: System, guards: seq<Option<set<State>>>) {
    && |guards| == |sys.events|
    && forall i: nat, s, t :: Leads(sys, i, s, t) && guards[i].Some? ==> s in guards[i].value
  }

  ghost predicate NeverFires(sys: System, i: nat) {
    forall s :: Reachable(sys, s) ==> !Enabled(sys, i, s)
  }

  /** The part of the set where the guard holds; nothing for an untested event. */
  function Slice(set': set<State>, guard: Option<set<State>>): set<State> {
    match guard
    case Some(g) => set' * g
    case None => {}
  }

  ghost function OutOf(slice: set<State>): State -> bool {
    (s: State) => s !in slice
  }

  /** A slice that holds no initial state and is never entered holds no reachable state. */
  lemma NeverEntered(sys: System, set': set<State>, slice: set<State>, live: seq<bool>)
    requires Covers(sys, set') && |live| == |sys.events| && !Enters(sys, set', slice, live) && slice !! sys.init
    requires forall j: nat :: j < |live| && !live[j] ==> NeverFires(sys, j)
    ensures forall s :: Reachable(sys, s) ==> s !in slice
  {
    forall i: nat, x, y | Reachable(sys, x) && x !in slice && Leads(sys, i, x, y)
      ensures y !in slice
    {
      assert Enabled(sys, i, x);
    }
    Invariant(sys, OutOf(slice));
  }

  lemma SliceNeverFires(sys: System, set': set<State>, guards: seq<Option<set<State>>>, i: nat)
    requires Covers(sys, set') && Guards(sys, guards) && i < |guards| && guards[i].Some?
    requires forall s :: Reachable(sys, s) ==> s !in Slice(set', guards[i])
    ensures NeverFires(sys, i)
  {
    forall s | Reachable(sys, s)
      ensures !Enabled(sys, i, s)
    {
      assert s in set' && s !in guards[i].value;
    }
  }

  /** The events that may still fire: all that are not proved dead. */
  ghost function LiveOf(verdicts: seq<Verdict>): (live: seq<bool>)
    ensures |live| == |verdicts|
    ensures forall i :: 0 <= i < |live| ==> (live[i] <==> verdicts[i] != NeverEnabled && verdicts[i] != OneStep)
  {
    seq(|verdicts|, i requires 0 <= i < |verdicts| => verdicts[i] != NeverEnabled && verdicts[i] != OneStep)
  }

  /** The events the one-step test is run on: alive, exact, not enabled initially. */
  ghost predicate IsCandidate(sys: System, guards: seq<Option<set<State>>>, exact: seq<bool>, verdicts: seq<Verdict>, i: nat)
    requires i < |verdicts| == |guards| && (exact == [] || |exact| == |guards|)
  {
    verdicts[i] == Alive && (exact == [] || exact[i]) && guards[i].Some? && guards[i].value !! sys.init
  }

  /** What is live, what is a candidate, and that everything decided dead never fires. */
  ghost predicate Consistent(sys: System, guards: seq<Option<set<State>>>, exact: seq<bool>, verdicts: seq<Verdict>,
                             live: seq<bool>, candidate: seq<bool>) {
    && |verdicts| == |live| == |candidate| == |sys.events| == |guards| && (exact == [] || |exact| == |guards|)
    && live == LiveOf(verdicts)
    && (forall i: nat :: i < |candidate| ==> (candidate[i] <==> IsCandidate(sys, guards, exact, verdicts, i)))
    && (forall i: nat :: i < |live| && !live[i] ==> NeverFires(sys, i))
  }

  ghost function Count(bs: seq<bool>): nat {
    if bs == [] then 0 else Count(bs[..|bs| - 1]) + if bs[|bs| - 1] then 1 else 0
  }

  lemma {:induction false} CountFalls(bs: seq<bool>, i: nat)
    requires i < |bs| && bs[i]
    ensures Count(bs[i := false]) == Count(bs) - 1
    decreases |bs|
  {
    var n := |bs| - 1;
    if i < n {
      CountFalls(bs[..n], i);
      assert bs[i := false][..n] == bs[..n][i := false];
    } else {
      assert bs[i := false][..n] == bs[..n];
    }
  }

  datatype Report = Report(verdicts: seq<Verdict>, rounds: nat, stopped: bool)

  /** One candidate falls: it was not entered, so it never fires. */
  lemma Falls(sys: System, set': set<State>, guards: seq<Option<set<State>>>, entries: EntryTest, exact: seq<bool>,
              verdicts: seq<Verdict>, live: seq<bool>, candidate: seq<bool>, i: nat)
    requires Covers(sys, set') && Guards(sys, guards) && Faithful(sys, set', entries)
    requires Consistent(sys, guards, exact, verdicts, live, candidate)
    requires i < |candidate| && candidate[i] && entries(i, Slice(set', guards[i]), live).NoEntry?
    ensures Consistent(sys, guards, exact, verdicts[i := OneStep], live[i := false], candidate[i := false])
  {
    NeverEntered(sys, set', Slice(set', guards[i]), live);
    SliceNeverFires(sys, set', guards, i);
  }

  /** Test 1: the guard selects nothing of the set. */
  method FirstTest(sys: System, set': set<State>, guards: seq<Option<set<State>>>, verdicts: array<Verdict>)
    requires Covers(sys, set') && Guards(sys, guards) && verdicts.Length == |sys.events|
    modifies verdicts
    ensures verdicts[..] == FirstVerdicts(set', guards)
    ensures forall i: nat :: i < verdicts.Length && verdicts[i] == NeverEnabled ==> NeverFires(sys, i)
  {
    for i := 0 to |sys.events|
      invariant forall j :: 0 <= j < i ==> verdicts[j] == FirstVerdicts(set', guards)[j]
    {
      SliceIs(set', guards[i]);
      if guards[i].None? {
        verdicts[i] := Untested;
      } else {
        verdicts[i] := if Slice(set', guards[i]) == {} then NeverEnabled else Alive;
      }
    }
    forall i: nat | i < verdicts.Length && verdicts[i] == NeverEnabled
      ensures NeverFires(sys, i)
    {
      SliceNeverFires(sys, set', guards, i);
    }
  }

  /** Which events are live after the first test, and which the one-step test is run on. */
  method Prepare(sys: System, set': set<State>, guards: seq<Option<set<State>>>, exact: seq<bool>,
                 verdicts: array<Verdict>, live: array<bool>, candidate: array<bool>)
    requires verdicts.Length == live.Length == candidate.Length == |sys.events| == |guards| && live != candidate
    requires exact == [] || |exact| == |sys.events|
    requires forall i: nat :: i < verdicts.Length && verdicts[i] == NeverEnabled ==> NeverFires(sys, i)
    requires forall i :: 0 <= i < verdicts.Length ==> verdicts[i] != OneStep && (verdicts[i] == Alive ==> guards[i].Some?)
    modifies live, candidate
    ensures Consistent(sys, guards, exact, verdicts[..], live[..], candidate[..])
  {
    for i := 0 to |sys.events|
      invariant forall j :: 0 <= j < i ==> live[j] == (verdicts[j] != NeverEnabled)
      invariant forall j :: 0 <= j < i ==>
                  candidate[j] == (verdicts[j] == Alive && (exact == [] || exact[j]) && guards[j].value !! sys.init)
    {
      live[i] := verdicts[i] != NeverEnabled;
      candidate[i] := verdicts[i] == Alive && (exact == [] || exact[i]) && guards[i].value !! sys.init;
    }
  }

  // ----- What the tests compute -----

  /** The outcome of the first test: no guard, a guard that misses the set, or one that meets it. */
  ghost function FirstVerdicts(set': set<State>, guards: seq<Option<set<State>>>): (vs: seq<Verdict>)
    ensures |vs| == |guards|
    ensures forall i :: 0 <= i < |guards| ==> (vs[i] == Untested <==> guards[i].None?)
    ensures forall i :: 0 <= i < |guards| ==> (vs[i] == NeverEnabled <==> guards[i].Some? && guards[i].value !! set')
    ensures forall i :: 0 <= i < |guards| ==> vs[i] != OneStep
  {
    seq(|guards|, i requires 0 <= i < |guards| =>
      if guards[i].None? then Untested else if guards[i].value !! set' then NeverEnabled else Alive)
  }

  /** The one-step test, asked of the first `k` events to visit in turn, each time of the events still live. */
  ghost function Asked(sys: System, set': set<State>, guards: seq<Option<set<State>>>, exact: seq<bool>, entries: EntryTest,
                       visit: seq<nat>, vs: seq<Verdict>, k: nat): (r: seq<Verdict>)
    requires |vs| == |guards| && (exact == [] || |exact| == |guards|) && k <= |visit|
    requires forall j :: 0 <= j < |visit| ==> visit[j] < |guards|
    ensures |r| == |vs|
    decreases k
  {
    if k == 0 then vs
    else
      AskedOne(sys, set', guards, exact, entries, Asked(sys, set', guards, exact, entries, visit, vs, k - 1), visit[k - 1])
  }

  /** The verdicts after so many rounds. */
  ghost function AfterRounds(sys: System, set': set<State>, guards: seq<Option<set<State>>>, exact: seq<bool>, entries: EntryTest,
                             visit: seq<nat>, vs: seq<Verdict>, n: nat): (r: seq<Verdict>)
    requires |vs| == |guards| && (exact == [] || |exact| == |guards|)
    requires forall j :: 0 <= j < |visit| ==> visit[j] < |guards|
    ensures |r| == |vs|
    decreases n
  {
    if n == 0 then vs
    else Asked(sys, set', guards, exact, entries, visit, AfterRounds(sys, set', guards, exact, entries, visit, vs, n - 1), |visit|)
  }

  /** A verdict changes only from alive to one-step, and only for a candidate that is visited. */
  ghost predicate OnlyFalls(sys: System, guards: seq<Option<set<State>>>, exact: seq<bool>, visit: seq<nat>,
                            vs: seq<Verdict>, vs': seq<Verdict>)
    requires |vs| == |guards| && (exact == [] || |exact| == |guards|)
  {
    && |vs'| == |vs|
    && forall i: nat :: i < |vs| && vs'[i] != vs[i] ==> vs'[i] == OneStep && i in visit && IsCandidate(sys, guards, exact, vs, i)
  }

  lemma SliceIs(set': set<State>, guard: Option<set<State>>)
    ensures guard.Some? ==> Slice(set', guard) == guard.value * set'
    ensures guard.Some? ==> (Slice(set', guard) == {} <==> guard.value !! set')
  {
  }

  /** Some question is answered by a stop. */
  ghost predicate StopsSomewhere(set': set<State>, guards: seq<Option<set<State>>>, entries: EntryTest) {
    exists i: nat, live: seq<bool> :: i < |guards| && entries(i, Slice(set', guards[i]), live).Stopped?
  }

  /** One question: the verdict of a candidate that nothing enters falls. */
  ghost function AskedOne(sys: System, set': set<State>, guards: seq<Option<set<State>>>, exact: seq<bool>, entries: EntryTest,
                          vs: seq<Verdict>, i: nat): (r: seq<Verdict>)
    requires |vs| == |guards| && (exact == [] || |exact| == |guards|) && i < |guards|
    ensures |r| == |vs|
  {
    if IsCandidate(sys, guards, exact, vs, i) && entries(i, guards[i].value * set', LiveOf(vs)).NoEntry?
    then vs[i := OneStep] else vs
  }

  /** Ask about one event, if it is a candidate. */
  method Ask(sys: System, set': set<State>, guards: seq<Option<set<State>>>, exact: seq<bool>, entries: EntryTest,
             i: nat, verdicts: array<Verdict>, live: array<bool>, candidate: array<bool>)
    returns (fell: bool, stopped: bool)
    requires Covers(sys, set') && Guards(sys, guards) && Faithful(sys, set', entries) && i < |sys.events|
    requires live != candidate && verdicts.Length == live.Length == candidate.Length == |sys.events|
    requires Consistent(sys, guards, exact, verdicts[..], live[..], candidate[..])
    modifies verdicts, live, candidate
    ensures Consistent(sys, guards, exact, verdicts[..], live[..], candidate[..])
    ensures !stopped ==> verdicts[..] == AskedOne(sys, set', guards, exact, entries, old(verdicts[..]), i)
    ensures stopped ==> !fell && StopsSomewhere(set', guards, entries)
    ensures fell ==> candidate[..] == old(candidate[..])[i := false] && old(candidate[i]) && verdicts[i] == OneStep
    ensures !fell ==> verdicts[..] == old(verdicts[..]) && live[..] == old(live[..]) && candidate[..] == old(candidate[..])
    ensures !fell && !stopped && candidate[i] ==> entries(i, Slice(set', guards[i]), live[..]).Entered?
  {
    hide NeverFires, Count;
    fell, stopped := false, false;
    SliceIs(set', guards[i]);
    if candidate[i] {
      var answer := entries(i, Slice(set', guards[i]), live[..]);
      stopped := answer.Stopped?;
      if answer.NoEntry? {
        Falls(sys, set', guards, entries, exact, verdicts[..], live[..], candidate[..], i);
        ghost var v, l, c := verdicts[..], live[..], candidate[..];
        verdicts[i] := OneStep;
        candidate[i] := false;
        live[i] := false;
        fell := true;
        assert verdicts[..] == v[i := OneStep] && live[..] == l[i := false] && candidate[..] == c[i := false];
      }
    }
  }

  /** The verdicts in the course of a pass that began with `vs`. */
  ghost predicate InPass(sys: System, guards: seq<Option<set<State>>>, exact: seq<bool>, visit: seq<nat>,
                         vs: seq<Verdict>, now: seq<Verdict>, changed: bool)
    requires |vs| == |guards| && (exact == [] || |exact| == |guards|)
  {
    OnlyFalls(sys, guards, exact, visit, vs, now) && (changed <==> now != vs)
  }

  lemma PassStep(sys: System, guards: seq<Option<set<State>>>, exact: seq<bool>, visit: seq<nat>,
                 vs: seq<Verdict>, was: seq<Verdict>, changed: bool, i: nat)
    requires |vs| == |guards| && (exact == [] || |exact| == |guards|) && InPass(sys, guards, exact, visit, vs, was, changed)
    requires i < |guards| && i in visit && IsCandidate(sys, guards, exact, was, i)
    ensures InPass(sys, guards, exact, visit, vs, was[i := OneStep], true)
  {
    var now := was[i := OneStep];
    assert was[i] == Alive;
    assert vs[i] == Alive;
    assert now[i] != vs[i];
  }

  /** One pass over the candidates; stops at the first question that is stopped. */
  method Pass(sys: System, set': set<State>, guards: seq<Option<set<State>>>, exact: seq<bool>, entries: EntryTest,
              visit: seq<nat>, verdicts: array<Verdict>, live: array<bool>, candidate: array<bool>)
    returns (changed: bool, stopped: bool)
    requires Covers(sys, set') && Guards(sys, guards) && Faithful(sys, set', entries)
    requires live != candidate && verdicts.Length == live.Length == candidate.Length == |sys.events|
    requires forall k :: 0 <= k < |visit| ==> visit[k] < |sys.events|
    requires Consistent(sys, guards, exact, verdicts[..], live[..], candidate[..])
    modifies verdicts, live, candidate
    ensures Consistent(sys, guards, exact, verdicts[..], live[..], candidate[..])
    ensures Count(candidate[..]) <= old(Count(candidate[..])) && (changed ==> Count(candidate[..]) < old(Count(candidate[..])))
    ensures OnlyFalls(sys, guards, exact, visit, old(verdicts[..]), verdicts[..])
    ensures changed <==> verdicts[..] != old(verdicts[..])
    ensures !stopped ==> verdicts[..] == Asked(sys, set', guards, exact, entries, visit, old(verdicts[..]), |visit|)
    ensures stopped ==> StopsSomewhere(set', guards, entries)
    ensures !changed && !stopped ==>
              forall k :: 0 <= k < |visit| && candidate[visit[k]] ==>
                entries(visit[k], Slice(set', guards[visit[k]]), live[..]).Entered?
  {
    hide NeverFires, Count, OnlyFalls, Faithful, Covers, StopsSomewhere, Slice;
    changed, stopped := false, false;
    ghost var before, vs := candidate[..], verdicts[..];
    PassStart(sys, guards, exact, visit, vs);
    for k := 0 to |visit|
      invariant InPass(sys, guards, exact, visit, vs, verdicts[..], changed)
      invariant verdicts[..] == Asked(sys, set', guards, exact, entries, visit, vs, k)
      invariant Consistent(sys, guards, exact, verdicts[..], live[..], candidate[..])
      invariant Count(candidate[..]) <= Count(before) && (changed ==> Count(candidate[..]) < Count(before))
      invariant !changed ==> forall j :: 0 <= j < k && candidate[visit[j]] ==>
                  entries(visit[j], Slice(set', guards[visit[j]]), live[..]).Entered?
    {
      ghost var was, c := verdicts[..], candidate[..];
      var i := visit[k];
      var fell, cut := Ask(sys, set', guards, exact, entries, i, verdicts, live, candidate);
      if cut {
        return changed, true;
      }
      if fell {
        PassStep(sys, guards, exact, visit, vs, was, changed, i);
        CountFalls(c, i);
        changed := true;
      }
    }
  }

  lemma PassStart(sys: System, guards: seq<Option<set<State>>>, exact: seq<bool>, visit: seq<nat>, vs: seq<Verdict>)
    requires |vs| == |guards| && (exact == [] || |exact| == |guards|)
    ensures InPass(sys, guards, exact, visit, vs, vs, false)
  {
  }

  /** The events proved dead never fire; a completed run leaves only candidates that some live event enters. */
  method DeadTransitions(sys: System, set': set<State>, guards: seq<Option<set<State>>>, exact: seq<bool>,
                         entries: Option<EntryTest>, order: seq<nat>)
    returns (r: Report, ghost visit: seq<nat>)
    requires Covers(sys, set') && Guards(sys, guards) && (exact == [] || |exact| == |sys.events|)
    requires entries.Some? ==> Faithful(sys, set', entries.value)
    requires forall k :: 0 <= k < |order| ==> order[k] < |sys.events|
    ensures |r.verdicts| == |sys.events|
    ensures forall i: nat :: i < |r.verdicts| && (r.verdicts[i] == NeverEnabled || r.verdicts[i] == OneStep) ==> NeverFires(sys, i)
    ensures forall i :: 0 <= i < |r.verdicts| ==> (r.verdicts[i] == Untested <==> guards[i].None?)
    ensures forall i :: 0 <= i < |r.verdicts| ==>
              (r.verdicts[i] == NeverEnabled <==> guards[i].Some? && guards[i].value !! set')
    ensures forall i :: 0 <= i < |r.verdicts| && r.verdicts[i] == OneStep ==>
              && entries.Some? && set' != {} && (order == [] || i in order)
              && (exact == [] || exact[i]) && guards[i].Some? && guards[i].value !! sys.init
    ensures r.stopped ==> entries.Some? && StopsSomewhere(set', guards, entries.value)
    ensures entries.Some? && set' != {} && !r.stopped ==>
              forall i: nat :: i < |r.verdicts| && IsCandidate(sys, guards, exact, r.verdicts, i) && (order == [] || i in order) ==>
                entries.value(i, guards[i].value * set', LiveOf(r.verdicts)).Entered?
    ensures entries.None? || set' == {} ==> r == Report(FirstVerdicts(set', guards), 0, false)
    ensures forall j :: 0 <= j < |visit| ==> visit[j] < |guards|
    ensures Lists(sys, set', guards, exact, order, visit)
    ensures entries.Some? && set' != {} && !r.stopped ==> Settled(sys, set', guards, exact, entries.value, visit, r)
  {
    hide NeverFires, Faithful, Covers, Consistent, Progress, OnlyFalls, StopsSomewhere, Distinct, Guards;
    var n := |sys.events|;
    var verdicts, live, candidate := new Verdict[n], new bool[n], new bool[n];
    GuardsSize(sys, guards);
    FirstTest(sys, set', guards, verdicts);
    ghost var vs := FirstVerdicts(set', guards);
    var rounds, stopped: bool := 0, false;
    var todo := order;
    FirstIsListed(sys, set', guards, exact, order);
    if entries.Some? && set' != {} {
      Prepare(sys, set', guards, exact, verdicts, live, candidate);
      if todo == [] {
        todo := CandidateList(candidate);
        ListedAll(sys, set', guards, exact, live[..], candidate[..], todo);
      }
      rounds, stopped := RunRounds(sys, set', guards, exact, entries.value, todo, verdicts, live, candidate);
      if !stopped {
        AllEntered(sys, set', guards, exact, entries.value, order, todo, verdicts[..], live[..], candidate[..]);
      }
      DeadStay(sys, guards, exact, verdicts[..], live[..], candidate[..]);
      FallenSays(sys, set', guards, exact, order, todo, verdicts[..]);
    }
    visit := todo;
    r := Report(verdicts[..], rounds, stopped);
  }

  lemma GuardsSize(sys: System, guards: seq<Option<set<State>>>)
    requires Guards(sys, guards)
    ensures |guards| == |sys.events|
  {
  }

  lemma ListedAll(sys: System, set': set<State>, guards: seq<Option<set<State>>>, exact: seq<bool>, live: seq<bool>,
                  candidate: seq<bool>, visit: seq<nat>)
    requires Consistent(sys, guards, exact, FirstVerdicts(set', guards), live, candidate)
    requires Distinct(visit) && forall i: nat :: i in visit <==> i < |candidate| && candidate[i]
    ensures Lists(sys, set', guards, exact, [], visit)
    ensures forall i: nat :: i < |guards| && IsCandidate(sys, guards, exact, FirstVerdicts(set', guards), i) ==> i in visit
  {
  }

  lemma DeadStay(sys: System, guards: seq<Option<set<State>>>, exact: seq<bool>, vs: seq<Verdict>, live: seq<bool>, candidate: seq<bool>)
    requires Consistent(sys, guards, exact, vs, live, candidate)
    ensures forall i: nat :: i < |vs| && (vs[i] == NeverEnabled || vs[i] == OneStep) ==> NeverFires(sys, i)
  {
    hide NeverFires;
  }

  /** What a verdict that fell says. */
  lemma FallenSays(sys: System, set': set<State>, guards: seq<Option<set<State>>>, exact: seq<bool>, order: seq<nat>,
                   visit: seq<nat>, vs: seq<Verdict>)
    requires exact == [] || |exact| == |guards|
    requires OnlyFalls(sys, guards, exact, visit, FirstVerdicts(set', guards), vs) && (order != [] ==> visit == order)
    ensures |vs| == |guards|
    ensures forall i :: 0 <= i < |vs| ==> (vs[i] == Untested <==> guards[i].None?)
    ensures forall i :: 0 <= i < |vs| ==> (vs[i] == NeverEnabled <==> guards[i].Some? && guards[i].value !! set')
    ensures forall i :: 0 <= i < |vs| && vs[i] == OneStep ==>
              && (order == [] || i in order)
              && (exact == [] || exact[i]) && guards[i].Some? && guards[i].value !! sys.init
  {
    var first := FirstVerdicts(set', guards);
    forall i: nat | i < |vs|
      ensures vs[i] == first[i] || (vs[i] == OneStep && i in visit && IsCandidate(sys, guards, exact, first, i))
    {
    }
  }

  /** Rounds of passes until one changes nothing or is stopped. */
  method RunRounds(sys: System, set': set<State>, guards: seq<Option<set<State>>>, exact: seq<bool>, entries: EntryTest,
                   visit: seq<nat>, verdicts: array<Verdict>, live: array<bool>, candidate: array<bool>)
    returns (rounds: nat, stopped: bool)
    requires Covers(sys, set') && Guards(sys, guards) && Faithful(sys, set', entries)
    requires live != candidate && verdicts.Length == live.Length == candidate.Length == |sys.events| == |guards|
    requires (exact == [] || |exact| == |guards|) && forall k :: 0 <= k < |visit| ==> visit[k] < |sys.events|
    requires Consistent(sys, guards, exact, verdicts[..], live[..], candidate[..]) && verdicts[..] == FirstVerdicts(set', guards)
    modifies verdicts, live, candidate
    ensures Consistent(sys, guards, exact, verdicts[..], live[..], candidate[..])
    ensures OnlyFalls(sys, guards, exact, visit, FirstVerdicts(set', guards), verdicts[..])
    ensures rounds >= 1 && (stopped ==> StopsSomewhere(set', guards, entries))
    ensures !stopped ==> Progress(sys, set', guards, exact, entries, visit, verdicts[..], rounds, false)
    ensures !stopped ==> forall k :: 0 <= k < |visit| && candidate[visit[k]] ==>
              entries(visit[k], Slice(set', guards[visit[k]]), live[..]).Entered?
  {
    hide NeverFires, Count, Faithful, Covers, Progress, OnlyFalls, StopsSomewhere, Consistent, Slice, Asked, FirstVerdicts;
    ghost var vs := FirstVerdicts(set', guards);
    rounds, stopped := 0, false;
    var changed := true;
    RoundsStart(sys, set', guards, exact, entries, visit, vs);
    while changed && !stopped
      invariant Consistent(sys, guards, exact, verdicts[..], live[..], candidate[..])
      invariant OnlyFalls(sys, guards, exact, visit, vs, verdicts[..])
      invariant stopped ==> StopsSomewhere(set', guards, entries)
      invariant rounds >= 1 || (changed && !stopped)
      invariant !stopped ==> Progress(sys, set', guards, exact, entries, visit, verdicts[..], rounds, changed)
      invariant !changed && !stopped ==> forall k :: 0 <= k < |visit| && candidate[visit[k]] ==>
                  entries(visit[k], Slice(set', guards[visit[k]]), live[..]).Entered?
      decreases Count(candidate[..]), if changed then 1 else 0
    {
      ghost var was := verdicts[..];
      rounds := rounds + 1;
      changed, stopped := Pass(sys, set', guards, exact, entries, visit, verdicts, live, candidate);
      FallsChain(sys, guards, exact, visit, vs, was, verdicts[..]);
      if !stopped {
        RoundsMore(sys, set', guards, exact, entries, visit, was, verdicts[..], rounds, changed);
      }
    }
  }

  /** What is visited: the given order, or every candidate of the first test once. */
  ghost predicate Lists(sys: System, set': set<State>, guards: seq<Option<set<State>>>, exact: seq<bool>, order: seq<nat>,
                        visit: seq<nat>)
    requires exact == [] || |exact| == |guards|
  {
    && (order != [] ==> visit == order)
    && (order == [] && visit != [] ==>
          Distinct(visit) && forall i: nat :: i in visit <==> i < |guards| && IsCandidate(sys, guards, exact, FirstVerdicts(set', guards), i))
  }

  /** The verdicts after these rounds; every round but the last changed some. */
  ghost predicate Progress(sys: System, set': set<State>, guards: seq<Option<set<State>>>, exact: seq<bool>, entries: EntryTest,
                           visit: seq<nat>, vs: seq<Verdict>, rounds: nat, changed: bool)
    requires exact == [] || |exact| == |guards|
    requires forall j :: 0 <= j < |visit| ==> visit[j] < |guards|
  {
    var first := FirstVerdicts(set', guards);
    && vs == AfterRounds(sys, set', guards, exact, entries, visit, first, rounds)
    && (!changed ==> rounds >= 1)
    && forall j: nat :: j < rounds ==> (Idle(sys, set', guards, exact, entries, visit, j) <==> j + 1 == rounds && !changed)
  }

  /** Round `j + 1` changes nothing. */
  ghost predicate Idle(sys: System, set': set<State>, guards: seq<Option<set<State>>>, exact: seq<bool>, entries: EntryTest,
                       visit: seq<nat>, j: nat)
    requires exact == [] || |exact| == |guards|
    requires forall j :: 0 <= j < |visit| ==> visit[j] < |guards|
  {
    var first := FirstVerdicts(set', guards);
    AfterRounds(sys, set', guards, exact, entries, visit, first, j)
    == AfterRounds(sys, set', guards, exact, entries, visit, first, j + 1)
  }

  /** The report of a completed run: rounds until one changes nothing. */
  ghost predicate Settled(sys: System, set': set<State>, guards: seq<Option<set<State>>>, exact: seq<bool>, entries: EntryTest,
                          visit: seq<nat>, r: Report)
    requires exact == [] || |exact| == |guards|
    requires forall j :: 0 <= j < |visit| ==> visit[j] < |guards|
  {
    Progress(sys, set', guards, exact, entries, visit, r.verdicts, r.rounds, false)
  }

  /** The candidates, when the caller gives no order. */
  method CandidateList(candidate: array<bool>) returns (visit: seq<nat>)
    ensures forall k :: 0 <= k < |visit| ==> visit[k] < candidate.Length
    ensures Distinct(visit) && forall i: nat :: i in visit <==> i < candidate.Length && candidate[i]
  {
    visit := [];
    for i: nat := 0 to candidate.Length
      invariant forall k :: 0 <= k < |visit| ==> visit[k] < i
      invariant Distinct(visit) && forall j: nat :: j in visit <==> j < i && candidate[j]
    {
      if candidate[i] {
        visit := visit + [i];
      }
    }
  }

  lemma RoundsStart(sys: System, set': set<State>, guards: seq<Option<set<State>>>, exact: seq<bool>, entries: EntryTest,
                    visit: seq<nat>, vs: seq<Verdict>)
    requires (exact == [] || |exact| == |guards|) && vs == FirstVerdicts(set', guards)
    requires forall j :: 0 <= j < |visit| ==> visit[j] < |guards|
    ensures Progress(sys, set', guards, exact, entries, visit, vs, 0, true)
    ensures OnlyFalls(sys, guards, exact, visit, vs, vs)
  {
  }

  lemma RoundsMore(sys: System, set': set<State>, guards: seq<Option<set<State>>>, exact: seq<bool>, entries: EntryTest,
                   visit: seq<nat>, was: seq<Verdict>, now: seq<Verdict>, rounds: nat, changed: bool)
    requires (exact == [] || |exact| == |guards|) && rounds > 0
    requires forall j :: 0 <= j < |visit| ==> visit[j] < |guards|
    requires Progress(sys, set', guards, exact, entries, visit, was, rounds - 1, true)
    requires |was| == |guards| && now == Asked(sys, set', guards, exact, entries, visit, was, |visit|) && (changed <==> now != was)
    ensures Progress(sys, set', guards, exact, entries, visit, now, rounds, changed)
  {
    hide Asked, FirstVerdicts;
  }

  lemma FallsChain(sys: System, guards: seq<Option<set<State>>>, exact: seq<bool>, visit: seq<nat>,
                   vs: seq<Verdict>, was: seq<Verdict>, now: seq<Verdict>)
    requires |vs| == |guards| && (exact == [] || |exact| == |guards|)
    requires OnlyFalls(sys, guards, exact, visit, vs, was) && |was| == |vs| && OnlyFalls(sys, guards, exact, visit, was, now)
    ensures OnlyFalls(sys, guards, exact, visit, vs, now)
  {
  }

  lemma FirstIsListed(sys: System, set': set<State>, guards: seq<Option<set<State>>>, exact: seq<bool>, order: seq<nat>)
    requires exact == [] || |exact| == |guards|
    ensures Lists(sys, set', guards, exact, order, order)
  {
  }

  /** The candidates that are left were all asked in the last round. */
  lemma AllEntered(sys: System, set': set<State>, guards: seq<Option<set<State>>>, exact: seq<bool>, entries: EntryTest,
                   order: seq<nat>, visit: seq<nat>, vs: seq<Verdict>, live: seq<bool>, candidate: seq<bool>)
    requires Consistent(sys, guards, exact, vs, live, candidate)
    requires OnlyFalls(sys, guards, exact, visit, FirstVerdicts(set', guards), vs) && Lists(sys, set', guards, exact, order, visit)
    requires order == [] ==> forall i: nat :: i < |guards| && IsCandidate(sys, guards, exact, FirstVerdicts(set', guards), i) ==> i in visit
    requires forall k :: 0 <= k < |visit| ==> visit[k] < |guards|
    requires forall k :: 0 <= k < |visit| && candidate[visit[k]] ==>
               entries(visit[k], Slice(set', guards[visit[k]]), live).Entered?
    ensures forall i: nat :: i < |vs| && IsCandidate(sys, guards, exact, vs, i) && (order == [] || i in order) ==>
              entries(i, guards[i].value * set', LiveOf(vs)).Entered?
  {
    forall i: nat | i < |vs| && IsCandidate(sys, guards, exact, vs, i) && (order == [] || i in order)
      ensures entries(i, guards[i].value * set', LiveOf(vs)).Entered?
    {
      SliceIs(set', guards[i]);
      assert i in visit;
      var k :| 0 <= k < |visit| && visit[k] == i;
    }
  }
}
