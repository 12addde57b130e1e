/**
 The verification input: leaves synchronised by events under a safety monitor
 (src/cegar/model.cc), and the explicit walk of its product.
 */
module Models {
  import opened Words
  import opened Finite
  import opened Leaves
  import opened Exploration

  /** A word over events, by event index. */
  type EventWord = Word

  /** The letters an event gives to leaves: at most one per leaf, by increasing leaf. */
  datatype Event = Event(support: seq<(nat, nat)>)

  /** The monitor: its state after event `e` in state `s` is `delta[s][e]`, negative where there is none. */
  datatype Monitor = Monitor(delta: seq<seq<int>>, bad: seq<bool>)

  datatype Model = Model(leaves: seq<Lts>, events: seq<Event>, mon: Monitor, propLeaves: seq<nat>,
                         monitorValues: seq<seq<int>>)

  // ----- Well-formed models -----

  /** The letters of an event are letters of the components they go to. */
  ghost predicate FitsEvent(comps: seq<Lts>, e: Event) {
    && (forall k :: 0 <= k < |e.support| ==>
          e.support[k].0 < |comps| && e.support[k].1 < comps[e.support[k].0].nLetters)
    && (forall k, k' :: 0 <= k < k' < |e.support| ==> e.support[k].0 < e.support[k'].0)
  }

  ghost predicate FitsEvents(comps: seq<Lts>, events: seq<Event>) {
    && (forall i :: 0 <= i < |comps| ==> comps[i].Valid())
    && (forall e :: 0 <= e < |events| ==> FitsEvent(comps, events[e]))
  }

  /** The monitor's table, read as a leaf whose letters are the events. */
  function MonitorLts(mon: Monitor, nEvents: nat): Lts {
    Lts(|mon.delta|, nEvents, mon.delta)
  }

  ghost predicate FitsMonitor(mon: Monitor, nEvents: nat) {
    MonitorLts(mon, nEvents).Valid() && |mon.bad| == |mon.delta|
  }

  ghost predicate Synchronised(comps: seq<Lts>, events: seq<Event>, mon: Monitor) {
    FitsEvents(comps, events) && FitsMonitor(mon, |events|)
  }

  // ----- Projections -----

  /** The letter this event gives leaf `i`, if it supports it: the first one listed. */
  function LetterFor(e: Event, i: nat): (r: Option<nat>)
    ensures r.Some? ==> (i, r.value) in e.support
    ensures r.None? ==> forall a :: (i, a) !in e.support
  {
    LetterFrom(e.support, i)
  }

  function LetterFrom(support: seq<(nat, nat)>, i: nat): (r: Option<nat>)
    ensures r.Some? ==> (i, r.value) in support
    ensures r.None? ==> forall a :: (i, a) !in support
  {
    if support == [] then None
    else if support[0].0 == i then Some(support[0].1)
    else
      assert support == [support[0]] + support[1..];
      LetterFrom(support[1..], i)
  }

  /** The word leaf `i` reads along an event word. */
  ghost function Project(events: seq<Event>, w: EventWord, i: nat): Word
    requires Over(w, |events|)
    decreases |w|
  {
    if w == [] then []
    else
      var u := Project(events, Init(w), i);
      match LetterFor(events[Last(w)], i)
      case Some(a) => u + [a]
      case None => u
  }

  lemma {:induction false} ProjectOver(comps: seq<Lts>, events: seq<Event>, w: EventWord, i: nat)
    requires FitsEvents(comps, events) && Over(w, |events|) && i < |comps|
    ensures Over(Project(events, w, i), comps[i].nLetters)
    decreases |w|
  {
    if w != [] {
      ProjectOver(comps, events, Init(w), i);
      assert FitsEvent(comps, events[Last(w)]);
    }
  }

  /** Where component `i` stands after `w`: -1 once some step was undefined. */
  ghost function At(comps: seq<Lts>, events: seq<Event>, w: EventWord, i: nat): (q: int)
    requires FitsEvents(comps, events) && Over(w, |events|) && i < |comps|
    ensures -1 <= q < comps[i].nStates
  {
    ProjectOver(comps, events, w, i);
    comps[i].Run(0, Project(events, w, i))
  }

  ghost function MonitorAt(mon: Monitor, nEvents: nat, w: EventWord): (s: int)
    requires FitsMonitor(mon, nEvents) && Over(w, nEvents)
    ensures -1 <= s < |mon.delta|
  {
    MonitorLts(mon, nEvents).Run(0, w)
  }

  /** The monitor and every component can follow `w`. */
  ghost predicate Enabled(comps: seq<Lts>, events: seq<Event>, mon: Monitor, w: EventWord)
    requires Synchronised(comps, events, mon) && Over(w, |events|)
  {
    && MonitorAt(mon, |events|, w) >= 0
    && forall i :: 0 <= i < |comps| ==> At(comps, events, w, i) >= 0
  }

  // ----- The product -----

  /** A product state: the monitor state and one state per component. */
  datatype State = State(monitor: nat, xs: seq<nat>)

  /** Let the supported components step, one after another; none if one of them cannot. */
  function StepSupport(comps: seq<Lts>, support: seq<(nat, nat)>, cur: seq<nat>, nxt: seq<nat>): Option<seq<nat>> {
    if support == [] then Some(nxt)
    else
      var (l, a) := support[0];
      if l < |comps| && l < |cur| && l < |nxt| && cur[l] < |comps[l].delta|
         && a < |comps[l].delta[cur[l]]| && comps[l].delta[cur[l]][a] >= 0
      then StepSupport(comps, support[1..], cur, nxt[l := comps[l].delta[cur[l]][a]])
      else None
  }

  function ProductStep(comps: seq<Lts>, events: seq<Event>, mon: Monitor, cur: State, e: nat): Option<State> {
    if cur.monitor < |mon.delta| && e < |mon.delta[cur.monitor]| && e < |events| && mon.delta[cur.monitor][e] >= 0
    then
      match StepSupport(comps, events[e].support, cur.xs, cur.xs)
      case Some(xs) => Some(State(mon.delta[cur.monitor][e], xs))
      case None => None
    else None
  }

  function ProductEdges(comps: seq<Lts>, events: seq<Event>, mon: Monitor): Edges<State> {
    (cur: State, e: nat) => ProductStep(comps, events, mon, cur, e)
  }

  /** One state per component. */
  ghost predicate Placed(comps: seq<Lts>, xs: seq<nat>) {
    |xs| == |comps| && forall i :: 0 <= i < |comps| ==> xs[i] < comps[i].nStates
  }

  /** The step of component `i` under a support: an unsupported component keeps its state in `nxt`. */
  function ComponentStep(comps: seq<Lts>, support: seq<(nat, nat)>, cur: seq<nat>, nxt: seq<nat>, i: nat): (q: int)
    requires i < |comps| && comps[i].Valid() && FitsEvent(comps, Event(support))
    requires |cur| == |nxt| == |comps| && cur[i] < comps[i].nStates && nxt[i] < comps[i].nStates
    ensures -1 <= q < comps[i].nStates
  {
    match LetterFrom(support, i)
    case Some(a) => comps[i].Step(cur[i], a)
    case None => nxt[i]
  }

  /** The support loop moves every supported component, or stops at one that cannot move. */
  lemma {:induction false} StepSupportMeaning(comps: seq<Lts>, support: seq<(nat, nat)>, cur: seq<nat>, nxt: seq<nat>)
    requires (forall i :: 0 <= i < |comps| ==> comps[i].Valid()) && FitsEvent(comps, Event(support))
    requires Placed(comps, cur) && Placed(comps, nxt)
    ensures var r := StepSupport(comps, support, cur, nxt);
            && (r.Some? <==>
                  (forall i :: 0 <= i < |comps| ==> ComponentStep(comps, support, cur, nxt, i) >= 0))
            && (r.Some? ==>
                  && Placed(comps, r.value)
                  && (forall i :: 0 <= i < |comps| ==> r.value[i] == ComponentStep(comps, support, cur, nxt, i)))
    decreases |support|
  {
    if support != [] {
      var (l, a) := support[0];
      var rest := support[1..];
      RestOfSupport(comps, support);
      var q := comps[l].Step(cur[l], a);
      if q >= 0 {
        var nxt' := nxt[l := q];
        StepSupportMeaning(comps, rest, cur, nxt');
        forall i | 0 <= i < |comps|
          ensures ComponentStep(comps, support, cur, nxt, i) == ComponentStep(comps, rest, cur, nxt', i)
        {
        }
      } else {
        assert ComponentStep(comps, support, cur, nxt, l) < 0;
      }
    }
  }

  /** The first supported leaf is not supported again. */
  lemma RestOfSupport(comps: seq<Lts>, support: seq<(nat, nat)>)
    requires support != [] && FitsEvent(comps, Event(support))
    ensures FitsEvent(comps, Event(support[1..]))
    ensures LetterFrom(support[1..], support[0].0).None?
  {
    var rest := support[1..];
    forall b
      ensures (support[0].0, b) !in rest
    {
    }
  }

  /** A product step moves the monitor and every component, or does not exist because one of them cannot move. */
  lemma ProductStepMeaning(comps: seq<Lts>, events: seq<Event>, mon: Monitor, cur: State, e: nat)
    requires Synchronised(comps, events, mon) && cur.monitor < |mon.delta| && Placed(comps, cur.xs) && e < |events|
    ensures FitsEvent(comps, Event(events[e].support)) && |mon.delta[cur.monitor]| == |events|
    ensures var r := ProductStep(comps, events, mon, cur, e);
            var support := events[e].support;
            && (r.Some? <==>
                  && mon.delta[cur.monitor][e] >= 0
                  && forall i :: 0 <= i < |comps| ==> ComponentStep(comps, support, cur.xs, cur.xs, i) >= 0)
            && (r.Some? ==>
                  && Placed(comps, r.value.xs) && r.value.monitor == mon.delta[cur.monitor][e] < |mon.delta|
                  && (forall i :: 0 <= i < |comps| ==>
                        r.value.xs[i] == ComponentStep(comps, support, cur.xs, cur.xs, i)))
  {
    assert FitsEvent(comps, events[e]) && Event(events[e].support) == events[e];
    StepSupportMeaning(comps, events[e].support, cur.xs, cur.xs);
  }

  /** The product state after `w`. */
  ghost function StateAt(comps: seq<Lts>, events: seq<Event>, mon: Monitor, w: EventWord): (s: State)
    requires Synchronised(comps, events, mon) && Over(w, |events|) && Enabled(comps, events, mon, w)
    ensures s.monitor == MonitorAt(mon, |events|, w) && Placed(comps, s.xs)
    ensures forall i :: 0 <= i < |comps| ==> s.xs[i] == At(comps, events, w, i)
  {
    State(MonitorAt(mon, |events|, w), seq(|comps|, i requires 0 <= i < |comps| => At(comps, events, w, i) as nat))
  }

  function InitialState(n: nat): State {
    State(0, seq(n, _ => 0))
  }

  /** The state of component `i` after event `e`, from state `q`. */
  ghost function AfterEvent(comps: seq<Lts>, events: seq<Event>, i: nat, q: nat, e: nat): int
    requires FitsEvents(comps, events) && i < |comps| && q < comps[i].nStates && e < |events|
  {
    assert FitsEvent(comps, events[e]);
    match LetterFor(events[e], i)
    case Some(a) => comps[i].Step(q, a)
    case None => q
  }

  lemma AtStep(comps: seq<Lts>, events: seq<Event>, w: EventWord, i: nat)
    requires FitsEvents(comps, events) && Over(w, |events|) && i < |comps| && w != []
    ensures var q := At(comps, events, Init(w), i);
            At(comps, events, w, i) == if q < 0 then -1 else AfterEvent(comps, events, i, q, Last(w))
  {
    var u := Project(events, Init(w), i);
    ProjectOver(comps, events, Init(w), i);
    ProjectOver(comps, events, w, i);
    match LetterFor(events[Last(w)], i)
    case Some(a) =>
      assert Project(events, w, i) == u + [a];
      assert Init(u + [a]) == u && Last(u + [a]) == a;
    case None =>
  }

  /** One more event, from a state everyone could reach. */
  lemma EnabledStep(comps: seq<Lts>, events: seq<Event>, mon: Monitor, w: EventWord)
    requires Synchronised(comps, events, mon) && Over(w, |events|) && w != []
    requires Enabled(comps, events, mon, Init(w))
    ensures ProductStep(comps, events, mon, StateAt(comps, events, mon, Init(w)), Last(w))
            == if Enabled(comps, events, mon, w) then Some(StateAt(comps, events, mon, w)) else None
  {
    var e := Last(w);
    var cur := StateAt(comps, events, mon, Init(w));
    ProductStepMeaning(comps, events, mon, cur, e);
    var r := ProductStep(comps, events, mon, cur, e);
    forall i | 0 <= i < |comps|
      ensures ComponentStep(comps, events[e].support, cur.xs, cur.xs, i) == At(comps, events, w, i)
    {
      AtStep(comps, events, w, i);
    }
    if r.Some? {
      assert Enabled(comps, events, mon, w);
      assert r.value.xs == StateAt(comps, events, mon, w).xs;
    }
  }

  /** Whoever follows `w` followed every shorter word. */
  lemma EnabledInit(comps: seq<Lts>, events: seq<Event>, mon: Monitor, w: EventWord)
    requires Synchronised(comps, events, mon) && Over(w, |events|) && w != []
    requires Enabled(comps, events, mon, w)
    ensures Enabled(comps, events, mon, Init(w))
  {
    forall i | 0 <= i < |comps|
      ensures At(comps, events, Init(w), i) >= 0
    {
      assert At(comps, events, w, i) >= 0;
      AtStep(comps, events, w, i);
    }
  }

  /** The path of `w` in the product: the state where everyone stands, as long as everyone can follow. */
  lemma {:induction false} ProductPath(comps: seq<Lts>, events: seq<Event>, mon: Monitor, w: EventWord)
    requires Synchronised(comps, events, mon) && Over(w, |events|)
    ensures Path(InitialState(|comps|), |events|, ProductEdges(comps, events, mon), w)
            == if Enabled(comps, events, mon, w) then Some(StateAt(comps, events, mon, w)) else None
    decreases |w|
  {
    if w == [] {
      assert StateAt(comps, events, mon, w) == InitialState(|comps|);
    } else {
      ProductPath(comps, events, mon, Init(w));
      if Enabled(comps, events, mon, Init(w)) {
        EnabledStep(comps, events, mon, w);
      } else if Enabled(comps, events, mon, w) {
        EnabledInit(comps, events, mon, w);
      }
    }
  }

  // ----- Finitely many product states -----

  /** The sequences whose i-th number is below the i-th bound. */
  ghost function Tuples(bounds: seq<nat>): set<seq<nat>>
    decreases |bounds|
  {
    if bounds == [] then {[]}
    else set t, x: nat | t in Tuples(Init(bounds)) && 0 <= x < Last(bounds) :: t + [x]
  }

  lemma {:induction false} InTuples(bounds: seq<nat>, t: seq<nat>)
    requires |t| == |bounds| && forall i :: 0 <= i < |t| ==> t[i] < bounds[i]
    ensures t in Tuples(bounds)
    decreases |bounds|
  {
    if bounds != [] {
      InTuples(Init(bounds), Init(t));
      assert t == Init(t) + [Last(t)];
    }
  }

  ghost function Bounds(comps: seq<Lts>): seq<nat> {
    seq(|comps|, i requires 0 <= i < |comps| => comps[i].nStates)
  }

  ghost function StateSpace(comps: seq<Lts>, mon: Monitor): set<State> {
    set m: nat, xs | 0 <= m < |mon.delta| && xs in Tuples(Bounds(comps)) && Placed(comps, xs) :: State(m, xs)
  }

  lemma StateSpaceClosed(comps: seq<Lts>, events: seq<Event>, mon: Monitor)
    requires Synchronised(comps, events, mon)
    ensures Closed(InitialState(|comps|), |events|, ProductEdges(comps, events, mon), StateSpace(comps, mon))
  {
    InTuples(Bounds(comps), InitialState(|comps|).xs);
    forall p, e | p in StateSpace(comps, mon) && 0 <= e < |events| && ProductStep(comps, events, mon, p, e).Some?
      ensures ProductStep(comps, events, mon, p, e).value in StateSpace(comps, mon)
    {
      ProductStepMeaning(comps, events, mon, p, e);
      InTuples(Bounds(comps), ProductStep(comps, events, mon, p, e).value.xs);
    }
  }

  // ----- The walks -----

  /** No word everyone can follow leads the monitor to a bad state. */
  ghost predicate Safe(comps: seq<Lts>, events: seq<Event>, mon: Monitor)
    requires Synchronised(comps, events, mon)
  {
    forall w :: Over(w, |events|) && Enabled(comps, events, mon, w) ==> !mon.bad[MonitorAt(mon, |events|, w)]
  }

  /** Everyone can follow `w`, and it ends in a bad monitor state. */
  ghost predicate Witness(comps: seq<Lts>, events: seq<Event>, mon: Monitor, w: EventWord)
    requires Synchronised(comps, events, mon)
  {
    Over(w, |events|) && Enabled(comps, events, mon, w) && mon.bad[MonitorAt(mon, |events|, w)]
  }

  /** A set of product states that proves safety: it holds the initial state, is closed and never bad. */
  ghost predicate Inductive(comps: seq<Lts>, events: seq<Event>, mon: Monitor, inv: set<State>) {
    && Closed(InitialState(|comps|), |events|, ProductEdges(comps, events, mon), inv)
    && forall s :: s in inv ==> s.monitor < |mon.bad| && !mon.bad[s.monitor]
  }

  lemma InductiveSafe(comps: seq<Lts>, events: seq<Event>, mon: Monitor, inv: set<State>)
    requires Synchronised(comps, events, mon) && Inductive(comps, events, mon, inv)
    ensures Safe(comps, events, mon)
  {
    forall w | Over(w, |events|) && Enabled(comps, events, mon, w)
      ensures !mon.bad[MonitorAt(mon, |events|, w)]
    {
      ProductPath(comps, events, mon, w);
      ClosedCovers(InitialState(|comps|), |events|, ProductEdges(comps, events, mon), inv, w);
    }
  }

  /** More than `cap` product states can be reached. */
  ghost predicate Crowded(comps: seq<Lts>, events: seq<Event>, mon: Monitor, cap: nat) {
    MoreThan(InitialState(|comps|), |events|, ProductEdges(comps, events, mon), cap)
  }

  /** ... none of them bad. */
  ghost predicate SafelyCrowded(comps: seq<Lts>, events: seq<Event>, mon: Monitor, cap: nat) {
    exists ps: seq<State> ::
      && Distinct(ps) && |ps| > cap
      && forall i :: 0 <= i < |ps| ==>
           ReachedState(comps, events, mon, ps[i]) && ps[i].monitor < |mon.bad| && !mon.bad[ps[i].monitor]
  }

  lemma SafelyCrowdedIs(comps: seq<Lts>, events: seq<Event>, mon: Monitor, cap: nat)
    requires SafelyCrowded(comps, events, mon, cap)
    ensures Crowded(comps, events, mon, cap)
  {
    var ps: seq<State> :| Distinct(ps) && |ps| > cap
      && forall i :: 0 <= i < |ps| ==>
           ReachedState(comps, events, mon, ps[i]) && ps[i].monitor < |mon.bad| && !mon.bad[ps[i].monitor];
    forall i | 0 <= i < |ps|
      ensures Reaches(InitialState(|comps|), |events|, ProductEdges(comps, events, mon), ps[i])
    {
      assert ReachedState(comps, events, mon, ps[i]);
    }
  }

  function BadState(mon: Monitor): State -> bool {
    (s: State) => s.monitor < |mon.bad| && mon.bad[s.monitor]
  }

  lemma GoodCrowd(comps: seq<Lts>, events: seq<Event>, mon: Monitor, cap: nat)
    requires Synchronised(comps, events, mon) && !mon.bad[0]
    requires MoreGood(InitialState(|comps|), |events|, ProductEdges(comps, events, mon), BadState(mon), cap)
    ensures SafelyCrowded(comps, events, mon, cap)
  {
    var root, edges := InitialState(|comps|), ProductEdges(comps, events, mon);
    var ps: seq<State> :| Distinct(ps) && |ps| > cap
      && forall i :: 0 <= i < |ps| ==> Reaches(root, |events|, edges, ps[i]) && (ps[i] == root || !BadState(mon)(ps[i]));
    forall i | 0 <= i < |ps|
      ensures ReachedState(comps, events, mon, ps[i]) && ps[i].monitor < |mon.bad| && !mon.bad[ps[i].monitor]
    {
      assert Reaches(root, |events|, edges, ps[i]);
      ReachedPlaced(comps, events, mon, ps[i]);
    }
  }

  /** The number of joint states of the components. */
  function Sizes(comps: seq<Lts>): nat
    decreases |comps|
  {
    if comps == [] then 1 else Sizes(comps[..|comps| - 1]) * comps[|comps| - 1].nStates
  }

  /** A joint state as a number in mixed radix. */
  function Code(comps: seq<Lts>, xs: seq<nat>): nat
    requires |xs| == |comps|
    decreases |comps|
  {
    if comps == [] then 0
    else Code(comps[..|comps| - 1], xs[..|xs| - 1]) * comps[|comps| - 1].nStates + xs[|xs| - 1]
  }

  lemma RadixBound(a: nat, n: nat, x: nat, b: nat)
    requires a < n && x < b
    ensures a * b + x < n * b
  {
    assert (a + 1) * b <= n * b;
  }

  lemma RadixApart(a: nat, x: nat, a': nat, x': nat, b: nat)
    requires x < b && x' < b && a * b + x == a' * b + x'
    ensures a == a' && x == x'
  {
    if a < a' {
      RadixBound(a, a', x, b);
    } else if a' < a {
      RadixBound(a', a, x', b);
    }
  }

  lemma {:induction false} CodeBound(comps: seq<Lts>, xs: seq<nat>)
    requires Placed(comps, xs)
    ensures Code(comps, xs) < Sizes(comps)
    decreases |comps|
  {
    if comps != [] {
      var n := |comps| - 1;
      CodeBound(comps[..n], xs[..n]);
      RadixBound(Code(comps[..n], xs[..n]), Sizes(comps[..n]), xs[n], comps[n].nStates);
    }
  }

  lemma {:induction false} CodeApart(comps: seq<Lts>, xs: seq<nat>, ys: seq<nat>)
    requires Placed(comps, xs) && Placed(comps, ys) && Code(comps, xs) == Code(comps, ys)
    ensures xs == ys
    decreases |comps|
  {
    if comps != [] {
      var n := |comps| - 1;
      RadixApart(Code(comps[..n], xs[..n]), xs[n], Code(comps[..n], ys[..n]), ys[n], comps[n].nStates);
      CodeApart(comps[..n], xs[..n], ys[..n]);
      assert xs == xs[..n] + [xs[n]] && ys == ys[..n] + [ys[n]];
    }
  }

  lemma ReachedPlaced(comps: seq<Lts>, events: seq<Event>, mon: Monitor, s: State)
    requires Synchronised(comps, events, mon)
    requires Reaches(InitialState(|comps|), |events|, ProductEdges(comps, events, mon), s)
    ensures s.monitor < |mon.delta| && Placed(comps, s.xs)
  {
    var w :| Over(w, |events|) && Path(InitialState(|comps|), |events|, ProductEdges(comps, events, mon), w) == Some(s);
    ProductPath(comps, events, mon, w);
  }

  ghost function StateCode(comps: seq<Lts>, s: State): int {
    if |s.xs| == |comps| then s.monitor * Sizes(comps) + Code(comps, s.xs) else -1
  }

  lemma StateCodeBound(comps: seq<Lts>, mon: Monitor, s: State)
    requires Placed(comps, s.xs) && s.monitor < |mon.delta|
    ensures 0 <= StateCode(comps, s) < |mon.delta| * Sizes(comps)
  {
    CodeBound(comps, s.xs);
    RadixBound(s.monitor, |mon.delta|, Code(comps, s.xs), Sizes(comps));
  }

  lemma CrowdWithin(comps: seq<Lts>, mon: Monitor, ps: seq<State>, n: nat)
    requires Distinct(ps) && n == |mon.delta| * Sizes(comps)
    requires forall i :: 0 <= i < |ps| ==> ps[i].monitor < |mon.delta| && Placed(comps, ps[i].xs)
    ensures |ps| <= n
  {
    hide StateCode, Sizes, Placed;
    var codes := seq(|ps|, i requires 0 <= i < |ps| => StateCode(comps, ps[i]));
    forall i | 0 <= i < |ps|
      ensures codes[i] in Range(n)
    {
      StateCodeBound(comps, mon, ps[i]);
    }
    forall i, j | 0 <= i < j < |ps|
      ensures codes[i] != codes[j]
    {
      StateCodeApart(comps, ps[i], ps[j]);
    }
    DistinctBound<int>(codes, Range(n));
  }

  /** No more states can be reached than the monitor and the components have together. */
  lemma CrowdedBound(comps: seq<Lts>, events: seq<Event>, mon: Monitor, cap: nat)
    requires Synchronised(comps, events, mon) && Crowded(comps, events, mon, cap)
    ensures cap < |mon.delta| * Sizes(comps)
  {
    hide Sizes, Placed, Reaches, Synchronised;
    var root, edges := InitialState(|comps|), ProductEdges(comps, events, mon);
    var ps: seq<State> :| Distinct(ps) && |ps| > cap && forall i :: 0 <= i < |ps| ==> Reaches(root, |events|, edges, ps[i]);
    forall i | 0 <= i < |ps|
      ensures ps[i].monitor < |mon.delta| && Placed(comps, ps[i].xs)
    {
      ReachedPlaced(comps, events, mon, ps[i]);
    }
    CrowdWithin(comps, mon, ps, |mon.delta| * Sizes(comps));
  }

  lemma StateCodeApart(comps: seq<Lts>, s: State, s': State)
    requires Placed(comps, s.xs) && Placed(comps, s'.xs) && s != s'
    ensures StateCode(comps, s) != StateCode(comps, s')
  {
    CodeBound(comps, s.xs);
    CodeBound(comps, s'.xs);
    if StateCode(comps, s) == StateCode(comps, s') {
      RadixApart(s.monitor, Code(comps, s.xs), s'.monitor, Code(comps, s'.xs), Sizes(comps));
      CodeApart(comps, s.xs, s'.xs);
    }
  }

  /** Some word leads the product to this state. */
  ghost predicate ReachedState(comps: seq<Lts>, events: seq<Event>, mon: Monitor, s: State) {
    Reaches(InitialState(|comps|), |events|, ProductEdges(comps, events, mon), s)
  }

  /** Walk the reachable product states, at most `cap` of them, for a bad one. */
  method WalkProduct(comps: seq<Lts>, events: seq<Event>, mon: Monitor, cap: nat) returns (r: Outcome<State>)
    requires Synchronised(comps, events, mon)
    ensures r.Found? ==> Witness(comps, events, mon, r.trail)
    ensures r.Exhausted? ==>
              && Inductive(comps, events, mon, Elements(r.visited)) && Distinct(r.visited)
              && (forall s :: s in r.visited ==> s.monitor < |mon.delta| && Placed(comps, s.xs))
              && (forall s :: s in r.visited ==> ReachedState(comps, events, mon, s))
              && |r.visited| <= AtLeastOne(cap) && !Crowded(comps, events, mon, AtLeastOne(cap))
    ensures r.Capped? ==> r.size > cap && SafelyCrowded(comps, events, mon, cap)
  {
    var edges := ProductEdges(comps, events, mon);
    ProductPath(comps, events, mon, []);
    if mon.bad[0] {
      return Found([]);
    }
    StateSpaceClosed(comps, events, mon);
    r := Explore(InitialState(|comps|), |events|, edges,
                 BadState(mon), Some(cap), StateSpace(comps, mon));
    match r
    case Found(w) =>
      ProductPath(comps, events, mon, w);
    case Exhausted(visited) =>
      forall s | s in visited
        ensures s.monitor < |mon.delta| && Placed(comps, s.xs) && !mon.bad[s.monitor]
      {
        ReachedPlaced(comps, events, mon, s);
        if s == visited[0] {
          assert s == InitialState(|comps|);
        }
      }
      ExhaustedAll(InitialState(|comps|), |events|, edges, visited, AtLeastOne(cap));
    case Capped(_) =>
      GoodCrowd(comps, events, mon, cap);
  }

  // ----- Models -----

  ghost predicate Increasing(s: seq<nat>) {
    forall i, j :: 0 <= i < j < |s| ==> s[i] < s[j]
  }

  /** The monitor follows a word exactly when every property leaf does. */
  ghost predicate ExactMonitor(m: Model)
    requires Synchronised(m.leaves, m.events, m.mon)
  {
    forall w :: Over(w, |m.events|) ==>
      (MonitorAt(m.mon, |m.events|, w) >= 0 <==>
         forall i :: 0 <= i < |m.leaves| && i in m.propLeaves ==> At(m.leaves, m.events, w, i) >= 0)
  }

  ghost predicate ValidModel(m: Model) {
    && Synchronised(m.leaves, m.events, m.mon)
    && Increasing(m.propLeaves)
    && (forall i :: 0 <= i < |m.propLeaves| ==> m.propLeaves[i] < |m.leaves|)
    && |m.monitorValues| == |m.mon.delta|
    && ExactMonitor(m)
  }

  /** Monitor states show different values, one per property leaf. */
  ghost predicate Shows(m: Model) {
    Distinct(m.monitorValues) && forall s :: 0 <= s < |m.monitorValues| ==> |m.monitorValues[s]| == |m.propLeaves|
  }

  /** Every leaf fires its projection of `w`. */
  ghost predicate Fireable(m: Model, w: EventWord)
    requires ValidModel(m) && Over(w, |m.events|)
  {
    forall i :: 0 <= i < |m.leaves| ==> At(m.leaves, m.events, w, i) >= 0
  }

  /** With an exact monitor, being enabled is being fireable on every leaf. */
  lemma FireableEnabled(m: Model, w: EventWord)
    requires ValidModel(m) && Over(w, |m.events|)
    ensures Fireable(m, w) <==> Enabled(m.leaves, m.events, m.mon, w)
  {
  }

  /** `w` fires on every leaf and ends in a bad monitor state. */
  ghost predicate Violates(m: Model, w: EventWord)
    requires ValidModel(m)
  {
    && Over(w, |m.events|) && Fireable(m, w)
    && MonitorAt(m.mon, |m.events|, w) >= 0 && m.mon.bad[MonitorAt(m.mon, |m.events|, w)]
  }

  /** The projection of an event word onto a leaf. */
  method ProjectOnto(m: Model, w: EventWord, i: nat) returns (u: Word)
    requires Over(w, |m.events|)
    ensures u == Project(m.events, w, i)
  {
    u := [];
    for k := 0 to |w|
      invariant u == Project(m.events, w[..k], i)
    {
      assert Init(w[..k + 1]) == w[..k];
      var a := LetterFor(m.events[w[k]], i);
      if a.Some? {
        u := u + [a.value];
      }
    }
    assert w[..|w|] == w;
  }

  /** Whether a leaf fires its projection of an event word. */
  method FiresPart(m: Model, w: EventWord, i: nat) returns (fires: bool)
    requires ValidModel(m) && Over(w, |m.events|) && i < |m.leaves|
    ensures fires <==> At(m.leaves, m.events, w, i) >= 0
  {
    var u := ProjectOnto(m, w, i);
    ProjectOver(m.leaves, m.events, w, i);
    var q := m.leaves[i].Fire(u);
    fires := q.Some?;
  }

  /** Concrete replay: true exactly when `w` is a violation. */
  method Refire(m: Model, w: EventWord) returns (ok: bool)
    requires ValidModel(m) && Over(w, |m.events|)
    ensures ok <==> Violates(m, w)
  {
    hide At, ExactMonitor;
    var q := MonitorLts(m.mon, |m.events|).Fire(w);
    if q.None? || !m.mon.bad[q.value] {
      return false;
    }
    for i := 0 to |m.leaves|
      invariant forall j :: 0 <= j < i ==> At(m.leaves, m.events, w, j) >= 0
    {
      var fires := FiresPart(m, w, i);
      if !fires {
        return false;
      }
    }
    return true;
  }

  datatype Verdict = Holds | Violation(trail: EventWord) | CapHit

  /** The monolithic oracle: the walk of the concrete product. */
  method Mono(m: Model, cap: nat) returns (v: Verdict)
    requires ValidModel(m)
    ensures v.Holds? ==> forall w :: !Violates(m, w)
    ensures v.Violation? ==> Violates(m, v.trail)
    ensures v.CapHit? ==> SafelyCrowded(m.leaves, m.events, m.mon, cap)
    ensures (forall w :: !Violates(m, w)) && Crowded(m.leaves, m.events, m.mon, AtLeastOne(cap)) ==> v.CapHit?
    ensures cap >= |m.mon.delta| * Sizes(m.leaves) ==> !v.CapHit?
  {
    var r := WalkProduct(m.leaves, m.events, m.mon, cap);
    match r
    case Found(w) =>
      FireableEnabled(m, w);
      v := Violation(w);
      assert Violates(m, w);
    case Capped(_) =>
      SafelyCrowdedIs(m.leaves, m.events, m.mon, cap);
      CrowdedBound(m.leaves, m.events, m.mon, cap);
      v := CapHit;
    case Exhausted(visited) =>
      InductiveSafe(m.leaves, m.events, m.mon, Elements(visited));
      forall w | Over(w, |m.events|)
        ensures !Violates(m, w)
      {
        FireableEnabled(m, w);
      }
      v := Holds;
  }
}
