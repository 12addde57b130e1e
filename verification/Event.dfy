/**
 Building events: push a guard and its assignments to the part of the shape they
 touch (src/event.cc).
 */
module Events {
  import opened Finite
  import opened Leaves
  import opened Expressions
  import opened Substitutions
  import opened Shrinking
  import opened Positions
  import opened Exactness
  import opened Diagrams
  import opened Terms
  import opened Sorts
  import opened Queries

  // ----- Leaf terms -----

  function KeepIf(g: BExpr): Term {
    if g == BTrue then Id else Act(When(g), Keep)
  }

  function GuardOf(g: BExpr): Guard {
    if g == BTrue then Always else When(g)
  }

  function ShiftIf(g: BExpr, delta: int): Term {
    if delta == 0 then KeepIf(g) else Act(GuardOf(g), ShiftBy(delta))
  }

  /** The increment of an expression `x + k`. */
  function Increment(rhs: IExpr): Option<int> {
    match rhs
    case Nary(plus, ops) =>
      if plus && |ops| == 2 && ops[0] == Var(0) && ops[1].Const? then Some(ops[1].value)
      else if plus && |ops| == 2 && ops[1] == Var(0) && ops[0].Const? then Some(ops[0].value)
      else None
    case _ => None
  }

  /** `x := rhs` under a guard, folded to the cheaper forms when it is one of them. */
  function ApplyIf(g: BExpr, rhs: IExpr): Term {
    if rhs.Const? then Act(GuardOf(g), Assign(rhs.value))
    else if rhs.Undef? then KeepIf(BFalse)
    else if rhs == Var(0) then KeepIf(g)
    else
      match Increment(rhs)
      case Some(k) => ShiftIf(g, k)
      case None => Act(GuardOf(g), Transform(rhs, 0))
  }

  /** The term that does nothing, anchored at the leftmost coordinate. */
  function ZeroTerm(sh: Shape): Term {
    match sh
    case Pair(h, _) => PairOf(ZeroTerm(h), Id)
    case _ => KeepIf(BFalse)
  }

  // ----- Building -----

  /** A write of a position to itself is dropped. */
  function Kept(ups: seq<Assignment>): seq<Assignment>
    decreases |ups|
  {
    if ups == [] then []
    else
      var rest, a := Kept(ups[..|ups| - 1]), ups[|ups| - 1];
      if a.lhs == a.rhs then rest else rest + [a]
  }

  /** The positions an assignment touches: reads, every cell an access could address, and its target. */
  function TouchedBy(a: Assignment): set<int> {
    Reads(a.rhs) + Cells(a.rhs) + Reads(a.lhs) + Cells(a.lhs)
  }

  function TouchedByAll(ups: seq<Assignment>): set<int>
    decreases |ups|
  {
    if ups == [] then {} else TouchedByAll(ups[..|ups| - 1]) + TouchedBy(ups[|ups| - 1])
  }

  function Touched(b: BExpr, ups: seq<Assignment>): set<int> {
    ReadsBool(b) + CellsBool(b) + TouchedByAll(ups)
  }

  predicate AllBelow(touched: set<int>, k: int) {
    forall p :: p in touched ==> p < k
  }

  predicate AllFrom(touched: set<int>, k: int) {
    forall p :: p in touched ==> p >= k
  }

  function ShiftWrites(ups: seq<Assignment>, delta: int): (r: seq<Assignment>)
    ensures |r| == |ups|
    ensures forall k :: 0 <= k < |ups| ==> r[k] == Assignment(Shift(ups[k].lhs, delta), Shift(ups[k].rhs, delta))
  {
    seq(|ups|, k requires 0 <= k < |ups| => Assignment(Shift(ups[k].lhs, delta), Shift(ups[k].rhs, delta)))
  }

  /** At a leaf: one write of the coordinate, or none. Two writes of it are an error of the caller. */
  function LeafEvent(b: BExpr, ups: seq<Assignment>): Term {
    if ups == [] then KeepIf(b)
    else if |ups| == 1 && ups[0].lhs == Var(0) then ApplyIf(b, ups[0].rhs)
    else KeepIf(BFalse)
  }

  /** The term of a guarded simultaneous assignment. */
  function MakeEvent(sh: Shape, b: BExpr, ups: seq<Assignment>): Term
    decreases sh, 1
  {
    if Hopeless(b, ups) then ZeroTerm(sh)
    else if b == BTrue && Kept(ups) == [] then Id
    else PushDown(sh, b, Kept(ups))
  }

  /** To the side of the cut where everything touched lies; kept whole where it crosses. */
  function PushDown(sh: Shape, b: BExpr, ups: seq<Assignment>): Term
    decreases sh, 0
  {
    match sh
    case Pair(h, t) =>
      if AllBelow(Touched(b, ups), Width(h)) then PairOf(MakeEvent(h, b, ups), Id)
      else if AllFrom(Touched(b, ups), Width(h))
      then PairOf(Id, MakeEvent(t, ShiftBool(b, 0 - Width(h)), ShiftWrites(ups, 0 - Width(h))))
      else Event(b, ups)
    case _ => LeafEvent(b, ups)
  }

  // ----- Writes seen from two environments -----

  /** The writes of `ups` in `env` are those of `ups'` in `env'`, `off` positions further. */
  ghost predicate SameWrites(ups: seq<Assignment>, env: seq<int>, ups': seq<Assignment>, env': seq<int>, off: int) {
    && |ups| == |ups'|
    && forall k :: 0 <= k < |ups| ==> SameWrite(ups[k], env, ups'[k], env', off)
  }

  /** The target of an assignment that is ready. */
  ghost function TargetOf(a: Assignment, env: seq<int>): int
    requires Ready(a, env)
  {
    Target(a.lhs, env).value
  }

  ghost predicate SameWrite(a: Assignment, env: seq<int>, a': Assignment, env': seq<int>, off: int) {
    && (Ready(a, env) ==>
          && Ready(a', env') && Target(a.lhs, env) == Some(TargetOf(a', env') + off)
          && Value(a.rhs, env) == Value(a'.rhs, env'))
    && (SafeWrite(a, env) && !Ready(a, env) ==> SafeWrite(a', env') && !Ready(a', env'))
  }

  /** `b'` in `env'` is as true as `b` in `env`, and as undefined where `b` is safe. */
  ghost predicate SameGuard(b: BExpr, env: seq<int>, b': BExpr, env': seq<int>) {
    && RefinesTruth(TruthOf(b, env), TruthOf(b', env'))
    && (SafeBool(b, env, NoBan) ==> SafeBool(b', env', NoBan) && TruthOf(b, env) == TruthOf(b', env'))
  }

  /** The environment changes in a window only. */
  ghost predicate Outside(env: seq<int>, out: seq<int>, off: int, n: nat) {
    && |out| == |env| && 0 <= off && off + n <= |env|
    && forall q :: 0 <= q < |env| && !(off <= q < off + n) ==> out[q] == env[q]
  }

  lemma SomeRefused(ups: seq<Assignment>, env: seq<int>, out: seq<int>, k: nat)
    requires k < |ups| && !Ready(ups[k], env)
    ensures !Assigns(ups, env, out)
  {
  }

  lemma TargetBounds(a: Assignment, env: seq<int>)
    requires Target(a.lhs, env).Some?
    ensures 0 <= Target(a.lhs, env).value < |env|
  {
  }

  /** Simultaneous assignment, in the whole environment or in its window. */
  lemma AssignsSame(ups: seq<Assignment>, env: seq<int>, ups': seq<Assignment>, env': seq<int>, off: int, out: seq<int>)
    requires SameWrites(ups, env, ups', env', off) && 0 <= off && off + |env'| <= |env|
    requires forall k :: 0 <= k < |ups| ==> Ready(ups[k], env)
    requires env' == env[off..off + |env'|]
    ensures Assigns(ups, env, out) <==>
            |out| == |env| && Outside(env, out, off, |env'|) && Assigns(ups', env', out[off..off + |env'|])
  {
    if |out| == |env| {
      var out' := out[off..off + |env'|];
      forall k | 0 <= k < |ups|
        ensures Target(ups[k].lhs, env) == Some(Target(ups'[k].lhs, env').value + off)
        ensures 0 <= Target(ups'[k].lhs, env').value < |env'|
        ensures Value(ups[k].rhs, env) == Value(ups'[k].rhs, env') && Ready(ups'[k], env')
      {
        assert SameWrite(ups[k], env, ups'[k], env', off);
        TargetBounds(ups'[k], env');
      }
      if Assigns(ups, env, out) {
        AssignsForth(ups, env, ups', env', off, out);
      }
      if Outside(env, out, off, |env'|) && Assigns(ups', env', out') {
        AssignsBack(ups, env, ups', env', off, out);
      }
    }
  }

  /** Matching targets and values, write by write. */
  ghost predicate Aligned(ups: seq<Assignment>, env: seq<int>, ups': seq<Assignment>, env': seq<int>, off: int) {
    && |ups| == |ups'|
    && forall k :: 0 <= k < |ups| ==>
         && Ready(ups'[k], env') && 0 <= Target(ups'[k].lhs, env').value < |env'|
         && Target(ups[k].lhs, env) == Some(Target(ups'[k].lhs, env').value + off)
         && Value(ups[k].rhs, env) == Value(ups'[k].rhs, env')
  }

  lemma AssignsForth(ups: seq<Assignment>, env: seq<int>, ups': seq<Assignment>, env': seq<int>, off: int, out: seq<int>)
    requires 0 <= off && off + |env'| <= |env| && env' == env[off..off + |env'|]
    requires Aligned(ups, env, ups', env', off) && Assigns(ups, env, out)
    ensures Outside(env, out, off, |env'|) && Assigns(ups', env', out[off..off + |env'|])
  {
    hide Target, Value;
    var out' := out[off..off + |env'|];
    forall q | 0 <= q < |env| && !(off <= q < off + |env'|)
      ensures out[q] == env[q]
    {
      forall k | 0 <= k < |ups|
        ensures Target(ups[k].lhs, env) != Some(q)
      {
      }
    }
    forall q | 0 <= q < |env'| && (forall k :: 0 <= k < |ups'| ==> Target(ups'[k].lhs, env') != Some(q))
      ensures out'[q] == env'[q]
    {
      forall k | 0 <= k < |ups|
        ensures Target(ups[k].lhs, env) != Some(q + off)
      {
        assert Target(ups'[k].lhs, env') != Some(q);
      }
      assert out[q + off] == env[q + off];
    }
  }

  lemma AssignsBack(ups: seq<Assignment>, env: seq<int>, ups': seq<Assignment>, env': seq<int>, off: int, out: seq<int>)
    requires 0 <= off && off + |env'| <= |env| && env' == env[off..off + |env'|] && |out| == |env|
    requires Aligned(ups, env, ups', env', off)
    requires Outside(env, out, off, |env'|) && Assigns(ups', env', out[off..off + |env'|])
    ensures Assigns(ups, env, out)
  {
    var out' := out[off..off + |env'|];
    forall q | 0 <= q < |env| && (forall k :: 0 <= k < |ups| ==> Target(ups[k].lhs, env) != Some(q))
      ensures out[q] == env[q]
    {
      UnwrittenBack(ups, env, ups', env', off, out, q);
    }
    forall k | 0 <= k < |ups|
      ensures out[Target(ups[k].lhs, env).value] == Value(ups[k].rhs, env).value
    {
      assert out'[Target(ups'[k].lhs, env').value] == Value(ups'[k].rhs, env').value;
    }
  }

  lemma UnwrittenBack(ups: seq<Assignment>, env: seq<int>, ups': seq<Assignment>, env': seq<int>, off: int, out: seq<int>, q: int)
    requires 0 <= off && off + |env'| <= |env| && env' == env[off..off + |env'|] && |out| == |env|
    requires Aligned(ups, env, ups', env', off) && 0 <= q < |env|
    requires Outside(env, out, off, |env'|) && Assigns(ups', env', out[off..off + |env'|])
    requires forall k :: 0 <= k < |ups| ==> Target(ups[k].lhs, env) != Some(q)
    ensures out[q] == env[q]
  {
    if off <= q < off + |env'| {
      forall k | 0 <= k < |ups'|
        ensures Target(ups'[k].lhs, env') != Some(q - off)
      {
        assert Target(ups[k].lhs, env) != Some(q);
      }
      assert out[off..off + |env'|][q - off] == env'[q - off];
    }
  }

  /** What is determined stays determined. */
  lemma DeterminedSame(b: BExpr, ups: seq<Assignment>, env: seq<int>, b': BExpr, ups': seq<Assignment>, env': seq<int>, off: int)
    requires Determined(b, ups, env) && SameGuard(b, env, b', env') && SameWrites(ups, env, ups', env', off)
    ensures Determined(b', ups', env') && (TruthOf(b', env') == Yes <==> TruthOf(b, env) == Yes)
  {
    if TruthOf(b, env) == Yes {
      WritesDeterminedSame(ups, env, ups', env', off);
    }
  }

  lemma WritesDeterminedSame(ups: seq<Assignment>, env: seq<int>, ups': seq<Assignment>, env': seq<int>, off: int)
    requires WritesDetermined(ups, env) && SameWrites(ups, env, ups', env', off)
    ensures WritesDetermined(ups', env')
  {
    hide Ready, SafeWrite, Target, Value;
    forall k | 0 <= k < |ups|
      ensures Ready(ups'[k], env') || SafeWrite(ups'[k], env')
      ensures Ready(ups'[k], env') ==> Ready(ups[k], env)
      ensures Ready(ups'[k], env') ==> Target(ups[k].lhs, env) == Some(TargetOf(ups'[k], env') + off)
    {
      assert SameWrite(ups[k], env, ups'[k], env', off);
    }
    forall i, j | 0 <= i < j < |ups'| && Ready(ups'[i], env') && Ready(ups'[j], env')
      ensures Target(ups'[i].lhs, env') != Target(ups'[j].lhs, env')
    {
      assert Target(ups[i].lhs, env) != Target(ups[j].lhs, env);
    }
  }

  // ----- Writes in the head, in the tail, and curried -----

  /** An assignment of the head, seen from the head. */
  lemma HeadWrite(n: int, a: Assignment, env: seq<int>)
    requires 0 <= n <= |env| && Spans(a.lhs, 0, n, true) && Spans(a.rhs, 0, n, true)
    ensures SameWrite(a, env, a, env[..n], 0)
  {
    HeadTarget(n, a.lhs, env);
    ValueLocal(a.rhs, n, env);
    SafeLocal(a.lhs, n, env, NoBan);
    SafeLocal(a.rhs, n, env, NoBan);
    SafeLocal(a.rhs, n, env, BanOf(a, env));
  }

  lemma HeadTarget(n: int, lhs: IExpr, env: seq<int>)
    requires 0 <= n <= |env| && Spans(lhs, 0, n, true)
    ensures Target(lhs, env[..n]) == Target(lhs, env)
    ensures lhs.Array? ==> Value(lhs.index, env) == Value(lhs.index, env[..n])
    ensures Addressed(lhs, |env|) ==> Addressed(lhs, n)
  {
    if lhs.Array? {
      ValueLocal(lhs.index, n, env);
    }
  }

  function ShiftedWrite(a: Assignment, n: int): Assignment {
    Assignment(Shift(a.lhs, -n), Shift(a.rhs, -n))
  }

  lemma ShiftedReady(n: int, a: Assignment, env: seq<int>)
    requires 0 <= n <= |env| && WriteFits(|env|, a) && Spans(a.lhs, n, |env|, true) && Spans(a.rhs, n, |env|, true)
    requires Ready(a, env)
    ensures var a' := ShiftedWrite(a, n);
            && Ready(a', env[n..]) && Target(a.lhs, env) == Some(TargetOf(a', env[n..]) + n)
            && Value(a.rhs, env) == Value(a'.rhs, env[n..])
  {
    ShiftRefines(a.rhs, n, env);
    if a.lhs.Array? {
      ShiftedAccess(n, a.lhs, env);
    }
  }

  lemma ShiftedUnready(n: int, a: Assignment, env: seq<int>)
    requires 0 <= n <= |env| && Spans(a.lhs, n, |env|, true) && Spans(a.rhs, n, |env|, true)
    requires SafeWrite(a, env) && !Ready(a, env)
    ensures SafeWrite(ShiftedWrite(a, n), env[n..]) && !Ready(ShiftedWrite(a, n), env[n..])
  {
    var a', env' := ShiftedWrite(a, n), env[n..];
    ShiftedTargetSafe(n, a.lhs, env);
    ShiftSafe(a.rhs, n, env, NoBan);
    ShiftSafe(a.rhs, n, env, BanOf(a, env));
    assert BanOf(a', env') == MovedBan(BanOf(a, env), -n) || BanOf(a', env') == NoBan;
  }

  /** The target of a safe left side, re-rooted. */
  lemma ShiftedTargetSafe(n: int, lhs: IExpr, env: seq<int>)
    requires 0 <= n <= |env| && Spans(lhs, n, |env|, true) && Safe(lhs, env, NoBan) && Addressed(lhs, |env|)
    ensures var lhs', env' := Shift(lhs, -n), env[n..];
            && Addressed(lhs', |env'|) && Safe(lhs', env', NoBan)
            && (Target(lhs', env').Some? <==> Target(lhs, env).Some?)
            && (lhs'.Array? ==> lhs.Array? && lhs'.cells == Moved(lhs.cells, -n) && Value(lhs'.index, env') == Value(lhs.index, env))
  {
    ShiftSafe(lhs, n, env, NoBan);
    if lhs.Array? {
      ShiftSafe(lhs.index, n, env, NoBan);
    }
  }

  /** An assignment of the tail, re-rooted. */
  lemma TailWrite(n: int, a: Assignment, env: seq<int>)
    requires 0 <= n <= |env| && WriteFits(|env|, a) && Spans(a.lhs, n, |env|, true) && Spans(a.rhs, n, |env|, true)
    ensures SameWrite(a, env, Assignment(Shift(a.lhs, -n), Shift(a.rhs, -n)), env[n..], n)
  {
    hide Ready, SafeWrite, Value, Target, Spans, Shift;
    if Ready(a, env) {
      ShiftedReady(n, a, env);
    } else if SafeWrite(a, env) {
      ShiftedUnready(n, a, env);
    }
  }

  /** An array access, re-rooted. */
  lemma ShiftedAccess(n: int, e: IExpr, env: seq<int>)
    requires 0 <= n <= |env| && e.Array? && Spans(e, n, |env|, true) && Target(e, env).Some?
    ensures var e', env' := Shift(e, -n), env[n..];
            Target(e', env').Some? && Target(e, env).value == Target(e', env').value + n
  {
    ShiftRefines(e.index, n, env);
    var i := Value(e.index, env).value;
    assert Moved(e.cells, -n)[i] == e.cells[i] - n;
  }

  /** The assignment with a value in the place of a subexpression: a scalar target is kept. */
  function CurryWrite(a: Assignment, e: IExpr, m: IExpr): Assignment {
    Assignment(if a.lhs.Array? then Subst(a.lhs, e, m) else a.lhs, Subst(a.rhs, e, m))
  }

  lemma CurriedAccess(x: IExpr, e: IExpr, m: IExpr, env: seq<int>)
    requires x.Array? && x != e && Refines(Value(e, env), Value(m, env)) && Target(x, env).Some?
    ensures Target(Subst(x, e, m), env) == Target(x, env)
  {
    SubstRefines(x.index, e, m, env);
  }

  lemma CurriedReady(a: Assignment, e: IExpr, m: IExpr, env: seq<int>)
    requires !e.Array? && Refines(Value(e, env), Value(m, env)) && Ready(a, env)
    ensures var a' := CurryWrite(a, e, m);
            Ready(a', env) && Target(a'.lhs, env) == Target(a.lhs, env) && Value(a'.rhs, env) == Value(a.rhs, env)
  {
    SubstRefines(a.rhs, e, m, env);
    if a.lhs.Array? {
      CurriedAccess(a.lhs, e, m, env);
    }
  }

  /** The target of a safe left side keeps its place, its array and its index value. */
  lemma CurriedTargetSafe(lhs: IExpr, e: IExpr, m: IExpr, env: seq<int>)
    requires !e.Array? && Stands(e, m, env) && (m.Const? || m.Undef?) && Addressed(lhs, |env|) && Safe(lhs, env, NoBan)
    ensures var lhs' := if lhs.Array? then Subst(lhs, e, m) else lhs;
            && Addressed(lhs', |env|) && Safe(lhs', env, NoBan) && Target(lhs', env) == Target(lhs, env)
            && (lhs'.Array? ==> lhs.Array? && lhs'.cells == lhs.cells && Value(lhs'.index, env) == Value(lhs.index, env))
  {
    if lhs.Array? {
      SubstSafe(lhs, e, m, env, NoBan);
      SubstSafe(lhs.index, e, m, env, NoBan);
    }
  }

  lemma CurriedUnready(a: Assignment, e: IExpr, m: IExpr, env: seq<int>)
    requires !e.Array? && Stands(e, m, env) && (m.Const? || m.Undef?) && SafeWrite(a, env) && !Ready(a, env)
    ensures SafeWrite(CurryWrite(a, e, m), env) && !Ready(CurryWrite(a, e, m), env)
  {
    var a' := CurryWrite(a, e, m);
    CurriedTargetSafe(a.lhs, e, m, env);
    SubstSafe(a.rhs, e, m, env, NoBan);
    SubstSafe(a.rhs, e, m, env, BanOf(a, env));
    hide Safe, Subst, Value, Target;
    assert BanOf(a', env) == BanOf(a, env) || BanOf(a', env) == NoBan;
  }

  lemma CurriedWrite(a: Assignment, e: IExpr, m: IExpr, env: seq<int>)
    requires !e.Array? && Stands(e, m, env) && (m.Const? || m.Undef?)
    ensures SameWrite(a, env, CurryWrite(a, e, m), env, 0)
  {
    hide SafeWrite, CurryWrite, Value, Safe;
    if Ready(a, env) {
      CurriedReady(a, e, m, env);
    } else if SafeWrite(a, env) {
      CurriedUnready(a, e, m, env);
    }
  }

  // ----- An event in a window of the environment -----

  ghost predicate Updates(b: BExpr, ups: seq<Assignment>, env: seq<int>, out: seq<int>) {
    TruthOf(b, env) == Yes && Assigns(ups, env, out)
  }

  lemma UpdatesSame(b: BExpr, ups: seq<Assignment>, env: seq<int>, b': BExpr, ups': seq<Assignment>, env': seq<int>,
                    off: int, out: seq<int>)
    requires Determined(b, ups, env) && SameGuard(b, env, b', env') && SameWrites(ups, env, ups', env', off)
    requires 0 <= off && off + |env'| <= |env| && env' == env[off..off + |env'|] && |out| == |env|
    ensures Updates(b, ups, env, out) <==>
            Outside(env, out, off, |env'|) && Updates(b', ups', env', out[off..off + |env'|])
  {
    DeterminedSame(b, ups, env, b', ups', env', off);
    if TruthOf(b, env) == Yes {
      if forall k :: 0 <= k < |ups| ==> Ready(ups[k], env) {
        AssignsSame(ups, env, ups', env', off, out);
      } else {
        var k :| 0 <= k < |ups| && !Ready(ups[k], env);
        assert SameWrite(ups[k], env, ups'[k], env', off);
        SomeRefused(ups, env, out, k);
        SomeRefused(ups', env', out[off..off + |env'|], k);
      }
    }
  }

  lemma HeadUpdates(b: BExpr, ups: seq<Assignment>, b': BExpr, ups': seq<Assignment>, w: Tree, u: Tree)
    requires w.Cons? && Alike(w, u) && Determined(b, ups, Frontier(w))
    requires SameGuard(b, Frontier(w), b', Frontier(w.head))
    requires SameWrites(ups, Frontier(w), ups', Frontier(w.head), 0)
    ensures Updates(b, ups, Frontier(w), Frontier(u)) <==>
            u.tail == w.tail && Updates(b', ups', Frontier(w.head), Frontier(u.head))
  {
    AlikeSame(w.head, u.head);
    AlikeSame(w.tail, u.tail);
    var n := |Frontier(w.head)|;
    var env, out := Frontier(w), Frontier(u);
    assert env[0..0 + n] == Frontier(w.head) && out[0..0 + n] == Frontier(u.head);
    UpdatesSame(b, ups, env, b', ups', Frontier(w.head), 0, out);
    WindowTail(w, u);
  }

  /** An event of the head moves the head and keeps the tail. */
  lemma HeadMaps(b: BExpr, ups: seq<Assignment>, b': BExpr, ups': seq<Assignment>, w: Tree, u: Tree)
    requires w.Cons? && Determined(b, ups, Frontier(w))
    requires SameGuard(b, Frontier(w), b', Frontier(w.head))
    requires SameWrites(ups, Frontier(w), ups', Frontier(w.head), 0)
    ensures Maps(Event(b, ups), w, u) <==> u.Cons? && u.tail == w.tail && Maps(Event(b', ups'), w.head, u.head)
  {
    EventMaps(b, ups, w, u);
    if u.Cons? {
      EventMaps(b', ups', w.head, u.head);
      AlikeRefl(w.tail);
      if Alike(w, u) {
        HeadUpdates(b, ups, b', ups', w, u);
      }
    }
  }

  lemma EventMaps(b: BExpr, ups: seq<Assignment>, w: Tree, u: Tree)
    ensures Maps(Event(b, ups), w, u) <==> Alike(w, u) && Updates(b, ups, Frontier(w), Frontier(u))
  {
  }

  lemma TailPart(w: Tree)
    requires w.Cons?
    ensures var n, k := |Frontier(w.head)|, |Frontier(w.tail)|;
            |Frontier(w)| == n + k && Frontier(w)[n..n + k] == Frontier(w.tail)
  {
    var n, k, env := |Frontier(w.head)|, |Frontier(w.tail)|, Frontier(w);
    assert env == Frontier(w.head) + Frontier(w.tail);
    assert env[n..n + k] == env[n..] == Frontier(w.tail);
  }

  lemma TailUpdates(b: BExpr, ups: seq<Assignment>, b': BExpr, ups': seq<Assignment>, w: Tree, u: Tree)
    requires w.Cons? && Alike(w, u) && Determined(b, ups, Frontier(w))
    requires SameGuard(b, Frontier(w), b', Frontier(w.tail))
    requires SameWrites(ups, Frontier(w), ups', Frontier(w.tail), |Frontier(w.head)|)
    ensures Updates(b, ups, Frontier(w), Frontier(u)) <==>
            u.head == w.head && Updates(b', ups', Frontier(w.tail), Frontier(u.tail))
  {
    hide Updates, Determined, SameGuard, SameWrites, Value, Frontier;
    AlikeSame(w.head, u.head);
    AlikeSame(w.tail, u.tail);
    var n, k := |Frontier(w.head)|, |Frontier(w.tail)|;
    var env, out := Frontier(w), Frontier(u);
    TailPart(w);
    TailPart(u);
    UpdatesSame(b, ups, env, b', ups', Frontier(w.tail), n, out);
    WindowHead(w, u);
  }

  /** An event of the tail moves the tail and keeps the head. */
  lemma TailMaps(b: BExpr, ups: seq<Assignment>, b': BExpr, ups': seq<Assignment>, w: Tree, u: Tree)
    requires w.Cons? && Determined(b, ups, Frontier(w))
    requires SameGuard(b, Frontier(w), b', Frontier(w.tail))
    requires SameWrites(ups, Frontier(w), ups', Frontier(w.tail), |Frontier(w.head)|)
    ensures Maps(Event(b, ups), w, u) <==> u.Cons? && u.head == w.head && Maps(Event(b', ups'), w.tail, u.tail)
  {
    EventMaps(b, ups, w, u);
    if u.Cons? {
      EventMaps(b', ups', w.tail, u.tail);
      AlikeRefl(w.head);
      if Alike(w, u) {
        TailUpdates(b, ups, b', ups', w, u);
      }
    }
  }

  lemma {:induction false} AlikeRefl(w: Tree)
    ensures Alike(w, w)
  {
    if w.Cons? {
      AlikeRefl(w.head);
      AlikeRefl(w.tail);
    }
  }

  /** Nothing changes outside the head exactly when the tail is kept. */
  lemma WindowTail(w: Tree, u: Tree)
    requires w.Cons? && Alike(w, u)
    ensures Outside(Frontier(w), Frontier(u), 0, |Frontier(w.head)|) <==> u.tail == w.tail
  {
    AlikeSame(w.head, u.head);
    AlikeSame(w.tail, u.tail);
    var n := |Frontier(w.head)|;
    var env, out := Frontier(w), Frontier(u);
    assert env[n..] == Frontier(w.tail) && out[n..] == Frontier(u.tail);
    if Outside(env, out, 0, n) {
      forall q | 0 <= q < |Frontier(w.tail)|
        ensures Frontier(w.tail)[q] == Frontier(u.tail)[q]
      {
        assert env[n + q] == out[n + q];
      }
    }
  }

  lemma WindowHead(w: Tree, u: Tree)
    requires w.Cons? && Alike(w, u)
    ensures Outside(Frontier(w), Frontier(u), |Frontier(w.head)|, |Frontier(w.tail)|) <==> u.head == w.head
  {
    AlikeSame(w.head, u.head);
    AlikeSame(w.tail, u.tail);
    var n := |Frontier(w.head)|;
    var env, out := Frontier(w), Frontier(u);
    assert env[..n] == Frontier(w.head) && out[..n] == Frontier(u.head);
    if Outside(env, out, n, |Frontier(w.tail)|) {
      forall q | 0 <= q < n
        ensures Frontier(w.head)[q] == Frontier(u.head)[q]
      {
        assert env[q] == out[q];
      }
    }
  }

  // ----- Writes of a position to itself -----

  lemma {:induction false} KeptMembers(ups: seq<Assignment>)
    ensures forall a :: a in Kept(ups) <==> a in ups && a.lhs != a.rhs
    decreases |ups|
  {
    if ups != [] {
      var n := |ups| - 1;
      KeptMembers(ups[..n]);
      assert ups == ups[..n] + [ups[n]];
    }
  }

  /** The distinct targets of a list stay distinct in what is kept of it. */
  lemma {:induction false} KeptWritesDetermined(ups: seq<Assignment>, env: seq<int>)
    requires WritesDetermined(ups, env)
    ensures WritesDetermined(Kept(ups), env)
    decreases |ups|
  {
    hide Ready, SafeWrite, Target;
    if ups != [] {
      var n := |ups| - 1;
      var before, a := ups[..n], ups[n];
      KeptWritesDetermined(before, env);
      KeptMembers(before);
      var kept := Kept(before);
      forall i | 0 <= i < |kept| && Ready(kept[i], env) && Ready(a, env)
        ensures Target(kept[i].lhs, env) != Target(a.lhs, env)
      {
        assert kept[i] in kept;
        assert kept[i] in before;
        var k :| 0 <= k < n && before[k] == kept[i];
        assert ups[k] == kept[i];
      }
    }
  }

  lemma KeptDetermined(b: BExpr, ups: seq<Assignment>, env: seq<int>)
    requires Determined(b, ups, env)
    ensures Determined(b, Kept(ups), env)
  {
    if TruthOf(b, env) == Yes {
      KeptWritesDetermined(ups, env);
    }
  }

  /** A determined write of a position to itself writes what is there. */
  lemma SelfWrite(a: Assignment, env: seq<int>)
    requires a.lhs == a.rhs && (Ready(a, env) || SafeWrite(a, env)) && !a.lhs.Undef?
    ensures Ready(a, env) && 0 <= Target(a.lhs, env).value < |env|
    ensures Value(a.rhs, env).value == env[Target(a.lhs, env).value]
  {
  }

  /** Dropping writes of a position to itself changes nothing. */
  lemma KeptAssigns(b: BExpr, ups: seq<Assignment>, env: seq<int>, out: seq<int>)
    requires Determined(b, ups, env) && forall k :: 0 <= k < |ups| ==> !ups[k].lhs.Undef?
    ensures Updates(b, Kept(ups), env, out) <==> Updates(b, ups, env, out)
  {
    if TruthOf(b, env) == Yes {
      KeptMembers(ups);
      if Assigns(ups, env, out) {
        KeptForth(ups, env, out);
      }
      if Assigns(Kept(ups), env, out) {
        KeptBack(ups, env, out);
      }
    }
  }

  lemma KeptForth(ups: seq<Assignment>, env: seq<int>, out: seq<int>)
    requires WritesDetermined(ups, env) && (forall k :: 0 <= k < |ups| ==> !ups[k].lhs.Undef?) && Assigns(ups, env, out)
    ensures Assigns(Kept(ups), env, out)
  {
    KeptMembers(ups);
    var kept := Kept(ups);
    forall i | 0 <= i < |kept|
      ensures exists k :: 0 <= k < |ups| && ups[k] == kept[i]
    {
      assert kept[i] in kept;
      assert kept[i] in ups;
    }
    forall q | 0 <= q < |env| && (forall i :: 0 <= i < |kept| ==> Target(kept[i].lhs, env) != Some(q))
      ensures out[q] == env[q]
    {
      if k :| 0 <= k < |ups| && Target(ups[k].lhs, env) == Some(q) {
        assert ups[k] !in kept;
        SelfWrite(ups[k], env);
      }
    }
  }

  /** Every assignment is made: kept, or a self-write whose target nothing else writes. */
  lemma KeptBackAt(ups: seq<Assignment>, env: seq<int>, out: seq<int>, k: nat)
    requires WritesDetermined(ups, env) && k < |ups| && !ups[k].lhs.Undef? && Assigns(Kept(ups), env, out)
    ensures Ready(ups[k], env) && 0 <= Target(ups[k].lhs, env).value < |out|
    ensures out[Target(ups[k].lhs, env).value] == Value(ups[k].rhs, env).value
  {
    hide Target, Value, Kept;
    KeptMembers(ups);
    var kept := Kept(ups);
    if ups[k].lhs != ups[k].rhs {
      assert ups[k] in kept;
      var i :| 0 <= i < |kept| && kept[i] == ups[k];
    } else {
      SelfWrite(ups[k], env);
      SelfWriteAlone(ups, env, out, k);
    }
  }

  /** What no assignment writes, no kept one does. */
  lemma KeptBackRest(ups: seq<Assignment>, env: seq<int>, out: seq<int>, q: nat)
    requires Assigns(Kept(ups), env, out) && q < |env|
    requires forall k :: 0 <= k < |ups| ==> Target(ups[k].lhs, env) != Some(q)
    ensures out[q] == env[q]
  {
    hide Target, Value, Kept;
    KeptMembers(ups);
    var kept := Kept(ups);
    forall i | 0 <= i < |kept|
      ensures Target(kept[i].lhs, env) != Some(q)
    {
      assert kept[i] in ups;
    }
  }

  lemma KeptBack(ups: seq<Assignment>, env: seq<int>, out: seq<int>)
    requires WritesDetermined(ups, env) && (forall k :: 0 <= k < |ups| ==> !ups[k].lhs.Undef?) && Assigns(Kept(ups), env, out)
    ensures Assigns(ups, env, out)
  {
    hide Target, Value, Kept, WritesDetermined;
    forall k | 0 <= k < |ups|
      ensures Ready(ups[k], env) && 0 <= Target(ups[k].lhs, env).value < |out|
      ensures out[Target(ups[k].lhs, env).value] == Value(ups[k].rhs, env).value
    {
      KeptBackAt(ups, env, out, k);
    }
    forall q | 0 <= q < |env| && (forall k :: 0 <= k < |ups| ==> Target(ups[k].lhs, env) != Some(q))
      ensures out[q] == env[q]
    {
      KeptBackRest(ups, env, out, q);
    }
  }

  /** No kept write has the target of a dropped one. */
  lemma SelfWriteAlone(ups: seq<Assignment>, env: seq<int>, out: seq<int>, k: nat)
    requires WritesDetermined(ups, env) && Assigns(Kept(ups), env, out)
    requires k < |ups| && ups[k].lhs == ups[k].rhs && Ready(ups[k], env) && 0 <= Target(ups[k].lhs, env).value < |env|
    ensures out[Target(ups[k].lhs, env).value] == env[Target(ups[k].lhs, env).value]
  {
    KeptMembers(ups);
    var kept, q := Kept(ups), Target(ups[k].lhs, env).value;
    forall i | 0 <= i < |kept|
      ensures Target(kept[i].lhs, env) != Some(q)
    {
      assert kept[i] in kept;
      var j :| 0 <= j < |ups| && ups[j] == kept[i];
      assert Ready(ups[j], env) && j != k;
    }
  }

  // ----- Leaf events -----

  /** An array of one coordinate, indexed by an expression of it, is not loose. */
  lemma LeafArrayTight(cells: seq<int>, index: IExpr)
    requires Normal(index) && !index.Const? && !index.Undef? && Spans(index, 0, 1, true)
    requires forall i :: 0 <= i < |cells| ==> 0 <= cells[i] < 1
    ensures !Loose(cells, index)
  {
    if Reads(index) == {} {
      GroundIsConst(index);
    }
    SpansReads(index, 0, 1, true);
    var p := AnElement(Reads(index));
    assert p == 0 && p in Touches(index);
  }

  /** One coordinate has no loose array. */
  lemma {:induction false} LeafPlain(e: IExpr)
    requires Spans(e, 0, 1, true) && Normal(e)
    ensures Spans(e, 0, 1, false)
    decreases e
  {
    match e
    case Nary(_, ops) =>
      forall i | 0 <= i < |ops|
        ensures Spans(ops[i], 0, 1, false)
      {
        LeafPlain(ops[i]);
      }
    case Binary(_, l, r) =>
      LeafPlain(l);
      LeafPlain(r);
    case BitComp(x) =>
      LeafPlain(x);
    case Array(cells, index) =>
      LeafArrayTight(cells, index);
    case Wrap(b) =>
      LeafPlainBool(b);
    case _ =>
  }

  lemma {:induction false} LeafPlainBool(b: BExpr)
    requires SpansBool(b, 0, 1, true) && NormalBool(b)
    ensures SpansBool(b, 0, 1, false)
    decreases b
  {
    match b
    case Compare(_, l, r) =>
      LeafPlain(l);
      LeafPlain(r);
    case NaryBool(_, ops) =>
      forall i | 0 <= i < |ops|
        ensures SpansBool(ops[i], 0, 1, false)
      {
        LeafPlainBool(ops[i]);
      }
    case Not(a) =>
      LeafPlainBool(a);
    case _ =>
  }

  /** A guard at a leaf holds where it is true. */
  lemma LeafGuard(g: BExpr, v: int)
    requires SpansBool(g, 0, 1, false)
    ensures Passes(GuardOf(g), v) <==> TruthOf(g, [v]) == Yes
  {
    StripBoolPlain(g, 0, 1);
  }

  lemma KeepIfMaps(g: BExpr, v: int, u: Tree)
    requires SpansBool(g, 0, 1, false)
    ensures Maps(KeepIf(g), Int(v), u) <==> u == Int(v) && TruthOf(g, [v]) == Yes
  {
    LeafGuard(g, v);
  }

  lemma IncrementValue(rhs: IExpr, v: int)
    requires Increment(rhs).Some?
    ensures Value(rhs, [v]) == Some(v + Increment(rhs).value)
  {
    var ops := rhs.ops;
    assert ops == [ops[0]] + [ops[1]];
    ValueAllConcat(true, [ops[0]], [ops[1]], [v]);
    ValueAllOne(true, ops[0], [v]);
    ValueAllOne(true, ops[1], [v]);
  }

  lemma AssignIfMaps(g: BExpr, c: int, v: int, u: Tree)
    requires SpansBool(g, 0, 1, false)
    ensures Maps(Act(GuardOf(g), Assign(c)), Int(v), u) <==> u == Int(c) && TruthOf(g, [v]) == Yes
  {
    LeafGuard(g, v);
  }

  lemma ShiftIfMaps(g: BExpr, delta: int, v: int, u: Tree)
    requires SpansBool(g, 0, 1, false)
    ensures Maps(ShiftIf(g, delta), Int(v), u) <==> u == Int(v + delta) && TruthOf(g, [v]) == Yes
  {
    LeafGuard(g, v);
    KeepIfMaps(g, v, u);
  }

  lemma ApplyIfMaps(g: BExpr, rhs: IExpr, v: int, u: Tree)
    requires SpansBool(g, 0, 1, false) && Spans(rhs, 0, 1, false)
    ensures Maps(ApplyIf(g, rhs), Int(v), u) <==>
            u.Int? && TruthOf(g, [v]) == Yes && Value(rhs, [v]) == Some(u.v)
  {
    hide Maps, TruthOf, Increment, GuardOf, KeepIf, ShiftIf;
    if rhs.Const? {
      AssignIfMaps(g, rhs.value, v, u);
    } else if rhs.Undef? {
      KeepIfMaps(BFalse, v, u);
      FalseIsNo([v]);
    } else if rhs == Var(0) {
      KeepIfMaps(g, v, u);
      assert Value(rhs, [v]) == Some(v);
    } else if Increment(rhs).Some? {
      IncrementValue(rhs, v);
      ShiftIfMaps(g, Increment(rhs).value, v, u);
    } else {
      TransformMaps(g, rhs, v, u);
    }
  }

  lemma FalseIsNo(env: seq<int>)
    ensures TruthOf(BFalse, env) == No
  {
  }

  lemma TransformMaps(g: BExpr, rhs: IExpr, v: int, u: Tree)
    requires SpansBool(g, 0, 1, false) && Spans(rhs, 0, 1, false)
    ensures Maps(Act(GuardOf(g), Transform(rhs, 0)), Int(v), u) <==>
            u.Int? && TruthOf(g, [v]) == Yes && Value(rhs, [v]) == Some(u.v)
  {
    LeafGuard(g, v);
    StripPlain(rhs, 0, 1);
  }

  lemma OneWrite(a: Assignment, v: int, u: Tree)
    requires a.lhs == Var(0)
    ensures u.Int? ==> (Assigns([a], [v], Frontier(u)) <==> Value(a.rhs, [v]) == Some(u.v))
  {
    if u.Int? {
      assert Frontier(u) == [u.v] && [a][0] == a;
      assert Target(a.lhs, [v]) == Some(0);
    }
  }

  lemma NoWrite(v: int, u: Tree)
    ensures u.Int? ==> (Assigns([], [v], Frontier(u)) <==> u == Int(v))
  {
    if u.Int? {
      assert Frontier(u) == [u.v];
      if Assigns([], [v], [u.v]) {
        assert [u.v][0] == [v][0];
      }
    }
  }

  /** At a leaf every write is of the one coordinate; two of them, where all are made, would be of one target. */
  lemma LeafWrites(b: BExpr, ups: seq<Assignment>, v: int)
    requires EventFits(Leaf, b, ups) && !Hopeless(b, ups)
    ensures SpansBool(b, 0, 1, false)
    ensures forall k :: 0 <= k < |ups| ==> ups[k].lhs == Var(0) && Spans(ups[k].rhs, 0, 1, false)
    ensures Determined(b, ups, [v]) && |ups| >= 2 && TruthOf(b, [v]) == Yes ==>
              exists k :: 0 <= k < |ups| && !Ready(ups[k], [v])
  {
    LeafPlainBool(b);
    forall k | 0 <= k < |ups|
      ensures ups[k].lhs == Var(0) && Spans(ups[k].rhs, 0, 1, false)
    {
      LeafPlain(ups[k].lhs);
      LeafPlain(ups[k].rhs);
    }
    if Determined(b, ups, [v]) && |ups| >= 2 && TruthOf(b, [v]) == Yes {
      var a, c := ups[0], ups[1];
      assert Target(a.lhs, [v]) == Target(c.lhs, [v]);
      assert !(Ready(a, [v]) && Ready(c, [v]));
    }
  }

  lemma LeafEventMaps(b: BExpr, ups: seq<Assignment>, w: Tree, u: Tree)
    requires EventFits(Leaf, b, ups) && !Hopeless(b, ups) && w.Int? && Determined(b, ups, Frontier(w))
    ensures Maps(LeafEvent(b, ups), w, u) <==> Maps(Event(b, ups), w, u)
  {
    assert Frontier(w) == [w.v];
    LeafWrites(b, ups, w.v);
    EventMaps(b, ups, w, u);
    if ups == [] {
      KeepIfMaps(b, w.v, u);
      NoWrite(w.v, u);
    } else if |ups| == 1 {
      assert ups == [ups[0]];
      ApplyIfMaps(b, ups[0].rhs, w.v, u);
      OneWrite(ups[0], w.v, u);
    } else if TruthOf(b, [w.v]) == Yes {
      var k :| 0 <= k < |ups| && !Ready(ups[k], [w.v]);
      SomeRefused(ups, [w.v], Frontier(u), k);
    }
  }

  // ----- What a built event does -----

  lemma {:induction false} ZeroTermMaps(sh: Shape, w: Tree, u: Tree)
    requires Led(sh)
    ensures !ZeroTerm(sh).Id? && !Maps(ZeroTerm(sh), w, u)
  {
    if sh.Pair? {
      var p, q := if w.Cons? then w.head else w, if u.Cons? then u.head else u;
      ZeroTermMaps(sh.head, p, q);
    }
  }

  lemma {:induction false} TouchedMember(ups: seq<Assignment>, k: nat)
    requires k < |ups|
    ensures TouchedBy(ups[k]) <= TouchedByAll(ups)
    decreases |ups|
  {
    if k < |ups| - 1 {
      TouchedMember(ups[..|ups| - 1], k);
    }
  }

  /** The writes lie in `lo..hi`. */
  ghost predicate WritesSpan(ups: seq<Assignment>, lo: int, hi: int) {
    forall k :: 0 <= k < |ups| ==> Spans(ups[k].lhs, lo, hi, true) && Spans(ups[k].rhs, lo, hi, true)
  }

  /** An event whose touched positions lie in a range spans that range. */
  lemma NarrowEvent(sh: Shape, b: BExpr, ups: seq<Assignment>, lo: int, hi: int)
    requires EventFits(sh, b, ups) && InRange(Touched(b, ups), lo, hi)
    ensures SpansBool(b, lo, hi, true) && WritesSpan(ups, lo, hi)
  {
    NarrowBool(b, 0, Width(sh), lo, hi, true);
    forall k | 0 <= k < |ups|
      ensures Spans(ups[k].lhs, lo, hi, true) && Spans(ups[k].rhs, lo, hi, true)
    {
      TouchedMember(ups, k);
      Narrow(ups[k].lhs, 0, Width(sh), lo, hi, true);
      Narrow(ups[k].rhs, 0, Width(sh), lo, hi, true);
    }
  }

  lemma TouchedInRange(sh: Shape, b: BExpr, ups: seq<Assignment>)
    requires EventFits(sh, b, ups)
    ensures InRange(Touched(b, ups), 0, Width(sh))
  {
    SpansReadsBool(b, 0, Width(sh), true);
    WritesInRange(ups, Width(sh));
  }

  lemma {:induction false} WritesInRange(ups: seq<Assignment>, n: nat)
    requires WritesSpan(ups, 0, n)
    ensures InRange(TouchedByAll(ups), 0, n)
    decreases |ups|
  {
    if ups != [] {
      var a := ups[|ups| - 1];
      WritesInRange(ups[..|ups| - 1], n);
      SpansReads(a.lhs, 0, n, true);
      SpansReads(a.rhs, 0, n, true);
    }
  }

  lemma KeptFits(sh: Shape, b: BExpr, ups: seq<Assignment>)
    requires EventFits(sh, b, ups)
    ensures EventFits(sh, b, Kept(ups))
    ensures !Hopeless(b, ups) ==> !Hopeless(b, Kept(ups))
  {
    hide WriteFits;
    KeptMembers(ups);
    var kept := Kept(ups);
    forall k | 0 <= k < |kept|
      ensures exists j :: 0 <= j < |ups| && ups[j] == kept[k]
    {
      assert kept[k] in kept;
      assert kept[k] in ups;
    }
  }

  /** The event, pushed to the head. */
  lemma HeadFits(sh: Shape, b: BExpr, ups: seq<Assignment>)
    requires sh.Pair? && EventFits(sh, b, ups) && AllBelow(Touched(b, ups), Width(sh.head))
    ensures EventFits(sh.head, b, ups) && SpansBool(b, 0, Width(sh.head), true) && WritesSpan(ups, 0, Width(sh.head))
  {
    TouchedInRange(sh, b, ups);
    NarrowEvent(sh, b, ups, 0, Width(sh.head));
  }

  /** The event `b, ups` of the tail is `b', ups'` re-rooted. */
  ghost predicate Rerooted(sh: Shape, b: BExpr, ups: seq<Assignment>, b': BExpr, ups': seq<Assignment>) {
    && sh.Pair? && AllFrom(Touched(b, ups), Width(sh.head))
    && b' == ShiftBool(b, 0 - Width(sh.head)) && ups' == ShiftWrites(ups, 0 - Width(sh.head))
  }

  /** The event, re-rooted in the tail. */
  lemma TailFits(sh: Shape, b: BExpr, ups: seq<Assignment>, b': BExpr, ups': seq<Assignment>)
    requires EventFits(sh, b, ups) && Rerooted(sh, b, ups, b', ups') && Led(sh.tail)
    ensures EventFits(sh.tail, b', ups')
  {
    hide Spans, SpansBool, Shift;
    var wh: int := Width(sh.head);
    TailSpans(sh, b, ups);
    ShiftBoolSpans(b, -wh, wh, Width(sh), true);
    forall k | 0 <= k < |ups'|
      ensures WriteFits(Width(sh.tail), ups'[k])
    {
      ShiftSpans(ups[k].lhs, -wh, wh, Width(sh), true);
      ShiftSpans(ups[k].rhs, -wh, wh, Width(sh), true);
      ShiftedTarget(ups[k].lhs, -wh);
    }
  }

  lemma TailSpans(sh: Shape, b: BExpr, ups: seq<Assignment>)
    requires sh.Pair? && EventFits(sh, b, ups) && AllFrom(Touched(b, ups), Width(sh.head))
    ensures SpansBool(b, Width(sh.head), Width(sh), true) && WritesSpan(ups, Width(sh.head), Width(sh))
  {
    TouchedInRange(sh, b, ups);
    NarrowEvent(sh, b, ups, Width(sh.head), Width(sh));
  }

  lemma ShiftedTarget(lhs: IExpr, delta: int)
    requires (lhs.Var? || lhs.Array? || lhs.Undef?) && Normal(lhs)
    ensures Shift(lhs, delta).Var? || Shift(lhs, delta).Array? || Shift(lhs, delta).Undef?
  {
  }

  lemma HeadSame(sh: Shape, b: BExpr, ups: seq<Assignment>, w: Tree)
    requires sh.Pair? && Laid(sh, w) && SpansBool(b, 0, Width(sh.head), true) && WritesSpan(ups, 0, Width(sh.head))
    ensures SameGuard(b, Frontier(w), b, Frontier(w.head))
    ensures SameWrites(ups, Frontier(w), ups, Frontier(w.head), 0)
  {
    FrontierWidth(sh.head, w.head);
    var n := Width(sh.head);
    assert Frontier(w)[..n] == Frontier(w.head);
    TruthLocal(b, n, Frontier(w));
    SafeBoolLocal(b, n, Frontier(w), NoBan);
    forall k | 0 <= k < |ups|
      ensures SameWrite(ups[k], Frontier(w), ups[k], Frontier(w.head), 0)
    {
      HeadWrite(n, ups[k], Frontier(w));
    }
  }

  lemma TailSame(sh: Shape, b: BExpr, ups: seq<Assignment>, b': BExpr, ups': seq<Assignment>, w: Tree)
    requires EventFits(sh, b, ups) && Rerooted(sh, b, ups, b', ups') && Laid(sh, w)
    ensures SameGuard(b, Frontier(w), b', Frontier(w.tail))
    ensures SameWrites(ups, Frontier(w), ups', Frontier(w.tail), |Frontier(w.head)|)
  {
    hide Spans, SpansBool, Value, TruthOf, SafeBool, SameWrite, Shift, ShiftBool;
    FrontierWidth(sh.head, w.head);
    FrontierWidth(sh, w);
    TailSpans(sh, b, ups);
    var wh: int := Width(sh.head);
    assert Frontier(w)[wh..] == Frontier(w.tail);
    ShiftBoolRefines(b, wh, Frontier(w));
    if SafeBool(b, Frontier(w), NoBan) {
      ShiftBoolSafe(b, wh, Frontier(w), NoBan);
    }
    forall k | 0 <= k < |ups|
      ensures SameWrite(ups[k], Frontier(w), ups'[k], Frontier(w.tail), wh)
    {
      TailWrite(wh, ups[k], Frontier(w));
    }
  }

  /** Something is touched unless there is nothing to do. */
  lemma SomethingTouched(sh: Shape, b: BExpr, ups: seq<Assignment>)
    requires EventFits(sh, b, ups) && !Hopeless(b, ups) && !(b == BTrue && ups == [])
    ensures Touched(b, ups) != {}
  {
    if ups == [] {
      if ReadsBool(b) == {} {
        GroundIsImmediate(b);
      }
    } else {
      var a := ups[|ups| - 1];
      TouchedMember(ups, |ups| - 1);
      assert a.lhs.Var? ==> a.lhs.pos in Reads(a.lhs);
      if a.lhs.Array? && Reads(a.lhs) == {} {
        GroundIsConst(a.lhs.index);
      }
    }
  }

  lemma HopelessMaps(b: BExpr, ups: seq<Assignment>, w: Tree, u: Tree)
    requires Hopeless(b, ups)
    ensures !Maps(Event(b, ups), w, u)
  {
    EventMaps(b, ups, w, u);
    if b != BFalse && b != BUndef {
      var k :| 0 <= k < |ups| && (ups[k].lhs == Undef || ups[k].rhs == Undef);
      SomeRefused(ups, Frontier(w), Frontier(u), k);
    }
  }

  lemma KeptMaps(b: BExpr, ups: seq<Assignment>, w: Tree, u: Tree)
    requires !Hopeless(b, ups) && Determined(b, ups, Frontier(w))
    ensures Maps(Event(b, Kept(ups)), w, u) <==> Maps(Event(b, ups), w, u)
    ensures Determined(b, Kept(ups), Frontier(w))
  {
    KeptDetermined(b, ups, Frontier(w));
    KeptAssigns(b, ups, Frontier(w), Frontier(u));
    EventMaps(b, ups, w, u);
    EventMaps(b, Kept(ups), w, u);
  }

  /** Nothing to check and nothing to write: the identity. */
  lemma IdleMaps(w: Tree, u: Tree)
    ensures Maps(Event(BTrue, []), w, u) <==> u == w
  {
    EventMaps(BTrue, [], w, u);
    AlikeRefl(w);
    if Maps(Event(BTrue, []), w, u) {
      AlikeSame(w, u);
      assert forall q :: 0 <= q < |Frontier(w)| ==> Frontier(u)[q] == Frontier(w)[q];
    }
  }

  lemma OnPairMaps(h: Term, t: Term, w: Tree, u: Tree)
    ensures Maps(OnPair(h, t), w, u) <==>
            w.Cons? && u.Cons? && Maps(h, w.head, u.head) && Maps(t, w.tail, u.tail)
  {
  }

  lemma IdMaps(w: Tree, u: Tree)
    ensures Maps(Id, w, u) <==> u == w
  {
  }

  lemma PairOfMaps(h: Term, t: Term, w: Tree, u: Tree)
    requires w.Cons?
    ensures Maps(PairOf(h, Id), w, u) <==> u.Cons? && u.tail == w.tail && Maps(h, w.head, u.head)
    ensures Maps(PairOf(Id, t), w, u) <==> u.Cons? && u.head == w.head && Maps(t, w.tail, u.tail)
  {
    hide Maps;
    IdMaps(w, u);
    OnPairMaps(h, Id, w, u);
    OnPairMaps(Id, t, w, u);
    if u.Cons? {
      IdMaps(w.head, u.head);
      IdMaps(w.tail, u.tail);
    }
  }

  /** A tail with a touched position is not the unit. */
  lemma TailLed(sh: Shape, b: BExpr, ups: seq<Assignment>)
    requires sh.Pair? && EventFits(sh, b, ups) && !Hopeless(b, ups) && !(b == BTrue && ups == [])
    requires AllFrom(Touched(b, ups), Width(sh.head))
    ensures Led(sh.tail)
  {
    SomethingTouched(sh, b, ups);
    TouchedInRange(sh, b, ups);
    var p := AnElement(Touched(b, ups));
  }

  /** `t` does what the event does at the words of this shape where it is determined. */
  ghost predicate Does(sh: Shape, b: BExpr, ups: seq<Assignment>, t: Term) {
    forall w, u :: Laid(sh, w) && Determined(b, ups, Frontier(w)) ==> (Maps(t, w, u) <==> Maps(Event(b, ups), w, u))
  }

  lemma PushHeadMaps(sh: Shape, b: BExpr, ups: seq<Assignment>, t: Term)
    requires sh.Pair? && EventFits(sh, b, ups) && AllBelow(Touched(b, ups), Width(sh.head)) && Does(sh.head, b, ups, t)
    ensures Does(sh, b, ups, PairOf(t, Id))
  {
    HeadFits(sh, b, ups);
    forall w, u | Laid(sh, w) && Determined(b, ups, Frontier(w))
      ensures Maps(PairOf(t, Id), w, u) <==> Maps(Event(b, ups), w, u)
    {
      HeadSame(sh, b, ups, w);
      HeadMaps(b, ups, b, ups, w, u);
      PairOfMaps(t, Id, w, u);
      DeterminedSame(b, ups, Frontier(w), b, ups, Frontier(w.head), 0);
    }
  }

  lemma PushTailMaps(sh: Shape, b: BExpr, ups: seq<Assignment>, b': BExpr, ups': seq<Assignment>, t: Term)
    requires EventFits(sh, b, ups) && Rerooted(sh, b, ups, b', ups') && Does(sh.tail, b', ups', t)
    ensures Does(sh, b, ups, PairOf(Id, t))
  {
    forall w, u | Laid(sh, w) && Determined(b, ups, Frontier(w))
      ensures Maps(PairOf(Id, t), w, u) <==> Maps(Event(b, ups), w, u)
    {
      TailSame(sh, b, ups, b', ups', w);
      TailMaps(b, ups, b', ups', w, u);
      PairOfMaps(Id, t, w, u);
      DeterminedSame(b, ups, Frontier(w), b', ups', Frontier(w.tail), |Frontier(w.head)|);
    }
  }

  lemma LeafDoes(b: BExpr, ups: seq<Assignment>)
    requires EventFits(Leaf, b, ups) && !Hopeless(b, ups)
    ensures Does(Leaf, b, ups, LeafEvent(b, ups))
  {
    forall w, u | Laid(Leaf, w) && Determined(b, ups, Frontier(w))
      ensures Maps(LeafEvent(b, ups), w, u) <==> Maps(Event(b, ups), w, u)
    {
      LeafEventMaps(b, ups, w, u);
    }
  }

  /** The cases of the push-down. */
  lemma PushDownHead(sh: Shape, b: BExpr, ups: seq<Assignment>)
    requires sh.Pair? && AllBelow(Touched(b, ups), Width(sh.head))
    ensures PushDown(sh, b, ups) == PairOf(MakeEvent(sh.head, b, ups), Id)
  {
  }

  lemma PushDownTail(sh: Shape, b: BExpr, ups: seq<Assignment>, b': BExpr, ups': seq<Assignment>)
    requires Rerooted(sh, b, ups, b', ups') && !AllBelow(Touched(b, ups), Width(sh.head))
    ensures PushDown(sh, b, ups) == PairOf(Id, MakeEvent(sh.tail, b', ups'))
  {
  }

  /** A tail with a touched position is not the unit, and takes the re-rooted event. */
  lemma Reroot(sh: Shape, b: BExpr, ups: seq<Assignment>) returns (b': BExpr, ups': seq<Assignment>)
    requires sh.Pair? && EventFits(sh, b, ups) && !Hopeless(b, ups) && !(b == BTrue && ups == [])
    requires AllFrom(Touched(b, ups), Width(sh.head))
    ensures Rerooted(sh, b, ups, b', ups') && EventFits(sh.tail, b', ups')
  {
    TailLed(sh, b, ups);
    b', ups' := ShiftBool(b, 0 - Width(sh.head)), ShiftWrites(ups, 0 - Width(sh.head));
    TailFits(sh, b, ups, b', ups');
  }

  lemma {:induction false} PushDownDoes(sh: Shape, b: BExpr, ups: seq<Assignment>)
    requires EventFits(sh, b, ups) && !Hopeless(b, ups) && !(b == BTrue && ups == [])
    ensures Does(sh, b, ups, PushDown(sh, b, ups))
    decreases sh, 0
  {
    if sh.Pair? {
      if AllBelow(Touched(b, ups), Width(sh.head)) {
        HeadFits(sh, b, ups);
        MakeEventDoes(sh.head, b, ups);
        PushHeadMaps(sh, b, ups, MakeEvent(sh.head, b, ups));
        PushDownHead(sh, b, ups);
      } else if AllFrom(Touched(b, ups), Width(sh.head)) {
        var b', ups' := Reroot(sh, b, ups);
        MakeEventDoes(sh.tail, b', ups');
        PushTailMaps(sh, b, ups, b', ups', MakeEvent(sh.tail, b', ups'));
        PushDownTail(sh, b, ups, b', ups');
      }
    } else {
      LeafDoes(b, ups);
    }
  }

  /** The built term is the guarded simultaneous assignment, at every shape. */
  lemma {:induction false} MakeEventDoes(sh: Shape, b: BExpr, ups: seq<Assignment>)
    requires EventFits(sh, b, ups)
    ensures Does(sh, b, ups, MakeEvent(sh, b, ups))
    decreases sh, 1
  {
    if Hopeless(b, ups) {
      HopelessDoes(sh, b, ups);
    } else {
      KeptFits(sh, b, ups);
      if b == BTrue && Kept(ups) == [] {
        IdleDoes(sh);
      } else {
        PushDownDoes(sh, b, Kept(ups));
      }
      KeptDoes(sh, b, ups, MakeEvent(sh, b, ups));
    }
  }

  lemma HopelessDoes(sh: Shape, b: BExpr, ups: seq<Assignment>)
    requires Led(sh) && Hopeless(b, ups)
    ensures Does(sh, b, ups, ZeroTerm(sh))
  {
    forall w, u | Laid(sh, w) && Determined(b, ups, Frontier(w))
      ensures Maps(ZeroTerm(sh), w, u) <==> Maps(Event(b, ups), w, u)
    {
      HopelessMaps(b, ups, w, u);
      ZeroTermMaps(sh, w, u);
    }
  }

  lemma IdleDoes(sh: Shape)
    ensures Does(sh, BTrue, [], Id)
  {
    forall w, u
      ensures Maps(Id, w, u) <==> Maps(Event(BTrue, []), w, u)
    {
      IdleMaps(w, u);
    }
  }

  lemma KeptDoes(sh: Shape, b: BExpr, ups: seq<Assignment>, t: Term)
    requires !Hopeless(b, ups) && Does(sh, b, Kept(ups), t)
    ensures Does(sh, b, ups, t)
  {
    forall w, u | Laid(sh, w) && Determined(b, ups, Frontier(w))
      ensures Maps(t, w, u) <==> Maps(Event(b, ups), w, u)
    {
      KeptMaps(b, ups, w, u);
    }
  }

  // ----- Events determined at every word -----

  /** Nothing in the text of the assignment can lose an undefined value, and it copies no cell of an array to that array. */
  predicate PlainWrite(a: Assignment) {
    if a.lhs.Array? then Plain(a.lhs.index, None) && Plain(a.rhs, Some(a.lhs.cells)) else Plain(a.rhs, None)
  }

  lemma PlainWriteSafe(a: Assignment, env: seq<int>)
    requires PlainWrite(a) && WriteFits(|env|, a)
    ensures SafeWrite(a, env)
  {
    hide Plain, Normal, Value;
    var cells := if a.lhs.Array? then Some(a.lhs.cells) else None;
    PlainSafe(a.rhs, cells, env, NoBan);
    PlainSafe(a.rhs, cells, env, BanOf(a, env));
    if a.lhs.Array? {
      PlainSafe(a.lhs.index, None, env, NoBan);
    }
  }

  /** A plain event with distinct targets is determined, whatever accesses are out of bounds. */
  lemma PlainDetermined(sh: Shape, b: BExpr, ups: seq<Assignment>, w: Tree)
    requires EventFits(sh, b, ups) && Laid(sh, w) && PlainBool(b, None) && forall k :: 0 <= k < |ups| ==> PlainWrite(ups[k])
    requires forall i, j :: 0 <= i < j < |ups| && Ready(ups[i], Frontier(w)) && Ready(ups[j], Frontier(w)) ==>
               Target(ups[i].lhs, Frontier(w)) != Target(ups[j].lhs, Frontier(w))
    ensures Determined(b, ups, Frontier(w))
  {
    hide WriteFits, PlainWrite, SafeWrite, Ready;
    FrontierWidth(sh, w);
    PlainBoolSafe(b, None, Frontier(w), NoBan);
    forall k | 0 <= k < |ups|
      ensures SafeWrite(ups[k], Frontier(w))
    {
      PlainWriteSafe(ups[k], Frontier(w));
    }
  }

  // ----- The built term can be applied -----

  lemma {:induction false} ZeroTermSorted(sh: Shape)
    requires Led(sh)
    ensures Sorted(sh, ZeroTerm(sh)) && Weight(ZeroTerm(sh)) == 0
  {
    if sh.Pair? {
      ZeroTermSorted(sh.head);
    }
  }

  lemma LeafEventSorted(b: BExpr, ups: seq<Assignment>)
    ensures Sorted(Leaf, LeafEvent(b, ups)) && Weight(LeafEvent(b, ups)) == 0
  {
  }

  lemma {:induction false} KeptWeight(ups: seq<Assignment>)
    ensures WritesWeight(Kept(ups)) <= WritesWeight(ups)
    decreases |ups|
  {
    if ups != [] {
      var n := |ups| - 1;
      KeptWeight(ups[..n]);
      WritesWeightAppend(ups[..n], ups[n]);
      WritesWeightAppend(Kept(ups[..n]), ups[n]);
      assert ups == ups[..n] + [ups[n]];
    }
  }

  lemma {:induction false} WritesWeightAppend(ups: seq<Assignment>, a: Assignment)
    ensures WritesWeight(ups + [a]) == WritesWeight(ups) + 1 + Size(a.lhs) + Size(a.rhs)
    decreases |ups|
  {
    if ups == [] {
      assert [] + [a] == [a] && WritesWeight([a][1..]) == 0;
    } else {
      WritesWeightAppend(ups[1..], a);
      assert (ups + [a])[1..] == ups[1..] + [a];
    }
  }

  lemma {:induction false} ShiftWeight(ups: seq<Assignment>, delta: int)
    ensures WritesWeight(ShiftWrites(ups, delta)) <= WritesWeight(ups)
    decreases |ups|
  {
    if ups != [] {
      ShiftSize(ups[0].lhs, delta);
      ShiftSize(ups[0].rhs, delta);
      ShiftWeight(ups[1..], delta);
      assert ShiftWrites(ups, delta)[1..] == ShiftWrites(ups[1..], delta);
    }
  }

  /** A term that can be applied at this sort, no heavier than the event. */
  ghost predicate Fine(sh: Shape, b: BExpr, ups: seq<Assignment>, t: Term) {
    Sorted(sh, t) && Weight(t) <= EventWeight(b, ups)
  }

  lemma PairFine(sh: Shape, b: BExpr, ups: seq<Assignment>, b': BExpr, ups': seq<Assignment>, t: Term, inHead: bool)
    requires sh.Pair? && Fine(if inHead then sh.head else sh.tail, b', ups', t) && EventWeight(b', ups') <= EventWeight(b, ups)
    ensures Fine(sh, b, ups, if inHead then PairOf(t, Id) else PairOf(Id, t))
  {
  }

  lemma ShiftedWeight(b: BExpr, ups: seq<Assignment>, delta: int)
    ensures EventWeight(ShiftBool(b, delta), ShiftWrites(ups, delta)) <= EventWeight(b, ups)
  {
    ShiftBoolSize(b, delta);
    ShiftWeight(ups, delta);
  }

  lemma PushDownStays(sh: Shape, b: BExpr, ups: seq<Assignment>)
    requires EventFits(sh, b, ups) && !Hopeless(b, ups)
    requires sh.Pair? ==> !AllBelow(Touched(b, ups), Width(sh.head)) && !AllFrom(Touched(b, ups), Width(sh.head))
    ensures Fine(sh, b, ups, PushDown(sh, b, ups))
  {
    hide MakeEvent;
    if !sh.Pair? {
      LeafEventSorted(b, ups);
    }
  }

  lemma {:induction false} PushDownFine(sh: Shape, b: BExpr, ups: seq<Assignment>)
    requires EventFits(sh, b, ups) && !Hopeless(b, ups) && !(b == BTrue && ups == [])
    ensures Fine(sh, b, ups, PushDown(sh, b, ups))
    decreases sh, 0
  {
    hide PushDown, Fine, EventFits, Hopeless, MakeEvent, Touched, AllBelow, AllFrom, Width, EventWeight, ShiftBool, ShiftWrites;
    if sh.Pair? && AllBelow(Touched(b, ups), Width(sh.head)) {
      HeadFits(sh, b, ups);
      MakeEventFine(sh.head, b, ups);
      PairFine(sh, b, ups, b, ups, MakeEvent(sh.head, b, ups), true);
      PushDownHead(sh, b, ups);
    } else if sh.Pair? && AllFrom(Touched(b, ups), Width(sh.head)) {
      var b', ups' := Reroot(sh, b, ups);
      ShiftedWeight(b, ups, 0 - Width(sh.head));
      MakeEventFine(sh.tail, b', ups');
      PairFine(sh, b, ups, b', ups', MakeEvent(sh.tail, b', ups'), false);
      PushDownTail(sh, b, ups, b', ups');
    } else {
      PushDownStays(sh, b, ups);
    }
  }

  lemma {:induction false} MakeEventFine(sh: Shape, b: BExpr, ups: seq<Assignment>)
    requires EventFits(sh, b, ups)
    ensures Fine(sh, b, ups, MakeEvent(sh, b, ups))
    decreases sh, 1
  {
    if Hopeless(b, ups) {
      ZeroTermSorted(sh);
    } else if b != BTrue || Kept(ups) != [] {
      KeptFits(sh, b, ups);
      KeptWeight(ups);
      PushDownFine(sh, b, Kept(ups));
    }
  }

  lemma {:induction false} ZeroTermClosureFree(sh: Shape)
    ensures ClosureFree(ZeroTerm(sh))
  {
    if sh.Pair? {
      ZeroTermClosureFree(sh.head);
    }
  }

  /** No event builds a closure. */
  lemma {:induction false} MakeEventClosureFree(sh: Shape, b: BExpr, ups: seq<Assignment>)
    ensures ClosureFree(MakeEvent(sh, b, ups))
    decreases sh, 1
  {
    if Hopeless(b, ups) {
      ZeroTermClosureFree(sh);
    } else if b != BTrue || Kept(ups) != [] {
      PushDownClosureFree(sh, b, Kept(ups));
    }
  }

  lemma {:induction false} PushDownClosureFree(sh: Shape, b: BExpr, ups: seq<Assignment>)
    ensures ClosureFree(PushDown(sh, b, ups))
    decreases sh, 0
  {
    hide Touched, ShiftBool, ShiftWrites, Width;
    if sh.Pair? {
      MakeEventClosureFree(sh.head, b, ups);
      MakeEventClosureFree(sh.tail, ShiftBool(b, 0 - Width(sh.head)), ShiftWrites(ups, 0 - Width(sh.head)));
    }
  }

  /** The event is determined at every word of the set. */
  ghost predicate DeterminedOn(sh: Shape, b: BExpr, ups: seq<Assignment>, U: set<Tree>) {
    forall w :: w in U ==> Laid(sh, w) && Determined(b, ups, Frontier(w))
  }

  lemma {:induction false} ZeroTermBounded(sh: Shape, U: set<Tree>)
    ensures Bounded(ZeroTerm(sh), U)
    decreases sh
  {
    if sh.Pair? {
      ZeroTermBounded(sh.head, Heads(U));
    }
  }

  lemma {:induction false} MakeEventBounded(sh: Shape, b: BExpr, ups: seq<Assignment>, U: set<Tree>)
    requires EventFits(sh, b, ups) && DeterminedOn(sh, b, ups, U)
    ensures Bounded(MakeEvent(sh, b, ups), U)
    decreases sh, 1
  {
    if Hopeless(b, ups) {
      ZeroTermBounded(sh, U);
    } else if b != BTrue || Kept(ups) != [] {
      KeptFits(sh, b, ups);
      KeptDeterminedOn(sh, b, ups, U);
      PushDownBounded(sh, b, Kept(ups), U);
    }
  }

  lemma KeptDeterminedOn(sh: Shape, b: BExpr, ups: seq<Assignment>, U: set<Tree>)
    requires DeterminedOn(sh, b, ups, U)
    ensures DeterminedOn(sh, b, Kept(ups), U)
  {
    forall w | w in U
      ensures Laid(sh, w) && Determined(b, Kept(ups), Frontier(w))
    {
      KeptDetermined(b, ups, Frontier(w));
    }
  }

  lemma HeadsDetermined(sh: Shape, b: BExpr, ups: seq<Assignment>, U: set<Tree>)
    requires sh.Pair? && EventFits(sh, b, ups) && DeterminedOn(sh, b, ups, U)
    requires AllBelow(Touched(b, ups), Width(sh.head))
    ensures DeterminedOn(sh.head, b, ups, Heads(U))
  {
    HeadFits(sh, b, ups);
    forall p | p in Heads(U)
      ensures Laid(sh.head, p) && Determined(b, ups, Frontier(p))
    {
      var w :| w in U && w.Cons? && w.head == p;
      HeadSame(sh, b, ups, w);
      DeterminedSame(b, ups, Frontier(w), b, ups, Frontier(p), 0);
    }
  }

  lemma TailsDetermined(sh: Shape, b: BExpr, ups: seq<Assignment>, b': BExpr, ups': seq<Assignment>, U: set<Tree>)
    requires EventFits(sh, b, ups) && Rerooted(sh, b, ups, b', ups') && DeterminedOn(sh, b, ups, U)
    ensures DeterminedOn(sh.tail, b', ups', Tails(U))
  {
    forall s | s in Tails(U)
      ensures Laid(sh.tail, s) && Determined(b', ups', Frontier(s))
    {
      var w :| w in U && w.Cons? && w.tail == s;
      TailSame(sh, b, ups, b', ups', w);
      DeterminedSame(b, ups, Frontier(w), b', ups', Frontier(w.tail), |Frontier(w.head)|);
    }
  }

  lemma PairBoundedHead(t: Term, U: set<Tree>)
    requires Bounded(t, Heads(U))
    ensures Bounded(PairOf(t, Id), U)
  {
  }

  lemma PairBoundedTail(t: Term, U: set<Tree>)
    requires Bounded(t, Tails(U))
    ensures Bounded(PairOf(Id, t), U)
  {
  }

  lemma {:induction false} PushDownBounded(sh: Shape, b: BExpr, ups: seq<Assignment>, U: set<Tree>)
    requires EventFits(sh, b, ups) && !Hopeless(b, ups) && !(b == BTrue && ups == []) && DeterminedOn(sh, b, ups, U)
    ensures Bounded(PushDown(sh, b, ups), U)
    decreases sh, 0
  {
    if sh.Pair? {
      if AllBelow(Touched(b, ups), Width(sh.head)) {
        HeadFits(sh, b, ups);
        HeadsDetermined(sh, b, ups, U);
        MakeEventBounded(sh.head, b, ups, Heads(U));
        PairBoundedHead(MakeEvent(sh.head, b, ups), U);
        PushDownHead(sh, b, ups);
      } else if AllFrom(Touched(b, ups), Width(sh.head)) {
        var b', ups' := Reroot(sh, b, ups);
        TailsDetermined(sh, b, ups, b', ups', U);
        MakeEventBounded(sh.tail, b', ups', Tails(U));
        PairBoundedTail(MakeEvent(sh.tail, b', ups'), U);
        PushDownTail(sh, b, ups, b', ups');
      }
    }
  }

  // ----- The assertion chooser -----

  /** A subexpression of one side: its reads lie in `lo..hi` and hold `r`, and it has no array. */
  predicate Assertable(e: IExpr, lo: int, hi: int, r: int) {
    Cells(e) == {} && r in Reads(e) && forall p :: p in Reads(e) ==> lo <= p < hi
  }

  /** The topmost assertable subexpression, leftmost first. */
  function FindAssert(e: IExpr, lo: int, hi: int, r: int): Option<IExpr>
    decreases e
  {
    if Assertable(e, lo, hi, r) then Some(e)
    else
      match e
      case Nary(_, ops) => FindAssertIn(ops, lo, hi, r)
      case Binary(_, x, y) =>
        var f := FindAssert(x, lo, hi, r);
        if f.Some? then f else FindAssert(y, lo, hi, r)
      case BitComp(x) => FindAssert(x, lo, hi, r)
      case Array(_, index) => FindAssert(index, lo, hi, r)
      case Wrap(b) => FindAssertBool(b, lo, hi, r)
      case _ => None
  }

  function FindAssertIn(ops: seq<IExpr>, lo: int, hi: int, r: int): Option<IExpr>
    decreases ops
  {
    if ops == [] then None
    else
      var f := FindAssert(ops[0], lo, hi, r);
      if f.Some? then f else FindAssertIn(ops[1..], lo, hi, r)
  }

  function FindAssertBool(b: BExpr, lo: int, hi: int, r: int): Option<IExpr>
    decreases b
  {
    match b
    case Compare(_, x, y) =>
      var f := FindAssert(x, lo, hi, r);
      if f.Some? then f else FindAssert(y, lo, hi, r)
    case NaryBool(_, ops) => FindAssertInBool(ops, lo, hi, r)
    case Not(a) => FindAssertBool(a, lo, hi, r)
    case _ => None
  }

  function FindAssertInBool(ops: seq<BExpr>, lo: int, hi: int, r: int): Option<IExpr>
    decreases ops
  {
    if ops == [] then None
    else
      var f := FindAssertBool(ops[0], lo, hi, r);
      if f.Some? then f else FindAssertInBool(ops[1..], lo, hi, r)
  }

  /** What is found is assertable and a subexpression. */
  lemma {:induction false} FoundOccurs(e: IExpr, lo: int, hi: int, r: int)
    requires FindAssert(e, lo, hi, r).Some?
    ensures var f := FindAssert(e, lo, hi, r).value; Assertable(f, lo, hi, r) && Occurs(e, f)
    decreases e, 1
  {
    if !Assertable(e, lo, hi, r) {
      match e
      case Nary(_, ops) =>
        var i := FoundOccursIn(ops, lo, hi, r);
      case Binary(_, x, y) =>
        if FindAssert(x, lo, hi, r).Some? {
          FoundOccurs(x, lo, hi, r);
        } else {
          FoundOccurs(y, lo, hi, r);
        }
      case BitComp(x) =>
        FoundOccurs(x, lo, hi, r);
      case Array(_, index) =>
        FoundOccurs(index, lo, hi, r);
      case Wrap(b) =>
        FoundOccursBool(b, lo, hi, r);
    }
  }

  lemma {:induction false} FoundOccursIn(ops: seq<IExpr>, lo: int, hi: int, r: int) returns (i: nat)
    requires FindAssertIn(ops, lo, hi, r).Some?
    ensures var f := FindAssertIn(ops, lo, hi, r).value; Assertable(f, lo, hi, r) && i < |ops| && Occurs(ops[i], f)
    decreases ops, 0
  {
    if FindAssert(ops[0], lo, hi, r).Some? {
      FoundOccurs(ops[0], lo, hi, r);
      i := 0;
    } else {
      var j := FoundOccursIn(ops[1..], lo, hi, r);
      i := j + 1;
    }
  }

  lemma {:induction false} FoundOccursBool(b: BExpr, lo: int, hi: int, r: int)
    requires FindAssertBool(b, lo, hi, r).Some?
    ensures var f := FindAssertBool(b, lo, hi, r).value; Assertable(f, lo, hi, r) && OccursBool(b, f)
    decreases b, 1
  {
    match b
    case Compare(_, x, y) =>
      if FindAssert(x, lo, hi, r).Some? {
        FoundOccurs(x, lo, hi, r);
      } else {
        FoundOccurs(y, lo, hi, r);
      }
    case NaryBool(_, ops) =>
      var i := FoundOccursInBool(ops, lo, hi, r);
    case Not(a) =>
      FoundOccursBool(a, lo, hi, r);
  }

  lemma {:induction false} FoundOccursInBool(ops: seq<BExpr>, lo: int, hi: int, r: int) returns (i: nat)
    requires FindAssertInBool(ops, lo, hi, r).Some?
    ensures var f := FindAssertInBool(ops, lo, hi, r).value; Assertable(f, lo, hi, r) && i < |ops| && OccursBool(ops[i], f)
    decreases ops, 0
  {
    if FindAssertBool(ops[0], lo, hi, r).Some? {
      FoundOccursBool(ops[0], lo, hi, r);
      i := 0;
    } else {
      var j := FoundOccursInBool(ops[1..], lo, hi, r);
      i := j + 1;
    }
  }

  /** A subexpression of a normal expression is normal, and spans no more. */
  lemma {:induction false} OccursFits(e: IExpr, sub: IExpr, lo: int, hi: int)
    requires Occurs(e, sub) && Normal(e) && Spans(e, lo, hi, true)
    ensures Normal(sub) && Spans(sub, lo, hi, true)
    decreases e
  {
    if e != sub {
      match e
      case Nary(_, ops) =>
        var i :| 0 <= i < |ops| && Occurs(ops[i], sub);
        OccursFits(ops[i], sub, lo, hi);
      case Binary(_, l, r) =>
        if Occurs(l, sub) {
          OccursFits(l, sub, lo, hi);
        } else {
          OccursFits(r, sub, lo, hi);
        }
      case BitComp(x) =>
        OccursFits(x, sub, lo, hi);
      case Array(_, index) =>
        OccursFits(index, sub, lo, hi);
      case Wrap(b) =>
        OccursFitsBool(b, sub, lo, hi);
    }
  }

  lemma {:induction false} OccursFitsBool(b: BExpr, sub: IExpr, lo: int, hi: int)
    requires OccursBool(b, sub) && NormalBool(b) && SpansBool(b, lo, hi, true)
    ensures Normal(sub) && Spans(sub, lo, hi, true)
    decreases b
  {
    match b
    case Compare(_, l, r) =>
      if Occurs(l, sub) {
        OccursFits(l, sub, lo, hi);
      } else {
        OccursFits(r, sub, lo, hi);
      }
    case NaryBool(_, ops) =>
      var i :| 0 <= i < |ops| && OccursBool(ops[i], sub);
      OccursFitsBool(ops[i], sub, lo, hi);
    case Not(a) =>
      OccursFitsBool(a, sub, lo, hi);
  }

  // ----- Currying -----

  /** The positions an event reads: guard, values, and the indices of array targets. */
  function EventReads(b: BExpr, ups: seq<Assignment>): set<int> {
    ReadsBool(b) + WritesRead(ups)
  }

  function WriteReads(a: Assignment): set<int> {
    Reads(a.rhs) + if a.lhs.Array? then Reads(a.lhs) else {}
  }

  function WritesRead(ups: seq<Assignment>): set<int>
    decreases |ups|
  {
    if ups == [] then {} else WriteReads(ups[0]) + WritesRead(ups[1..])
  }

  function FindInWrite(a: Assignment, lo: int, hi: int, r: int): Option<IExpr> {
    var f := FindAssert(a.rhs, lo, hi, r);
    if f.Some? then f
    else if a.lhs.Array? then FindAssert(a.lhs, lo, hi, r)
    else None
  }

  function FindInWrites(ups: seq<Assignment>, lo: int, hi: int, r: int): Option<IExpr>
    decreases |ups|
  {
    if ups == [] then None
    else
      var f := FindInWrite(ups[0], lo, hi, r);
      if f.Some? then f else FindInWrites(ups[1..], lo, hi, r)
  }

  /** The assertion to split by: the maximal one around `r` on its side, at least the variable itself. */
  function ChooseAssert(b: BExpr, ups: seq<Assignment>, lo: int, hi: int, r: int): IExpr {
    var f := FindAssertBool(b, lo, hi, r);
    if f.Some? then f.value
    else
      var g := FindInWrites(ups, lo, hi, r);
      if g.Some? then g.value else Var(r)
  }

  ghost predicate OccursInWrite(a: Assignment, e: IExpr) {
    Occurs(a.rhs, e) || (a.lhs.Array? && Occurs(a.lhs, e))
  }

  ghost predicate OccursInEvent(b: BExpr, ups: seq<Assignment>, e: IExpr) {
    OccursBool(b, e) || exists k :: 0 <= k < |ups| && OccursInWrite(ups[k], e)
  }

  lemma {:induction false} FoundInWrites(ups: seq<Assignment>, lo: int, hi: int, r: int) returns (k: nat)
    requires FindInWrites(ups, lo, hi, r).Some?
    ensures var f := FindInWrites(ups, lo, hi, r).value;
            Assertable(f, lo, hi, r) && k < |ups| && OccursInWrite(ups[k], f)
    decreases |ups|
  {
    if FindInWrite(ups[0], lo, hi, r).Some? {
      k := 0;
      if FindAssert(ups[0].rhs, lo, hi, r).Some? {
        FoundOccurs(ups[0].rhs, lo, hi, r);
      } else {
        FoundOccurs(ups[0].lhs, lo, hi, r);
      }
    } else {
      var j := FoundInWrites(ups[1..], lo, hi, r);
      k := j + 1;
    }
  }

  lemma {:induction false} ReadInWrites(ups: seq<Assignment>, r: int) returns (k: nat)
    requires r in WritesRead(ups)
    ensures k < |ups| && OccursInWrite(ups[k], Var(r))
    decreases |ups|
  {
    if r in WriteReads(ups[0]) {
      k := 0;
      if r in Reads(ups[0].rhs) {
        ReadOccurs(ups[0].rhs, r);
      } else {
        ReadOccurs(ups[0].lhs, r);
      }
    } else {
      var j := ReadInWrites(ups[1..], r);
      k := j + 1;
    }
  }

  lemma ChosenOccurs(b: BExpr, ups: seq<Assignment>, lo: int, hi: int, r: int)
    requires r in EventReads(b, ups) && lo <= r < hi
    ensures var e := ChooseAssert(b, ups, lo, hi, r); Assertable(e, lo, hi, r) && OccursInEvent(b, ups, e)
  {
    if FindAssertBool(b, lo, hi, r).Some? {
      FoundOccursBool(b, lo, hi, r);
    } else if FindInWrites(ups, lo, hi, r).Some? {
      var k := FoundInWrites(ups, lo, hi, r);
    } else if r in ReadsBool(b) {
      ReadOccursBool(b, r);
    } else {
      var k := ReadInWrites(ups, r);
    }
  }

  lemma ArrayHasCells(e: IExpr)
    requires e.Array? && Normal(e) && Loose(e.cells, e.index)
    ensures Cells(e) != {}
  {
    if Reads(e.index) == {} {
      GroundIsConst(e.index);
    }
    var p := AnElement(Reads(e.index));
    assert p in Touches(e.index);
    var i :| 0 <= i < |e.cells| && e.cells[i] != p;
    assert e.cells[i] in e.cells;
    assert e.cells[i] in Cells(e);
  }

  /** Without cells there are no arrays. */
  lemma {:induction false} DropArrays(e: IExpr, lo: int, hi: int)
    requires Spans(e, lo, hi, true) && Normal(e) && Cells(e) == {}
    ensures Spans(e, lo, hi, false)
    decreases e
  {
    match e
    case Nary(_, ops) =>
      forall i | 0 <= i < |ops|
        ensures Spans(ops[i], lo, hi, false)
      {
        ReadsMember(ops, i);
        DropArrays(ops[i], lo, hi);
      }
    case Binary(_, l, r) =>
      DropArrays(l, lo, hi);
      DropArrays(r, lo, hi);
    case BitComp(x) =>
      DropArrays(x, lo, hi);
    case Array(cells, _) =>
      ArrayHasCells(e);
    case Wrap(b) =>
      DropArraysBool(b, lo, hi);
    case _ =>
  }

  lemma {:induction false} DropArraysBool(b: BExpr, lo: int, hi: int)
    requires SpansBool(b, lo, hi, true) && NormalBool(b) && CellsBool(b) == {}
    ensures SpansBool(b, lo, hi, false)
    decreases b
  {
    match b
    case Compare(_, l, r) =>
      DropArrays(l, lo, hi);
      DropArrays(r, lo, hi);
    case NaryBool(_, ops) =>
      forall i | 0 <= i < |ops|
        ensures SpansBool(ops[i], lo, hi, false)
      {
        ReadsMemberBool(ops, i);
        DropArraysBool(ops[i], lo, hi);
      }
    case Not(a) =>
      DropArraysBool(a, lo, hi);
    case _ =>
  }

  /** An expression of the event on one side: what the event is split by. */
  ghost predicate Splitter(n: nat, lo: int, hi: int, b: BExpr, ups: seq<Assignment>, e: IExpr) {
    Normal(e) && Spans(e, lo, hi, false) && 0 <= lo && hi <= n && Size(e) > 0 && OccursInEvent(b, ups, e)
  }

  lemma ChosenSplits(sh: Shape, b: BExpr, ups: seq<Assignment>, lo: int, hi: int, r: int)
    requires EventFits(sh, b, ups) && r in EventReads(b, ups) && 0 <= lo <= r < hi <= Width(sh)
    ensures Splitter(Width(sh), lo, hi, b, ups, ChooseAssert(b, ups, lo, hi, r))
  {
    var e := ChooseAssert(b, ups, lo, hi, r);
    ChosenOccurs(b, ups, lo, hi, r);
    OccursInEventFits(sh, b, ups, e);
    ReadsCount(e);
    DropArrays(e, 0, Width(sh));
    Narrow(e, 0, Width(sh), lo, hi, false);
  }

  lemma OccursInEventFits(sh: Shape, b: BExpr, ups: seq<Assignment>, e: IExpr)
    requires EventFits(sh, b, ups) && OccursInEvent(b, ups, e)
    ensures Normal(e) && Spans(e, 0, Width(sh), true)
  {
    if OccursBool(b, e) {
      OccursFitsBool(b, e, 0, Width(sh));
    } else {
      var k :| 0 <= k < |ups| && OccursInWrite(ups[k], e);
      if Occurs(ups[k].rhs, e) {
        OccursFits(ups[k].rhs, e, 0, Width(sh));
      } else {
        OccursFits(ups[k].lhs, e, 0, Width(sh));
      }
    }
  }

  function CurryAll(ups: seq<Assignment>, e: IExpr, m: IExpr): (r: seq<Assignment>)
    ensures |r| == |ups| && forall k :: 0 <= k < |ups| ==> r[k] == CurryWrite(ups[k], e, m)
  {
    seq(|ups|, k requires 0 <= k < |ups| => CurryWrite(ups[k], e, m))
  }

  lemma CurryWriteShrinks(a: Assignment, e: IExpr, m: IExpr)
    requires Size(m) == 0 && Size(e) > 0
    ensures var a' := CurryWrite(a, e, m);
            && Size(a'.lhs) + Size(a'.rhs) <= Size(a.lhs) + Size(a.rhs)
            && (OccursInWrite(a, e) ==> Size(a'.lhs) + Size(a'.rhs) < Size(a.lhs) + Size(a.rhs))
  {
    SubstShrinks(a.rhs, e, m);
    SubstShrinks(a.lhs, e, m);
  }

  lemma {:induction false} CurryAllShrinks(ups: seq<Assignment>, e: IExpr, m: IExpr)
    requires Size(m) == 0 && Size(e) > 0
    ensures WritesWeight(CurryAll(ups, e, m)) <= WritesWeight(ups)
    ensures (exists k :: 0 <= k < |ups| && OccursInWrite(ups[k], e)) ==> WritesWeight(CurryAll(ups, e, m)) < WritesWeight(ups)
    decreases |ups|
  {
    if ups != [] {
      CurryWriteShrinks(ups[0], e, m);
      CurryAllShrinks(ups[1..], e, m);
      assert CurryAll(ups, e, m)[1..] == CurryAll(ups[1..], e, m);
      if k :| 0 <= k < |ups| && OccursInWrite(ups[k], e) {
        assert k > 0 ==> OccursInWrite(ups[1..][k - 1], e);
      }
    }
  }

  /** Currying terminates by expression size. */
  lemma CurryShrinks(b: BExpr, ups: seq<Assignment>, e: IExpr, m: IExpr)
    requires Size(m) == 0 && Size(e) > 0 && OccursInEvent(b, ups, e)
    ensures EventWeight(SubstBool(b, e, m), CurryAll(ups, e, m)) < EventWeight(b, ups)
  {
    SubstBoolShrinks(b, e, m);
    CurryAllShrinks(ups, e, m);
  }

  lemma CurryWriteFits(n: nat, a: Assignment, e: IExpr, m: IExpr)
    requires WriteFits(n, a) && !e.Array? && (m.Const? || m.Undef?)
    ensures WriteFits(n, CurryWrite(a, e, m))
  {
    SubstNormal(a.rhs, e, m);
    SubstSpans(a.rhs, e, m, 0, n, true);
    SubstNormal(a.lhs, e, m);
    SubstSpans(a.lhs, e, m, 0, n, true);
  }

  lemma CurryFits(sh: Shape, b: BExpr, ups: seq<Assignment>, e: IExpr, m: IExpr)
    requires EventFits(sh, b, ups) && !e.Array? && (m.Const? || m.Undef?)
    ensures EventFits(sh, SubstBool(b, e, m), CurryAll(ups, e, m))
  {
    hide WriteFits, CurryWrite, SubstBool, Width;
    SubstBoolNormal(b, e, m);
    SubstBoolSpans(b, e, m, 0, Width(sh), true);
    forall k | 0 <= k < |ups|
      ensures WriteFits(Width(sh), CurryWrite(ups[k], e, m))
    {
      CurryWriteFits(Width(sh), ups[k], e, m);
    }
  }

  /** On the words where `e` has the value `m`, the residual does what the event does. */
  lemma CurryMaps(b: BExpr, ups: seq<Assignment>, e: IExpr, m: IExpr, w: Tree, u: Tree)
    requires !e.Array? && (m.Const? || m.Undef?)
    requires Determined(b, ups, Frontier(w)) && Stands(e, m, Frontier(w))
    ensures Determined(SubstBool(b, e, m), CurryAll(ups, e, m), Frontier(w))
    ensures Maps(Event(SubstBool(b, e, m), CurryAll(ups, e, m)), w, u) <==> Maps(Event(b, ups), w, u)
  {
    hide Updates, TruthOf, Value, SubstBool, Subst, Maps, Alike, SafeBool, SameWrite, Determined;
    var env := Frontier(w);
    var b', ups' := SubstBool(b, e, m), CurryAll(ups, e, m);
    SubstBoolRefines(b, e, m, env);
    if SafeBool(b, env, NoBan) {
      SubstBoolSafe(b, e, m, env, NoBan);
    }
    forall k | 0 <= k < |ups|
      ensures SameWrite(ups[k], env, ups'[k], env, 0)
    {
      CurriedWrite(ups[k], e, m, env);
    }
    DeterminedSame(b, ups, env, b', ups', env, 0);
    EventMaps(b, ups, w, u);
    EventMaps(b', ups', w, u);
    if Alike(w, u) {
      AlikeSame(w, u);
      var out := Frontier(u);
      assert env == env[0..0 + |env|] && out == out[0..0 + |env|];
      UpdatesSame(b, ups, env, b', ups', env, 0, out);
    }
  }

  // ----- Ground events -----

  /** The writes of constants to the head, and to the tail re-rooted. */
  function HeadWrites(ups: seq<Assignment>, wh: int): seq<Assignment>
    decreases |ups|
  {
    if ups == [] then []
    else if ups[0].lhs.Var? && ups[0].lhs.pos < wh then [ups[0]] + HeadWrites(ups[1..], wh)
    else HeadWrites(ups[1..], wh)
  }

  function TailWrites(ups: seq<Assignment>, wh: int): seq<Assignment>
    decreases |ups|
  {
    if ups == [] then []
    else if ups[0].lhs.Var? && ups[0].lhs.pos < wh then TailWrites(ups[1..], wh)
    else [Assignment(Shift(ups[0].lhs, -wh), ups[0].rhs)] + TailWrites(ups[1..], wh)
  }

  /** Nothing is read: every write is of a constant to a known position, and the guard is decided. */
  lemma {:induction false} GroundWrites(n: nat, ups: seq<Assignment>)
    requires (forall k :: 0 <= k < |ups| ==> WriteFits(n, ups[k]) && !ups[k].lhs.Undef? && !ups[k].rhs.Undef?) && WritesRead(ups) == {}
    ensures forall k :: 0 <= k < |ups| ==> ups[k].lhs.Var? && ups[k].rhs.Const?
    decreases |ups|
  {
    if ups != [] {
      GroundWrites(n, ups[1..]);
      GroundIsConst(ups[0].rhs);
      if ups[0].lhs.Array? {
        GroundIsConst(ups[0].lhs);
      }
    }
  }

  /** Constants written to known positions. */
  ghost predicate Constants(ups: seq<Assignment>, n: nat) {
    forall k :: 0 <= k < |ups| ==> ups[k].lhs.Var? && 0 <= ups[k].lhs.pos < n && ups[k].rhs.Const?
  }

  lemma GroundEvent(sh: Shape, b: BExpr, ups: seq<Assignment>)
    requires EventFits(sh, b, ups) && !Hopeless(b, ups) && EventReads(b, ups) == {}
    ensures b == BTrue && Constants(ups, Width(sh))
  {
    GroundIsImmediate(b);
    forall k | 0 <= k < |ups|
      ensures !ups[k].lhs.Undef? && !ups[k].rhs.Undef?
    {
    }
    GroundWrites(Width(sh), ups);
  }

  lemma {:induction false} HeadWritesMembers(ups: seq<Assignment>, wh: int)
    ensures forall a :: a in HeadWrites(ups, wh) <==> a in ups && a.lhs.Var? && a.lhs.pos < wh
    decreases |ups|
  {
    if ups != [] {
      HeadWritesMembers(ups[1..], wh);
      assert forall a :: a in ups <==> a == ups[0] || a in ups[1..];
    }
  }

  /** A constant written to the tail, seen from the whole. */
  function Unshifted(a: Assignment, wh: int): Assignment {
    Assignment(if a.lhs.Var? then Var(a.lhs.pos + wh) else a.lhs, a.rhs)
  }

  lemma {:induction false} TailWritesMembers(ups: seq<Assignment>, wh: int, n: nat)
    requires Constants(ups, n)
    ensures forall a :: a in TailWrites(ups, wh) <==> a.lhs.Var? && Unshifted(a, wh) in ups && a.lhs.pos >= 0
    decreases |ups|
  {
    if ups != [] {
      TailWritesMembers(ups[1..], wh, n);
      forall a
        ensures a in TailWrites(ups, wh) <==> a.lhs.Var? && Unshifted(a, wh) in ups && a.lhs.pos >= 0
      {
        assert Unshifted(a, wh) in ups <==> Unshifted(a, wh) == ups[0] || Unshifted(a, wh) in ups[1..];
        if a.lhs.Var? && Unshifted(a, wh) == ups[0] {
          assert a == Assignment(Var(ups[0].lhs.pos - wh), ups[0].rhs);
        }
      }
    }
  }

  ghost predicate Written(ups: seq<Assignment>, q: int) {
    exists a :: a in ups && a.lhs == Var(q)
  }

  /** Simultaneous assignment of constants, element by element. */
  ghost predicate Writes(ups: seq<Assignment>, n: nat, env: seq<int>, out: seq<int>)
    requires |env| == n && |out| == n
  {
    && (forall a :: a in ups ==> a.lhs.Var? && 0 <= a.lhs.pos < n && a.rhs.Const? && out[a.lhs.pos] == a.rhs.value)
    && (forall q :: 0 <= q < n && !Written(ups, q) ==> out[q] == env[q])
  }

  lemma ConstantAssigns(ups: seq<Assignment>, env: seq<int>, out: seq<int>)
    requires Constants(ups, |env|) && |out| == |env|
    ensures Assigns(ups, env, out) <==> Writes(ups, |env|, env, out)
  {
    forall q | 0 <= q < |env|
      ensures Written(ups, q) <==> exists k :: 0 <= k < |ups| && Target(ups[k].lhs, env) == Some(q)
    {
      if Written(ups, q) {
        var a :| a in ups && a.lhs == Var(q);
        var k :| 0 <= k < |ups| && ups[k] == a;
        assert Target(ups[k].lhs, env) == Some(q);
      }
      if k :| 0 <= k < |ups| && Target(ups[k].lhs, env) == Some(q) {
        assert ups[k] in ups && ups[k].lhs == Var(q);
      }
    }
    forall k | 0 <= k < |ups|
      ensures ups[k] in ups && Target(ups[k].lhs, env) == Some(ups[k].lhs.pos) && Value(ups[k].rhs, env) == Some(ups[k].rhs.value)
    {
    }
  }

  lemma ConstantSides(ups: seq<Assignment>, wh: nat, n: nat)
    requires Constants(ups, n) && wh <= n
    ensures Constants(HeadWrites(ups, wh), wh) && Constants(TailWrites(ups, wh), n - wh)
  {
    HeadWritesMembers(ups, wh);
    TailWritesMembers(ups, wh, n);
    var H, T := HeadWrites(ups, wh), TailWrites(ups, wh);
    forall k | 0 <= k < |H|
      ensures H[k].lhs.Var? && 0 <= H[k].lhs.pos < wh && H[k].rhs.Const?
    {
      assert H[k] in H;
      assert H[k] in ups;
    }
    forall k | 0 <= k < |T|
      ensures T[k].lhs.Var? && 0 <= T[k].lhs.pos < n - wh && T[k].rhs.Const?
    {
      assert T[k] in T;
      assert Unshifted(T[k], wh) in ups;
    }
  }

  lemma ConstantWritesSplit(ups: seq<Assignment>, wh: nat, env: seq<int>, out: seq<int>)
    requires Constants(ups, |env|) && wh <= |env| && |out| == |env|
    ensures Writes(ups, |env|, env, out) <==>
            Writes(HeadWrites(ups, wh), wh, env[..wh], out[..wh])
            && Writes(TailWrites(ups, wh), |env| - wh, env[wh..], out[wh..])
  {
    var n := |env|;
    var H, T := HeadWrites(ups, wh), TailWrites(ups, wh);
    HeadWritesMembers(ups, wh);
    TailWritesMembers(ups, wh, n);
    WrittenSides(ups, wh, n);
    if Writes(ups, n, env, out) {
      WritesToSides(ups, wh, env, out);
    }
    if Writes(H, wh, env[..wh], out[..wh]) && Writes(T, n - wh, env[wh..], out[wh..]) {
      WritesFromSides(ups, wh, env, out);
    }
  }

  lemma WrittenSides(ups: seq<Assignment>, wh: nat, n: nat)
    requires Constants(ups, n) && wh <= n
    ensures forall q :: 0 <= q < wh ==> (Written(HeadWrites(ups, wh), q) <==> Written(ups, q))
    ensures forall q :: 0 <= q < n - wh ==> (Written(TailWrites(ups, wh), q) <==> Written(ups, q + wh))
  {
    HeadWritesMembers(ups, wh);
    TailWritesMembers(ups, wh, n);
    forall q | 0 <= q < wh
      ensures Written(HeadWrites(ups, wh), q) <==> Written(ups, q)
    {
      if Written(ups, q) {
        var a :| a in ups && a.lhs == Var(q);
        assert a in HeadWrites(ups, wh);
      }
    }
    forall q | 0 <= q < n - wh
      ensures Written(TailWrites(ups, wh), q) <==> Written(ups, q + wh)
    {
      if Written(ups, q + wh) {
        var a :| a in ups && a.lhs == Var(q + wh);
        var c := Assignment(Var(q), a.rhs);
        assert Unshifted(c, wh) == a;
        assert c in TailWrites(ups, wh);
      }
      if Written(TailWrites(ups, wh), q) {
        var c :| c in TailWrites(ups, wh) && c.lhs == Var(q);
        assert Unshifted(c, wh) in ups && Unshifted(c, wh).lhs == Var(q + wh);
      }
    }
  }

  lemma WritesToSides(ups: seq<Assignment>, wh: nat, env: seq<int>, out: seq<int>)
    requires Constants(ups, |env|) && wh <= |env| && |out| == |env| && Writes(ups, |env|, env, out)
    ensures Writes(HeadWrites(ups, wh), wh, env[..wh], out[..wh])
    ensures Writes(TailWrites(ups, wh), |env| - wh, env[wh..], out[wh..])
  {
    HeadWritesMembers(ups, wh);
    TailWritesMembers(ups, wh, |env|);
    WrittenSides(ups, wh, |env|);
    forall c | c in TailWrites(ups, wh)
      ensures c.lhs.Var? && 0 <= c.lhs.pos < |env| - wh && c.rhs.Const? && out[wh..][c.lhs.pos] == c.rhs.value
    {
      assert Unshifted(c, wh) in ups;
    }
    forall q | 0 <= q < |env| - wh && !Written(TailWrites(ups, wh), q)
      ensures out[wh..][q] == env[wh..][q]
    {
      assert !Written(ups, q + wh);
    }
  }

  lemma WritesFromSides(ups: seq<Assignment>, wh: nat, env: seq<int>, out: seq<int>)
    requires Constants(ups, |env|) && wh <= |env| && |out| == |env|
    requires Writes(HeadWrites(ups, wh), wh, env[..wh], out[..wh])
    requires Writes(TailWrites(ups, wh), |env| - wh, env[wh..], out[wh..])
    ensures Writes(ups, |env|, env, out)
  {
    HeadWritesMembers(ups, wh);
    TailWritesMembers(ups, wh, |env|);
    WrittenSides(ups, wh, |env|);
    forall a | a in ups
      ensures a.lhs.Var? && 0 <= a.lhs.pos < |env| && a.rhs.Const? && out[a.lhs.pos] == a.rhs.value
    {
      if a.lhs.pos < wh {
        assert a in HeadWrites(ups, wh);
        assert out[..wh][a.lhs.pos] == a.rhs.value;
      } else {
        var c := Assignment(Var(a.lhs.pos - wh), a.rhs);
        assert Unshifted(c, wh) == a;
        assert c in TailWrites(ups, wh);
        assert out[wh..][c.lhs.pos] == c.rhs.value;
      }
    }
    forall q | 0 <= q < |env| && !Written(ups, q)
      ensures out[q] == env[q]
    {
      if q < wh {
        assert out[..wh][q] == env[..wh][q];
      } else {
        assert !Written(TailWrites(ups, wh), q - wh);
        assert out[wh..][q - wh] == env[wh..][q - wh];
      }
    }
  }

  /** No position is written twice. */
  ghost predicate Once(ups: seq<Assignment>) {
    forall i, j :: 0 <= i < j < |ups| ==> ups[i].lhs != ups[j].lhs
  }

  lemma {:induction false} HeadOnce(ups: seq<Assignment>, wh: int)
    requires Once(ups)
    ensures Once(HeadWrites(ups, wh))
    decreases |ups|
  {
    if ups != [] {
      HeadOnce(ups[1..], wh);
      HeadWritesMembers(ups[1..], wh);
      var H := HeadWrites(ups[1..], wh);
      forall k | 0 <= k < |H|
        ensures H[k].lhs != ups[0].lhs
      {
        assert H[k] in H;
        assert H[k] in ups[1..];
        var j :| 0 <= j < |ups[1..]| && ups[1..][j] == H[k];
        assert ups[j + 1] == H[k];
      }
    }
  }

  lemma {:induction false} TailOnce(ups: seq<Assignment>, wh: int, n: nat)
    requires Constants(ups, n) && Once(ups)
    ensures Once(TailWrites(ups, wh))
    decreases |ups|
  {
    if ups != [] {
      TailOnce(ups[1..], wh, n);
      TailWritesMembers(ups[1..], wh, n);
      var T := TailWrites(ups[1..], wh);
      forall k | 0 <= k < |T|
        ensures T[k].lhs != Shift(ups[0].lhs, -wh)
      {
        assert T[k] in T;
        assert Unshifted(T[k], wh) in ups[1..];
        var j :| 0 <= j < |ups[1..]| && ups[1..][j] == Unshifted(T[k], wh);
        assert ups[j + 1] == Unshifted(T[k], wh);
      }
    }
  }

  lemma ConstantsDetermined(ups: seq<Assignment>, env: seq<int>)
    requires Constants(ups, |env|)
    ensures Determined(BTrue, ups, env) <==> Once(ups)
  {
    forall k | 0 <= k < |ups|
      ensures Ready(ups[k], env) && Target(ups[k].lhs, env) == Some(ups[k].lhs.pos)
    {
    }
    if Determined(BTrue, ups, env) {
      forall i, j | 0 <= i < j < |ups|
        ensures ups[i].lhs != ups[j].lhs
      {
        assert Ready(ups[i], env) && Ready(ups[j], env);
      }
    }
  }

  lemma ConstantsFit(sh: Shape, ups: seq<Assignment>)
    requires Led(sh) && Constants(ups, Width(sh))
    ensures EventFits(sh, BTrue, ups)
  {
  }

  /** A ground event writes its two sides. */
  lemma GroundMaps(sh: Shape, ups: seq<Assignment>, w: Tree, u: Tree)
    requires sh.Pair? && Constants(ups, Width(sh)) && Laid(sh, w)
    ensures var wh := Width(sh.head);
            Maps(Event(BTrue, ups), w, u) <==>
            u.Cons? && Maps(Event(BTrue, HeadWrites(ups, wh)), w.head, u.head)
            && Maps(Event(BTrue, TailWrites(ups, wh)), w.tail, u.tail)
  {
    var wh := Width(sh.head);
    var H, T := HeadWrites(ups, wh), TailWrites(ups, wh);
    FrontierWidth(sh.head, w.head);
    FrontierWidth(sh, w);
    EventMaps(BTrue, ups, w, u);
    ConstantSides(ups, wh, Width(sh));
    if u.Cons? {
      EventMaps(BTrue, H, w.head, u.head);
      EventMaps(BTrue, T, w.tail, u.tail);
      if Alike(w, u) {
        GroundUpdates(ups, wh, w, u);
      }
    }
  }

  lemma Sides(w: Tree)
    requires w.Cons?
    ensures var n := |Frontier(w.head)|;
            && |Frontier(w)| == n + |Frontier(w.tail)|
            && Frontier(w)[..n] == Frontier(w.head) && Frontier(w)[n..] == Frontier(w.tail)
  {
    assert Frontier(w) == Frontier(w.head) + Frontier(w.tail);
  }

  lemma GroundUpdates(ups: seq<Assignment>, wh: nat, w: Tree, u: Tree)
    requires w.Cons? && Alike(w, u) && |Frontier(w.head)| == wh && Constants(ups, |Frontier(w)|)
    requires Constants(HeadWrites(ups, wh), wh) && Constants(TailWrites(ups, wh), |Frontier(w)| - wh)
    ensures Assigns(ups, Frontier(w), Frontier(u)) <==>
            Assigns(HeadWrites(ups, wh), Frontier(w.head), Frontier(u.head))
            && Assigns(TailWrites(ups, wh), Frontier(w.tail), Frontier(u.tail))
  {
    hide Assigns, Writes, Constants, HeadWrites, TailWrites, Frontier;
    AlikeSame(w.head, u.head);
    AlikeSame(w.tail, u.tail);
    var env, out := Frontier(w), Frontier(u);
    Sides(w);
    Sides(u);
    ConstantAssigns(ups, env, out);
    ConstantWritesSplit(ups, wh, env, out);
    ConstantAssigns(HeadWrites(ups, wh), env[..wh], out[..wh]);
    ConstantAssigns(TailWrites(ups, wh), env[wh..], out[wh..]);
  }

  lemma {:induction false} SidesWeight(ups: seq<Assignment>, wh: int)
    ensures WritesWeight(HeadWrites(ups, wh)) + WritesWeight(TailWrites(ups, wh)) <= WritesWeight(ups)
    decreases |ups|
  {
    if ups != [] {
      SidesWeight(ups[1..], wh);
      ShiftSize(ups[0].lhs, -wh);
      var H, T := HeadWrites(ups[1..], wh), TailWrites(ups[1..], wh);
      var c := Assignment(Shift(ups[0].lhs, -wh), ups[0].rhs);
      assert ([ups[0]] + H)[1..] == H && ([c] + T)[1..] == T;
    }
  }

  /** The two sides of a ground event: `MakeEvent` of each. */
  function GroundPair(sh: Shape, ups: seq<Assignment>): Term
    requires sh.Pair?
  {
    OnPair(MakeEvent(sh.head, BTrue, HeadWrites(ups, Width(sh.head))),
           MakeEvent(sh.tail, BTrue, TailWrites(ups, Width(sh.head))))
  }

  /** Constants written to a part of the shape, perhaps an empty one. */
  ghost predicate GroundSide(sh: Shape, ups: seq<Assignment>, U: set<Tree>) {
    (sh == Unit || Led(sh)) && Constants(ups, Width(sh)) && Once(ups) && forall w :: w in U ==> Laid(sh, w)
  }

  lemma RoomNeeded(ups: seq<Assignment>, n: nat)
    requires Constants(ups, n) && ups != []
    ensures n > 0
  {
    assert ups[0].lhs.pos < n;
  }

  lemma GroundSideFine(sh: Shape, ups: seq<Assignment>, U: set<Tree>)
    requires GroundSide(sh, ups, U)
    ensures Fine(sh, BTrue, ups, MakeEvent(sh, BTrue, ups)) && Bounded(MakeEvent(sh, BTrue, ups), U)
    ensures Does(sh, BTrue, ups, MakeEvent(sh, BTrue, ups))
  {
    if sh == Unit {
      if ups != [] {
        RoomNeeded(ups, Width(sh));
      }
      IdleDoes(sh);
    } else {
      ConstantsFit(sh, ups);
      MakeEventFine(sh, BTrue, ups);
      MakeEventDoes(sh, BTrue, ups);
      forall w | w in U
        ensures Determined(BTrue, ups, Frontier(w))
      {
        FrontierWidth(sh, w);
        ConstantsDetermined(ups, Frontier(w));
      }
      MakeEventBounded(sh, BTrue, ups, U);
    }
  }

  lemma GroundSides(sh: Shape, ups: seq<Assignment>, U: set<Tree>)
    requires sh.Pair? && Led(sh) && GroundSide(sh, ups, U)
    ensures GroundSide(sh.head, HeadWrites(ups, Width(sh.head)), Heads(U))
    ensures GroundSide(sh.tail, TailWrites(ups, Width(sh.head)), Tails(U))
  {
    ConstantSides(ups, Width(sh.head), Width(sh));
    HeadOnce(ups, Width(sh.head));
    TailOnce(ups, Width(sh.head), Width(sh));
    forall p | p in Heads(U)
      ensures Laid(sh.head, p)
    {
      var w :| w in U && w.Cons? && w.head == p;
    }
    forall s | s in Tails(U)
      ensures Laid(sh.tail, s)
    {
      var w :| w in U && w.Cons? && w.tail == s;
    }
  }

  lemma GroundPairFine(sh: Shape, ups: seq<Assignment>, U: set<Tree>)
    requires sh.Pair? && Led(sh) && GroundSide(sh, ups, U)
    ensures Sorted(sh, GroundPair(sh, ups)) && Bounded(GroundPair(sh, ups), U)
    ensures Weight(GroundPair(sh, ups)) <= EventWeight(BTrue, ups)
  {
    var H, T := HeadWrites(ups, Width(sh.head)), TailWrites(ups, Width(sh.head));
    GroundSides(sh, ups, U);
    GroundSideFine(sh.head, H, Heads(U));
    GroundSideFine(sh.tail, T, Tails(U));
    SidesWeight(ups, Width(sh.head));
  }

  lemma GroundPairClosureFree(sh: Shape, ups: seq<Assignment>)
    requires sh.Pair?
    ensures ClosureFree(GroundPair(sh, ups))
  {
    MakeEventClosureFree(sh.head, BTrue, HeadWrites(ups, Width(sh.head)));
    MakeEventClosureFree(sh.tail, BTrue, TailWrites(ups, Width(sh.head)));
  }

  lemma GroundPairMaps(sh: Shape, ups: seq<Assignment>, w: Tree, u: Tree)
    requires sh.Pair? && Led(sh) && Constants(ups, Width(sh)) && Once(ups) && Laid(sh, w)
    ensures Maps(GroundPair(sh, ups), w, u) <==> Maps(Event(BTrue, ups), w, u)
  {
    hide MakeEvent, Updates;
    var H, T := HeadWrites(ups, Width(sh.head)), TailWrites(ups, Width(sh.head));
    GroundSides(sh, ups, {});
    GroundSideFine(sh.head, H, {});
    GroundSideFine(sh.tail, T, {});
    GroundMaps(sh, ups, w, u);
    FrontierWidth(sh.head, w.head);
    FrontierWidth(sh.tail, w.tail);
    ConstantsDetermined(H, Frontier(w.head));
    ConstantsDetermined(T, Frontier(w.tail));
    if u.Cons? {
      assert Maps(MakeEvent(sh.head, BTrue, H), w.head, u.head) <==> Maps(Event(BTrue, H), w.head, u.head);
      assert Maps(MakeEvent(sh.tail, BTrue, T), w.tail, u.tail) <==> Maps(Event(BTrue, T), w.tail, u.tail);
    }
  }

  lemma {:induction false} WritesReadInRange(ups: seq<Assignment>, n: nat, r: int)
    requires WritesSpan(ups, 0, n) && r in WritesRead(ups)
    ensures 0 <= r < n
    decreases |ups|
  {
    if r in WriteReads(ups[0]) {
      SpansReads(ups[0].rhs, 0, n, true);
      SpansReads(ups[0].lhs, 0, n, true);
    } else {
      WritesReadInRange(ups[1..], n, r);
    }
  }

  lemma ReadsInRange(sh: Shape, b: BExpr, ups: seq<Assignment>, r: int)
    requires EventFits(sh, b, ups) && r in EventReads(b, ups)
    ensures 0 <= r < Width(sh)
  {
    SpansReadsBool(b, 0, Width(sh), true);
    if r !in ReadsBool(b) {
      WritesReadInRange(ups, Width(sh), r);
    }
  }

  // ----- Where a guard is decided too early -----

  function ZeroProduct(access: IExpr): IExpr {
    Nary(false, [Var(0), access])
  }

  lemma IdleEvent(sh: Shape)
    ensures MakeEvent(sh, BTrue, []) == Id
  {
  }

  lemma ZeroFactorChosen(access: IExpr)
    requires access == Array([1, 2], Var(3))
    ensures FindAssert(ZeroProduct(access), 0, 1, 0) == Some(Var(0))
  {
    var product := ZeroProduct(access);
    assert Reads(access) == {3};
    assert 3 in Reads(product) by {
      ReadsMember(product.ops, 1);
    }
    assert !Assertable(product, 0, 1, 0) && Assertable(Var(0), 0, 1, 0);
    assert product.ops[0] == Var(0);
    assert FindAssert(product.ops[0], 0, 1, 0) == Some(Var(0));
    assert FindAssertIn(product.ops, 0, 1, 0) == Some(Var(0));
  }

  lemma ZeroFactorUnknown(access: IExpr, env: seq<int>)
    requires |env| > 0 && env[0] == 0 && Value(access, env).None?
    requires Subst(access, Var(0), Const(0)) == access && access.Array?
    ensures Subst(ZeroProduct(access), Var(0), Const(0)) == Const(0) && Value(ZeroProduct(access), env).None?
    ensures !Safe(ZeroProduct(access), env, NoBan)
  {
    ZeroFactor(0, access, env);
    var ops := [Var(0), access];
    ValueAllNone(false, ops, env);
    assert Value(ops[1], env).None?;
  }

  /**
   The guard `x * a[i] = 0`, split by `x`: on the class of zero the residual guard is true and the event
   is the identity, though at a word with `i` out of bounds the guard has no value and the event says nothing.
   */
  lemma ZeroFactorFires(sh: Shape, env: seq<int>)
    requires |env| == 4 && env[0] == 0 && !(0 <= env[3] < 2)
    ensures var b := Compare(Eq, ZeroProduct(Array([1, 2], Var(3))), Const(0));
            && ChooseAssert(b, [], 0, 1, 0) == Var(0)
            && SubstBool(b, Var(0), Const(0)) == BTrue && MakeEvent(sh, BTrue, []) == Id
            && TruthOf(b, env) == Unknown && !SafeBool(b, env, NoBan)
  {
    var access := Array([1, 2], Var(3));
    assert Value(access, env) == None && Subst(access, Var(0), Const(0)) == access;
    ZeroFactorChosen(access);
    ZeroFactorUnknown(access, env);
    IdleEvent(sh);
    hide ZeroProduct, Value, Safe, MakeEvent, Assertable;
    assert Subst(Const(0), Var(0), Const(0)) == Const(0);
  }
}
