/// The parameters region of `InternalRun` (CmdlineParser.cs): each
/// positional parameter in declaration order takes the first unclaimed
/// token, then the first parameter array takes every token still unclaimed.
/// In completion mode a parameter with a completion provider prints the
/// provider's candidates instead of binding, unless they are all equal to the
/// token.  The provider is the uninterpreted `complete(item, partial)`.
module ParamPhase {
  import opened Base
  import opened CmdlineArgument
  import opened CmdlineParseItem
  import opened CmdlineParser
  import opened MatchState

  /** The candidates a provider offers for a token, the token itself left
      out (`onCompletion(arg).Where(r => r != arg)`). */
  function Offered(complete: (ItemId, string) -> seq<string>, x: ItemId, tok: string): (r: seq<string>)
    ensures forall c :: c in r <==> c in complete(x, tok) && c != tok
  {
    Without(complete(x, tok), tok)
  }

  /** Whether a parameter with an unclaimed token binds it: always outside
      completion mode; in completion mode only when its provider is asked
      (it has one and no command is missing) and offers nothing new. */
  predicate Binds(t: Tree, x: ItemId, show: bool, missingCommand: bool,
                  complete: (ItemId, string) -> seq<string>, tok: string)
    requires x < |t.items|
  {
    !show || (t.items[x].hasCompletion && !missingCommand && Offered(complete, x, tok) == [])
  }

  /** A parameter takes token a: it matches with parser p and that token,
      and the token's text becomes its one value (`Match` then `SetValue`). */
  function Bind(t: Tree, p: ParserId, st: State, x: ItemId, a: nat): (r: State)
    requires Consistent(t, st) && p < |t.parsers| && x < |t.items| && a < |st.args| && t.items[x].IsParameter()
    ensures Consistent(t, r) && Extends(st, r) && r.command == st.command && r.trace == st.trace
    ensures r.args == SetClaim(st.args, a, Some(x))
    ensures r.items == st.items[x := st.items[x].(matches := true, matchParser := Some(p), matchArgument := Some(a),
                                                  argValues := [a], values := [st.args[a].text])]
  {
    SetValue(Match(st, x, t.items[x], p, a), x, a)
  }

  /** One pass of the `foreach (var param in Parameters)` loop, for
      parameter x: the new state, whether the loop stops there (`break`),
      and the mandatory parameter it stops at for want of a token. */
  function ParamStep(t: Tree, p: ParserId, st: State, show: bool, missingCommand: bool,
                     complete: (ItemId, string) -> seq<string>, x: ItemId): (r: (State, bool, Option<ItemId>))
    requires Consistent(t, st) && p < |t.parsers| && x < |t.items| && t.items[x].IsParameter()
    ensures Consistent(t, r.0) && |r.0.args| == |st.args|
  {
    var asked := t.items[x].hasCompletion && !missingCommand;
    match FirstUnclaimed(st.args)
    case None =>
      if show then (if asked then Emit(st, Completions(complete(x, ""))) else st, false, None)
      else (st, true, if t.items[x].mandatory then Some(x) else None)
    case Some(a) =>
      var tok := st.args[a].text;
      if Binds(t, x, show, missingCommand, complete, tok) then (Bind(t, p, st, x, a), false, None)
      else if asked then (Emit(st, Completions(Offered(complete, x, tok))), false, None)
      else (st, false, None)
  }

  /** The parameter loop from position k of `ps` on.  Returns the new state
      and the mandatory parameter it stopped at for want of a token. */
  function ParamLoop(t: Tree, p: ParserId, st: State, show: bool, missingCommand: bool,
                     complete: (ItemId, string) -> seq<string>, ps: seq<ItemId>, k: nat): (r: (State, Option<ItemId>))
    requires Consistent(t, st) && p < |t.parsers| && t.AllItems(ps) && k <= |ps|
    requires forall j | 0 <= j < |ps| :: t.items[ps[j]].IsParameter()
    ensures Consistent(t, r.0) && |r.0.args| == |st.args|
    decreases |ps| - k
  {
    if k == |ps| then (st, None)
    else
      var (st', stop, missing) := ParamStep(t, p, st, show, missingCommand, complete, ps[k]);
      if stop then (st', missing) else ParamLoop(t, p, st', show, missingCommand, complete, ps, k + 1)
  }

  /** One pass only extends the run, leaves every Command property alone and
      queues no level action; it stops only outside completion mode, and it
      reports missing only its own parameter, when that one is mandatory. */
  lemma ParamStepKeeps(t: Tree, p: ParserId, st: State, show: bool, missingCommand: bool,
                       complete: (ItemId, string) -> seq<string>, x: ItemId)
    requires Consistent(t, st) && p < |t.parsers| && x < |t.items| && t.items[x].IsParameter()
    ensures var r := ParamStep(t, p, st, show, missingCommand, complete, x);
            && Extends(st, r.0) && r.0.command == st.command && NoLevelActionSince(st, r.0)
            && (r.1 ==> !show)
            && (r.2.Some? ==> r.1 && r.2.value == x && t.items[x].mandatory)
  {
    EmitKeeps(t, st, Completions(complete(x, "")));
    SameTraceNoLevelAction(st, st);
    match FirstUnclaimed(st.args)
    case None =>
    case Some(a) =>
      EmitKeeps(t, st, Completions(Offered(complete, x, st.args[a].text)));
      SameTraceNoLevelAction(st, Bind(t, p, st, x, a));
  }

  /** One pass changes no item but its parameter and no claimed token. */
  lemma ParamStepFrame(t: Tree, p: ParserId, st: State, show: bool, missingCommand: bool,
                       complete: (ItemId, string) -> seq<string>, x: ItemId, y: ItemId, j: nat)
    requires Consistent(t, st) && p < |t.parsers| && x < |t.items| && t.items[x].IsParameter()
    requires y < |st.items| && j < |st.args|
    ensures var r := ParamStep(t, p, st, show, missingCommand, complete, x).0;
            && (y != x ==> r.items[y] == st.items[y])
            && (st.args[j].Matched() ==> r.args[j] == st.args[j])
  {
  }

  /** Outside completion mode one pass binds its parameter to the first
      unclaimed token, and stops when no token is left. */
  lemma ParamStepOutside(t: Tree, p: ParserId, st: State, missingCommand: bool,
                         complete: (ItemId, string) -> seq<string>, x: ItemId)
    requires Consistent(t, st) && p < |t.parsers| && x < |t.items| && t.items[x].IsParameter()
    ensures var r := ParamStep(t, p, st, false, missingCommand, complete, x);
            match FirstUnclaimed(st.args)
            case None => r == (st, true, if t.items[x].mandatory then Some(x) else None)
            case Some(a) => r == (Bind(t, p, st, x, a), false, None)
  {
  }

  /** Outside completion mode, with a token left, the loop binds its next
      parameter to it and goes on with the one after. */
  lemma ParamLoopOutsideStep(t: Tree, p: ParserId, st: State, missingCommand: bool,
                             complete: (ItemId, string) -> seq<string>, ps: seq<ItemId>, k: nat)
    requires Consistent(t, st) && p < |t.parsers| && t.AllItems(ps) && k < |ps|
    requires forall j | 0 <= j < |ps| :: t.items[ps[j]].IsParameter()
    requires FirstUnclaimed(st.args).Some?
    ensures var a := FirstUnclaimed(st.args).value;
            var st' := Bind(t, p, st, ps[k], a);
            && ParamLoop(t, p, st, false, missingCommand, complete, ps, k)
               == ParamLoop(t, p, st', false, missingCommand, complete, ps, k + 1)
            && Unclaimed(st.args) != [] && Unclaimed(st.args)[0] == a
            && Unclaimed(st'.args) == Unclaimed(st.args)[1..]
  {
    var a := FirstUnclaimed(st.args).value;
    ParamStepOutside(t, p, st, missingCommand, complete, ps[k]);
    ClaimFirst(st.args, a, ps[k]);
  }

  /** Outside completion mode, with no token left, the loop stops at its
      next parameter, reporting it missing when it is mandatory. */
  lemma ParamLoopOutsideEnd(t: Tree, p: ParserId, st: State, missingCommand: bool,
                            complete: (ItemId, string) -> seq<string>, ps: seq<ItemId>, k: nat)
    requires Consistent(t, st) && p < |t.parsers| && t.AllItems(ps) && k < |ps|
    requires forall j | 0 <= j < |ps| :: t.items[ps[j]].IsParameter()
    requires FirstUnclaimed(st.args).None?
    ensures ParamLoop(t, p, st, false, missingCommand, complete, ps, k)
            == (st, if t.items[ps[k]].mandatory then Some(ps[k]) else None)
    ensures Unclaimed(st.args) == []
  {
    ParamStepOutside(t, p, st, missingCommand, complete, ps[k]);
    NoneUnclaimed(st.args);
  }

  /** The parameter loop only extends the run, leaves every Command property
      alone and queues no level action; it reports a missing parameter only
      outside completion mode, and only a mandatory one of `ps[k..]`. */
  lemma {:induction false} ParamLoopKeeps(t: Tree, p: ParserId, st: State, show: bool, missingCommand: bool,
                                          complete: (ItemId, string) -> seq<string>, ps: seq<ItemId>, k: nat)
    requires Consistent(t, st) && p < |t.parsers| && t.AllItems(ps) && k <= |ps|
    requires forall j | 0 <= j < |ps| :: t.items[ps[j]].IsParameter()
    ensures var r := ParamLoop(t, p, st, show, missingCommand, complete, ps, k);
            && Extends(st, r.0) && r.0.command == st.command && NoLevelActionSince(st, r.0)
            && (r.1.Some? ==> !show && r.1.value in ps[k..] && t.items[r.1.value].mandatory)
    decreases |ps| - k
  {
    if k == |ps| {
      SameTraceNoLevelAction(st, st);
    } else {
      var s := ParamStep(t, p, st, show, missingCommand, complete, ps[k]);
      ParamStepKeeps(t, p, st, show, missingCommand, complete, ps[k]);
      assert ps[k..] == [ps[k]] + ps[k + 1..];
      if !s.1 {
        ParamLoopKeeps(t, p, s.0, show, missingCommand, complete, ps, k + 1);
        ExtendsTrans(st, s.0, ParamLoop(t, p, s.0, show, missingCommand, complete, ps, k + 1).0);
      }
    }
  }

  /** How the parameter-array loop ends: it runs out of tokens or stops at
      printed candidates, having bound `bound` (with `missing` the
      missing-parameter verdict), or it would spin forever on a token it
      neither binds nor prints candidates for. */
  datatype ArrayEnd =
    | ArrayDone(st: State, bound: seq<nat>, missing: bool)
    | ArrayStuck(st: State)

  /** How the array loop ends at a pass that binds nothing: with no token
      left (having bound `bound`), at a token whose candidates it prints, or
      spinning on a token it neither binds nor prints candidates for. */
  function ArrayLast(t: Tree, st: State, show: bool, missingCommand: bool,
                     complete: (ItemId, string) -> seq<string>, x: ItemId, bound: seq<nat>): (r: ArrayEnd)
    requires Consistent(t, st) && x < |t.items|
    ensures Consistent(t, r.st) && |r.st.args| == |st.args|
    ensures r.ArrayDone? ==> r.bound == bound
  {
    var asked := t.items[x].hasCompletion && !missingCommand;
    match FirstUnclaimed(st.args)
    case None =>
      if show then ArrayDone(if asked then Emit(st, Completions(complete(x, ""))) else st, bound, false)
      else ArrayDone(st, bound, t.items[x].mandatory && bound == [])
    case Some(a) =>
      if asked then ArrayDone(Emit(st, Completions(Offered(complete, x, st.args[a].text))), bound, false)
      else ArrayStuck(st)
  }

  /** Whether the array loop binds the next token: there is one, and the
      array binds it. */
  predicate ArrayBinds(t: Tree, st: State, show: bool, missingCommand: bool,
                       complete: (ItemId, string) -> seq<string>, x: ItemId)
    requires x < |t.items|
  {
    && FirstUnclaimed(st.args).Some?
    && Binds(t, x, show, missingCommand, complete, st.args[FirstUnclaimed(st.args).value].text)
  }

  /** The `while (true)` loop of parameter array x, with `bound` the
      tokens bound so far (`parrArgs`). */
  function ArrayLoop(t: Tree, p: ParserId, st: State, show: bool, missingCommand: bool,
                     complete: (ItemId, string) -> seq<string>, x: ItemId, bound: seq<nat>): (r: ArrayEnd)
    requires Consistent(t, st) && p < |t.parsers| && x < |t.items| && t.items[x].IsParameterArray()
    ensures Consistent(t, r.st) && |r.st.args| == |st.args|
    ensures r.ArrayDone? ==> bound <= r.bound && forall k | |bound| <= k < |r.bound| :: r.bound[k] < |st.args|
    decreases |Unclaimed(st.args)|
  {
    if ArrayBinds(t, st, show, missingCommand, complete, x) then
      var a := FirstUnclaimed(st.args).value;
      BindingShrinks(st.args, a, x);
      var r := ArrayLoop(t, p, Match(st, x, t.items[x], p, a), show, missingCommand, complete, x, bound + [a]);
      assert r.ArrayDone? ==> r.bound[|bound|] == (bound + [a])[|bound|] == a;
      r
    else ArrayLast(t, st, show, missingCommand, complete, x, bound)
  }

  /** The last pass only extends the run, changes no token, item or Command
      property, and queues no level action; a missing verdict needs a
      mandatory array outside completion mode, and only completion mode can
      spin. */
  lemma ArrayLastKeeps(t: Tree, st: State, show: bool, missingCommand: bool,
                       complete: (ItemId, string) -> seq<string>, x: ItemId, bound: seq<nat>)
    requires Consistent(t, st) && x < |t.items|
    ensures var r := ArrayLast(t, st, show, missingCommand, complete, x, bound);
            && Extends(st, r.st) && NoLevelActionSince(st, r.st)
            && r.st == st.(trace := r.st.trace)
            && (r.ArrayDone? && r.missing ==> !show && t.items[x].mandatory)
            && (r.ArrayStuck? ==> FirstUnclaimed(st.args).Some? && !(t.items[x].hasCompletion && !missingCommand))
  {
    EmitKeeps(t, st, Completions(complete(x, "")));
    SameTraceNoLevelAction(st, st);
    match FirstUnclaimed(st.args)
    case None =>
    case Some(a) =>
      EmitKeeps(t, st, Completions(Offered(complete, x, st.args[a].text)));
  }

  /** The array loop only extends the run, leaves every Command property
      alone and queues no level action; a missing verdict needs a mandatory
      array outside completion mode, and only completion mode can spin. */
  lemma {:induction false} ArrayLoopKeeps(t: Tree, p: ParserId, st: State, show: bool, missingCommand: bool,
                                          complete: (ItemId, string) -> seq<string>, x: ItemId, bound: seq<nat>)
    requires Consistent(t, st) && p < |t.parsers| && x < |t.items| && t.items[x].IsParameterArray()
    ensures var r := ArrayLoop(t, p, st, show, missingCommand, complete, x, bound);
            && Extends(st, r.st) && r.st.command == st.command && NoLevelActionSince(st, r.st)
            && (r.ArrayDone? && r.missing ==> !show && t.items[x].mandatory)
            && (r.ArrayStuck? ==> show)
    decreases |Unclaimed(st.args)|
  {
    if ArrayBinds(t, st, show, missingCommand, complete, x) {
      var a := FirstUnclaimed(st.args).value;
      var st' := Match(st, x, t.items[x], p, a);
      BindingShrinks(st.args, a, x);
      SameTraceNoLevelAction(st, st');
      ArrayLoopKeeps(t, p, st', show, missingCommand, complete, x, bound + [a]);
      ExtendsTrans(st, st', ArrayLoop(t, p, st', show, missingCommand, complete, x, bound + [a]).st);
    } else {
      ArrayLastKeeps(t, st, show, missingCommand, complete, x, bound);
    }
  }

  /** Binding the first unclaimed token leaves fewer unclaimed tokens. */
  lemma BindingShrinks(args: seq<Argument>, a: nat, x: ItemId)
    requires FirstUnclaimed(args) == Some(a)
    ensures |Unclaimed(SetClaim(args, a, Some(x)))| < |Unclaimed(args)|
  {
    ClaimFirst(args, a, x);
  }

  /** How the parameters region ends: with the new state and
      `missingParameter`, or spinning in the parameter-array loop. */
  datatype ParamEnd =
    | ParamsDone(st: State, missing: Option<ItemId>)
    | ParamsStuck(st: State)

  /** The parameters region: skipped when the level has no parameter and no
      parameter array; otherwise the parameter loop, then the array part. */
  function ParamRegion(t: Tree, p: ParserId, st: State, show: bool, missingCommand: bool,
                       complete: (ItemId, string) -> seq<string>): (r: ParamEnd)
    requires Consistent(t, st) && p < |t.parsers|
    ensures Consistent(t, r.st) && Extends(st, r.st) && r.st.command == st.command
    ensures NoLevelActionSince(st, r.st)
    ensures r.ParamsDone? && r.missing.Some? ==>
              !show && r.missing.value in t.ParametersOrArray(p) && t.items[r.missing.value].mandatory
    ensures r.ParamsStuck? ==> show
  {
    if t.ParametersOrArray(p) == [] then ParamsDone(st, None)
    else
      var (st1, miss) := ParamLoop(t, p, st, show, missingCommand, complete, t.Parameters(p), 0);
      ParamLoopKeeps(t, p, st, show, missingCommand, complete, t.Parameters(p), 0);
      var r := ArrayRegion(t, p, st1, show, missingCommand, complete, miss);
      ExtendsTrans(st, st1, r.st);
      assert r.ParamsDone? && r.missing.Some? ==> r.missing.value in t.ParametersOrArray(p);
      r
  }

  /** The part of the region after the parameter loop, which left state st1
      and verdict miss: only the first parameter array is used, and after
      its loop it gets the bound tokens as its values. */
  function ArrayRegion(t: Tree, p: ParserId, st1: State, show: bool, missingCommand: bool,
                       complete: (ItemId, string) -> seq<string>, miss: Option<ItemId>): (r: ParamEnd)
    requires Consistent(t, st1) && p < |t.parsers|
    ensures Consistent(t, r.st) && Extends(st1, r.st) && r.st.command == st1.command
    ensures NoLevelActionSince(st1, r.st)
    ensures r.ParamsDone? && r.missing != miss ==>
              && !show && r.missing.Some? && r.missing.value in t.ParameterArrays(p)
              && t.items[r.missing.value].mandatory
    ensures r.ParamsStuck? ==> show
  {
    var arrs := t.ParameterArrays(p);
    if arrs == [] then ParamsDone(st1, miss)
    else
      ArrayLoopKeeps(t, p, st1, show, missingCommand, complete, arrs[0], []);
      match ArrayLoop(t, p, st1, show, missingCommand, complete, arrs[0], [])
      case ArrayStuck(s) =>
        ParamsStuck(s)
      case ArrayDone(s, bound, m) =>
        var s' := SetValues(s, arrs[0], bound);
        SameTraceNoLevelAction(s, s');
        ExtendsTrans(st1, s, s');
        ParamsDone(s', if m then Some(arrs[0]) else miss)
  }

  /** The parameter loop changes no item outside `ps[k..]` and never takes a
      token that is already claimed. */
  lemma {:induction false} ParamLoopFrame(t: Tree, p: ParserId, st: State, show: bool, missingCommand: bool,
                                          complete: (ItemId, string) -> seq<string>, ps: seq<ItemId>, k: nat,
                                          y: ItemId, j: nat)
    requires Consistent(t, st) && p < |t.parsers| && t.AllItems(ps) && k <= |ps|
    requires forall j | 0 <= j < |ps| :: t.items[ps[j]].IsParameter()
    requires y < |st.items| && j < |st.args|
    ensures var r := ParamLoop(t, p, st, show, missingCommand, complete, ps, k).0;
            && (y !in ps[k..] ==> r.items[y] == st.items[y])
            && (st.args[j].Matched() ==> r.args[j] == st.args[j])
    decreases |ps| - k
  {
    if k < |ps| {
      var s := ParamStep(t, p, st, show, missingCommand, complete, ps[k]);
      ParamStepFrame(t, p, st, show, missingCommand, complete, ps[k], y, j);
      assert ps[k..] == [ps[k]] + ps[k + 1..];
      if !s.1 {
        ParamLoopFrame(t, p, s.0, show, missingCommand, complete, ps, k + 1, y, j);
      }
    }
  }

  /** Parameter x has matched token a, which names it, and holds that
      token's text as its one value. */
  ghost predicate BoundTo(st: State, x: ItemId, a: nat) {
    && x < |st.items| && a < |st.args|
    && st.items[x].matches && st.items[x].matchArgument == Some(a)
    && st.items[x].argValues == [a] && st.items[x].values == [st.args[a].text]
    && st.args[a].matchedItem == Some(x)
  }

  /** From position k of `ps` on, the j-th parameter is bound to the j-th
      position of `u`, as far as both go. */
  ghost predicate BindsFrom(r: State, ps: seq<ItemId>, k: nat, u: seq<nat>) {
    forall j | 0 <= j < |ps| - k && j < |u| :: BoundTo(r, ps[k + j], u[j])
  }

  /** Outside completion mode the parameters, in order, take the unclaimed
      tokens in order: the j-th remaining parameter is bound to the j-th
      unclaimed token. */
  lemma {:induction false} ParamLoopBinds(t: Tree, p: ParserId, st: State, missingCommand: bool,
                                          complete: (ItemId, string) -> seq<string>, ps: seq<ItemId>, k: nat)
    requires Consistent(t, st) && p < |t.parsers| && t.AllItems(ps) && k <= |ps| && NoDup(ps)
    requires forall j | 0 <= j < |ps| :: t.items[ps[j]].IsParameter()
    ensures BindsFrom(ParamLoop(t, p, st, false, missingCommand, complete, ps, k).0, ps, k, Unclaimed(st.args))
    decreases |ps| - k, 1
  {
    if k < |ps| && FirstUnclaimed(st.args).Some? {
      ParamLoopBindsStep(t, p, st, missingCommand, complete, ps, k);
    } else if k < |ps| {
      NoneUnclaimed(st.args);
    }
  }

  /** The inductive step of ParamLoopBinds, for a pass that binds: the new
      binding of ps[k] survives the rest of the loop. */
  lemma ParamLoopBindsStep(t: Tree, p: ParserId, st: State, missingCommand: bool,
                           complete: (ItemId, string) -> seq<string>, ps: seq<ItemId>, k: nat)
    requires Consistent(t, st) && p < |t.parsers| && t.AllItems(ps) && k < |ps| && NoDup(ps)
    requires forall j | 0 <= j < |ps| :: t.items[ps[j]].IsParameter()
    requires FirstUnclaimed(st.args).Some?
    ensures BindsFrom(ParamLoop(t, p, st, false, missingCommand, complete, ps, k).0, ps, k, Unclaimed(st.args))
    decreases |ps| - k, 0
  {
    var x := ps[k];
    var a := FirstUnclaimed(st.args).value;
    var st' := Bind(t, p, st, x, a);
    ParamLoopBinds(t, p, st', missingCommand, complete, ps, k + 1);
    var u := Unclaimed(st.args);
    ParamLoopOutsideStep(t, p, st, missingCommand, complete, ps, k);
    ParamLoopFrame(t, p, st', false, missingCommand, complete, ps, k + 1, x, a);
    var tail := ps[k + 1..];
    assert x !in tail by {
      forall m | 0 <= m < |tail| ensures tail[m] != x {
        assert tail[m] == ps[k + 1 + m];
      }
    }
    var r := ParamLoop(t, p, st', false, missingCommand, complete, ps, k + 1).0;
    assert BoundTo(r, x, a);
    BindsShift(r, ps, k, u, u[1..]);
  }

  /** The inductive step of ParamLoopBinds: the head binding and the
      bindings of the rest shifted by one. */
  lemma BindsShift(r: State, ps: seq<ItemId>, k: nat, u: seq<nat>, u1: seq<nat>)
    requires k < |ps| && u != [] && u1 == u[1..]
    requires BoundTo(r, ps[k], u[0])
    requires BindsFrom(r, ps, k + 1, u1)
    ensures BindsFrom(r, ps, k, u)
  {
    forall j | 0 <= j < |ps| - k && j < |u| ensures BoundTo(r, ps[k + j], u[j]) {
      if j > 0 {
        assert ps[k + j] == ps[k + 1 + (j - 1)] && u[j] == u1[j - 1];
      }
    }
  }

  /** Outside completion mode the parameter loop prints nothing. */
  lemma {:induction false} ParamLoopSilent(t: Tree, p: ParserId, st: State, missingCommand: bool,
                                           complete: (ItemId, string) -> seq<string>, ps: seq<ItemId>, k: nat)
    requires Consistent(t, st) && p < |t.parsers| && t.AllItems(ps) && k <= |ps|
    requires forall j | 0 <= j < |ps| :: t.items[ps[j]].IsParameter()
    ensures ParamLoop(t, p, st, false, missingCommand, complete, ps, k).0.trace == st.trace
    decreases |ps| - k
  {
    if k < |ps| {
      ParamStepOutside(t, p, st, missingCommand, complete, ps[k]);
      match FirstUnclaimed(st.args)
      case None =>
      case Some(a) =>
        ParamLoopSilent(t, p, Bind(t, p, st, ps[k], a), missingCommand, complete, ps, k + 1);
    }
  }

  /** `u` without its first n positions (all of them when it has fewer). */
  function Drop(u: seq<nat>, n: nat): seq<nat>
    decreases n
  {
    if n == 0 || |u| == 0 then u else Drop(u[1..], n - 1)
  }

  /** Drop(u, n) is the suffix of u from position n, or empty when u is
      shorter than n. */
  lemma {:induction false} DropIsSuffix(u: seq<nat>, n: nat)
    ensures n <= |u| ==> Drop(u, n) == u[n..]
    ensures |u| <= n ==> Drop(u, n) == []
    decreases n
  {
    if n > 0 && |u| > 0 {
      DropIsSuffix(u[1..], n - 1);
      if n <= |u| {
        assert u[1..][n - 1..] == u[n..];
      }
    }
  }

  /** Outside completion mode the parameter loop leaves unclaimed exactly the
      tokens the parameters did not take: all but the first |ps| - k. */
  lemma {:induction false} ParamLoopLeaves(t: Tree, p: ParserId, st: State, missingCommand: bool,
                                           complete: (ItemId, string) -> seq<string>, ps: seq<ItemId>, k: nat)
    requires Consistent(t, st) && p < |t.parsers| && t.AllItems(ps) && k <= |ps|
    requires forall j | 0 <= j < |ps| :: t.items[ps[j]].IsParameter()
    ensures var r := ParamLoop(t, p, st, false, missingCommand, complete, ps, k).0;
            Unclaimed(r.args) == Drop(Unclaimed(st.args), |ps| - k)
    decreases |ps| - k, 1
  {
    if k < |ps| && FirstUnclaimed(st.args).Some? {
      ParamLoopLeavesStep(t, p, st, missingCommand, complete, ps, k);
    } else {
      ParamLoopLeavesEnd(t, p, st, missingCommand, complete, ps, k);
    }
  }

  /** ParamLoopLeaves where the loop ends: no parameter or no token left. */
  lemma ParamLoopLeavesEnd(t: Tree, p: ParserId, st: State, missingCommand: bool,
                           complete: (ItemId, string) -> seq<string>, ps: seq<ItemId>, k: nat)
    requires Consistent(t, st) && p < |t.parsers| && t.AllItems(ps) && k <= |ps|
    requires forall j | 0 <= j < |ps| :: t.items[ps[j]].IsParameter()
    requires k == |ps| || FirstUnclaimed(st.args).None?
    ensures var r := ParamLoop(t, p, st, false, missingCommand, complete, ps, k).0;
            Unclaimed(r.args) == Drop(Unclaimed(st.args), |ps| - k)
  {
    if k < |ps| {
      ParamLoopOutsideEnd(t, p, st, missingCommand, complete, ps, k);
    }
  }

  /** The inductive step of ParamLoopLeaves, for a pass that binds. */
  lemma ParamLoopLeavesStep(t: Tree, p: ParserId, st: State, missingCommand: bool,
                            complete: (ItemId, string) -> seq<string>, ps: seq<ItemId>, k: nat)
    requires Consistent(t, st) && p < |t.parsers| && t.AllItems(ps) && k < |ps|
    requires forall j | 0 <= j < |ps| :: t.items[ps[j]].IsParameter()
    requires FirstUnclaimed(st.args).Some?
    ensures var r := ParamLoop(t, p, st, false, missingCommand, complete, ps, k).0;
            Unclaimed(r.args) == Drop(Unclaimed(st.args), |ps| - k)
    decreases |ps| - k, 0
  {
    var u := Unclaimed(st.args);
    var st' := Bind(t, p, st, ps[k], FirstUnclaimed(st.args).value);
    ParamLoopLeaves(t, p, st', missingCommand, complete, ps, k + 1);
    ParamLoopOutsideStep(t, p, st, missingCommand, complete, ps, k);
    var r := ParamLoop(t, p, st', false, missingCommand, complete, ps, k + 1).0;
    var n := |ps| - (k + 1);
    DropShift(Unclaimed(r.args), u, u[1..], n);
  }

  /** Dropping n + 1 positions from u is dropping n from its tail. */
  lemma DropShift(v: seq<nat>, u: seq<nat>, u1: seq<nat>, n: nat)
    requires u != [] && u1 == u[1..]
    requires v == Drop(u1, n)
    ensures v == Drop(u, n + 1)
  {
  }

  /** Outside completion mode the parameter loop reports missing the first
      parameter left without a token, when that one is mandatory, and no
      parameter otherwise. */
  lemma {:induction false} ParamLoopMissing(t: Tree, p: ParserId, st: State, missingCommand: bool,
                                            complete: (ItemId, string) -> seq<string>, ps: seq<ItemId>, k: nat)
    requires Consistent(t, st) && p < |t.parsers| && t.AllItems(ps) && k <= |ps|
    requires forall j | 0 <= j < |ps| :: t.items[ps[j]].IsParameter()
    ensures var r := ParamLoop(t, p, st, false, missingCommand, complete, ps, k);
            var u := Unclaimed(st.args);
            r.1 == if |ps| - k > |u| && t.items[ps[k + |u|]].mandatory then Some(ps[k + |u|]) else None
    decreases |ps| - k, 1
  {
    if k < |ps| && FirstUnclaimed(st.args).Some? {
      ParamLoopMissingStep(t, p, st, missingCommand, complete, ps, k);
    } else if k < |ps| {
      ParamLoopOutsideEnd(t, p, st, missingCommand, complete, ps, k);
    }
  }

  /** The inductive step of ParamLoopMissing, for a pass that binds. */
  lemma ParamLoopMissingStep(t: Tree, p: ParserId, st: State, missingCommand: bool,
                             complete: (ItemId, string) -> seq<string>, ps: seq<ItemId>, k: nat)
    requires Consistent(t, st) && p < |t.parsers| && t.AllItems(ps) && k < |ps|
    requires forall j | 0 <= j < |ps| :: t.items[ps[j]].IsParameter()
    requires FirstUnclaimed(st.args).Some?
    ensures var r := ParamLoop(t, p, st, false, missingCommand, complete, ps, k);
            var u := Unclaimed(st.args);
            r.1 == if |ps| - k > |u| && t.items[ps[k + |u|]].mandatory then Some(ps[k + |u|]) else None
    decreases |ps| - k, 0
  {
    var u := Unclaimed(st.args);
    var st' := Bind(t, p, st, ps[k], FirstUnclaimed(st.args).value);
    ParamLoopMissing(t, p, st', missingCommand, complete, ps, k + 1);
    ParamLoopOutsideStep(t, p, st, missingCommand, complete, ps, k);
    assert |Unclaimed(st'.args)| == |u| - 1;
    assert k + |u| == (k + 1) + (|u| - 1);
  }

  /** The array loop changes no other item and never takes a token that is
      already claimed. */
  lemma {:induction false} ArrayLoopFrame(t: Tree, p: ParserId, st: State, show: bool, missingCommand: bool,
                                          complete: (ItemId, string) -> seq<string>, x: ItemId, bound: seq<nat>,
                                          y: ItemId, j: nat)
    requires Consistent(t, st) && p < |t.parsers| && x < |t.items| && t.items[x].IsParameterArray()
    requires y < |st.items| && j < |st.args|
    ensures var r := ArrayLoop(t, p, st, show, missingCommand, complete, x, bound).st;
            && (y != x ==> r.items[y] == st.items[y])
            && (st.args[j].Matched() ==> r.args[j] == st.args[j])
    decreases |Unclaimed(st.args)|
  {
    if ArrayBinds(t, st, show, missingCommand, complete, x) {
      var a := FirstUnclaimed(st.args).value;
      BindingShrinks(st.args, a, x);
      ArrayLoopFrame(t, p, Match(st, x, t.items[x], p, a), show, missingCommand, complete, x, bound + [a], y, j);
    } else {
      ArrayLastKeeps(t, st, show, missingCommand, complete, x, bound);
    }
  }

  /** Outside completion mode the array loop binds every token still
      unclaimed, in order, prints nothing, and reports the array missing
      exactly when it is mandatory and nothing at all was bound. */
  lemma {:induction false} ArrayLoopTakesRest(t: Tree, p: ParserId, st: State, missingCommand: bool,
                                              complete: (ItemId, string) -> seq<string>, x: ItemId, bound: seq<nat>)
    requires Consistent(t, st) && p < |t.parsers| && x < |t.items| && t.items[x].IsParameterArray()
    ensures var r := ArrayLoop(t, p, st, false, missingCommand, complete, x, bound);
            var u := Unclaimed(st.args);
            && r.ArrayDone? && r.bound == bound + u
            && r.missing == (t.items[x].mandatory && bound + u == [])
            && r.st.trace == st.trace
    decreases |Unclaimed(st.args)|
  {
    var u := Unclaimed(st.args);
    match FirstUnclaimed(st.args)
    case None =>
      FirstUnclaimedIsHead(st.args, 0);
      assert u == [] && bound + u == bound;
      assert ArrayLoop(t, p, st, false, missingCommand, complete, x, bound) ==
             ArrayDone(st, bound, t.items[x].mandatory && bound == []);
    case Some(a) =>
      assert ArrayBinds(t, st, false, missingCommand, complete, x);
      var st' := Match(st, x, t.items[x], p, a);
      ClaimFirst(st.args, a, x);
      var u1 := u[1..];
      assert Unclaimed(st'.args) == u1;
      ArrayLoopTakesRest(t, p, st', missingCommand, complete, x, bound + [a]);
      var r := ArrayLoop(t, p, st', false, missingCommand, complete, x, bound + [a]);
      assert ArrayLoop(t, p, st, false, missingCommand, complete, x, bound) == r;
      assert u == [a] + u1;
      assert (bound + [a]) + u1 == bound + u;
  }

  /** Outside completion mode the array loop leaves no token unclaimed, and
      every token that was unclaimed now names the array. */
  lemma {:induction false} ArrayLoopClaimsRest(t: Tree, p: ParserId, st: State, missingCommand: bool,
                                               complete: (ItemId, string) -> seq<string>, x: ItemId, bound: seq<nat>)
    requires Consistent(t, st) && p < |t.parsers| && x < |t.items| && t.items[x].IsParameterArray()
    ensures var r := ArrayLoop(t, p, st, false, missingCommand, complete, x, bound).st;
            var u := Unclaimed(st.args);
            && Unclaimed(r.args) == []
            && forall k | 0 <= k < |u| :: r.args[u[k]].matchedItem == Some(x)
    decreases |Unclaimed(st.args)|
  {
    var u := Unclaimed(st.args);
    match FirstUnclaimed(st.args)
    case None =>
      FirstUnclaimedIsHead(st.args, 0);
      assert u == [];
      assert ArrayLoop(t, p, st, false, missingCommand, complete, x, bound).st == st;
    case Some(a) =>
      assert ArrayBinds(t, st, false, missingCommand, complete, x);
      var st' := Match(st, x, t.items[x], p, a);
      ClaimFirst(st.args, a, x);
      var u1 := u[1..];
      assert Unclaimed(st'.args) == u1;
      ArrayLoopClaimsRest(t, p, st', missingCommand, complete, x, bound + [a]);
      ArrayLoopFrame(t, p, st', false, missingCommand, complete, x, bound + [a], x, a);
      var r := ArrayLoop(t, p, st', false, missingCommand, complete, x, bound + [a]).st;
      assert ArrayLoop(t, p, st, false, missingCommand, complete, x, bound).st == r;
      assert r.args[a].matchedItem == Some(x);
      assert forall i | 0 <= i < |u1| :: r.args[u1[i]].matchedItem == Some(x);
      forall k | 0 <= k < |u| ensures r.args[u[k]].matchedItem == Some(x) {
        if k > 0 { assert u[k] == u1[k - 1]; }
      }
  }

  /** The array loop spins exactly when, in completion mode, the array's
      provider is not asked and some token is still unclaimed. */
  lemma {:induction false} ArrayLoopSpinsIff(t: Tree, p: ParserId, st: State, show: bool, missingCommand: bool,
                                             complete: (ItemId, string) -> seq<string>, x: ItemId, bound: seq<nat>)
    requires Consistent(t, st) && p < |t.parsers| && x < |t.items| && t.items[x].IsParameterArray()
    ensures ArrayLoop(t, p, st, show, missingCommand, complete, x, bound).ArrayStuck? <==>
            show && !(t.items[x].hasCompletion && !missingCommand) && FirstUnclaimed(st.args).Some?
    decreases |Unclaimed(st.args)|
  {
    if ArrayBinds(t, st, show, missingCommand, complete, x) {
      var a := FirstUnclaimed(st.args).value;
      BindingShrinks(st.args, a, x);
      ArrayLoopSpinsIff(t, p, Match(st, x, t.items[x], p, a), show, missingCommand, complete, x, bound + [a]);
    }
  }

  /** Outside completion mode the array part always ends and prints
      nothing; it reports the array missing when it is mandatory and no token
      was left for it, and otherwise keeps the parameter loop's verdict. */
  lemma ArrayRegionFinishes(t: Tree, p: ParserId, st1: State, missingCommand: bool,
                            complete: (ItemId, string) -> seq<string>, miss: Option<ItemId>)
    requires Consistent(t, st1) && p < |t.parsers|
    ensures var r := ArrayRegion(t, p, st1, false, missingCommand, complete, miss);
            var arrs := t.ParameterArrays(p);
            && r.ParamsDone? && r.st.trace == st1.trace
            && r.missing == if arrs != [] && t.items[arrs[0]].mandatory && Unclaimed(st1.args) == [] then Some(arrs[0])
                            else miss
  {
    var arrs := t.ParameterArrays(p);
    if arrs != [] {
      assert arrs[0] in arrs;
      ArrayLoopTakesRest(t, p, st1, missingCommand, complete, arrs[0], []);
      assert [] + Unclaimed(st1.args) == Unclaimed(st1.args);
    }
  }

  /** Outside completion mode the first parameter array takes every token
      still unclaimed: they name it, they are its value tokens in order, and
      its values are their texts. */
  lemma ArrayRegionTakes(t: Tree, p: ParserId, st1: State, missingCommand: bool,
                         complete: (ItemId, string) -> seq<string>, miss: Option<ItemId>)
    requires Consistent(t, st1) && p < |t.parsers| && t.ParameterArrays(p) != []
    ensures var r := ArrayRegion(t, p, st1, false, missingCommand, complete, miss).st;
            var x := t.ParameterArrays(p)[0];
            var u := Unclaimed(st1.args);
            && r.items[x].argValues == u
            && |r.items[x].values| == |u|
            && (forall k | 0 <= k < |u| :: r.items[x].values[k] == st1.args[u[k]].text)
            && (forall k | 0 <= k < |u| :: r.args[u[k]].matchedItem == Some(x))
  {
    var x := t.ParameterArrays(p)[0];
    assert x in t.ParameterArrays(p);
    ArrayLoopTakesRest(t, p, st1, missingCommand, complete, x, []);
    ArrayLoopClaimsRest(t, p, st1, missingCommand, complete, x, []);
    ArrayLoopKeeps(t, p, st1, false, missingCommand, complete, x, []);
    assert [] + Unclaimed(st1.args) == Unclaimed(st1.args);
  }

  /** The array part keeps every binding of a parameter: it changes no item
      but the array and no claimed token. */
  lemma ArrayRegionKeepsBound(t: Tree, p: ParserId, st1: State, missingCommand: bool,
                              complete: (ItemId, string) -> seq<string>, miss: Option<ItemId>,
                              x: ItemId, a: nat)
    requires Consistent(t, st1) && p < |t.parsers| && x < |t.items| && t.items[x].IsParameter()
    requires BoundTo(st1, x, a)
    ensures BoundTo(ArrayRegion(t, p, st1, false, missingCommand, complete, miss).st, x, a)
  {
    var arrs := t.ParameterArrays(p);
    if arrs != [] {
      assert arrs[0] in arrs;
      ArrayLoopFrame(t, p, st1, false, missingCommand, complete, arrs[0], [], x, a);
    }
  }

  /** Outside completion mode the parameters region always ends, and it
      prints nothing. */
  lemma ParamRegionFinishes(t: Tree, p: ParserId, st: State, missingCommand: bool,
                            complete: (ItemId, string) -> seq<string>)
    requires Consistent(t, st) && p < |t.parsers|
    ensures var r := ParamRegion(t, p, st, false, missingCommand, complete);
            r.ParamsDone? && r.st.trace == st.trace
  {
    if t.ParametersOrArray(p) != [] {
      var ps := t.Parameters(p);
      ParamLoopSilent(t, p, st, missingCommand, complete, ps, 0);
      var l := ParamLoop(t, p, st, false, missingCommand, complete, ps, 0);
      ArrayRegionFinishes(t, p, l.0, missingCommand, complete, l.1);
    }
  }

  /** Outside completion mode the first parameter array takes the tokens
      left after the parameters took theirs: they name it, they are its
      value tokens in order, and its values are their texts. */
  lemma ParamRegionArray(t: Tree, p: ParserId, st: State, missingCommand: bool,
                         complete: (ItemId, string) -> seq<string>)
    requires Consistent(t, st) && p < |t.parsers|
    ensures var r := ParamRegion(t, p, st, false, missingCommand, complete);
            var arrs := t.ParameterArrays(p);
            var rest := Drop(Unclaimed(st.args), |t.Parameters(p)|);
            arrs != [] ==>
              && r.st.items[arrs[0]].argValues == rest
              && |r.st.items[arrs[0]].values| == |rest|
              && (forall k | 0 <= k < |rest| :: r.st.items[arrs[0]].values[k] == st.args[rest[k]].text)
              && (forall k | 0 <= k < |rest| :: r.st.args[rest[k]].matchedItem == Some(arrs[0]))
  {
    var arrs := t.ParameterArrays(p);
    if arrs != [] {
      assert arrs[0] in t.ParametersOrArray(p);
      var ps := t.Parameters(p);
      ParamLoopLeaves(t, p, st, missingCommand, complete, ps, 0);
      ParamLoopKeeps(t, p, st, false, missingCommand, complete, ps, 0);
      ArrayRegionTakes(t, p, ParamLoop(t, p, st, false, missingCommand, complete, ps, 0).0, missingCommand, complete,
                       ParamLoop(t, p, st, false, missingCommand, complete, ps, 0).1);
    }
  }

  /** Outside completion mode `missingParameter` names the first parameter
      array when it is mandatory and the parameters took every token, and
      otherwise the first parameter left without a token when that one is
      mandatory. */
  lemma ParamRegionMissing(t: Tree, p: ParserId, st: State, missingCommand: bool,
                           complete: (ItemId, string) -> seq<string>)
    requires Consistent(t, st) && p < |t.parsers|
    ensures var r := ParamRegion(t, p, st, false, missingCommand, complete);
            var ps := t.Parameters(p);
            var arrs := t.ParameterArrays(p);
            var u := Unclaimed(st.args);
            && r.ParamsDone?
            && r.missing == if arrs != [] && t.items[arrs[0]].mandatory && |u| <= |ps| then Some(arrs[0])
                            else if |ps| > |u| && t.items[ps[|u|]].mandatory then Some(ps[|u|])
                            else None
  {
    if t.ParametersOrArray(p) != [] {
      var ps := t.Parameters(p);
      var u := Unclaimed(st.args);
      var l := ParamLoop(t, p, st, false, missingCommand, complete, ps, 0);
      ParamLoopMissing(t, p, st, missingCommand, complete, ps, 0);
      ParamLoopLeaves(t, p, st, missingCommand, complete, ps, 0);
      DropIsSuffix(u, |ps|);
      ArrayRegionFinishes(t, p, l.0, missingCommand, complete, l.1);
      var r := ArrayRegion(t, p, l.0, false, missingCommand, complete, l.1);
      assert ParamRegion(t, p, st, false, missingCommand, complete) == r;
      assert (Unclaimed(l.0.args) == []) == (|u| <= |ps|);
    }
  }

  /** Outside completion mode the j-th parameter of the level is bound to the
      j-th token that was unclaimed when the region began, as far as both
      go. */
  lemma ParamRegionBinds(t: Tree, p: ParserId, st: State, missingCommand: bool,
                         complete: (ItemId, string) -> seq<string>)
    requires Consistent(t, st) && p < |t.parsers|
    ensures var r := ParamRegion(t, p, st, false, missingCommand, complete);
            var ps := t.Parameters(p);
            var u := Unclaimed(st.args);
            forall j | 0 <= j < |ps| && j < |u| :: BoundTo(r.st, ps[j], u[j])
  {
    var ps := t.Parameters(p);
    var u := Unclaimed(st.args);
    if ps != [] {
      assert ps[0] in t.ParametersOrArray(p);
      ParamLoopBinds(t, p, st, missingCommand, complete, ps, 0);
      forall j | 0 <= j < |ps| && j < |u| ensures BoundTo(ParamRegion(t, p, st, false, missingCommand, complete).st, ps[j], u[j]) {
        assert ps[0 + j] == ps[j];
        assert ps[j] in ps;
        ArrayRegionKeepsBound(t, p, ParamLoop(t, p, st, false, missingCommand, complete, ps, 0).0, missingCommand, complete,
                              ParamLoop(t, p, st, false, missingCommand, complete, ps, 0).1, ps[j], u[j]);
      }
    }
  }
}
