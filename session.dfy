/// The matcher as the source runs it: one mutable argument list shared by
/// every level, match fields updated in place, and the loops of
/// `InternalRun` (CmdlineParser.cs) written as loops.  Every method is
/// proved to leave the state its specification function (modules
/// FlagPhase, CommandPhase, ParamPhase and Engine) computes.
module MatchSession {
  import opened Base
  import opened CmdlineArgument
  import opened CmdlineParseItem
  import opened CmdlineParser
  import opened MatchState
  import opened FlagPhase
  import opened CommandPhase
  import opened ParamPhase
  import opened Engine

  /** One run of the matcher over a parser tree: the argument list (each
      element's claim slot is its MatchedItem), the match fields of every
      item, the Command property of every parser, and what has been printed
      or executed so far. */
  class Session {
    const tree: Tree
    const show: bool
    const complete: (ItemId, string) -> seq<string>
    const args: array<Argument>
    var items: seq<ItemState>
    var command: seq<Option<ItemId>>
    var trace: seq<Event>

    /** The session as a state value. */
    function Abs(): State
      reads this, args
    {
      State(args[..], items, command, trace)
    }

    ghost predicate Valid()
      reads this, args
    {
      Consistent(tree, Abs())
    }

    /** The arguments built from the tokens, fresh items, and the tree's
        Command properties as created. */
    constructor (t: Tree, show: bool, complete: (ItemId, string) -> seq<string>, tokens: seq<string>)
      requires t.Valid()
      ensures Valid() && Abs() == Initial(t, tokens)
      ensures tree == t && this.show == show && this.complete == complete && fresh(args)
    {
      tree := t;
      this.show := show;
      this.complete := complete;
      var init := Initial(t, tokens);
      args := new Argument[|tokens|](i requires 0 <= i < |tokens| => NewArgument(tokens[i]));
      items := init.items;
      command := init.command;
      trace := [];
      new;
      assert args[..] == FromTokens(tokens);
    }

    /** Writes events to the trace (console output and executed actions). */
    method Print(events: seq<Event>)
      requires Valid()
      modifies this
      ensures Valid() && Abs() == Emit(old(Abs()), events)
    {
      trace := trace + events;
    }

    /** `item.Match(this, arg)` as done by parser p. */
    method Match(x: ItemId, p: ParserId, a: nat)
      requires Valid() && x < |tree.items| && p < |tree.parsers| && a < args.Length
      modifies this, args
      ensures Valid() && Abs() == MatchState.Match(old(Abs()), x, tree.items[x], p, a)
    {
      if tree.items[x].IsCommand() {
        command := command[p := Some(x)];
      }
      args[a] := args[a].WithMatchedItem(Some(x));
      items := items[x := items[x].(matches := true, matchParser := Some(p), matchArgument := Some(a))];
    }

    /** `item.Unmatch()`. */
    method Unmatch(x: ItemId)
      requires Valid() && x < |tree.items|
      modifies this, args
      ensures Valid() && Abs() == MatchState.Unmatch(old(Abs()), x)
    {
      var m := items[x].matchArgument;
      if m.Some? {
        args[m.value] := args[m.value].WithMatchedItem(None);
      }
      items := items[x := items[x].(matches := false, matchParser := None, matchArgument := None)];
    }

    /** `item.SetValue(valArg)`. */
    method SetValue(x: ItemId, a: nat)
      requires Valid() && x < |tree.items| && a < args.Length
      modifies this
      ensures Valid() && Abs() == MatchState.SetValue(old(Abs()), x, a)
    {
      items := items[x := items[x].(argValues := [a], values := [args[a].text])];
    }

    /** `item.SetValue(valArg, overrideVal)`. */
    method SetValueTo(x: ItemId, a: nat, v: string)
      requires Valid() && x < |tree.items| && a < args.Length
      modifies this
      ensures Valid() && Abs() == MatchState.SetValueTo(old(Abs()), x, a, v)
    {
      items := items[x := items[x].(argValues := [a], values := [v])];
    }

    /** `item.SetValues(valArgs)`: the values are copied one by one. */
    method SetValues(x: ItemId, valArgs: seq<nat>)
      requires Valid() && x < |tree.items|
      requires forall k | 0 <= k < |valArgs| :: valArgs[k] < args.Length
      modifies this
      ensures Valid() && Abs() == MatchState.SetValues(old(Abs()), x, valArgs)
    {
      var values: seq<string> := [];
      var k := 0;
      while k < |valArgs|
        invariant 0 <= k <= |valArgs|
        invariant values == TextsAt(args[..], valArgs[..k])
      {
        values := values + [args[valArgs[k]].text];
        k := k + 1;
      }
      assert valArgs[..k] == valArgs;
      items := items[x := items[x].(argValues := valArgs, values := values)];
    }

    /** `GlobalFlagActionExecuted = true`. */
    method MarkExecuted(x: ItemId)
      requires Valid() && x < |tree.items|
      modifies this
      ensures Valid() && Abs() == MatchState.MarkExecuted(old(Abs()), x)
    {
      items := items[x := items[x].(globalExecuted := true)];
    }

    /** What the winning flag's branch stores before the match: the claim
        and value of the next token, or the text after `=`. */
    method StoreHit(x: ItemId, a: nat, h: Hit)
      requires Valid() && x < |tree.items| && a < args.Length
      requires h == NextToken ==> a + 1 < args.Length
      modifies this, args
      ensures Valid() && Abs() == ApplyHit(old(Abs()), x, a, h)
    {
      match h
      case Plain =>
      case NextToken =>
        args[a + 1] := args[a + 1].WithMatchedItem(Some(x));
        assert Abs() == ClaimToken(old(Abs()), a + 1, x);
        SetValue(x, a + 1);
      case Inline(v) =>
        SetValueTo(x, a, v);
    }

    /** The inner `foreach (var flag in availFlags)` loop for token a. */
    method FlagLoop(avail: seq<ItemId>, a: nat) returns (q: Option<ItemId>)
      requires Valid() && tree.AllItems(avail) && a < args.Length
      modifies this, args
      ensures Valid() && (Abs(), q) == ScanFlags(tree, old(Abs()), avail, a)
    {
      var j := 0;
      while j < |avail|
        invariant 0 <= j <= |avail| && Valid()
        invariant ScanFlags(tree, old(Abs()), avail, a) == ScanFlags(tree, Abs(), avail[j..], a)
      {
        var x := avail[j];
        var rd := ReadFlag(tree.items[x], args[a].text, a < args.Length - 1);
        Print(Completions(rd.candidates));
        if rd.hit.Some? {
          StoreHit(x, a, rd.hit.value);
          return Some(x);
        }
        j := j + 1;
      }
      return None;
    }

    /** One pass of the token loop at unclaimed token a. */
    method FlagToken(p: ParserId, a: nat)
      requires Valid() && p < |tree.parsers| && a < args.Length
      modifies this, args
      ensures Valid() && Abs() == FlagPhase.FlagToken(tree, p, old(Abs()), a)
    {
      var q := FlagLoop(Avail(tree, p, Abs()), a);
      if q.Some? {
        var x := q.value;
        Match(x, p, a);
        if !tree.items[x].nested && tree.items[x].IsGlobal() {
          Print([GlobalAction(x)]);
          MarkExecuted(x);
        }
      }
    }

    /** One pass of the token loop at token i: a claimed token is skipped,
        and the loop stops when every visible flag is matched. */
    method FlagStep(p: ParserId, i: nat) returns (stop: bool)
      requires Valid() && p < |tree.parsers| && i < args.Length
      modifies this, args
      ensures Valid()
      ensures stop ==> Abs() == old(Abs()) && FlagPhase.FlagScan(tree, p, Abs(), i) == Abs()
      ensures !stop ==> FlagPhase.FlagScan(tree, p, old(Abs()), i) == FlagPhase.FlagScan(tree, p, Abs(), i + 1)
    {
      stop := false;
      if !args[i].Matched() {
        if Avail(tree, p, Abs()) == [] {
          return true;
        }
        FlagToken(p, i);
      }
    }

    /** The token loop `foreach (var (arg, argIdx) in args.WithIndex())`. */
    method FlagScan(p: ParserId)
      requires Valid() && p < |tree.parsers|
      modifies this, args
      ensures Valid() && Abs() == FlagPhase.FlagScan(tree, p, old(Abs()), 0)
    {
      var i := 0;
      while i < args.Length
        invariant 0 <= i <= args.Length && Valid()
        invariant FlagPhase.FlagScan(tree, p, old(Abs()), 0) == FlagPhase.FlagScan(tree, p, Abs(), i)
      {
        var stop := FlagStep(p, i);
        if stop {
          return;
        }
        i := i + 1;
      }
    }

    /** The flag region; returns `missingFlag`. */
    method FlagRegion(p: ParserId) returns (missingFlag: bool)
      requires Valid() && p < |tree.parsers|
      modifies this, args
      ensures Valid() && (Abs(), missingFlag) == FlagPhase.FlagRegion(tree, p, old(Abs()), show)
    {
      missingFlag := false;
      if tree.AllFlags(p) != [] {
        FlagScan(p);
        if !show {
          var q := FirstMissingMandatory(tree, tree.Flags(p), Abs());
          if q.Some? {
            Print([Diagnostic(MissingFlagMessage(tree.items[q.value])), Usage(p)]);
            missingFlag := true;
          }
        }
      }
    }

    /** The command region; returns `missingCommand` and `cmdToRun`. */
    method CommandRegion(p: ParserId) returns (missingCommand: bool, cmdToRun: Option<ItemId>)
      requires Valid() && p < |tree.parsers|
      modifies this, args
      ensures Valid() && (Abs(), missingCommand, cmdToRun) == CommandPhase.CommandRegion(tree, p, old(Abs()), show)
    {
      missingCommand, cmdToRun := false, None;
      var cmds := tree.Commands(p);
      if cmds != [] {
        var arg := FirstUnclaimed(args[..]);
        if arg.Some? {
          var a := arg.value;
          var qcmd := CommandNamed(tree, cmds, args[a].text);
          if qcmd.None? {
            missingCommand := true;
            if show {
              Print(Completions(CommandCandidates(CommandNames(tree, cmds), args[a].text)));
            }
          } else {
            Match(qcmd.value, p, a);
            cmdToRun := qcmd;
          }
        } else {
          missingCommand := true;
          if show {
            Print(Completions(CommandNames(tree, cmds)));
          }
        }
      }
    }

    /** One pass of `foreach (var param in Parameters)` for parameter
        x: returns whether the loop stops there, and the missing
        mandatory parameter it stops at. */
    method ParamStep(p: ParserId, missingCommand: bool, x: ItemId) returns (stop: bool, missing: Option<ItemId>)
      requires Valid() && p < |tree.parsers| && x < |tree.items| && tree.items[x].IsParameter()
      modifies this, args
      ensures Valid()
      ensures (Abs(), stop, missing) == ParamPhase.ParamStep(tree, p, old(Abs()), show, missingCommand, complete, x)
    {
      stop, missing := false, None;
      var asked := tree.items[x].hasCompletion && !missingCommand;
      var arg := FirstUnclaimed(args[..]);
      if arg.None? {
        if show {
          if asked {
            Print(Completions(complete(x, "")));
          }
        } else {
          stop := true;
          if tree.items[x].mandatory {
            missing := Some(x);
          }
        }
        return;
      }
      var a := arg.value;
      var tok := args[a].text;
      var skipCompletion := !show;
      if show && asked {
        var completions := Offered(complete, x, tok);
        if |completions| > 0 {
          Print(Completions(completions));
        } else {
          skipCompletion := true;
        }
      }
      if skipCompletion {
        Match(x, p, a);
        SetValue(x, a);
      }
    }

    /** `foreach (var param in Parameters)`; returns the missing mandatory
        parameter it stopped at, if any. */
    method ParamLoop(p: ParserId, missingCommand: bool) returns (missing: Option<ItemId>)
      requires Valid() && p < |tree.parsers|
      modifies this, args
      ensures Valid()
      ensures (Abs(), missing) == ParamPhase.ParamLoop(tree, p, old(Abs()), show, missingCommand, complete, tree.Parameters(p), 0)
    {
      var ps := tree.Parameters(p);
      var k := 0;
      while k < |ps|
        invariant 0 <= k <= |ps| && Valid()
        invariant ParamPhase.ParamLoop(tree, p, old(Abs()), show, missingCommand, complete, ps, 0)
                  == ParamPhase.ParamLoop(tree, p, Abs(), show, missingCommand, complete, ps, k)
      {
        var stop;
        stop, missing := ParamStep(p, missingCommand, ps[k]);
        if stop {
          return;
        }
        k := k + 1;
      }
      return None;
    }

    /** One pass of the `while (true)` loop of parameter array x, with
        `bound` the tokens bound so far: either it binds token a and the
        loop goes on, or the loop ends here. */
    method ArrayStep(p: ParserId, missingCommand: bool, x: ItemId, bound: seq<nat>)
      returns (done: bool, stuck: bool, missing: bool, a: nat)
      requires Valid() && p < |tree.parsers| && x < |tree.items| && tree.items[x].IsParameterArray()
      modifies this, args
      ensures Valid()
      ensures var e := ParamPhase.ArrayLoop(tree, p, old(Abs()), show, missingCommand, complete, x, bound);
              done ==> Abs() == e.st && stuck == e.ArrayStuck? && (!stuck ==> e.bound == bound && e.missing == missing)
      ensures !done ==> a < args.Length && |Unclaimed(args[..])| < |Unclaimed(old(args[..]))|
      ensures !done ==> ParamPhase.ArrayLoop(tree, p, old(Abs()), show, missingCommand, complete, x, bound)
                        == ParamPhase.ArrayLoop(tree, p, Abs(), show, missingCommand, complete, x, bound + [a])
    {
      done, stuck, missing, a := true, false, false, 0;
      var asked := tree.items[x].hasCompletion && !missingCommand;
      var arg := FirstUnclaimed(args[..]);
      if arg.None? {
        if show {
          if asked {
            Print(Completions(complete(x, "")));
          }
        } else {
          missing := tree.items[x].mandatory && |bound| == 0;
        }
        return;
      }
      a := arg.value;
      var tok := args[a].text;
      var skipCompletion := !show;
      if show && asked {
        var completions := Offered(complete, x, tok);
        if |completions| > 0 {
          Print(Completions(completions));
          return;
        }
        skipCompletion := true;
      }
      if !skipCompletion {
        stuck := true;
        return;
      }
      BindingShrinks(args[..], a, x);
      Match(x, p, a);
      done := false;
    }

    /** The `while (true)` loop of parameter array x.  Where the source
        would spin for ever (a token it neither binds nor stops at), the
        method returns `stuck` instead. */
    method ArrayLoop(p: ParserId, missingCommand: bool, x: ItemId) returns (stuck: bool, bound: seq<nat>, missing: bool)
      requires Valid() && p < |tree.parsers| && x < |tree.items| && tree.items[x].IsParameterArray()
      modifies this, args
      ensures Valid()
      ensures var e := ParamPhase.ArrayLoop(tree, p, old(Abs()), show, missingCommand, complete, x, []);
              && Abs() == e.st && stuck == e.ArrayStuck?
              && (!stuck ==> bound == e.bound && missing == e.missing)
    {
      bound := [];
      var done := false;
      stuck, missing := false, false;
      ghost var e := ParamPhase.ArrayLoop(tree, p, Abs(), show, missingCommand, complete, x, []);
      while !done
        invariant Valid()
        invariant done ==> Abs() == e.st && stuck == e.ArrayStuck? && (!stuck ==> e.bound == bound && e.missing == missing)
        invariant !done ==> e == ParamPhase.ArrayLoop(tree, p, Abs(), show, missingCommand, complete, x, bound)
        decreases !done, |Unclaimed(args[..])|
      {
        var a;
        done, stuck, missing, a := ArrayStep(p, missingCommand, x, bound);
        if !done {
          bound := bound + [a];
        }
      }
    }

    /** The parameters region; returns `missingParameter`, or `stuck`. */
    method ParamRegion(p: ParserId, missingCommand: bool) returns (missing: Option<ItemId>, stuck: bool)
      requires Valid() && p < |tree.parsers|
      modifies this, args
      ensures Valid()
      ensures var e := ParamPhase.ParamRegion(tree, p, old(Abs()), show, missingCommand, complete);
              && Abs() == e.st && stuck == e.ParamsStuck?
              && (!stuck ==> missing == e.missing)
    {
      missing, stuck := None, false;
      if tree.ParametersOrArray(p) != [] {
        missing := ParamLoop(p, missingCommand);
        var arrs := tree.ParameterArrays(p);
        if arrs != [] {
          var parr := arrs[0];
          var bound, m;
          stuck, bound, m := ArrayLoop(p, missingCommand, parr);
          if !stuck {
            if m {
              missing := Some(parr);
            }
            SetValues(parr, bound);
          }
        }
      }
    }

    /** One level of `InternalRun`; returns whether it spins for ever. */
    method Level(p: ParserId) returns (diverged: bool)
      requires Valid() && p < |tree.parsers|
      modifies this, args
      ensures Valid()
      ensures var r := Engine.Level(tree, p, old(Abs()), show, complete);
              Abs() == r.st && diverged == r.Diverged?
      decreases |tree.parsers| - p, 1
    {
      var missingFlag := FlagRegion(p);
      var missingCommand, cmdToRun := CommandRegion(p);
      var missingParameter, stuck := ParamRegion(p, missingCommand);
      if stuck {
        return true;
      }
      diverged := Conclude(p, missingFlag, missingCommand, cmdToRun, missingParameter);
    }

    /** The end of a level after the parameters region. */
    method Conclude(p: ParserId, missingFlag: bool, missingCommand: bool, cmdToRun: Option<ItemId>,
                    missingParameter: Option<ItemId>) returns (diverged: bool)
      requires Valid() && p < |tree.parsers|
      requires cmdToRun.Some? ==> cmdToRun.value in tree.Commands(p)
      requires missingParameter.Some? ==> missingParameter.value < |tree.items|
      modifies this, args
      ensures Valid()
      ensures var r := Engine.Conclude(tree, p, old(Abs()), show, complete, missingFlag, missingCommand, cmdToRun, missingParameter);
              Abs() == r.st && diverged == r.Diverged?
      decreases |tree.parsers| - p, 0
    {
      diverged := false;
      var qglobal := PendingGlobals(tree, p, Abs());
      if !show && qglobal == [] && missingCommand {
        Print(Report(p, "missing command"));
        return;
      }
      if !show && missingParameter.Some? {
        Print(Report(p, MissingParameterMessage(tree.items[missingParameter.value])));
        return;
      }
      if !show && tree.parsers[p].hasAction && qglobal == [] && !missingFlag {
        Print([LevelAction(p)]);
      }
      if cmdToRun.Some? {
        ReleaseGlobals(qglobal);
        if !missingFlag {
          CommandOpensChild(tree, p, cmdToRun.value);
          diverged := Level(tree.items[cmdToRun.value].parser);
        }
        return;
      }
      if qglobal != [] {
        RunGlobalActions(qglobal);
      }
    }

    /** The loop over `qglobal` before the descent. */
    method ReleaseGlobals(qs: seq<ItemId>)
      requires Valid() && tree.AllItems(qs)
      requires forall j | 0 <= j < |qs| :: tree.items[qs[j]].nested
      modifies this, args
      ensures Valid() && Abs() == Engine.ReleaseGlobals(tree, old(Abs()), qs, 0)
    {
      var k := 0;
      while k < |qs|
        invariant 0 <= k <= |qs| && Valid()
        invariant Engine.ReleaseGlobals(tree, old(Abs()), qs, 0) == Engine.ReleaseGlobals(tree, Abs(), qs, k)
      {
        if !tree.items[qs[k]].nested {
          assert false;
        } else {
          Unmatch(qs[k]);
        }
        k := k + 1;
      }
    }

    /** `foreach (var flag in qglobal.Where(w => !w.GlobalFlagActionExecuted))`
        running each flag's global action. */
    method RunGlobalActions(qs: seq<ItemId>)
      requires Valid() && tree.AllItems(qs)
      modifies this
      ensures Valid() && Abs() == Emit(old(Abs()), GlobalActions(tree, old(Abs()), qs, 0))
    {
      var k := 0;
      while k < |qs|
        invariant 0 <= k <= |qs| && Valid()
        invariant Abs() == old(Abs()).(trace := trace)
        invariant old(trace) + GlobalActions(tree, old(Abs()), qs, 0) == trace + GlobalActions(tree, old(Abs()), qs, k)
      {
        ghost var before := trace;
        var ev := if items[qs[k]].globalExecuted then [] else [GlobalAction(qs[k])];
        if !items[qs[k]].globalExecuted {
          Print(ev);
        }
        AppendAssoc(before, ev, GlobalActions(tree, old(Abs()), qs, k + 1));
        k := k + 1;
      }
    }
  }

  /** `Run(args)` on parser p of tree t, with `env` the value of the
      SHOW_COMPLETIONS variable and `complete` the completion providers. */
  method RunParser(t: Tree, p: ParserId, env: Option<string>, argv: seq<string>,
                   complete: (ItemId, string) -> seq<string>) returns (r: Outcome)
    requires t.Valid() && p < |t.parsers|
    ensures r == Run(t, p, env, argv, complete)
  {
    var skipArgs := 0;
    if env.Some? && env.value == "1" {
      skipArgs := 1;
    }
    var showCompletion := env.Some? && (env.value == "1" || env.value == "2");
    assert skipArgs == SkipCount(env) && showCompletion == CompletionMode(env);
    var tokens := if skipArgs <= |argv| then argv[skipArgs..] else [];
    var s := new Session(t, showCompletion, complete, tokens);
    ghost var st0 := s.Abs();
    assert st0 == Initial(t, Tokens(env, argv));
    var diverged := s.Level(p);
    r := if diverged then Diverged(s.Abs()) else Finished(s.Abs());
  }
}
