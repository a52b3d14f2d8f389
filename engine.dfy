/// `InternalRun` and `Run` (CmdlineParser.cs): one level of matching runs
/// the flag, command and parameter regions, then either stops with a
/// diagnostic, runs the pending global actions, or descends into the parser
/// of the command it selected, over the same token list.
///
/// `InternalRun` is a lazy iterator of actions that `Run` executes as they
/// are yielded, so a level's onCmdlineMatch runs before the next level is
/// even matched, and the global actions, which the iterator calls directly,
/// run where they are reached.  The trace records all of it in that order.
module Engine {
  import opened Base
  import opened CmdlineArgument
  import opened CmdlineParseItem
  import opened CmdlineParser
  import opened MatchState
  import opened FlagPhase
  import opened CommandPhase
  import opened ParamPhase

  /** How a run ends: with its final state, or spinning for ever in a
      parameter-array loop (completion mode only). */
  datatype Outcome = Finished(st: State) | Diverged(st: State)

  /** `qglobal`: the visible flags with a nested global action that are
      matched, in AllFlags order. */
  function PendingGlobals(t: Tree, p: ParserId, st: State): (r: seq<ItemId>)
    requires Consistent(t, st) && p < |t.parsers|
    ensures t.AllItems(r)
    ensures forall x :: x in r <==>
              x in t.AllFlags(p) && t.items[x].IsGlobal() && t.items[x].nested && st.items[x].matches
    ensures forall k | 0 <= k < |r| :: t.items[r[k]].nested
  {
    Filter(t.AllFlags(p), (x: ItemId) => x < |t.items| && t.items[x].IsGlobal() && t.items[x].nested && st.items[x].matches)
  }

  /** The loop over `qglobal` before the descent, from position k: a flag
      that is not nested would be dropped from the list, every other one is
      unmatched so that its token is offered again to the next level.  Every
      flag of `qglobal` is nested, so the first branch never runs. */
  function ReleaseGlobals(t: Tree, st: State, qs: seq<ItemId>, k: nat): (r: State)
    requires Consistent(t, st) && t.AllItems(qs) && k <= |qs|
    requires forall j | 0 <= j < |qs| :: t.items[qs[j]].nested
    ensures Consistent(t, r) && Extends(st, r) && r.trace == st.trace && r.command == st.command
    decreases |qs| - k
  {
    if k == |qs| then st
    else if !t.items[qs[k]].nested then assert false; st
    else ReleaseGlobals(t, Unmatch(st, qs[k]), qs, k + 1)
  }

  /** The global actions run when no command was selected, from position
      k of `qglobal` on: those not executed yet during the flag region. */
  function GlobalActions(t: Tree, st: State, qs: seq<ItemId>, k: nat): (r: seq<Event>)
    requires Consistent(t, st) && t.AllItems(qs) && k <= |qs|
    ensures forall e | e in r :: e.GlobalAction?
    decreases |qs| - k
  {
    if k == |qs| then []
    else (if st.items[qs[k]].globalExecuted then [] else [GlobalAction(qs[k])]) + GlobalActions(t, st, qs, k + 1)
  }

  /** Exactly the flags of `qs[k..]` whose action has not run yet get their
      action run. */
  lemma {:induction false} GlobalActionsExact(t: Tree, st: State, qs: seq<ItemId>, k: nat)
    requires Consistent(t, st) && t.AllItems(qs) && k <= |qs|
    ensures forall e | e in GlobalActions(t, st, qs, k) :: e.item in qs[k..] && !st.items[e.item].globalExecuted
    ensures forall x | x in qs[k..] && !st.items[x].globalExecuted :: GlobalAction(x) in GlobalActions(t, st, qs, k)
    decreases |qs| - k
  {
    if k < |qs| {
      GlobalActionsExact(t, st, qs, k + 1);
      assert qs[k..] == [qs[k]] + qs[k + 1..];
    }
  }

  /** Whether `qs` has, from position k on, a flag whose match argument was
      token j. */
  ghost predicate ClaimedBy(st: State, qs: seq<ItemId>, k: nat, j: nat) {
    exists i | k <= i < |qs| :: qs[i] < |st.items| && st.items[qs[i]].matchArgument == Some(j)
  }

  /** Releasing the global flags of `qs[k..]` unmatches each of them and
      changes no other item; their values stay. */
  lemma {:induction false} ReleaseGlobalsUnmatches(t: Tree, st: State, qs: seq<ItemId>, k: nat, y: ItemId)
    requires Consistent(t, st) && t.AllItems(qs) && k <= |qs|
    requires forall j | 0 <= j < |qs| :: t.items[qs[j]].nested
    requires y < |t.items|
    ensures var r := ReleaseGlobals(t, st, qs, k);
            && (y in qs[k..] ==> !r.items[y].matches && r.items[y].matchParser.None? && r.items[y].matchArgument.None?)
            && (y !in qs[k..] ==> r.items[y] == st.items[y])
            && r.items[y].argValues == st.items[y].argValues && r.items[y].values == st.items[y].values
    decreases |qs| - k
  {
    if k < |qs| {
      assert qs[k..] == [qs[k]] + qs[k + 1..];
      ReleaseGlobalsUnmatches(t, Unmatch(st, qs[k]), qs, k + 1, y);
    }
  }

  /** Releasing the global flags of `qs[k..]` releases exactly the tokens
      they matched: such a token ends unclaimed, every other token is left
      as it was. */
  lemma {:induction false} ReleaseGlobalsFrees(t: Tree, st: State, qs: seq<ItemId>, k: nat, j: nat)
    requires Consistent(t, st) && t.AllItems(qs) && k <= |qs|
    requires forall i | 0 <= i < |qs| :: t.items[qs[i]].nested
    requires j < |st.args|
    ensures ReleaseGlobals(t, st, qs, k).args[j] ==
            if ClaimedBy(st, qs, k, j) then st.args[j].WithMatchedItem(None) else st.args[j]
    decreases |qs| - k, 1
  {
    if k < |qs| {
      ReleaseGlobalsFreesStep(t, st, qs, k, j);
    }
  }

  /** The inductive step of ReleaseGlobalsFrees. */
  lemma ReleaseGlobalsFreesStep(t: Tree, st: State, qs: seq<ItemId>, k: nat, j: nat)
    requires Consistent(t, st) && t.AllItems(qs) && k < |qs|
    requires forall i | 0 <= i < |qs| :: t.items[qs[i]].nested
    requires j < |st.args|
    ensures ReleaseGlobals(t, st, qs, k).args[j] ==
            if ClaimedBy(st, qs, k, j) then st.args[j].WithMatchedItem(None) else st.args[j]
    decreases |qs| - k, 0
  {
    var x := qs[k];
    var s := Unmatch(st, x);
    ReleaseGlobalsFrees(t, s, qs, k + 1, j);
    if st.items[x].matchArgument == Some(j) {
      assert ClaimedBy(st, qs, k, j);
    } else {
      assert s.args[j] == st.args[j];
      if ClaimedBy(s, qs, k + 1, j) {
        var i :| k + 1 <= i < |qs| && qs[i] < |s.items| && s.items[qs[i]].matchArgument == Some(j);
        assert qs[i] != x;
        assert ClaimedBy(st, qs, k, j);
      }
      if ClaimedBy(st, qs, k, j) {
        var i :| k <= i < |qs| && qs[i] < |st.items| && st.items[qs[i]].matchArgument == Some(j);
        assert i != k && qs[i] != x;
        assert ClaimedBy(s, qs, k + 1, j);
      }
    }
  }

  /** The message written for a missing parameter: its name, null printed
      as nothing. */
  function MissingParameterMessage(decl: Item): (m: string)
    ensures var pre := "missing required parameter [";
            && |m| == |pre| + |Text(decl.shortName)| + 1
            && m[..|pre|] == pre && m[|pre|..|m| - 1] == Text(decl.shortName) && m[|m| - 1] == ']'
  {
    "missing required parameter [" + Text(decl.shortName) + "]"
  }

  /** The report that ends a level with an error: a message and the usage. */
  function Report(p: ParserId, message: string): seq<Event> {
    [Diagnostic(message), Usage(p)]
  }

  /** One level of `InternalRun`, for parser p: the three regions, then
      the level's conclusion. */
  function Level(t: Tree, p: ParserId, st: State, show: bool, complete: (ItemId, string) -> seq<string>): (r: Outcome)
    requires Consistent(t, st) && p < |t.parsers|
    ensures Consistent(t, r.st) && Extends(st, r.st)
    ensures r.Diverged? ==> show
    ensures show ==> NoLevelActionSince(st, r.st)
    decreases |t.parsers| - p, 1
  {
    var (st1, missingFlag) := FlagRegion(t, p, st, show);
    var (st2, missingCommand, cmdToRun) := CommandRegion(t, p, st1, show);
    ExtendsTrans(st, st1, st2);
    match ParamRegion(t, p, st2, show, missingCommand, complete)
    case ParamsStuck(s) =>
      ExtendsTrans(st, st2, s);
      Diverged(s)
    case ParamsDone(st3, missingParameter) =>
      ExtendsTrans(st, st2, st3);
      var r := Conclude(t, p, st3, show, complete, missingFlag, missingCommand, cmdToRun, missingParameter);
      ExtendsTrans(st, st3, r.st);
      r
  }

  /** The end of a level, after the parameters region, given the flags the
      regions leave behind: `missingFlag`, `missingCommand`, `cmdToRun` and
      `missingParameter`. */
  function Conclude(t: Tree, p: ParserId, st3: State, show: bool, complete: (ItemId, string) -> seq<string>,
                    missingFlag: bool, missingCommand: bool, cmdToRun: Option<ItemId>,
                    missingParameter: Option<ItemId>): (r: Outcome)
    requires Consistent(t, st3) && p < |t.parsers|
    requires cmdToRun.Some? ==> cmdToRun.value in t.Commands(p)
    requires missingParameter.Some? ==> missingParameter.value < |t.items|
    ensures Consistent(t, r.st) && Extends(st3, r.st)
    ensures r.Diverged? ==> show
    ensures show ==> NoLevelActionSince(st3, r.st)
    decreases |t.parsers| - p, 0
  {
    var qglobal := PendingGlobals(t, p, st3);
    if !show && qglobal == [] && missingCommand then
      EmitKeeps(t, st3, Report(p, "missing command"));
      Finished(Emit(st3, Report(p, "missing command")))
    else if !show && missingParameter.Some? then
      var report := Report(p, MissingParameterMessage(t.items[missingParameter.value]));
      EmitKeeps(t, st3, report);
      Finished(Emit(st3, report))
    else
      var st4 := if !show && t.parsers[p].hasAction && qglobal == [] && !missingFlag
                 then Emit(st3, [LevelAction(p)]) else st3;
      EmitKeeps(t, st3, [LevelAction(p)]);
      SameTraceNoLevelAction(st3, st3);
      if cmdToRun.Some? then
        var st5 := ReleaseGlobals(t, st4, qglobal, 0);
        SameTraceNoLevelAction(st4, st5);
        ExtendsTrans(st3, st4, st5);
        CommandOpensChild(t, p, cmdToRun.value);
        if !missingFlag then
          var r := Level(t, t.items[cmdToRun.value].parser, st5, show, complete);
          ExtendsTrans(st3, st5, r.st);
          r
        else Finished(st5)
      else if qglobal != [] then
        var actions := GlobalActions(t, st4, qglobal, 0);
        EmitKeeps(t, st4, actions);
        ExtendsTrans(st3, st4, Emit(st4, actions));
        Finished(Emit(st4, actions))
      else Finished(st4)
  }

  /** Whether the level ends with an error report: outside completion
      mode, a missing command with no nested global flag matched, or a
      missing parameter. */
  predicate Fatal(t: Tree, p: ParserId, st3: State, missingCommand: bool, missingParameter: Option<ItemId>, show: bool)
    requires Consistent(t, st3) && p < |t.parsers|
  {
    !show && ((PendingGlobals(t, p, st3) == [] && missingCommand) || missingParameter.Some?)
  }

  /** Whether the level queues its own onCmdlineMatch: outside completion
      mode, when it has one, no nested global flag matched and no mandatory
      flag is missing. */
  predicate OwnAction(t: Tree, p: ParserId, st3: State, missingFlag: bool, show: bool)
    requires Consistent(t, st3) && p < |t.parsers|
  {
    !show && t.parsers[p].hasAction && PendingGlobals(t, p, st3) == [] && !missingFlag
  }

  /** A fatal level prints its diagnostic and the usage, and does nothing
      else: no action, no descent, no other change. */
  lemma ConcludeReports(t: Tree, p: ParserId, st3: State, show: bool, complete: (ItemId, string) -> seq<string>,
                        missingFlag: bool, missingCommand: bool, cmdToRun: Option<ItemId>,
                        missingParameter: Option<ItemId>)
    requires Consistent(t, st3) && p < |t.parsers|
    requires cmdToRun.Some? ==> cmdToRun.value in t.Commands(p)
    requires missingParameter.Some? ==> missingParameter.value < |t.items|
    requires Fatal(t, p, st3, missingCommand, missingParameter, show)
    ensures var r := Conclude(t, p, st3, show, complete, missingFlag, missingCommand, cmdToRun, missingParameter);
            var message := if PendingGlobals(t, p, st3) == [] && missingCommand then "missing command"
                           else MissingParameterMessage(t.items[missingParameter.value]);
            r == Finished(st3.(trace := st3.trace + [Diagnostic(message), Usage(p)]))
  {
  }

  /** A level that is not fatal and selected command c queues its own
      action first, then releases the nested global flags and, unless a
      mandatory flag is missing, matches the child parser of c over the
      same tokens. */
  lemma ConcludeDescends(t: Tree, p: ParserId, st3: State, show: bool, complete: (ItemId, string) -> seq<string>,
                         missingFlag: bool, missingCommand: bool, c: ItemId, missingParameter: Option<ItemId>)
    requires Consistent(t, st3) && p < |t.parsers|
    requires c in t.Commands(p)
    requires missingParameter.Some? ==> missingParameter.value < |t.items|
    requires !Fatal(t, p, st3, missingCommand, missingParameter, show)
    ensures var qglobal := PendingGlobals(t, p, st3);
            var st4 := st3.(trace := st3.trace + if OwnAction(t, p, st3, missingFlag, show) then [LevelAction(p)] else []);
            var st5 := ReleaseGlobals(t, st4, qglobal, 0);
            var r := Conclude(t, p, st3, show, complete, missingFlag, missingCommand, Some(c), missingParameter);
            && p < t.items[c].parser < |t.parsers|
            && r == if missingFlag then Finished(st5) else Level(t, t.items[c].parser, st5, show, complete)
  {
    CommandOpensChild(t, p, c);
    EmitKeeps(t, st3, [LevelAction(p)]);
    assert st3.(trace := st3.trace + []) == st3;
  }

  /** A level that is not fatal and selected no command, with some nested
      global flag matched, runs exactly the actions of those flags that have
      not run yet, in `qglobal` order, and changes nothing else. */
  lemma ConcludeRunsGlobals(t: Tree, p: ParserId, st3: State, show: bool, complete: (ItemId, string) -> seq<string>,
                            missingFlag: bool, missingCommand: bool, missingParameter: Option<ItemId>)
    requires Consistent(t, st3) && p < |t.parsers|
    requires missingParameter.Some? ==> missingParameter.value < |t.items|
    requires !Fatal(t, p, st3, missingCommand, missingParameter, show)
    requires PendingGlobals(t, p, st3) != []
    ensures var qglobal := PendingGlobals(t, p, st3);
            var r := Conclude(t, p, st3, show, complete, missingFlag, missingCommand, None, missingParameter);
            && r.Finished? && r.st == st3.(trace := r.st.trace) && st3.trace <= r.st.trace
            && (forall e :: e in r.st.trace[|st3.trace|..] <==>
                  e.GlobalAction? && e.item in qglobal && !st3.items[e.item].globalExecuted)
  {
    var qglobal := PendingGlobals(t, p, st3);
    GlobalActionsExact(t, st3, qglobal, 0);
    var acts := GlobalActions(t, st3, qglobal, 0);
    assert (st3.trace + acts)[|st3.trace|..] == acts;
    assert qglobal[0..] == qglobal;
  }

  /** A level that is not fatal and selected no command, with no nested
      global flag matched, ends after queuing its own action, if any. */
  lemma ConcludeStops(t: Tree, p: ParserId, st3: State, show: bool, complete: (ItemId, string) -> seq<string>,
                      missingFlag: bool, missingCommand: bool, missingParameter: Option<ItemId>)
    requires Consistent(t, st3) && p < |t.parsers|
    requires missingParameter.Some? ==> missingParameter.value < |t.items|
    requires !Fatal(t, p, st3, missingCommand, missingParameter, show)
    requires PendingGlobals(t, p, st3) == []
    ensures var r := Conclude(t, p, st3, show, complete, missingFlag, missingCommand, None, missingParameter);
            r == Finished(st3.(trace := st3.trace + if OwnAction(t, p, st3, missingFlag, show) then [LevelAction(p)] else []))
  {
    assert st3.(trace := st3.trace + []) == st3;
  }

  /** Between st and r the trace only grew, and only level actions of
      parser p or of later parsers were queued. */
  ghost predicate ActionsFrom(st: State, r: State, p: ParserId) {
    st.trace <= r.trace && forall e | e in r.trace[|st.trace|..] :: e.LevelAction? ==> p <= e.parser
  }

  /** ActionsFrom composes along a run. */
  lemma ActionsFromTrans(a: State, b: State, c: State, p: ParserId, q: ParserId)
    requires ActionsFrom(a, b, p) && ActionsFrom(b, c, q) && p <= q
    ensures ActionsFrom(a, c, p)
  {
    forall e | e in c.trace[|a.trace|..] && e.LevelAction? ensures p <= e.parser {
      var k :| |a.trace| <= k < |c.trace| && c.trace[k] == e;
      if k < |b.trace| {
        assert b.trace[|a.trace|..][k - |a.trace|] == e;
      } else {
        assert c.trace[|b.trace|..][k - |b.trace|] == e;
      }
    }
  }

  /** One level queues only level actions of its own parser or of the
      parsers below it. */
  lemma {:induction false} LevelActionsFrom(t: Tree, p: ParserId, st: State, show: bool,
                                            complete: (ItemId, string) -> seq<string>)
    requires Consistent(t, st) && p < |t.parsers|
    ensures ActionsFrom(st, Level(t, p, st, show, complete).st, p)
    decreases |t.parsers| - p, 2
  {
    var (st1, missingFlag) := FlagRegion(t, p, st, show);
    var (st2, missingCommand, cmdToRun) := CommandRegion(t, p, st1, show);
    ExtendsTrans(st, st1, st2);
    match ParamRegion(t, p, st2, show, missingCommand, complete)
    case ParamsStuck(s) =>
      ExtendsTrans(st, st2, s);
    case ParamsDone(st3, missingParameter) =>
      ExtendsTrans(st, st2, st3);
      ConcludeOwnAction(t, p, st3, show, complete, missingFlag, missingCommand, cmdToRun, missingParameter);
      ActionsFromTrans(st, st3, Level(t, p, st, show, complete).st, p, p);
  }

  /** A level that does not descend queues at most its own action, and
      only when it is not fatal; then the trace only grew. */
  lemma ConcludeEndsActions(t: Tree, p: ParserId, st3: State, show: bool,
                            complete: (ItemId, string) -> seq<string>,
                            missingFlag: bool, missingCommand: bool, cmdToRun: Option<ItemId>,
                            missingParameter: Option<ItemId>)
    requires Consistent(t, st3) && p < |t.parsers|
    requires cmdToRun.Some? ==> cmdToRun.value in t.Commands(p)
    requires missingParameter.Some? ==> missingParameter.value < |t.items|
    requires Fatal(t, p, st3, missingCommand, missingParameter, show) || cmdToRun.None?
    ensures var r := Conclude(t, p, st3, show, complete, missingFlag, missingCommand, cmdToRun, missingParameter);
            var own := !Fatal(t, p, st3, missingCommand, missingParameter, show) && OwnAction(t, p, st3, missingFlag, show);
            && st3.trace <= r.st.trace
            && (forall e | e in r.st.trace[|st3.trace|..] :: e.LevelAction? ==> e == LevelAction(p) && own)
            && (own ==> |st3.trace| < |r.st.trace| && r.st.trace[|st3.trace|] == LevelAction(p))
  {
    if Fatal(t, p, st3, missingCommand, missingParameter, show) {
      ConcludeReports(t, p, st3, show, complete, missingFlag, missingCommand, cmdToRun, missingParameter);
      var r := Conclude(t, p, st3, show, complete, missingFlag, missingCommand, cmdToRun, missingParameter);
      assert r.st.trace[|st3.trace|..] == [r.st.trace[|st3.trace|], r.st.trace[|st3.trace| + 1]];
    } else {
      ConcludeEndsQuietly(t, p, st3, show, complete, missingFlag, missingCommand, missingParameter);
    }
  }

  /** ConcludeEndsActions for a level that is not fatal and selected no
      command. */
  lemma ConcludeEndsQuietly(t: Tree, p: ParserId, st3: State, show: bool,
                            complete: (ItemId, string) -> seq<string>,
                            missingFlag: bool, missingCommand: bool, missingParameter: Option<ItemId>)
    requires Consistent(t, st3) && p < |t.parsers|
    requires missingParameter.Some? ==> missingParameter.value < |t.items|
    requires !Fatal(t, p, st3, missingCommand, missingParameter, show)
    ensures var r := Conclude(t, p, st3, show, complete, missingFlag, missingCommand, None, missingParameter);
            var own := OwnAction(t, p, st3, missingFlag, show);
            && st3.trace <= r.st.trace
            && (forall e | e in r.st.trace[|st3.trace|..] :: e.LevelAction? ==> e == LevelAction(p) && own)
            && (own ==> |st3.trace| < |r.st.trace| && r.st.trace[|st3.trace|] == LevelAction(p))
  {
    if PendingGlobals(t, p, st3) != [] {
      ConcludeRunsGlobals(t, p, st3, show, complete, missingFlag, missingCommand, missingParameter);
    } else {
      ConcludeStops(t, p, st3, show, complete, missingFlag, missingCommand, missingParameter);
      var r := Conclude(t, p, st3, show, complete, missingFlag, missingCommand, None, missingParameter);
      assert r.st.trace[|st3.trace|..] == if OwnAction(t, p, st3, missingFlag, show) then [LevelAction(p)] else [];
    }
  }

  /** The level's own onCmdlineMatch is queued exactly when the level is not
      fatal and OwnAction holds, and then before anything the child level
      does; the end of a level queues only level actions of its own parser
      or of the parsers below it. */
  lemma {:induction false} ConcludeOwnAction(t: Tree, p: ParserId, st3: State, show: bool, complete: (ItemId, string) -> seq<string>,
                          missingFlag: bool, missingCommand: bool, cmdToRun: Option<ItemId>,
                          missingParameter: Option<ItemId>)
    requires Consistent(t, st3) && p < |t.parsers|
    requires cmdToRun.Some? ==> cmdToRun.value in t.Commands(p)
    requires missingParameter.Some? ==> missingParameter.value < |t.items|
    ensures var r := Conclude(t, p, st3, show, complete, missingFlag, missingCommand, cmdToRun, missingParameter);
            var own := !Fatal(t, p, st3, missingCommand, missingParameter, show) && OwnAction(t, p, st3, missingFlag, show);
            && st3.trace <= r.st.trace
            && (LevelAction(p) in r.st.trace[|st3.trace|..] <==> own)
            && (own ==> |st3.trace| < |r.st.trace| && r.st.trace[|st3.trace|] == LevelAction(p))
            && ActionsFrom(st3, r.st, p)
    decreases |t.parsers| - p, 1
  {
    if !Fatal(t, p, st3, missingCommand, missingParameter, show) && cmdToRun.Some? {
      ConcludeOwnActionDescends(t, p, st3, show, complete, missingFlag, missingCommand, cmdToRun.value, missingParameter);
    } else {
      ConcludeEndsActions(t, p, st3, show, complete, missingFlag, missingCommand, cmdToRun, missingParameter);
    }
  }

  /** ConcludeOwnAction when a command was selected: the child level and
      those below it queue no action of parser p. */
  lemma {:induction false} ConcludeOwnActionDescends(t: Tree, p: ParserId, st3: State, show: bool,
                                  complete: (ItemId, string) -> seq<string>,
                                  missingFlag: bool, missingCommand: bool, c: ItemId,
                                  missingParameter: Option<ItemId>)
    requires Consistent(t, st3) && p < |t.parsers|
    requires c in t.Commands(p)
    requires missingParameter.Some? ==> missingParameter.value < |t.items|
    requires !Fatal(t, p, st3, missingCommand, missingParameter, show)
    ensures var r := Conclude(t, p, st3, show, complete, missingFlag, missingCommand, Some(c), missingParameter);
            var own := OwnAction(t, p, st3, missingFlag, show);
            && st3.trace <= r.st.trace
            && (LevelAction(p) in r.st.trace[|st3.trace|..] <==> own)
            && (own ==> |st3.trace| < |r.st.trace| && r.st.trace[|st3.trace|] == LevelAction(p))
            && ActionsFrom(st3, r.st, p)
    decreases |t.parsers| - p, 0
  {
    var r := Conclude(t, p, st3, show, complete, missingFlag, missingCommand, Some(c), missingParameter);
    ConcludeDescends(t, p, st3, show, complete, missingFlag, missingCommand, c, missingParameter);
    var own := OwnAction(t, p, st3, missingFlag, show);
    var mine := if own then [LevelAction(p)] else [];
    var st5 := ReleaseGlobals(t, st3.(trace := st3.trace + mine), PendingGlobals(t, p, st3), 0);
    if !missingFlag {
      LevelActionsFrom(t, t.items[c].parser, st5, show, complete);
    } else {
      assert r.st.trace[|st5.trace|..] == [];
    }
    OwnActionFirst(st3.trace, mine, r.st.trace, p, own);
  }

  /** A trace that continues with p's own action, or nothing, and then only
      with actions of later parsers contains p's action exactly in the first
      case, and there first. */
  lemma OwnActionFirst(a: seq<Event>, mine: seq<Event>, b: seq<Event>, p: ParserId, own: bool)
    requires mine == if own then [LevelAction(p)] else []
    requires a + mine <= b
    requires forall e | e in b[|a + mine|..] :: e.LevelAction? ==> p + 1 <= e.parser
    ensures a <= b
    ensures LevelAction(p) in b[|a|..] <==> own
    ensures own ==> |a| < |b| && b[|a|] == LevelAction(p)
    ensures forall e | e in b[|a|..] :: e.LevelAction? ==> p <= e.parser
  {
    assert b[|a|..] == mine + b[|a + mine|..];
    if own {
      assert b[|a|..][0] == LevelAction(p);
    }
  }

  /** SHOW_COMPLETIONS=1 (bash completion) skips the program name. */
  function SkipCount(env: Option<string>): nat {
    if env == Some("1") then 1 else 0
  }

  /** Completion mode: SHOW_COMPLETIONS set to 1 or 2. */
  predicate CompletionMode(env: Option<string>) {
    env == Some("1") || env == Some("2")
  }

  /** `args.Select(w => new CmdlineArgument(w)).Skip(skipArgs)`. */
  function Tokens(env: Option<string>, argv: seq<string>): (r: seq<string>)
    ensures SkipCount(env) <= |argv| ==> r == argv[SkipCount(env)..]
    ensures SkipCount(env) > |argv| ==> r == []
  {
    if SkipCount(env) <= |argv| then argv[SkipCount(env)..] else []
  }

  /** The state a run starts from: fresh arguments and items, and every
      parser's Command as created. */
  function Initial(t: Tree, tokens: seq<string>): (st: State)
    requires t.Valid()
    ensures Consistent(t, st) && st.trace == []
    ensures st.args == FromTokens(tokens)
    ensures forall x | 0 <= x < |t.items| :: st.items[x] == Unmatched
  {
    var st := State(FromTokens(tokens),
                    seq(|t.items|, x requires 0 <= x < |t.items| => Unmatched),
                    seq(|t.parsers|, q requires 0 <= q < |t.parsers| => t.parsers[q].command),
                    []);
    assert forall q | 0 <= q < |t.parsers| :: t.ParserOk(q) && st.command[q] == t.parsers[q].command;
    assert forall j | 0 <= j < |st.args| :: !st.args[j].Matched();
    assert forall x | 0 <= x < |t.items| :: ItemStateOk(st.items[x], |st.args|, |t.parsers|);
    assert forall q | 0 <= q < |t.parsers| :: st.command[q].Some? ==> st.command[q].value < |t.items|;
    assert StateOk(st, |t.items|, |t.parsers|);
    st
  }

  /** `Run(args)` on parser p, with `env` the value of SHOW_COMPLETIONS. */
  function Run(t: Tree, p: ParserId, env: Option<string>, argv: seq<string>,
               complete: (ItemId, string) -> seq<string>): (r: Outcome)
    requires t.Valid() && p < |t.parsers|
    ensures Consistent(t, r.st)
    ensures |r.st.args| == |Tokens(env, argv)|
    ensures r.Diverged? ==> CompletionMode(env)
  {
    Level(t, p, Initial(t, Tokens(env, argv)), CompletionMode(env), complete)
  }
}
