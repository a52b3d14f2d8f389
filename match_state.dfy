/// The state one run of the matcher changes, and the item operations of
/// CmdlineParseItem that change it (Match, Unmatch, SetValue, SetValues).
/// In the source this state is spread over objects: the MatchedItem slot of
/// every CmdlineArgument, the match fields of every CmdlineParseItem and the
/// Command property of every CmdlineParser.  Here it is one value, and the
/// console output and user callbacks of the run are one ordered trace.
module MatchState {
  import opened Base
  import opened CmdlineArgument
  import opened CmdlineParseItem
  import opened CmdlineParser

  /** One observable step of a run, in the order it happens. */
  datatype Event =
    | Completion(candidate: string)  // one line written by PrintCompletions
    | Diagnostic(message: string)    // an error line written before the usage
    | Usage(parser: ParserId)        // PrintUsage() of that parser
    | LevelAction(parser: ParserId)  // that parser's onCmdlineMatch, run by Run
    | GlobalAction(item: ItemId)     // that flag's GlobalFlagAction

  /** `args[i]` is the i-th argument, `items[x]` the match fields of item x,
      `command[p]` the Command property of parser p, `trace` what has
      happened so far. */
  datatype State = State(
    args: seq<Argument>,
    items: seq<ItemState>,
    command: seq<Option<ItemId>>,
    trace: seq<Event>)

  /** The match fields of one item are consistent: an item matches exactly
      when it records the parser and the argument it matched, and every
      recorded position is an argument. */
  predicate ItemStateOk(s: ItemState, nArgs: nat, nParsers: nat) {
    && (s.matches <==> s.matchArgument.Some?)
    && (s.matches <==> s.matchParser.Some?)
    && (s.matchArgument.Some? ==> s.matchArgument.value < nArgs)
    && (s.matchParser.Some? ==> s.matchParser.value < nParsers)
    && (forall k | 0 <= k < |s.argValues| :: s.argValues[k] < nArgs)
    && |s.values| == |s.argValues|
  }

  /** The state invariant of a run over a tree of `nItems` items and
      `nParsers` parsers: every claim names an item of the tree, every item
      state is consistent, every Command property names an item. */
  predicate StateOk(st: State, nItems: nat, nParsers: nat) {
    && |st.items| == nItems
    && |st.command| == nParsers
    && (forall j | 0 <= j < |st.args| :: st.args[j].matchedItem.Some? ==> st.args[j].matchedItem.value < nItems)
    && (forall x | 0 <= x < nItems :: ItemStateOk(st.items[x], |st.args|, nParsers))
    && (forall q | 0 <= q < nParsers :: st.command[q].Some? ==> st.command[q].value < nItems)
  }

  /** A state of a run over tree `t`. */
  predicate Consistent(t: Tree, st: State) {
    t.Valid() && StateOk(st, |t.items|, |t.parsers|)
  }

  /** `r` comes later than `st` in the same run: the same tokens with the
      same texts, and the trace only grows. */
  predicate Extends(st: State, r: State) {
    && |r.args| == |st.args|
    && (forall j | 0 <= j < |st.args| :: r.args[j].text == st.args[j].text)
    && st.trace <= r.trace
  }

  /** No level action was queued between `st` and `r`. */
  predicate NoLevelActionSince(st: State, r: State) {
    |st.trace| <= |r.trace| && forall e | e in r.trace[|st.trace|..] :: !e.LevelAction?
  }

  /** Both relations compose along a run. */
  lemma ExtendsTrans(a: State, b: State, c: State)
    requires Extends(a, b) && Extends(b, c)
    ensures Extends(a, c)
    ensures NoLevelActionSince(a, b) && NoLevelActionSince(b, c) ==> NoLevelActionSince(a, c)
  {
    if NoLevelActionSince(a, b) && NoLevelActionSince(b, c) {
      forall e | e in c.trace[|a.trace|..] ensures !e.LevelAction? {
        var k :| |a.trace| <= k < |c.trace| && c.trace[k] == e;
        if k < |b.trace| {
          assert b.trace[k] == e;
          assert e in b.trace[|a.trace|..] by { assert b.trace[|a.trace|..][k - |a.trace|] == e; }
        } else {
          assert e in c.trace[|b.trace|..] by { assert c.trace[|b.trace|..][k - |b.trace|] == e; }
        }
      }
    }
  }

  /** A step that leaves the trace as it is queues no level action. */
  lemma SameTraceNoLevelAction(st: State, r: State)
    requires r.trace == st.trace
    ensures NoLevelActionSince(st, r)
  {
    assert r.trace[|st.trace|..] == [];
  }

  /** Writing events keeps a state consistent and extends the run; events
      that are not level actions queue no level action. */
  lemma EmitKeeps(t: Tree, st: State, events: seq<Event>)
    requires Consistent(t, st)
    ensures Consistent(t, Emit(st, events)) && Extends(st, Emit(st, events))
    ensures (forall e | e in events :: !e.LevelAction?) ==> NoLevelActionSince(st, Emit(st, events))
  {
    assert Emit(st, events).trace[|st.trace|..] == events;
  }

  /** `item.Match(parser, arg)`: the item matches, records the parser and the
      argument, the argument's slot names the item, and a command becomes the
      `Command` of the matching parser. */
  function Match(st: State, x: ItemId, decl: Item, p: ParserId, a: nat): (r: State)
    requires StateOk(st, |st.items|, |st.command|)
    requires x < |st.items| && p < |st.command| && a < |st.args|
    ensures StateOk(r, |st.items|, |st.command|)
    ensures r.args == SetClaim(st.args, a, Some(x))
    ensures r.args[a].matchedItem == Some(x)
    ensures forall j | 0 <= j < |st.args| :: r.args[j].text == st.args[j].text
    ensures forall j | 0 <= j < |st.args| && j != a :: r.args[j] == st.args[j]
    ensures r.items[x].matches && r.items[x].matchParser == Some(p) && r.items[x].matchArgument == Some(a)
    ensures r.items[x].argValues == st.items[x].argValues && r.items[x].values == st.items[x].values
    ensures r.items[x].globalExecuted == st.items[x].globalExecuted
    ensures forall y | 0 <= y < |st.items| && y != x :: r.items[y] == st.items[y]
    ensures r.command == if decl.IsCommand() then st.command[p := Some(x)] else st.command
    ensures r.trace == st.trace
  {
    var s := st.items[x];
    State(SetClaim(st.args, a, Some(x)),
          st.items[x := s.(matches := true, matchParser := Some(p), matchArgument := Some(a))],
          if decl.IsCommand() then st.command[p := Some(x)] else st.command,
          st.trace)
  }

  /** `item.Unmatch()`: the item no longer matches and forgets its parser;
      only the argument it matched is released (whatever item that slot
      names by now); value tokens and values are left as they are. */
  function Unmatch(st: State, x: ItemId): (r: State)
    requires StateOk(st, |st.items|, |st.command|)
    requires x < |st.items|
    ensures StateOk(r, |st.items|, |st.command|)
    ensures |r.args| == |st.args|
    ensures forall j | 0 <= j < |st.args| :: r.args[j].text == st.args[j].text
    ensures forall j | 0 <= j < |st.args| ::
              r.args[j] == if Some(j) == st.items[x].matchArgument then st.args[j].WithMatchedItem(None)
                           else st.args[j]
    ensures !r.items[x].matches && r.items[x].matchParser.None? && r.items[x].matchArgument.None?
    ensures r.items[x].argValues == st.items[x].argValues && r.items[x].values == st.items[x].values
    ensures r.items[x].globalExecuted == st.items[x].globalExecuted
    ensures forall y | 0 <= y < |st.items| && y != x :: r.items[y] == st.items[y]
    ensures r.command == st.command && r.trace == st.trace
  {
    var s := st.items[x];
    var args := if s.matchArgument.Some? then SetClaim(st.args, s.matchArgument.value, None) else st.args;
    State(args,
          st.items[x := s.(matches := false, matchParser := None, matchArgument := None)],
          st.command, st.trace)
  }

  /** `item.SetValues(valArgs)`: ArgValues are the given arguments and Values
      their texts, position by position. */
  function SetValues(st: State, x: ItemId, valArgs: seq<nat>): (r: State)
    requires StateOk(st, |st.items|, |st.command|)
    requires x < |st.items|
    requires forall k | 0 <= k < |valArgs| :: valArgs[k] < |st.args|
    ensures StateOk(r, |st.items|, |st.command|)
    ensures r.items[x].argValues == valArgs
    ensures |r.items[x].values| == |valArgs|
    ensures forall k | 0 <= k < |valArgs| :: r.items[x].values[k] == st.args[valArgs[k]].text
    ensures r == st.(items := st.items[x := r.items[x]])
    ensures r.items[x] == st.items[x].(argValues := r.items[x].argValues, values := r.items[x].values)
  {
    State(st.args,
          st.items[x := st.items[x].(argValues := valArgs, values := TextsAt(st.args, valArgs))],
          st.command, st.trace)
  }

  /** `item.SetValue(valArg)`: the one value is the argument's text. */
  function SetValue(st: State, x: ItemId, a: nat): (r: State)
    requires StateOk(st, |st.items|, |st.command|)
    requires x < |st.items| && a < |st.args|
    ensures StateOk(r, |st.items|, |st.command|)
    ensures r.items[x].argValues == [a] && r.items[x].values == [st.args[a].text]
    ensures r == st.(items := st.items[x := r.items[x]])
    ensures r.items[x] == st.items[x].(argValues := [a], values := [st.args[a].text])
  {
    State(st.args,
          st.items[x := st.items[x].(argValues := [a], values := [st.args[a].text])],
          st.command, st.trace)
  }

  /** `item.SetValue(valArg, overrideVal)`: the argument is recorded but the
      value is the given text. */
  function SetValueTo(st: State, x: ItemId, a: nat, v: string): (r: State)
    requires StateOk(st, |st.items|, |st.command|)
    requires x < |st.items| && a < |st.args|
    ensures StateOk(r, |st.items|, |st.command|)
    ensures r.items[x].argValues == [a] && r.items[x].values == [v]
    ensures r == st.(items := st.items[x := r.items[x]])
    ensures r.items[x] == st.items[x].(argValues := [a], values := [v])
  {
    State(st.args,
          st.items[x := st.items[x].(argValues := [a], values := [v])],
          st.command, st.trace)
  }

  /** `GlobalFlagActionExecuted = true`. */
  function MarkExecuted(st: State, x: ItemId): (r: State)
    requires StateOk(st, |st.items|, |st.command|)
    requires x < |st.items|
    ensures StateOk(r, |st.items|, |st.command|)
    ensures r.items[x].globalExecuted
    ensures r == st.(items := st.items[x := st.items[x].(globalExecuted := true)])
  {
    st.(items := st.items[x := st.items[x].(globalExecuted := true)])
  }

  /** Appends to the trace; nothing else changes. */
  function Emit(st: State, events: seq<Event>): (r: State)
    ensures r == st.(trace := st.trace + events)
  {
    st.(trace := st.trace + events)
  }

  /** One Completion event per candidate, in order (PrintCompletions). */
  function Completions(cands: seq<string>): (r: seq<Event>)
    ensures |r| == |cands|
    ensures forall k | 0 <= k < |r| :: r[k] == Completion(cands[k])
  {
    seq(|cands|, k requires 0 <= k < |cands| => Completion(cands[k]))
  }

  /** The events printed for a list of candidates are exactly one Completion
      per candidate. */
  lemma CompletionsPrint(cands: seq<string>)
    ensures forall e: Event :: e in Completions(cands) <==> e.Completion? && e.candidate in cands
  {
    forall e: Event | e.Completion? && e.candidate in cands ensures e in Completions(cands) {
      var k :| 0 <= k < |cands| && cands[k] == e.candidate;
      assert Completions(cands)[k] == e;
    }
  }

  lemma AppendAssoc(a: seq<Event>, b: seq<Event>, c: seq<Event>)
    ensures (a + b) + c == a + (b + c)
  {
  }

  /** Printing two lists of candidates one after the other prints their
      concatenation. */
  lemma CompletionsAppend(a: seq<string>, b: seq<string>)
    ensures Completions(a + b) == Completions(a) + Completions(b)
  {
    assert forall k | 0 <= k < |a + b| :: (a + b)[k] == if k < |a| then a[k] else b[k - |a|];
  }

  /** Match then Unmatch gives the token back and clears the match fields,
      but the values stay: Unmatch undoes exactly the claim of the match
      argument. */
  lemma UnmatchUndoesMatch(st: State, x: ItemId, decl: Item, p: ParserId, a: nat)
    requires StateOk(st, |st.items|, |st.command|)
    requires x < |st.items| && p < |st.command| && a < |st.args|
    requires !decl.IsCommand()
    ensures var r := Unmatch(Match(st, x, decl, p, a), x);
            && r.args == SetClaim(st.args, a, None)
            && r.items == st.items[x := st.items[x].(matches := false, matchParser := None, matchArgument := None)]
            && r.command == st.command && r.trace == st.trace
  {
    var m := Match(st, x, decl, p, a);
    var r := Unmatch(m, x);
    assert r.args == SetClaim(st.args, a, None);
    assert r.items == st.items[x := st.items[x].(matches := false, matchParser := None, matchArgument := None)];
  }

  /** The bool conversion tracks Match and Unmatch: it holds after the item
      matched and fails after it was unmatched. */
  lemma AsBoolFollowsMatch(st: State, x: ItemId, decl: Item, p: ParserId, a: nat)
    requires StateOk(st, |st.items|, |st.command|)
    requires x < |st.items| && p < |st.command| && a < |st.args|
    ensures AsBool(Match(st, x, decl, p, a).items[x])
    ensures !AsBool(Unmatch(st, x).items[x])
    ensures forall y | 0 <= y < |st.items| && y != x ::
              AsBool(Match(st, x, decl, p, a).items[y]) == AsBool(st.items[y]) &&
              AsBool(Unmatch(st, x).items[y]) == AsBool(st.items[y])
  {
  }

  /** `Matched` follows the claim slot: Match leaves its token Matched,
      Unmatch leaves the item's match token not Matched, and every other
      token keeps its Matched state. */
  lemma MatchedFollowsClaim(st: State, x: ItemId, decl: Item, p: ParserId, a: nat)
    requires StateOk(st, |st.items|, |st.command|)
    requires x < |st.items| && p < |st.command| && a < |st.args|
    ensures Match(st, x, decl, p, a).args[a].Matched()
    ensures forall j | 0 <= j < |st.args| && j != a :: Match(st, x, decl, p, a).args[j].Matched() == st.args[j].Matched()
    ensures st.items[x].matchArgument.Some? ==> !Unmatch(st, x).args[st.items[x].matchArgument.value].Matched()
    ensures forall j | 0 <= j < |st.args| && Some(j) != st.items[x].matchArgument ::
              Unmatch(st, x).args[j].Matched() == st.args[j].Matched()
  {
  }

  /** The string conversion reads back what the setters stored. */
  lemma AsStringReadsSetters(st: State, x: ItemId, a: nat, v: string, valArgs: seq<nat>)
    requires StateOk(st, |st.items|, |st.command|)
    requires x < |st.items| && a < |st.args|
    requires forall k | 0 <= k < |valArgs| :: valArgs[k] < |st.args|
    ensures AsString(SetValue(st, x, a).items[x]) == Some(st.args[a].text)
    ensures AsString(SetValueTo(st, x, a, v).items[x]) == Some(v)
    ensures AsString(SetValues(st, x, valArgs).items[x]) ==
            if valArgs == [] then None else Some(st.args[valArgs[0]].text)
  {
  }
}
