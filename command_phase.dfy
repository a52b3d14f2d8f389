/// The command phase of `InternalRun` (CmdlineParser.cs): the first
/// unclaimed token, and only that one, is compared with the names of the
/// level's commands.
module CommandPhase {
  import opened Base
  import opened CmdlineArgument
  import opened CmdlineParseItem
  import opened CmdlineParser
  import opened MatchState

  /** `Commands.FirstOrDefault(w => w.ShortName == arg.Argument)`. */
  function CommandNamed(t: Tree, cmds: seq<ItemId>, tok: string): (r: Option<ItemId>)
    requires t.AllItems(cmds)
    ensures r.Some? ==> r.value in cmds && t.items[r.value].shortName == Some(tok)
    ensures r.Some? ==> exists k | 0 <= k < |cmds| :: (cmds[k] == r.value &&
              forall j | 0 <= j < k :: t.items[cmds[j]].shortName != Some(tok))
    ensures r.None? <==> forall x | x in cmds :: t.items[x].shortName != Some(tok)
  {
    if cmds == [] then None
    else if t.items[cmds[0]].shortName == Some(tok) then Some(cmds[0])
    else
      var r := CommandNamed(t, cmds[1..], tok);
      assert forall k | 1 <= k < |cmds| :: cmds[k] == cmds[1..][k - 1];
      if r.Some? then
        ghost var k :| 0 <= k < |cmds[1..]| && cmds[1..][k] == r.value &&
                       forall j | 0 <= j < k :: t.items[cmds[1..][j]].shortName != Some(tok);
        assert cmds[k + 1] == r.value;
        r
      else r
  }

  /** `Commands.Select(w => w.ShortName)`. */
  function CommandNames(t: Tree, cmds: seq<ItemId>): (r: seq<string>)
    requires t.AllItems(cmds)
    ensures |r| == |cmds|
    ensures forall k | 0 <= k < |cmds| :: r[k] == Text(t.items[cmds[k]].shortName)
  {
    seq(|cmds|, k requires 0 <= k < |cmds| => Text(t.items[cmds[k]].shortName))
  }

  /** The names offered for a partial command name: those that start with
      it and are not equal to it. */
  function CommandCandidates(names: seq<string>, tok: string): (r: seq<string>)
    ensures forall c :: c in r <==> c in names && StartsWith(c, tok) && c != tok
  {
    Filter(names, (c: string) => StartsWith(c, tok) && c != tok)
  }

  /** The candidates come in the order of `names`: the candidates of a
      concatenation are those of its parts, one after the other, and a single
      name is offered exactly when it qualifies. */
  lemma CommandCandidatesInOrder(names: seq<string>, more: seq<string>, tok: string)
    ensures CommandCandidates(names + more, tok) == CommandCandidates(names, tok) + CommandCandidates(more, tok)
    ensures forall c :: CommandCandidates([c], tok) == if StartsWith(c, tok) && c != tok then [c] else []
  {
    FilterAppend(names, more, (c: string) => StartsWith(c, tok) && c != tok);
  }

  /** The commands region: returns the new state, `missingCommand` and
      `cmdToRun`.  A level without commands skips the region. */
  function CommandRegion(t: Tree, p: ParserId, st: State, show: bool): (r: (State, bool, Option<ItemId>))
    requires Consistent(t, st) && p < |t.parsers|
    ensures Consistent(t, r.0) && Extends(st, r.0)
    ensures NoLevelActionSince(st, r.0)
    ensures r.2.Some? ==> r.2.value in t.Commands(p)
  {
    var cmds := t.Commands(p);
    if cmds == [] then (st, false, None)
    else
      match FirstUnclaimed(st.args)
      case Some(a) =>
        var tok := st.args[a].text;
        (match CommandNamed(t, cmds, tok)
         case None =>
           (if show then Emit(st, Completions(CommandCandidates(CommandNames(t, cmds), tok))) else st, true, None)
         case Some(c) =>
           (Match(st, c, t.items[c], p, a), false, Some(c)))
      case None =>
        (if show then Emit(st, Completions(CommandNames(t, cmds))) else st, true, None)
  }

  /** The commands region looks at the first unclaimed token only.  When it
      is the name of one of the level's commands, the first such command
      claims it, matches and becomes the level's Command, and `cmdToRun`
      names it; otherwise, or when no token is left, `missingCommand` is set
      and only the output may change.  A level without commands skips the
      region, and outside completion mode nothing is printed. */
  lemma CommandRegionSelects(t: Tree, p: ParserId, st: State, show: bool)
    requires Consistent(t, st) && p < |t.parsers|
    ensures var cmds := t.Commands(p);
            var r := CommandRegion(t, p, st, show);
            var f := FirstUnclaimed(st.args);
            && (cmds == [] ==> r == (st, false, None))
            && (cmds != [] ==> (r.1 <==> r.2.None?))
            && (r.2.Some? <==> cmds != [] && f.Some? && CommandNamed(t, cmds, st.args[f.value].text).Some?)
            && (r.2.Some? ==> f.Some? && r.2 == CommandNamed(t, cmds, st.args[f.value].text))
            && (r.2.None? ==> r.0 == st.(trace := r.0.trace))
            && (!show ==> r.0.trace == st.trace)
  {
    var cmds := t.Commands(p);
    if cmds != [] {
      match FirstUnclaimed(st.args)
      case Some(a) =>
      case None =>
    }
  }

  /** The selected command claims the first unclaimed token, matches with
      this level's parser and that token, and becomes the level's Command;
      no other token, item or Command property changes. */
  lemma CommandRegionClaims(t: Tree, p: ParserId, st: State, show: bool)
    requires Consistent(t, st) && p < |t.parsers|
    ensures var r := CommandRegion(t, p, st, show);
            var f := FirstUnclaimed(st.args);
            r.2.Some? ==>
              var c := r.2.value;
              && f.Some?
              && r.0.args == SetClaim(st.args, f.value, Some(c))
              && r.0.items[c].matches && r.0.items[c].matchParser == Some(p)
              && r.0.items[c].matchArgument == Some(f.value)
              && (forall y | 0 <= y < |st.items| && y != c :: r.0.items[y] == st.items[y])
              && r.0.command == st.command[p := Some(c)]
              && r.0.trace == st.trace
  {
    var cmds := t.Commands(p);
    if cmds != [] {
      match FirstUnclaimed(st.args)
      case Some(a) =>
      case None =>
    }
  }

  /** In completion mode a missing command prints the names of the level's
      commands that extend the first unclaimed token without being equal to
      it, or every name when no token is left, and nothing else. */
  lemma CommandRegionOffers(t: Tree, p: ParserId, st: State)
    requires Consistent(t, st) && p < |t.parsers|
    ensures var r := CommandRegion(t, p, st, true);
            var names := CommandNames(t, t.Commands(p));
            var f := FirstUnclaimed(st.args);
            r.1 ==> forall e: Event :: e in r.0.trace[|st.trace|..] <==>
                      && e.Completion? && e.candidate in names
                      && (f.None? || (StartsWith(e.candidate, st.args[f.value].text) &&
                                      e.candidate != st.args[f.value].text))
  {
    var cmds := t.Commands(p);
    var names := CommandNames(t, cmds);
    if cmds != [] {
      match FirstUnclaimed(st.args)
      case Some(a) =>
        var tok := st.args[a].text;
        if CommandNamed(t, cmds, tok).None? {
          var cs := CommandCandidates(names, tok);
          CompletionsPrint(cs);
          assert Emit(st, Completions(cs)).trace[|st.trace|..] == Completions(cs);
        }
      case None =>
        CompletionsPrint(names);
        assert Emit(st, Completions(names)).trace[|st.trace|..] == Completions(names);
    }
  }
}
