/// The flag phase of `InternalRun` (CmdlineParser.cs): every unclaimed
/// token, left to right, is read against the flags visible at the level that
/// are not matched yet; the first flag that recognises the token claims it.
/// Then, outside completion mode, the first mandatory flag of the level that
/// is still unmatched is reported.
module FlagPhase {
  import opened Base
  import opened CmdlineArgument
  import opened CmdlineParseItem
  import opened CmdlineParser
  import opened MatchState

  /** How a flag claims a token: a plain flag, a value flag whose value is
      the next token, or a value flag written `-x=V` / `--name=V`. */
  datatype Hit = Plain | NextToken | Inline(value: string)

  /** What reading a token against one spelling (or one flag) finds: the
      completion candidates it prints, in order, and the hit if any. */
  datatype Reading = Reading(candidates: seq<string>, hit: Option<Hit>)

  /** A spelling as a completion candidate: with a trailing `=` when the flag
      takes a value. */
  function Shown(spelling: string, takesValue: bool): string {
    if takesValue then spelling + "=" else spelling
  }

  /** One spelling region of the flag loop, for a flag spelled `spelling`;
      `hasNext` says whether a token follows the one read. */
  function ReadSpelling(spelling: string, takesValue: bool, tok: string, hasNext: bool): (r: Reading)
    ensures r.hit == Some(Plain) <==> !takesValue && tok == spelling
    ensures r.hit == Some(NextToken) <==> takesValue && tok == spelling && hasNext
    ensures (r.hit.Some? && r.hit.value.Inline?) <==> takesValue && StartsWith(tok, spelling + "=")
    ensures r.hit.Some? && r.hit.value.Inline? ==> |spelling| + 1 <= |tok| && r.hit.value.value == tok[|spelling| + 1..]
    ensures r.candidates == if r.hit.None? && tok != spelling && StartsWith(spelling, tok)
                            then [Shown(spelling, takesValue)] else []
  {
    if takesValue then
      if tok == spelling then Reading([], if hasNext then Some(NextToken) else None)
      else if StartsWith(tok, spelling + "=") then Reading([], Some(Inline(tok[|spelling| + 1..])))
      else if StartsWith(spelling, tok) then Reading([spelling + "="], None)
      else Reading([], None)
    else if tok == spelling then Reading([], Some(Plain))
    else if StartsWith(spelling, tok) then Reading([spelling], None)
    else Reading([], None)
  }

  /** The spellings a flag answers to: the short one, then the long one. */
  function Spellings(decl: Item): (r: seq<string>)
    ensures decl.ShortFlag() in r <==> decl.HasShortName() || (decl.HasLongName() && decl.ShortFlag() == decl.LongFlag())
    ensures decl.LongFlag() in r <==> decl.HasLongName() || (decl.HasShortName() && decl.ShortFlag() == decl.LongFlag())
    ensures forall sp | sp in r :: sp == decl.ShortFlag() || sp == decl.LongFlag()
  {
    (if decl.HasShortName() then [decl.ShortFlag()] else [])
    + (if decl.HasLongName() then [decl.LongFlag()] else [])
  }

  /** The body of the flag loop for one flag: the short region, and unless it
      hit, the long region. */
  function ReadFlag(decl: Item, tok: string, hasNext: bool): (r: Reading)
    ensures r.hit == Some(NextToken) ==> hasNext
  {
    var s := if decl.HasShortName() then ReadSpelling(decl.ShortFlag(), decl.HasValueName(), tok, hasNext)
             else Reading([], None);
    if s.hit.Some? then s
    else
      var l := if decl.HasLongName() then ReadSpelling(decl.LongFlag(), decl.HasValueName(), tok, hasNext)
               else Reading([], None);
      Reading(s.candidates + l.candidates, l.hit)
  }

  /** Every candidate printed for a flag is one of its spellings that starts
      with the token and is longer than it, and a hit comes from one of its
      spellings. */
  lemma ReadFlagSound(decl: Item, tok: string, hasNext: bool)
    ensures var r := ReadFlag(decl, tok, hasNext);
            && (forall c | c in r.candidates ::
                  exists sp | sp in Spellings(decl) :: c == Shown(sp, decl.HasValueName()) && StartsWith(sp, tok) && sp != tok)
            && (r.hit.Some? ==> exists sp | sp in Spellings(decl) ::
                  ReadSpelling(sp, decl.HasValueName(), tok, hasNext).hit == r.hit)
  {
  }

  /** `valArg.MatchedItem = flag`: claims token j for item x. */
  function ClaimToken(st: State, j: nat, x: ItemId): (r: State)
    requires StateOk(st, |st.items|, |st.command|)
    requires j < |st.args| && x < |st.items|
    ensures StateOk(r, |st.items|, |st.command|)
    ensures r == st.(args := SetClaim(st.args, j, Some(x)))
  {
    st.(args := SetClaim(st.args, j, Some(x)))
  }

  /** What a hit stores on flag x that read token a (before `Match`). */
  function ApplyHit(st: State, x: ItemId, a: nat, h: Hit): (r: State)
    requires StateOk(st, |st.items|, |st.command|)
    requires x < |st.items| && a < |st.args|
    requires h == NextToken ==> a + 1 < |st.args|
    ensures StateOk(r, |st.items|, |st.command|)
    ensures Extends(st, r) && r.trace == st.trace && r.command == st.command
    ensures forall y | 0 <= y < |st.items| && y != x :: r.items[y] == st.items[y]
    ensures forall j | 0 <= j < |st.args| && !(h == NextToken && j == a + 1) :: r.args[j] == st.args[j]
    ensures h == NextToken ==> r.args[a + 1].matchedItem == Some(x)
    ensures r.items[x].globalExecuted == st.items[x].globalExecuted
  {
    match h
    case Plain => st
    case NextToken => SetValue(ClaimToken(st, a + 1, x), x, a + 1)
    case Inline(v) => SetValueTo(st, x, a, v)
  }

  /** The first flag of `avail` that recognises the token. */
  function FirstHit(t: Tree, avail: seq<ItemId>, tok: string, hasNext: bool): (r: Option<ItemId>)
    requires t.AllItems(avail)
    ensures r.Some? ==> r.value in avail && ReadFlag(t.items[r.value], tok, hasNext).hit.Some?
    ensures r.Some? ==> exists k | 0 <= k < |avail| :: (avail[k] == r.value &&
              forall j | 0 <= j < k :: ReadFlag(t.items[avail[j]], tok, hasNext).hit.None?)
    ensures r.None? ==> forall k | 0 <= k < |avail| :: ReadFlag(t.items[avail[k]], tok, hasNext).hit.None?
  {
    if avail == [] then None
    else if ReadFlag(t.items[avail[0]], tok, hasNext).hit.Some? then Some(avail[0])
    else
      var r := FirstHit(t, avail[1..], tok, hasNext);
      if r.Some? then
        ghost var k :| 0 <= k < |avail[1..]| && avail[1..][k] == r.value &&
                       forall j | 0 <= j < k :: ReadFlag(t.items[avail[1..][j]], tok, hasNext).hit.None?;
        assert avail[k + 1] == r.value;
        assert forall j | 0 <= j < k + 1 :: ReadFlag(t.items[avail[j]], tok, hasNext).hit.None? by {
          forall j | 0 <= j < k + 1 ensures ReadFlag(t.items[avail[j]], tok, hasNext).hit.None? {
            if j > 0 { assert avail[j] == avail[1..][j - 1]; }
          }
        }
        r
      else
        assert forall k | 1 <= k < |avail| :: avail[k] == avail[1..][k - 1];
        r
  }

  /** All completion candidates printed while reading the token against the
      flags `avail`, up to and including the first one that hits. */
  function CandidatesUpTo(t: Tree, avail: seq<ItemId>, tok: string, hasNext: bool): seq<string>
    requires t.AllItems(avail)
  {
    if avail == [] then []
    else
      var r := ReadFlag(t.items[avail[0]], tok, hasNext);
      if r.hit.Some? then r.candidates
      else r.candidates + CandidatesUpTo(t, avail[1..], tok, hasNext)
  }

  /** The inner flag loop for token a: reads the token against each flag of
      `avail` in order, printing candidates, and stops at the first hit,
      whose value (if any) it stores. */
  function ScanFlags(t: Tree, st: State, avail: seq<ItemId>, a: nat): (r: (State, Option<ItemId>))
    requires Consistent(t, st) && t.AllItems(avail) && a < |st.args|
    ensures Consistent(t, r.0) && Extends(st, r.0) && r.0.command == st.command
    ensures NoLevelActionSince(st, r.0)
    ensures r.1.Some? ==> r.1.value in avail && ReadFlag(t.items[r.1.value], st.args[a].text, a < |st.args| - 1).hit.Some?
    decreases |avail|
  {
    if avail == [] then (st, None)
    else
      var x := avail[0];
      var rd := ReadFlag(t.items[x], st.args[a].text, a < |st.args| - 1);
      var st' := Emit(st, Completions(rd.candidates));
      if rd.hit.Some? then (ApplyHit(st', x, a, rd.hit.value), Some(x))
      else ScanFlags(t, st', avail[1..], a)
  }

  /** The inner flag loop stops at the first flag that recognises the token. */
  lemma {:induction false} ScanFlagsFindsFirstHit(t: Tree, st: State, avail: seq<ItemId>, a: nat)
    requires Consistent(t, st) && t.AllItems(avail) && a < |st.args|
    ensures ScanFlags(t, st, avail, a).1 == FirstHit(t, avail, st.args[a].text, a < |st.args| - 1)
    decreases |avail|
  {
    if avail != [] {
      var rd := ReadFlag(t.items[avail[0]], st.args[a].text, a < |st.args| - 1);
      if rd.hit.None? {
        ScanFlagsFindsFirstHit(t, Emit(st, Completions(rd.candidates)), avail[1..], a);
      }
    }
  }

  /** The inner flag loop prints the candidates of every flag up to the one
      it stops at. */
  lemma {:induction false} ScanFlagsPrints(t: Tree, st: State, avail: seq<ItemId>, a: nat)
    requires Consistent(t, st) && t.AllItems(avail) && a < |st.args|
    ensures ScanFlags(t, st, avail, a).0.trace
            == st.trace + Completions(CandidatesUpTo(t, avail, st.args[a].text, a < |st.args| - 1))
    decreases |avail|
  {
    if avail != [] {
      var tok, hasNext := st.args[a].text, a < |st.args| - 1;
      var rd := ReadFlag(t.items[avail[0]], tok, hasNext);
      if rd.hit.None? {
        var st' := Emit(st, Completions(rd.candidates));
        var rest := CandidatesUpTo(t, avail[1..], tok, hasNext);
        ScanFlagsPrints(t, st', avail[1..], a);
        CompletionsAppend(rd.candidates, rest);
        AppendAssoc(st.trace, Completions(rd.candidates), Completions(rest));
      }
    }
  }

  /** Besides the trace, the inner flag loop changes only what the hit of the
      flag it stops at stores. */
  lemma {:induction false} ScanFlagsStoresHit(t: Tree, st: State, avail: seq<ItemId>, a: nat)
    requires Consistent(t, st) && t.AllItems(avail) && a < |st.args|
    ensures var r := ScanFlags(t, st, avail, a);
            && (r.1.None? ==> r.0 == st.(trace := r.0.trace))
            && (r.1.Some? ==> r.0 == ApplyHit(st.(trace := r.0.trace), r.1.value, a,
                                              ReadFlag(t.items[r.1.value], st.args[a].text, a < |st.args| - 1).hit.value))
    decreases |avail|
  {
    if avail != [] {
      var rd := ReadFlag(t.items[avail[0]], st.args[a].text, a < |st.args| - 1);
      var st' := Emit(st, Completions(rd.candidates));
      if rd.hit.None? {
        ScanFlagsStoresHit(t, st', avail[1..], a);
      }
    }
  }

  /** `AllFlags.Where(r => !r.Matches)`: the visible flags not matched yet,
      in AllFlags order. */
  function Avail(t: Tree, p: ParserId, st: State): (r: seq<ItemId>)
    requires Consistent(t, st) && p < |t.parsers|
    ensures t.AllItems(r)
    ensures forall x :: x in r <==> x in t.AllFlags(p) && !st.items[x].matches
  {
    Filter(t.AllFlags(p), (x: ItemId) => x < |st.items| && !st.items[x].matches)
  }

  /** `qFlag.Match(this, arg)` for the flag x that won token a, and for a
      global flag that is not nested, its action at once, marked as
      executed. */
  function TakeFlag(t: Tree, p: ParserId, st: State, x: ItemId, a: nat): (r: State)
    requires Consistent(t, st) && p < |t.parsers| && x < |t.items| && a < |st.args| && t.items[x].IsFlag()
    ensures Consistent(t, r) && Extends(st, r) && r.command == st.command && NoLevelActionSince(st, r)
    ensures r.args == SetClaim(st.args, a, Some(x))
    ensures r.items[x] == st.items[x].(matches := true, matchParser := Some(p), matchArgument := Some(a),
                                       globalExecuted := st.items[x].globalExecuted || (!t.items[x].nested && t.items[x].IsGlobal()))
    ensures forall y | 0 <= y < |st.items| && y != x :: r.items[y] == st.items[y]
    ensures r.trace == st.trace + if !t.items[x].nested && t.items[x].IsGlobal() then [GlobalAction(x)] else []
  {
    var st2 := Match(st, x, t.items[x], p, a);
    SameTraceNoLevelAction(st, st2);
    if !t.items[x].nested && t.items[x].IsGlobal() then
      var st3 := Emit(st2, [GlobalAction(x)]);
      EmitKeeps(t, st2, [GlobalAction(x)]);
      ExtendsTrans(st, st2, st3);
      var st4 := MarkExecuted(st3, x);
      SameTraceNoLevelAction(st3, st4);
      ExtendsTrans(st, st3, st4);
      st4
    else st2
  }

  /** One pass of the token loop at an unclaimed token a: the inner flag
      loop, then the winner, if any, takes the token. */
  function FlagToken(t: Tree, p: ParserId, st: State, a: nat): (r: State)
    requires Consistent(t, st) && p < |t.parsers| && a < |st.args|
    ensures Consistent(t, r) && Extends(st, r) && r.command == st.command
    ensures NoLevelActionSince(st, r)
  {
    var avail := Avail(t, p, st);
    var (st1, q) := ScanFlags(t, st, avail, a);
    if q.None? then st1
    else
      assert q.value in t.AllFlags(p);
      var st2 := TakeFlag(t, p, st1, q.value, a);
      ExtendsTrans(st, st1, st2);
      st2
  }

  /** The token loop from token i on: claimed tokens are skipped, and the
      loop stops as soon as every visible flag is matched. */
  function FlagScan(t: Tree, p: ParserId, st: State, i: nat): (r: State)
    requires Consistent(t, st) && p < |t.parsers|
    ensures Consistent(t, r) && Extends(st, r) && r.command == st.command
    ensures NoLevelActionSince(st, r)
    decreases |st.args| - i
  {
    if i >= |st.args| then st
    else if st.args[i].Matched() then FlagScan(t, p, st, i + 1)
    else if Avail(t, p, st) == [] then st
    else FlagScan(t, p, FlagToken(t, p, st, i), i + 1)
  }

  /** `Flags.FirstOrDefault(r => r.Mandatory && !r.Matches)`. */
  function FirstMissingMandatory(t: Tree, fl: seq<ItemId>, st: State): (r: Option<ItemId>)
    requires t.AllItems(fl) && |st.items| == |t.items|
    ensures r.Some? ==> r.value in fl && t.items[r.value].mandatory && !st.items[r.value].matches
    ensures r.None? <==> forall x | x in fl :: !(t.items[x].mandatory && !st.items[x].matches)
  {
    if fl == [] then None
    else if t.items[fl[0]].mandatory && !st.items[fl[0]].matches then Some(fl[0])
    else FirstMissingMandatory(t, fl[1..], st)
  }

  /** The message written for a missing mandatory flag: the flag's
      ShortLongFlag spelling can be read back between the brackets. */
  function MissingFlagMessage(decl: Item): (m: string)
    ensures var pre := "missing mandatory flag [";
            && |m| == |pre| + |decl.ShortLongFlag()| + 1
            && m[..|pre|] == pre && m[|pre|..|m| - 1] == decl.ShortLongFlag() && m[|m| - 1] == ']'
  {
    "missing mandatory flag [" + decl.ShortLongFlag() + "]"
  }

  /** The mandatory check after the token loop: outside completion mode, the
      first unmatched mandatory flag of this level (inherited ones are not
      checked) is reported with the usage; the flag tells the level to run no
      action and not to descend. */
  function MandatoryCheck(t: Tree, p: ParserId, st: State, show: bool): (r: (State, bool))
    requires Consistent(t, st) && p < |t.parsers|
    ensures r.1 <==> !show && exists x | x in t.Flags(p) :: t.items[x].mandatory && !st.items[x].matches
    ensures r.1 ==> r.0 == Emit(st, [Diagnostic(MissingFlagMessage(t.items[FirstMissingMandatory(t, t.Flags(p), st).value])),
                                     Usage(p)])
    ensures !r.1 ==> r.0 == st
  {
    if show then (st, false)
    else
      match FirstMissingMandatory(t, t.Flags(p), st)
      case None => (st, false)
      case Some(x) => (Emit(st, [Diagnostic(MissingFlagMessage(t.items[x])), Usage(p)]), true)
  }

  /** The whole flag region: skipped when no flag is visible at the level;
      returns the new state and `missingFlag`. */
  function FlagRegion(t: Tree, p: ParserId, st: State, show: bool): (r: (State, bool))
    requires Consistent(t, st) && p < |t.parsers|
    ensures Consistent(t, r.0) && Extends(st, r.0) && r.0.command == st.command
    ensures NoLevelActionSince(st, r.0)
    ensures r.1 ==> !show
  {
    if t.AllFlags(p) == [] then (st, false)
    else MandatoryCheck(t, p, FlagScan(t, p, st, 0), show)
  }

  /** What one pass of the token loop claims.  The first visible unmatched
      flag that recognises the token claims it and records the level and the
      token; matched by its exact spelling a value flag also claims the next
      token, and no other token changes.  Without a winner only the trace
      changes. */
  lemma FlagTokenClaims(t: Tree, p: ParserId, st: State, a: nat)
    requires Consistent(t, st) && p < |t.parsers| && a < |st.args|
    ensures var tok, hasNext := st.args[a].text, a < |st.args| - 1;
            var q := FirstHit(t, Avail(t, p, st), tok, hasNext);
            var r := FlagToken(t, p, st, a);
            && (q.None? ==> r == st.(trace := r.trace))
            && (q.Some? ==>
                  var x := q.value;
                  var h := ReadFlag(t.items[x], tok, hasNext).hit.value;
                  && x in t.AllFlags(p) && !st.items[x].matches
                  && r.args[a].matchedItem == Some(x)
                  && r.items[x].matches && r.items[x].matchParser == Some(p) && r.items[x].matchArgument == Some(a)
                  && (h == NextToken ==> r.args[a + 1].matchedItem == Some(x))
                  && (forall j | 0 <= j < |st.args| && j != a && !(h == NextToken && j == a + 1) :: r.args[j] == st.args[j]))
  {
    var avail := Avail(t, p, st);
    ScanFlagsFindsFirstHit(t, st, avail, a);
    ScanFlagsStoresHit(t, st, avail, a);
  }

  /** What one pass of the token loop stores as values: matched by its
      exact spelling, a value flag's one value is the next token's text;
      matched as `spelling=V` it is the text after `=`; a plain flag keeps
      its values. */
  lemma FlagTokenValues(t: Tree, p: ParserId, st: State, a: nat)
    requires Consistent(t, st) && p < |t.parsers| && a < |st.args|
    ensures var tok, hasNext := st.args[a].text, a < |st.args| - 1;
            var q := FirstHit(t, Avail(t, p, st), tok, hasNext);
            var r := FlagToken(t, p, st, a);
            q.Some? ==>
              var x := q.value;
              var h := ReadFlag(t.items[x], tok, hasNext).hit.value;
              && (h == NextToken ==> r.items[x].argValues == [a + 1] && r.items[x].values == [st.args[a + 1].text])
              && (h.Inline? ==> r.items[x].argValues == [a] && r.items[x].values == [h.value])
              && (h == Plain ==> r.items[x].argValues == st.items[x].argValues && r.items[x].values == st.items[x].values)
  {
    var avail := Avail(t, p, st);
    ScanFlagsFindsFirstHit(t, st, avail, a);
    ScanFlagsStoresHit(t, st, avail, a);
  }

  /** One pass of the token loop changes no item but the winner, and marks
      the winner as executed exactly when it is a global flag that is not
      nested. */
  lemma FlagTokenFrame(t: Tree, p: ParserId, st: State, a: nat)
    requires Consistent(t, st) && p < |t.parsers| && a < |st.args|
    ensures var q := FirstHit(t, Avail(t, p, st), st.args[a].text, a < |st.args| - 1);
            var r := FlagToken(t, p, st, a);
            && (q.None? ==> r.items == st.items)
            && (q.Some? ==>
                  var x := q.value;
                  && (forall y | 0 <= y < |st.items| && y != x :: r.items[y] == st.items[y])
                  && r.items[x].globalExecuted == (st.items[x].globalExecuted || (!t.items[x].nested && t.items[x].IsGlobal())))
  {
    FlagTokenOthers(t, p, st, a);
    FlagTokenExecuted(t, p, st, a);
  }

  /** One pass of the token loop changes no item but the winner. */
  lemma FlagTokenOthers(t: Tree, p: ParserId, st: State, a: nat)
    requires Consistent(t, st) && p < |t.parsers| && a < |st.args|
    ensures var q := FirstHit(t, Avail(t, p, st), st.args[a].text, a < |st.args| - 1);
            var r := FlagToken(t, p, st, a);
            && (q.None? ==> r.items == st.items)
            && (q.Some? ==> forall y | 0 <= y < |st.items| && y != q.value :: r.items[y] == st.items[y])
  {
    var avail := Avail(t, p, st);
    ScanFlagsFindsFirstHit(t, st, avail, a);
    ScanFlagsStoresHit(t, st, avail, a);
  }

  /** A winning global flag that is not nested is marked as executed. */
  lemma FlagTokenExecuted(t: Tree, p: ParserId, st: State, a: nat)
    requires Consistent(t, st) && p < |t.parsers| && a < |st.args|
    ensures var q := FirstHit(t, Avail(t, p, st), st.args[a].text, a < |st.args| - 1);
            q.Some? ==>
              var x := q.value;
              FlagToken(t, p, st, a).items[x].globalExecuted == (st.items[x].globalExecuted || (!t.items[x].nested && t.items[x].IsGlobal()))
  {
    var avail := Avail(t, p, st);
    ScanFlagsFindsFirstHit(t, st, avail, a);
    ScanFlagsStoresHit(t, st, avail, a);
  }

  /** What one pass of the token loop prints and runs: the candidates of
      every flag read up to the winner, then the action of a winning global
      flag that is not nested. */
  lemma FlagTokenPrints(t: Tree, p: ParserId, st: State, a: nat)
    requires Consistent(t, st) && p < |t.parsers| && a < |st.args|
    ensures var tok, hasNext := st.args[a].text, a < |st.args| - 1;
            var q := FirstHit(t, Avail(t, p, st), tok, hasNext);
            FlagToken(t, p, st, a).trace
            == st.trace + Completions(CandidatesUpTo(t, Avail(t, p, st), tok, hasNext))
               + (if q.Some? && !t.items[q.value].nested && t.items[q.value].IsGlobal() then [GlobalAction(q.value)] else [])
  {
    var avail := Avail(t, p, st);
    ScanFlagsFindsFirstHit(t, st, avail, a);
    ScanFlagsPrints(t, st, avail, a);
  }

  /** Once every visible flag is matched, the token loop changes nothing. */
  lemma {:induction false} FlagScanIdle(t: Tree, p: ParserId, st: State, i: nat)
    requires Consistent(t, st) && p < |t.parsers| && Avail(t, p, st) == []
    ensures FlagScan(t, p, st, i) == st
    decreases |st.args| - i
  {
    if i < |st.args| && st.args[i].Matched() {
      FlagScanIdle(t, p, st, i + 1);
    }
  }

  /** The token loop leaves alone every item that is not visible at the
      level as a flag, and every flag that was matched before it: only
      unmatched visible flags take tokens. */
  lemma {:induction false} FlagScanLeavesMatched(t: Tree, p: ParserId, st: State, i: nat)
    requires Consistent(t, st) && p < |t.parsers|
    ensures var r := FlagScan(t, p, st, i);
            forall y | 0 <= y < |t.items| && (y !in t.AllFlags(p) || st.items[y].matches) :: r.items[y] == st.items[y]
    decreases |st.args| - i
  {
    if i < |st.args| {
      if st.args[i].Matched() {
        FlagScanLeavesMatched(t, p, st, i + 1);
      } else if Avail(t, p, st) != [] {
        FlagTokenClaims(t, p, st, i);
        FlagTokenFrame(t, p, st, i);
        FlagScanLeavesMatched(t, p, FlagToken(t, p, st, i), i + 1);
      }
    }
  }

  /** One pass of the token loop only adds claims: a claimed token stays
      claimed. */
  lemma FlagTokenKeepsClaims(t: Tree, p: ParserId, st: State, a: nat)
    requires Consistent(t, st) && p < |t.parsers| && a < |st.args|
    ensures forall j | 0 <= j < |st.args| && st.args[j].Matched() :: FlagToken(t, p, st, a).args[j].Matched()
  {
    ScanFlagsStoresHit(t, st, Avail(t, p, st), a);
  }

  /** A flag that one pass of the token loop newly matches took that pass's
      token. */
  lemma FlagTokenTakesToken(t: Tree, p: ParserId, st: State, a: nat)
    requires Consistent(t, st) && p < |t.parsers| && a < |st.args|
    ensures var r := FlagToken(t, p, st, a);
            forall y | 0 <= y < |t.items| && !st.items[y].matches && r.items[y].matches :: r.items[y].matchArgument == Some(a)
  {
    ScanFlagsStoresHit(t, st, Avail(t, p, st), a);
  }

  /** The token loop only adds claims: a claimed token stays claimed. */
  lemma {:induction false} FlagScanKeepsClaims(t: Tree, p: ParserId, st: State, i: nat)
    requires Consistent(t, st) && p < |t.parsers|
    ensures forall j | 0 <= j < |st.args| && st.args[j].Matched() :: FlagScan(t, p, st, i).args[j].Matched()
    decreases |st.args| - i
  {
    if i < |st.args| {
      if st.args[i].Matched() {
        FlagScanKeepsClaims(t, p, st, i + 1);
      } else if Avail(t, p, st) != [] {
        FlagTokenKeepsClaims(t, p, st, i);
        FlagScanKeepsClaims(t, p, FlagToken(t, p, st, i), i + 1);
      }
    }
  }

  /** The token loop skips claimed tokens: every flag it newly matches took
      a token at or after position i that was unclaimed when the loop
      started. */
  lemma {:induction false} FlagScanSkipsClaimed(t: Tree, p: ParserId, st: State, i: nat)
    requires Consistent(t, st) && p < |t.parsers|
    ensures var r := FlagScan(t, p, st, i);
            forall y | 0 <= y < |t.items| && !st.items[y].matches && r.items[y].matches ::
              && r.items[y].matchArgument.Some? && i <= r.items[y].matchArgument.value < |st.args|
              && !st.args[r.items[y].matchArgument.value].Matched()
    decreases |st.args| - i
  {
    if i < |st.args| {
      if st.args[i].Matched() {
        FlagScanSkipsClaimed(t, p, st, i + 1);
      } else if Avail(t, p, st) != [] {
        var st' := FlagToken(t, p, st, i);
        FlagTokenKeepsClaims(t, p, st, i);
        FlagTokenTakesToken(t, p, st, i);
        FlagScanSkipsClaimed(t, p, st', i + 1);
        FlagScanLeavesMatched(t, p, st', i + 1);
      }
    }
  }

  /** Without a next token a value flag can only be matched in the
      `spelling=V` form: its exact spelling as the last token matches
      nothing. */
  lemma ValueFlagLastToken(decl: Item, tok: string)
    requires decl.HasValueName()
    ensures var r := ReadFlag(decl, tok, false);
            && (r.hit.Some? ==> r.hit.value.Inline?)
            && (tok in Spellings(decl) && (forall sp | sp in Spellings(decl) :: !StartsWith(tok, sp + "=")) ==> r.hit.None?)
  {
  }

  /** A flag that does not recognise the token offers every spelling of it
      that strictly extends the token, with a trailing `=` for a value flag,
      in completion mode or not. */
  lemma ReadFlagOffersPrefixes(decl: Item, tok: string, hasNext: bool)
    ensures var r := ReadFlag(decl, tok, hasNext);
            r.hit.None? ==>
              forall sp | sp in Spellings(decl) && StartsWith(sp, tok) && sp != tok :: Shown(sp, decl.HasValueName()) in r.candidates
  {
  }

  /** `missingFlag` is set exactly when, outside completion mode, a
      mandatory flag of the level itself is still unmatched after the token
      loop; a level with no visible flag skips the region. */
  lemma FlagRegionMissing(t: Tree, p: ParserId, st: State, show: bool)
    requires Consistent(t, st) && p < |t.parsers|
    ensures var r := FlagRegion(t, p, st, show);
            && (t.AllFlags(p) == [] ==> r == (st, false))
            && (r.1 <==> !show && t.AllFlags(p) != [] &&
                         exists x | x in t.Flags(p) :: t.items[x].mandatory && !FlagScan(t, p, st, 0).items[x].matches)
  {
  }
}
