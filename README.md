# netcore-cmdline matcher in Dafny

This project models the matching engine of netcore-cmdline, a declarative
command-line parser for .NET, and proves properties of it. A program declares
a tree of parsers whose items are commands, flags, positional parameters and
a trailing parameter array. `CmdlineParser.Run` then matches the process
arguments against that tree. At each level `InternalRun` runs, in order:

- the flag region: own and inherited flags, short or long, with a value in the
  next token or inline after `=`;
- the command region: only the first unclaimed token is tested;
- the parameters region: positional parameters, then a greedy parameter array;
- the conclusion: a diagnostic, the level's `onCmdlineMatch`, the release of
  nested global flags and the descent into the selected command's parser, or
  the pending global actions.

All levels share one mutable argument list. A token is claimed by writing its
`MatchedItem` slot.

The model fixes these representation choices:

- **Ids.** Parsers and items are numbered in creation order. A parser tree is
  the value `CmdlineParser.Tree`, checked by `Tree.Valid`: parents come before
  children, and every item is listed once, by its own parser.
- **Match state.** What a run changes is one `MatchState.State`: the argument
  list, the match fields of every item, the `Command` property of every parser,
  and an ordered trace.
- **The trace.** It records completion lines, diagnostics, usage requests,
  level actions and global actions. A level action is an `onCmdlineMatch` run
  by `Run`; a global action is a `GlobalFlagAction`.
- **Specification functions.** Every region is a pure function: modules
  `FlagPhase`, `CommandPhase`, `ParamPhase` and `Engine`. The lemmas about
  these functions state what the source promises.
- **The imperative form.** Class `MatchSession.Session` runs the same regions
  as the source does: loops over an `array<Argument>`, with match fields
  updated in place. Each method is proved to leave exactly the state its
  specification function computes.
- **Construction.** The `Add*` helpers are the methods of
  `CmdlineParser.ParserBuilder`. They are proved to keep the tree valid and to
  append exactly the declared item.
- **Non-termination.** In completion mode, the parameter-array loop spins
  forever on a token it neither binds nor offers candidates for. This is the
  explicit outcome `Engine.Diverged`, and `Session.Level` reports it. Outside
  completion mode the model proves that this never happens.
- **Two copies of `CmdlineArgument`.** The repository carries the class twice,
  under netcore-cmdline/ and under src/cmdline/. One datatype,
  `CmdlineArgument.Argument`, models both.

On these points the model follows the code:

- **Actions run lazily.** `InternalRun` is a lazy iterator that `Run` consumes
  action by action, so an outer level's `onCmdlineMatch` runs before the child
  level is even matched. It runs even when a deeper level then fails. No
  action is deferred until the whole chain validates.
- **Flag-prefix candidates are not gated.** They are printed whether or not
  completion mode is on.
- **A missing mandatory flag does not stop the level.** It is reported even
  when a global flag matched. Parameters are still matched, and the failure
  only suppresses the level's own action and the descent.
- **A value claim overwrites.** The token after a value flag is claimed
  without checking whether another item claimed it already, and the earlier
  claim is lost.
- **Global actions are not gated.** A level without a selected command runs
  the pending global actions in completion mode too.
- **Command completions.** In completion mode these are the names that extend
  the token and differ from it.

## Model

| member | source | states |
|---|---|---|
| CmdlineArgument.Argument.WithMatchedItem | netcore-cmdline/CmdlineArgument.cs:9 | the unguarded setter: the new claim replaces any earlier one, None releases the token, the text is unchanged, and Matched holds iff a claim is set |
| CmdlineArgument.NewArgument | src/cmdline/CmdlineArgument.cs:27-30 | the constructor keeps the given text and leaves the token unclaimed |
| CmdlineArgument.FromTokens | netcore-cmdline/CmdlineParser.cs:262 | one fresh, unclaimed argument per token, in order, with the same texts |
| CmdlineArgument.SetClaim | netcore-cmdline/CmdlineArgument.cs:9-11 | writing token i's claim slot changes only that slot |
| CmdlineArgument.FirstUnclaimed | netcore-cmdline/CmdlineParser.cs:412 | `FirstOrDefault(w => !w.Matched)`: the least unclaimed position, or None exactly when every token is claimed |
| CmdlineArgument.FirstUnclaimedFrom | netcore-cmdline/CmdlineParser.cs:452 | the same search from a given position |
| CmdlineArgument.UnclaimedExact | src/cmdline/CmdlineArgument.cs:22 | Unclaimed lists exactly the positions whose token is not Matched, each once and ascending |
| CmdlineArgument.UnclaimedFromExact | netcore-cmdline/CmdlineArgument.cs:11 | the same from a given position |
| CmdlineArgument.FirstUnclaimedIsHead | netcore-cmdline/CmdlineParser.cs:498 | the first unclaimed token is the head of the unclaimed positions |
| CmdlineArgument.ClaimFirstUnclaimed | netcore-cmdline/CmdlineParser.cs:534 | claiming the first unclaimed token removes exactly that position from the unclaimed ones |
| CmdlineArgument.ClaimFirst | netcore-cmdline/CmdlineParser.cs:485 | the same for the whole list, starting from FirstUnclaimed |
| CmdlineArgument.NoneUnclaimed | netcore-cmdline/CmdlineParser.cs:454 | when no token is unclaimed, the unclaimed positions are empty |
| CmdlineArgument.UnclaimedSame | netcore-cmdline/CmdlineArgument.cs:11 | the unclaimed positions depend only on which tokens are Matched |
| CmdlineArgument.TextsAt | netcore-cmdline/CmdlineParseItem.cs:244 | `valArgs.Select(w => w.Argument)`: the texts of the given tokens, position by position |
| CmdlineParseItem.Item.SortOrder | netcore-cmdline/CmdlineParseItem.cs:145-161 | 0 for a command, 1 for a mandatory flag, 2 for an optional flag, 3 for a parameter, 4 for an array, each in both directions |
| CmdlineParseItem.NamesMeanVisibleChar | netcore-cmdline/CmdlineParseItem.cs:90-125 | HasShortName, HasLongName and HasValueName each hold iff the name is not null and has a character that is not white space |
| CmdlineParseItem.DashedNames | netcore-cmdline/CmdlineParseItem.cs:100-115 | ShortFlag is `-` followed by the short name and LongFlag is `--` followed by the long name, a null name printing as empty |
| CmdlineParseItem.KindsPartition | netcore-cmdline/CmdlineParseItem.cs:55-75 | IsParameterOrArray holds iff the item is a parameter or an array, and a flag is neither a positional nor a command |
| CmdlineParseItem.ShortLongFlagExamples | netcore-cmdline/CmdlineParseItem.cs:120 | an illustration of ShortLongFlagShape: short `f` and long `file` give `--f,----file`, one name gives `--f` or `----file`, and a blank short name counts as absent |
| CmdlineParseItem.ShortLongFlagShape | netcore-cmdline/CmdlineParseItem.cs:120 | for every item: both names give `--short,----long`, a short name alone `--short`, a long name alone `----long`, and neither the empty string |
| CmdlineParseItem.AsString | netcore-cmdline/CmdlineParseItem.cs:272 | the string conversion is the first value, or null when there is none |
| CmdlineParser.Tree.Ancestors | netcore-cmdline/CmdlineParser.cs:39-57 | ParentParsers: the ancestors, each created before the parser, in strictly increasing order from the topmost parser |
| CmdlineParser.Tree.AncestorsChain | netcore-cmdline/CmdlineParser.cs:39-57 | the ancestors are the parent chain: empty for the topmost parser; otherwise they run from a parser without parent down to p's parent, each one the parent of the next; p itself is excluded |
| CmdlineParser.ParentParsers | netcore-cmdline/CmdlineParser.cs:39-57 | the while loop that collects the parents and reverses the list returns exactly Tree.Ancestors |
| CmdlineParser.Tree.RootParser | netcore-cmdline/CmdlineParser.cs:18-29 | the parser itself iff it has no parent, otherwise its first ancestor; in both cases a parser without parent |
| CmdlineParser.Tree.Commands | netcore-cmdline/CmdlineParser.cs:161 | exactly the commands in the parser's item list |
| CmdlineParser.Tree.Flags | netcore-cmdline/CmdlineParser.cs:166 | exactly the parser's own flags |
| CmdlineParser.Tree.Parameters | netcore-cmdline/CmdlineParser.cs:186 | exactly the parser's parameters, without repetition |
| CmdlineParser.Tree.ParameterArrays | netcore-cmdline/CmdlineParser.cs:191 | exactly the parser's parameter arrays |
| CmdlineParser.Tree.ParametersOrArray | netcore-cmdline/CmdlineParser.cs:196 | exactly the parser's parameters and arrays |
| CmdlineParser.Tree.AllFlags | netcore-cmdline/CmdlineParser.cs:176 | the visible flags: flags only, none repeated |
| CmdlineParser.Tree.GlobalFlags | netcore-cmdline/CmdlineParser.cs:181 | exactly the visible flags that carry a global action |
| CmdlineParser.Tree.FlagsOf | netcore-cmdline/CmdlineParser.cs:171 | `SelectMany(w => w.Flags)`: a flag is in the result iff one of the given parsers lists it |
| CmdlineParser.Tree.InheritedFlags | netcore-cmdline/CmdlineParser.cs:171 | a flag is inherited by p iff one of p's ancestors lists it |
| CmdlineParser.Tree.ItemsListed | netcore-cmdline/CmdlineParser.cs:613-698 | in a valid tree every item is listed by some parser, and a parser lists it iff it is the item's own parser, or for a command the parent of the sub-parser it opens |
| CmdlineParser.Tree.InheritedFlagsStep | netcore-cmdline/CmdlineParser.cs:171 | the flags inherited by p are the flags visible at its parent; none for the topmost parser |
| CmdlineParser.Tree.VisibleFlagsDistinct | netcore-cmdline/CmdlineParser.cs:171-176 | inherited and own flags are disjoint and duplicate-free; inherited ones belong to earlier parsers and own ones to p |
| CmdlineParser.Tree.AllFlagsIsConcat | netcore-cmdline/CmdlineParser.cs:176 | AllFlags is the inherited flags, topmost parser first, followed by the own flags; the Union removes nothing |
| CmdlineParser.Tree.AllFlagsMembers | netcore-cmdline/CmdlineParser.cs:171-176 | a flag is visible at p iff p or one of its ancestors lists it |
| CmdlineParser.CommandOpensChild | netcore-cmdline/CmdlineParser.cs:613-622 | a command listed by p opens a parser created after p |
| CmdlineParser.ParserBuilder.Create | netcore-cmdline/CmdlineParser.cs:228-236 | the topmost parser: no parent, no items, no action, no Command |
| CmdlineParser.ParserBuilder.AddItem | netcore-cmdline/CmdlineParser.cs:693-701 | appends a new item to the tree and to p's item list, keeping the tree valid |
| CmdlineParser.ParserBuilder.AddCommand | netcore-cmdline/CmdlineParser.cs:613-627 | appends the command to p's list and a new sub-parser whose parent is p and whose Command is the new item |
| CmdlineParser.ParserBuilder.AddFlag | netcore-cmdline/CmdlineParser.cs:636-644 | appends a flag with the given names, value name, mandatory and global settings |
| CmdlineParser.ParserBuilder.AddShort | netcore-cmdline/CmdlineParser.cs:651-652 | an optional short flag; a global action is nested by default; the result is the new item's id |
| CmdlineParser.ParserBuilder.AddLong | netcore-cmdline/CmdlineParser.cs:657-658 | an optional long flag; the result is the new item's id |
| CmdlineParser.ParserBuilder.AddShortLong | netcore-cmdline/CmdlineParser.cs:663-664 | an optional flag with both names; the result is the new item's id |
| CmdlineParser.ParserBuilder.AddMandatoryShort | netcore-cmdline/CmdlineParser.cs:673-674 | a mandatory short flag; it is never global |
| CmdlineParser.ParserBuilder.AddMandatoryLong | netcore-cmdline/CmdlineParser.cs:679-680 | a mandatory long flag; it is never global |
| CmdlineParser.ParserBuilder.AddMandatoryShortLong | netcore-cmdline/CmdlineParser.cs:685-686 | a mandatory flag with both names; it is never global |
| CmdlineParser.ParserBuilder.AddParameter | netcore-cmdline/CmdlineParser.cs:693-715 | appends a parameter, optional or mandatory; the result is the new item's id |
| CmdlineParser.ParserBuilder.AddParameterArray | netcore-cmdline/CmdlineParser.cs:721-743 | appends a parameter array, optional or mandatory; the result is the new item's id |
| CmdlineParser.ParserBuilder.OnCmdlineMatch | netcore-cmdline/CmdlineParser.cs:241-244 | p gets a level action; nothing else changes |
| CmdlineParser.ParserBuilder.OnCompletion | netcore-cmdline/CmdlineParseItem.cs:171-174 | item x gets a completion provider; nothing else changes |
| MatchState.Match | netcore-cmdline/CmdlineParseItem.cs:193-200 | the item matches and records the parser and the token; the token's slot names the item; a command becomes the parser's Command; values and every other item and token are unchanged |
| MatchState.Unmatch | netcore-cmdline/CmdlineParseItem.cs:182-188 | clears Matches, MatchParser and MatchArgument; only the match token's slot is released; values and value tokens stay as they are |
| MatchState.UnmatchUndoesMatch | netcore-cmdline/CmdlineParseItem.cs:182-200 | Match then Unmatch of a non-command gives the token back and clears the match fields, keeping everything else |
| MatchState.SetValues | netcore-cmdline/CmdlineParseItem.cs:241-245 | ArgValues are the given tokens; Values have the same length, with Values[k] the text of ArgValues[k] |
| MatchState.SetValue | netcore-cmdline/CmdlineParseItem.cs:250-254 | exactly one value token, and the one value is its text |
| MatchState.SetValueTo | netcore-cmdline/CmdlineParseItem.cs:259-263 | the token is recorded, but the one value is the given text |
| MatchState.AsBoolFollowsMatch | netcore-cmdline/CmdlineParseItem.cs:182-220 | the bool conversion holds after Match and fails after Unmatch; every other item keeps its conversion |
| MatchState.MatchedFollowsClaim | netcore-cmdline/CmdlineArgument.cs:9-11 | Match makes the token Matched and Unmatch makes the match token un-Matched again; no other token changes its Matched |
| MatchState.AsStringReadsSetters | netcore-cmdline/CmdlineParseItem.cs:241-272 | the string conversion reads back what each setter stored |
| MatchState.MarkExecuted | netcore-cmdline/CmdlineParser.cs:389 | marks the flag's global action as executed; nothing else changes |
| MatchState.Completions | netcore-cmdline/CmdlineParser.cs:270-273 | PrintCompletions: one completion line per candidate, in order |
| MatchState.CompletionsPrint | netcore-cmdline/CmdlineParser.cs:270-273 | the completion lines printed are exactly the candidates |
| MatchState.CompletionsAppend | netcore-cmdline/CmdlineParser.cs:270-273 | printing two candidate lists one after the other prints their concatenation |
| FlagPhase.ReadSpelling | netcore-cmdline/CmdlineParser.cs:299-336 | reading one spelling: plain hit iff a plain flag equals the token; next-token hit iff a value flag equals it and a token follows; inline hit iff the token starts with `spelling=`, with the text after `=` as value; otherwise the spelling, with `=` for a value flag, is a candidate iff it strictly extends the token |
| FlagPhase.Spellings | netcore-cmdline/CmdlineParser.cs:298-380 | the short spelling when there is a short name, then the long one when there is a long name |
| FlagPhase.ReadFlag | netcore-cmdline/CmdlineParser.cs:296-381 | a next-token hit needs a following token |
| FlagPhase.ReadFlagSound | netcore-cmdline/CmdlineParser.cs:296-381 | every candidate is a spelling of the flag that strictly extends the token, and every hit comes from one of its spellings |
| FlagPhase.ReadFlagOffersPrefixes | netcore-cmdline/CmdlineParser.cs:320-377 | a flag that does not hit offers every spelling that strictly extends the token, whether or not completion mode is on |
| FlagPhase.ValueFlagLastToken | netcore-cmdline/CmdlineParser.cs:303-313 | with no token after it, a value flag hits only in the `spelling=V` form, and its bare spelling matches nothing |
| FlagPhase.ClaimToken | netcore-cmdline/CmdlineParser.cs:307-308 | claims the token for the flag; nothing else changes |
| FlagPhase.ApplyHit | netcore-cmdline/CmdlineParser.cs:305-318 | a hit changes only the winning flag and, for a next-token hit, the next token |
| FlagPhase.FirstHit | netcore-cmdline/CmdlineParser.cs:294-381 | the first available flag that hits: every flag before it misses, and None iff all miss |
| FlagPhase.ScanFlags | netcore-cmdline/CmdlineParser.cs:296-381 | the inner flag loop: a winner is an available flag that hits |
| FlagPhase.ScanFlagsFindsFirstHit | netcore-cmdline/CmdlineParser.cs:311 | the inner loop stops at the first flag that hits (break) |
| FlagPhase.ScanFlagsPrints | netcore-cmdline/CmdlineParser.cs:320-377 | the inner loop prints the candidates of every flag up to the winner, in order |
| FlagPhase.ScanFlagsStoresHit | netcore-cmdline/CmdlineParser.cs:305-318 | besides printing, the inner loop changes only what the winner's hit stores |
| FlagPhase.Avail | netcore-cmdline/CmdlineParser.cs:291 | exactly the visible flags that are not matched yet |
| FlagPhase.TakeFlag | netcore-cmdline/CmdlineParser.cs:383-391 | the winner matches the token; a global flag that is not nested runs its action at once and is marked executed; no other item changes |
| FlagPhase.FlagToken | netcore-cmdline/CmdlineParser.cs:289-391 | one pass of the token loop keeps the state consistent and queues no level action |
| FlagPhase.FlagTokenClaims | netcore-cmdline/CmdlineParser.cs:294-391 | the first available flag that hits claims the token and records the level and the token; an exact value-flag spelling also claims the next token; no other token changes; without a winner only the output changes |
| FlagPhase.FlagTokenValues | netcore-cmdline/CmdlineParser.cs:301-319 | an exact value-flag match stores the next token as the one value; `spelling=V` stores V from the same token; a plain flag keeps its values |
| FlagPhase.FlagTokenFrame | netcore-cmdline/CmdlineParser.cs:383-391 | only the winner changes, and it is marked executed iff it is global and not nested |
| FlagPhase.FlagTokenPrints | netcore-cmdline/CmdlineParser.cs:320-391 | the output is the candidates up to the winner, then the winner's action when it is global and not nested |
| FlagPhase.FlagScan | netcore-cmdline/CmdlineParser.cs:285-393 | the token loop keeps the state consistent and queues no level action |
| FlagPhase.FlagScanIdle | netcore-cmdline/CmdlineParser.cs:291-292 | once every visible flag is matched, the token loop changes nothing |
| FlagPhase.FlagTokenOthers | netcore-cmdline/CmdlineParser.cs:294-391 | one pass of the token loop changes no item but the winner, and none without a winner |
| FlagPhase.FlagTokenExecuted | netcore-cmdline/CmdlineParser.cs:383-391 | the winner is marked executed iff it already was or it is global and not nested |
| FlagPhase.FlagTokenKeepsClaims | netcore-cmdline/CmdlineParser.cs:303-318 | one pass of the token loop never releases a claimed token |
| FlagPhase.FlagTokenTakesToken | netcore-cmdline/CmdlineParser.cs:383-388 | a flag newly matched by one pass records that pass's token as its match token |
| FlagPhase.FlagScanKeepsClaims | netcore-cmdline/CmdlineParser.cs:287-392 | the token loop never releases a claimed token |
| FlagPhase.FlagScanSkipsClaimed | netcore-cmdline/CmdlineParser.cs:287-392 | every flag the token loop newly matches took a token from the loop's start position on that was unclaimed when the loop started (claimed tokens are skipped) |
| FlagPhase.FlagScanLeavesMatched | netcore-cmdline/CmdlineParser.cs:287-392 | items that are not visible flags, and flags matched before the loop, are left unchanged |
| FlagPhase.FirstMissingMandatory | netcore-cmdline/CmdlineParser.cs:396 | the first own flag that is mandatory and unmatched; None iff there is none |
| FlagPhase.MissingFlagMessage | netcore-cmdline/CmdlineParser.cs:400 | the error line is `missing mandatory flag [` followed by the flag's ShortLongFlag and `]` |
| FlagPhase.MandatoryCheck | netcore-cmdline/CmdlineParser.cs:394-405 | outside completion mode, missingFlag holds iff an own mandatory flag is unmatched; it then prints the message for the first one plus the usage, and otherwise changes nothing |
| FlagPhase.FlagRegion | netcore-cmdline/CmdlineParser.cs:285-406 | the flag region keeps the state consistent, never sets a Command and queues no level action; missingFlag is never set in completion mode |
| FlagPhase.FlagRegionMissing | netcore-cmdline/CmdlineParser.cs:285-406 | the region is skipped without visible flags; missingFlag holds iff, outside completion mode, an own mandatory flag is unmatched after the token loop |
| CommandPhase.CommandNamed | netcore-cmdline/CmdlineParser.cs:416 | the first command whose short name equals the token; None iff there is none |
| CommandPhase.CommandNames | netcore-cmdline/CmdlineParser.cs:439 | the short names of the commands, in order |
| CommandPhase.CommandCandidates | netcore-cmdline/CmdlineParser.cs:424 | exactly the names that start with the token and differ from it |
| CommandPhase.CommandRegion | netcore-cmdline/CmdlineParser.cs:410-442 | the region keeps the state consistent and queues no level action; it selects only a command of the level |
| CommandPhase.CommandRegionSelects | netcore-cmdline/CmdlineParser.cs:410-442 | the region is skipped without commands; a command is selected iff the first unclaimed token names one, and then it is the first such command; missingCommand holds iff none is selected; without a selection only the output changes, and nothing is printed outside completion mode |
| CommandPhase.CommandRegionClaims | netcore-cmdline/CmdlineParser.cs:429-430 | the selected command claims the first unclaimed token, matches it with this level, and becomes the level's Command; nothing else changes |
| CommandPhase.CommandCandidatesInOrder | netcore-cmdline/CmdlineParser.cs:424 | the candidates keep the order of the names: those of a concatenation are those of each part in turn, and a single name is offered iff it qualifies |
| CommandPhase.CommandRegionOffers | netcore-cmdline/CmdlineParser.cs:420-440 | in completion mode a missing command prints exactly the names that extend the first unclaimed token and differ from it, or every name when no token is left |
| ParamPhase.Offered | netcore-cmdline/CmdlineParser.cs:475 | the provider's candidates without the token itself |
| ParamPhase.Bind | netcore-cmdline/CmdlineParser.cs:485-486 | the parameter matches the token, and the token's text is its one value; only that token and that item change |
| ParamPhase.ParamStep | netcore-cmdline/CmdlineParser.cs:450-488 | one pass of the parameter loop keeps the state consistent |
| ParamPhase.ParamStepKeeps | netcore-cmdline/CmdlineParser.cs:452-488 | a pass queues no level action; it stops only outside completion mode, and reports missing only its own parameter, when that one is mandatory |
| ParamPhase.ParamStepFrame | netcore-cmdline/CmdlineParser.cs:452-488 | a pass changes no other item and no claimed token |
| ParamPhase.ParamStepOutside | netcore-cmdline/CmdlineParser.cs:452-487 | outside completion mode a pass binds the first unclaimed token; without one it stops, reporting the parameter iff it is mandatory |
| ParamPhase.ParamLoop | netcore-cmdline/CmdlineParser.cs:450-489 | the parameter loop keeps the state consistent |
| ParamPhase.ParamLoopOutsideStep | netcore-cmdline/CmdlineParser.cs:452-488 | outside completion mode, with a token left, the loop binds the next parameter to the head of the unclaimed tokens, and the rest stay unclaimed |
| ParamPhase.ParamLoopOutsideEnd | netcore-cmdline/CmdlineParser.cs:454-465 | outside completion mode, with no token left, the loop stops and reports the next parameter iff it is mandatory |
| ParamPhase.ParamLoopKeeps | netcore-cmdline/CmdlineParser.cs:450-489 | the loop queues no level action and reports missing only a mandatory parameter of the list, outside completion mode |
| ParamPhase.ParamLoopFrame | netcore-cmdline/CmdlineParser.cs:450-489 | the loop changes no item outside the remaining parameters and no claimed token |
| ParamPhase.ParamLoopBinds | netcore-cmdline/CmdlineParser.cs:450-489 | outside completion mode the j-th remaining parameter is bound to the j-th unclaimed token (matched, claimed, and with the token's text as its value) |
| ParamPhase.ParamLoopSilent | netcore-cmdline/CmdlineParser.cs:450-489 | outside completion mode the parameter loop prints nothing |
| ParamPhase.DropIsSuffix | netcore-cmdline/CmdlineParser.cs:450-452 | the positions left after n parameters took theirs: the suffix from n, or none |
| ParamPhase.ParamLoopLeaves | netcore-cmdline/CmdlineParser.cs:450-489 | outside completion mode the unclaimed tokens left are those that were unclaimed, less the first one per remaining parameter |
| ParamPhase.ParamLoopMissing | netcore-cmdline/CmdlineParser.cs:454-465 | outside completion mode the loop reports missing the first parameter left without a token when it is mandatory, and nothing otherwise |
| ParamPhase.ArrayLast | netcore-cmdline/CmdlineParser.cs:498-530 | the pass that ends the array loop keeps the bound tokens |
| ParamPhase.ArrayLastKeeps | netcore-cmdline/CmdlineParser.cs:498-530 | the last pass changes only the output; missing needs a mandatory array outside completion mode; it spins only on a token whose provider is not asked |
| ParamPhase.ArrayLoop | netcore-cmdline/CmdlineParser.cs:495-538 | the `while (true)` loop only adds to the bound tokens |
| ParamPhase.ArrayLoopKeeps | netcore-cmdline/CmdlineParser.cs:495-538 | the array loop queues no level action; missing needs a mandatory array outside completion mode; it can spin only in completion mode |
| ParamPhase.ArrayLoopFrame | netcore-cmdline/CmdlineParser.cs:495-538 | the array loop changes no other item and no claimed token |
| ParamPhase.ArrayLoopTakesRest | netcore-cmdline/CmdlineParser.cs:496-539 | outside completion mode the array loop ends having bound every unclaimed token in order; it prints nothing, and reports missing iff the array is mandatory and nothing was bound |
| ParamPhase.ArrayLoopClaimsRest | netcore-cmdline/CmdlineParser.cs:532-536 | outside completion mode the array loop leaves no token unclaimed, and every formerly unclaimed token names the array |
| ParamPhase.ArrayLoopSpinsIff | netcore-cmdline/CmdlineParser.cs:496-538 | the array loop spins iff it is in completion mode, the array's provider is not asked, and a token is unclaimed |
| ParamPhase.ArrayRegion | netcore-cmdline/CmdlineParser.cs:491-540 | only the first array is used; the bound tokens become its values; a changed verdict names a mandatory array, outside completion mode |
| ParamPhase.ArrayRegionFinishes | netcore-cmdline/CmdlineParser.cs:491-540 | outside completion mode the array part ends and prints nothing; missing names the array iff it is mandatory and no token was left, and otherwise keeps the earlier verdict |
| ParamPhase.ArrayRegionTakes | netcore-cmdline/CmdlineParser.cs:491-540 | outside completion mode the array's value tokens are the unclaimed tokens in order, its values are their texts, and they name it |
| ParamPhase.ArrayRegionKeepsBound | netcore-cmdline/CmdlineParser.cs:491-540 | the array part keeps every parameter binding |
| ParamPhase.ParamRegion | netcore-cmdline/CmdlineParser.cs:447-542 | the region queues no level action and never changes a Command; missingParameter names a mandatory positional outside completion mode; it can spin only in completion mode |
| ParamPhase.ParamRegionFinishes | netcore-cmdline/CmdlineParser.cs:447-542 | outside completion mode the parameters region always ends and prints nothing |
| ParamPhase.ParamRegionBinds | netcore-cmdline/CmdlineParser.cs:450-489 | outside completion mode the j-th parameter is bound to the j-th token unclaimed at the start of the region, as far as both go |
| ParamPhase.ParamRegionArray | netcore-cmdline/CmdlineParser.cs:491-540 | outside completion mode the first array takes, in order, the tokens left after the parameters took theirs, and its values are their texts |
| ParamPhase.ParamRegionMissing | netcore-cmdline/CmdlineParser.cs:454-465 | outside completion mode missingParameter is the first array when it is mandatory and the parameters used up every token; otherwise it is the first parameter left without a token, when that one is mandatory; otherwise none |
| Engine.MissingParameterMessage | netcore-cmdline/CmdlineParser.cs:558 | the error line is `missing required parameter [` followed by the parameter's short name and `]` |
| Engine.PendingGlobals | netcore-cmdline/CmdlineParser.cs:544 | qglobal: exactly the visible matched flags that have a nested global action |
| Engine.ReleaseGlobals | netcore-cmdline/CmdlineParser.cs:568-578 | the loop before the descent changes no output and no Command |
| Engine.ReleaseGlobalsUnmatches | netcore-cmdline/CmdlineParser.cs:569-577 | each released flag is unmatched, every other item is unchanged, and values stay |
| Engine.ReleaseGlobalsFrees | netcore-cmdline/CmdlineParseItem.cs:182-188 | exactly the tokens the released flags matched become unclaimed, so the next level is offered them again |
| Engine.GlobalActions | netcore-cmdline/CmdlineParser.cs:591 | the actions run when no command was selected are global actions |
| Engine.GlobalActionsExact | netcore-cmdline/CmdlineParser.cs:591 | exactly the pending global flags whose action has not run yet get it run |
| Engine.Level | netcore-cmdline/CmdlineParser.cs:275-594 | one level keeps the state consistent and only extends the trace; it can spin only in completion mode, and in completion mode it queues no level action |
| Engine.Conclude | netcore-cmdline/CmdlineParser.cs:544-593 | the end of a level: the same invariants as Level |
| Engine.ConcludeReports | netcore-cmdline/CmdlineParser.cs:546-562 | outside completion mode, a missing command with no pending global, or a missing parameter, prints its diagnostic and the usage and does nothing else |
| Engine.ConcludeDescends | netcore-cmdline/CmdlineParser.cs:564-588 | a surviving level with a selected command queues its own action if due, releases the nested globals, and, unless a mandatory flag is missing, matches the child parser over the same tokens |
| Engine.ConcludeRunsGlobals | netcore-cmdline/CmdlineParser.cs:589-593 | with no command and pending globals, exactly the pending global actions not yet executed run, and nothing else changes |
| Engine.ConcludeStops | netcore-cmdline/CmdlineParser.cs:564 | with no command and no pending global, the level ends after queuing its own action, if due |
| Engine.ConcludeEndsActions | netcore-cmdline/CmdlineParser.cs:546-593 | a level that does not descend queues at most its own action, and that only when it does not fail |
| Engine.ConcludeEndsQuietly | netcore-cmdline/CmdlineParser.cs:564-593 | the same, for a surviving level without a selected command |
| Engine.ConcludeOwnAction | netcore-cmdline/CmdlineParser.cs:564-586 | the level's onCmdlineMatch is queued iff the level survives, has one, has no pending global and no missing mandatory flag; it is then queued before anything the child levels do; and every level action it queues belongs to this parser or a later one |
| Engine.ConcludeOwnActionDescends | netcore-cmdline/CmdlineParser.cs:580-586 | the same when a command was selected: the child levels queue no action of this parser |
| Engine.LevelActionsFrom | netcore-cmdline/CmdlineParser.cs:564-586 | a level queues only level actions of its own parser or of parsers created after it, so each level's action comes before those of the levels it descends into |
| Engine.Tokens | netcore-cmdline/CmdlineParser.cs:253-262 | the arguments without the first one when SHOW_COMPLETIONS is 1 |
| Engine.Initial | netcore-cmdline/CmdlineParser.cs:262 | fresh unclaimed arguments, unmatched items, an empty trace |
| Engine.Run | netcore-cmdline/CmdlineParser.cs:251-268 | a run keeps one argument per token and can spin only in completion mode |
| MatchSession.RunParser | netcore-cmdline/CmdlineParser.cs:251-268 | the imperative run reads SHOW_COMPLETIONS, skips the program name, and returns exactly Engine.Run |
| MatchSession.Session.constructor | netcore-cmdline/CmdlineParser.cs:262 | the argument array holds the fresh arguments: the session is Engine.Initial |
| MatchSession.Session.Print | netcore-cmdline/CmdlineParser.cs:270-273 | printing appends exactly the given events to the trace |
| MatchSession.Session.Match | netcore-cmdline/CmdlineParseItem.cs:193-200 | in place, exactly MatchState.Match |
| MatchSession.Session.Unmatch | netcore-cmdline/CmdlineParseItem.cs:182-188 | in place, exactly MatchState.Unmatch |
| MatchSession.Session.SetValues | netcore-cmdline/CmdlineParseItem.cs:241-245 | the loop that copies the values leaves exactly MatchState.SetValues |
| MatchSession.Session.SetValue | netcore-cmdline/CmdlineParseItem.cs:250-254 | in place, exactly MatchState.SetValue |
| MatchSession.Session.SetValueTo | netcore-cmdline/CmdlineParseItem.cs:259-263 | in place, exactly MatchState.SetValueTo |
| MatchSession.Session.MarkExecuted | netcore-cmdline/CmdlineParser.cs:389 | in place, exactly MatchState.MarkExecuted |
| MatchSession.Session.StoreHit | netcore-cmdline/CmdlineParser.cs:305-318 | stores a hit in place, exactly FlagPhase.ApplyHit |
| MatchSession.Session.FlagLoop | netcore-cmdline/CmdlineParser.cs:296-381 | the inner flag loop leaves exactly FlagPhase.ScanFlags and returns its winner |
| MatchSession.Session.FlagToken | netcore-cmdline/CmdlineParser.cs:289-391 | one pass of the token loop leaves exactly FlagPhase.FlagToken |
| MatchSession.Session.FlagStep | netcore-cmdline/CmdlineParser.cs:289-292 | one token of the loop: a stop leaves the state as it was, otherwise the loop goes on at the next token as FlagPhase.FlagScan does |
| MatchSession.Session.FlagScan | netcore-cmdline/CmdlineParser.cs:287-392 | the token loop leaves exactly FlagPhase.FlagScan |
| MatchSession.Session.FlagRegion | netcore-cmdline/CmdlineParser.cs:285-406 | the flag region leaves exactly FlagPhase.FlagRegion and returns missingFlag |
| MatchSession.Session.CommandRegion | netcore-cmdline/CmdlineParser.cs:410-442 | the command region leaves exactly CommandPhase.CommandRegion and returns missingCommand and cmdToRun |
| MatchSession.Session.ParamStep | netcore-cmdline/CmdlineParser.cs:452-488 | one pass of the parameter loop leaves exactly ParamPhase.ParamStep |
| MatchSession.Session.ParamLoop | netcore-cmdline/CmdlineParser.cs:450-489 | the parameter loop leaves exactly ParamPhase.ParamLoop |
| MatchSession.Session.ArrayStep | netcore-cmdline/CmdlineParser.cs:498-537 | one pass of the array loop: it ends where ParamPhase.ArrayLoop ends, or binds a token, leaves fewer unclaimed tokens and goes on as ArrayLoop does |
| MatchSession.Session.ArrayLoop | netcore-cmdline/CmdlineParser.cs:495-538 | the array loop leaves exactly ParamPhase.ArrayLoop, returning `stuck` where that loop spins |
| MatchSession.Session.ParamRegion | netcore-cmdline/CmdlineParser.cs:447-542 | the parameters region leaves exactly ParamPhase.ParamRegion |
| MatchSession.Session.Level | netcore-cmdline/CmdlineParser.cs:275-594 | one level, in place, leaves exactly Engine.Level and reports divergence |
| MatchSession.Session.Conclude | netcore-cmdline/CmdlineParser.cs:544-593 | the conclusion, in place, leaves exactly Engine.Conclude |
| MatchSession.Session.ReleaseGlobals | netcore-cmdline/CmdlineParser.cs:568-578 | the release loop leaves exactly Engine.ReleaseGlobals |
| MatchSession.Session.RunGlobalActions | netcore-cmdline/CmdlineParser.cs:591 | the loop runs exactly Engine.GlobalActions |

## Left out

- Usage rendering (`PrintUsage`, CmdlineUsage) is the event `Usage(p)`. Colours, `AppVersion`, `FriendlyName`, `Description` and `ToString` are not modelled: they are console styling, reflection or debug text.
- The bodies of the user callbacks are opaque. `onCmdlineMatch` is the event `LevelAction(p)` and a global flag action is `GlobalAction(x)`. A completion provider is the uninterpreted function `complete(item, partial)`.
- The builder delegates of `Create` and `AddCommand` run arbitrary user code. The tree is built directly with `ParserBuilder`, and descriptions are not kept.
- `SHOW_COMPLETIONS` is an input, `env: Option<string>`, since it is an environment read.
- `string.StartsWith` is ordinal here. .NET compares with the current culture, which the model does not capture.
- Names that are null are `None`. `Text` prints them as empty, as C# interpolation does. A command's name is taken to be non-null.
- The non-termination of the parameter-array loop in completion mode is the outcome `Diverged`. It records the state where the loop starts spinning, not an infinite computation.
- The branch for a flag that is not nested, in the loop before the descent (CmdlineParser.cs:571-573), cannot run, because `qglobal` holds only nested flags. `Engine.ReleaseGlobals` and `Session.ReleaseGlobals` prove it dead.
- `GlobalFlagActionNested`, `GlobalFlagActionExecuted` and the nine-argument item constructor are used by CmdlineParser.cs. CmdlineParseItem.cs does not declare them. They are the item fields `nested` and `globalExecuted`.
- `Items`, `InheritedItems`, `AllItems` and `ParserPath` are not modelled as views. They do not take part in matching.
- Only the own flags are checked for a missing mandatory flag, as in the source. Inherited mandatory flags are not checked again.
