/// CmdlineArgument: one command-line token and the parse item that claimed it.
/// The repository carries this class twice (namespace SearchAThing under
/// netcore-cmdline/ and namespace SearchAThing.Cmdline under src/cmdline/);
/// both have the same members, and this one datatype stands for both.
/// A parse item is named by its index in the parser tree (see module
/// CmdlineParseItem), so the claim slot holds an item id.
module CmdlineArgument {
  import opened Base

  type ItemId = nat

  /** `Argument` is set by the constructor only (private setter), so it is a
      plain field; `MatchedItem` is the claim slot the matcher writes. */
  datatype Argument = Argument(text: string, matchedItem: Option<ItemId>) {

    /** `Matched`: some parse item claims this token. */
    predicate Matched() {
      matchedItem.Some?
    }

    /** The unguarded `MatchedItem` setter: a new claim replaces any earlier
        one, None releases the token, and the token text never changes. */
    function WithMatchedItem(item: Option<ItemId>): (a: Argument)
      ensures a.text == text
      ensures a.matchedItem == item
      ensures a.Matched() <==> item.Some?
    {
      Argument(text, item)
    }
  }

  /** The constructor `new CmdlineArgument(arg)`: the text is fixed and no
      item claims the token yet. */
  function NewArgument(text: string): (a: Argument)
    ensures a.text == text
    ensures !a.Matched()
  {
    Argument(text, None)
  }

  /** `args.Select(w => new CmdlineArgument(w)).ToList()`. */
  function FromTokens(tokens: seq<string>): (args: seq<Argument>)
    ensures |args| == |tokens|
    ensures forall i | 0 <= i < |args| :: args[i].text == tokens[i] && !args[i].Matched()
  {
    seq(|tokens|, i requires 0 <= i < |tokens| => NewArgument(tokens[i]))
  }

  /** Sets the claim slot of token `i` (`args[i].MatchedItem = item`). */
  function SetClaim(args: seq<Argument>, i: nat, item: Option<ItemId>): (r: seq<Argument>)
    requires i < |args|
    ensures |r| == |args|
    ensures r[i].matchedItem == item && r[i].text == args[i].text
    ensures forall j | 0 <= j < |r| && j != i :: r[j] == args[j]
  {
    args[i := args[i].WithMatchedItem(item)]
  }

  /** `args.FirstOrDefault(w => !w.Matched)`, as a position: the search
      starts at `from`. */
  function FirstUnclaimedFrom(args: seq<Argument>, from: nat): (r: Option<nat>)
    requires from <= |args|
    ensures r.Some? ==> from <= r.value < |args| && !args[r.value].Matched()
    ensures r.Some? ==> forall j | from <= j < r.value :: args[j].Matched()
    ensures r.None? ==> forall j | from <= j < |args| :: args[j].Matched()
    decreases |args| - from
  {
    if from == |args| then None
    else if !args[from].Matched() then Some(from)
    else FirstUnclaimedFrom(args, from + 1)
  }

  function FirstUnclaimed(args: seq<Argument>): (r: Option<nat>)
    ensures r.Some? ==> r.value < |args| && !args[r.value].Matched()
    ensures r.Some? ==> forall j | 0 <= j < r.value :: args[j].Matched()
    ensures r.None? ==> forall j | 0 <= j < |args| :: args[j].Matched()
  {
    FirstUnclaimedFrom(args, 0)
  }

  /** The positions of the unclaimed tokens from `from` on, ascending. */
  function UnclaimedFrom(args: seq<Argument>, from: nat): (u: seq<nat>)
    requires from <= |args|
    ensures forall k | 0 <= k < |u| :: from <= u[k] < |args|
    decreases |args| - from
  {
    if from == |args| then []
    else if !args[from].Matched() then [from] + UnclaimedFrom(args, from + 1)
    else UnclaimedFrom(args, from + 1)
  }

  /** The positions of all unclaimed tokens, in argument order. */
  function Unclaimed(args: seq<Argument>): (u: seq<nat>)
    ensures forall k | 0 <= k < |u| :: u[k] < |args|
  {
    UnclaimedFrom(args, 0)
  }

  /** UnclaimedFrom lists exactly the unclaimed positions from `from` on,
      each once and in ascending order. */
  lemma {:induction false} UnclaimedFromExact(args: seq<Argument>, from: nat)
    requires from <= |args|
    ensures var u := UnclaimedFrom(args, from);
            && (forall k | 0 <= k < |u| :: !args[u[k]].Matched())
            && (forall j | from <= j < |args| && !args[j].Matched() :: j in u)
            && (forall k, l | 0 <= k < l < |u| :: u[k] < u[l])
    decreases |args| - from
  {
    if from < |args| {
      UnclaimedFromExact(args, from + 1);
    }
  }

  /** Unclaimed lists exactly the unclaimed positions, each once and in
      argument order. */
  lemma UnclaimedExact(args: seq<Argument>)
    ensures var u := Unclaimed(args);
            && (forall k | 0 <= k < |u| :: !args[u[k]].Matched())
            && (forall j | 0 <= j < |args| && !args[j].Matched() :: j in u)
            && (forall k, l | 0 <= k < l < |u| :: u[k] < u[l])
  {
    UnclaimedFromExact(args, 0);
  }

  /** The texts of the tokens at the given positions. */
  function TextsAt(args: seq<Argument>, idx: seq<nat>): (r: seq<string>)
    requires forall k | 0 <= k < |idx| :: idx[k] < |args|
    ensures |r| == |idx|
    ensures forall k | 0 <= k < |idx| :: r[k] == args[idx[k]].text
  {
    seq(|idx|, k requires 0 <= k < |idx| => args[idx[k]].text)
  }

  /** The first unclaimed position is the head of the unclaimed positions. */
  lemma {:induction false} FirstUnclaimedIsHead(args: seq<Argument>, from: nat)
    requires from <= |args|
    ensures FirstUnclaimedFrom(args, from) ==
            (var u := UnclaimedFrom(args, from); if u == [] then None else Some(u[0]))
    decreases |args| - from
  {
    if from < |args| && args[from].Matched() {
      FirstUnclaimedIsHead(args, from + 1);
    }
  }

  /** Claiming the first unclaimed token removes exactly that position from
      the unclaimed positions. */
  lemma {:induction false} ClaimFirstUnclaimed(args: seq<Argument>, from: nat, item: ItemId)
    requires from <= |args|
    requires UnclaimedFrom(args, from) != []
    ensures UnclaimedFrom(SetClaim(args, UnclaimedFrom(args, from)[0], Some(item)), from)
            == UnclaimedFrom(args, from)[1..]
    decreases |args| - from
  {
    if args[from].Matched() {
      ClaimFirstUnclaimed(args, from + 1, item);
      SkipClaimed(args, from, item);
    } else {
      ClaimHere(args, from, item);
    }
  }

  /** The step of ClaimFirstUnclaimed at a claimed token. */
  lemma SkipClaimed(args: seq<Argument>, from: nat, item: ItemId)
    requires from < |args| && args[from].Matched()
    requires UnclaimedFrom(args, from + 1) != []
    ensures UnclaimedFrom(args, from) == UnclaimedFrom(args, from + 1)
    ensures var args' := SetClaim(args, UnclaimedFrom(args, from + 1)[0], Some(item));
            UnclaimedFrom(args', from) == UnclaimedFrom(args', from + 1)
  {
  }

  /** The step of ClaimFirstUnclaimed at an unclaimed token. */
  lemma ClaimHere(args: seq<Argument>, from: nat, item: ItemId)
    requires from < |args| && !args[from].Matched()
    ensures UnclaimedFrom(SetClaim(args, from, Some(item)), from) == UnclaimedFrom(args, from + 1)
  {
    var args' := SetClaim(args, from, Some(item));
    UnclaimedSame(args, args', from + 1);
  }

  /** Claiming the first unclaimed token removes it from the unclaimed
      positions and keeps the others. */
  lemma ClaimFirst(args: seq<Argument>, a: nat, item: ItemId)
    requires FirstUnclaimed(args) == Some(a)
    ensures Unclaimed(args) != [] && Unclaimed(args)[0] == a
    ensures Unclaimed(SetClaim(args, a, Some(item))) == Unclaimed(args)[1..]
  {
    FirstUnclaimedIsHead(args, 0);
    ClaimFirstUnclaimed(args, 0, item);
  }

  /** With no unclaimed token there is no unclaimed position. */
  lemma NoneUnclaimed(args: seq<Argument>)
    requires FirstUnclaimed(args).None?
    ensures Unclaimed(args) == []
  {
    FirstUnclaimedIsHead(args, 0);
  }

  /** Two argument lists that agree on which tokens are claimed from `from`
      on have the same unclaimed positions from there. */
  lemma {:induction false} UnclaimedSame(args: seq<Argument>, args': seq<Argument>, from: nat)
    requires from <= |args| == |args'|
    requires forall j | from <= j < |args| :: args[j].Matched() == args'[j].Matched()
    ensures UnclaimedFrom(args, from) == UnclaimedFrom(args', from)
    decreases |args| - from
  {
    if from < |args| {
      UnclaimedSame(args, args', from + 1);
    }
  }
}
