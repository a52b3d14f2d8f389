/// CmdlineParser, the declarative part: the tree of parsers with parent
/// links, the item views each parser derives from its item list, the walk
/// up to the ancestors, and the Add* helpers that build the tree.
/// Parsers and items are numbered in creation order: a ParserId indexes
/// `parsers`, an ItemId indexes `items`.
module CmdlineParser {
  import opened Base
  import opened CmdlineArgument
  import opened CmdlineParseItem

  /** A parser: its `Parent`, its `items` in declaration order, whether an
      onCmdlineMatch action is set, and the `Command` it was created with
      (null for the topmost parser). */
  datatype Parser = Parser(
    parent: Option<ParserId>,
    items: seq<ItemId>,
    hasAction: bool,
    command: Option<ItemId>)

  datatype Tree = Tree(parsers: seq<Parser>, items: seq<Item>) {

    /** Item x is listed by parser q: a command is listed by the parent of
        the sub-parser it opens, any other item by its own `Parser`. */
    predicate ListedBy(x: ItemId, q: ParserId) {
      && x < |items|
      && items[x].parser < |parsers|
      && if items[x].IsCommand() then parsers[items[x].parser].parent == Some(q)
         else items[x].parser == q
    }

    /** Item x belongs to an existing parser and is listed where it should
        be: a command by the parent of the sub-parser it opens, any other
        item by its own `Parser`. */
    predicate ItemOk(x: ItemId)
      requires x < |items|
    {
      && items[x].parser < |parsers|
      && (items[x].IsCommand() ==> items[x].shortName.Some? && parsers[items[x].parser].parent.Some?)
      && (items[x].IsCommand() ==>
            var q := parsers[items[x].parser].parent.value;
            q < |parsers| && x in parsers[q].items)
      && (!items[x].IsCommand() ==> x in parsers[items[x].parser].items)
    }

    predicate ParserOk(q: ParserId)
      requires q < |parsers|
    {
      var pr := parsers[q];
      && (pr.parent.Some? ==> pr.parent.value < q)
      && (forall k | 0 <= k < |pr.items| :: ListedBy(pr.items[k], q))
      && NoDup(pr.items)
      && (pr.command.Some? ==> pr.command.value < |items|)
    }

    /** What construction guarantees: a parent is created before its
        children (so there are no cycles), every item is listed once and by
        the parser it belongs to, and every command has a name. */
    predicate Valid() {
      && (forall x | 0 <= x < |items| :: ItemOk(x))
      && (forall q | 0 <= q < |parsers| :: ParserOk(q))
    }

    /** In a valid tree every item is listed by exactly the parsers it is
        `ListedBy`, and there is one such parser: a command's is the parent
        of the sub-parser it opens, any other item's is its own. */
    lemma ItemsListed(x: ItemId)
      requires Valid() && x < |items|
      ensures forall q | 0 <= q < |parsers| :: x in parsers[q].items <==> ListedBy(x, q)
      ensures exists q | 0 <= q < |parsers| :: x in parsers[q].items
    {
      assert ItemOk(x);
      forall q | 0 <= q < |parsers| && x in parsers[q].items ensures ListedBy(x, q) {
        assert ParserOk(q);
        var k :| 0 <= k < |parsers[q].items| && parsers[q].items[k] == x;
      }
    }

    /** `ParentParsers`: the ancestors of p, topmost first, p excluded. */
    function Ancestors(p: ParserId): (r: seq<ParserId>)
      requires Valid() && p < |parsers|
      ensures forall k | 0 <= k < |r| :: r[k] < p
      ensures forall k, l | 0 <= k < l < |r| :: r[k] < r[l]
      decreases p
    {
      match parsers[p].parent
      case None => []
      case Some(q) => assert ParserOk(p); Ancestors(q) + [q]
    }

    /** `RootParser`: the parser itself when it has no parent, otherwise the
        first of its ancestors. */
    function RootParser(p: ParserId): (r: ParserId)
      requires Valid() && p < |parsers|
      ensures r <= p && parsers[r].parent.None?
      ensures parsers[p].parent.None? <==> r == p
      ensures r != p ==> r in Ancestors(p)
    {
      if parsers[p].parent.None? then p
      else
        var path := Ancestors(p);
        AncestorsChain(p);
        path[0]
    }

    /** All positions of `s` name items of the tree. */
    predicate AllItems(s: seq<ItemId>) {
      forall k | 0 <= k < |s| :: s[k] < |items|
    }

    /** `Commands`. */
    function Commands(p: ParserId): (r: seq<ItemId>)
      requires Valid() && p < |parsers|
      ensures AllItems(r)
      ensures forall x :: x in r <==> x in parsers[p].items && items[x].IsCommand()
    {
      assert ParserOk(p);
      Filter(parsers[p].items, (x: ItemId) => x < |items| && items[x].IsCommand())
    }

    /** `Flags`: this parser's own flags. */
    function Flags(p: ParserId): (r: seq<ItemId>)
      requires Valid() && p < |parsers|
      ensures AllItems(r)
      ensures forall x :: x in r <==> x in parsers[p].items && items[x].IsFlag()
    {
      assert ParserOk(p);
      Filter(parsers[p].items, (x: ItemId) => x < |items| && items[x].IsFlag())
    }

    /** `Parameters`. */
    function Parameters(p: ParserId): (r: seq<ItemId>)
      requires Valid() && p < |parsers|
      ensures AllItems(r)
      ensures forall x :: x in r <==> x in parsers[p].items && items[x].IsParameter()
      ensures NoDup(r)
    {
      assert ParserOk(p);
      FilterKeepsNoDup(parsers[p].items, (x: ItemId) => x < |items| && items[x].IsParameter());
      Filter(parsers[p].items, (x: ItemId) => x < |items| && items[x].IsParameter())
    }

    /** `ParameterArrays`. */
    function ParameterArrays(p: ParserId): (r: seq<ItemId>)
      requires Valid() && p < |parsers|
      ensures AllItems(r)
      ensures forall x :: x in r <==> x in parsers[p].items && items[x].IsParameterArray()
    {
      assert ParserOk(p);
      Filter(parsers[p].items, (x: ItemId) => x < |items| && items[x].IsParameterArray())
    }

    /** `ParametersOrArray`. */
    function ParametersOrArray(p: ParserId): (r: seq<ItemId>)
      requires Valid() && p < |parsers|
      ensures AllItems(r)
      ensures forall x :: x in r <==> x in parsers[p].items && items[x].IsParameterOrArray()
    {
      assert ParserOk(p);
      Filter(parsers[p].items, (x: ItemId) => x < |items| && items[x].IsParameterOrArray())
    }

    /** `ps.SelectMany(w => w.Flags)`. */
    function FlagsOf(ps: seq<ParserId>): (r: seq<ItemId>)
      requires Valid() && forall k | 0 <= k < |ps| :: ps[k] < |parsers|
      ensures AllItems(r)
      ensures forall x :: x in r <==> exists k | 0 <= k < |ps| :: x in Flags(ps[k])
      decreases |ps|
    {
      if ps == [] then []
      else
        var init := ps[..|ps| - 1];
        assert forall k | 0 <= k < |init| :: init[k] == ps[k];
        FlagsOf(init) + Flags(ps[|ps| - 1])
    }

    /** `InheritedFlags`: the flags of the ancestors, topmost first. */
    function InheritedFlags(p: ParserId): (r: seq<ItemId>)
      requires Valid() && p < |parsers|
      ensures AllItems(r)
      ensures forall x :: x in r <==> exists q | q in Ancestors(p) :: x in Flags(q)
    {
      FlagsOf(Ancestors(p))
    }

    /** `AllFlags`: `InheritedFlags.Union(Flags)`. */
    function AllFlags(p: ParserId): (r: seq<ItemId>)
      requires Valid() && p < |parsers|
      ensures AllItems(r)
      ensures NoDup(r)
      ensures forall k | 0 <= k < |r| :: items[r[k]].IsFlag()
    {
      VisibleFlagsDistinct(p);
      var r := Union(InheritedFlags(p), Flags(p));
      assert forall k | 0 <= k < |r| :: r[k] in InheritedFlags(p) + Flags(p);
      r
    }

    /** `GlobalFlags`: the visible flags that carry a global action. */
    function GlobalFlags(p: ParserId): (r: seq<ItemId>)
      requires Valid() && p < |parsers|
      ensures AllItems(r)
      ensures forall x :: x in r <==> x in AllFlags(p) && items[x].IsGlobal()
    {
      Filter(AllFlags(p), (x: ItemId) => x < |items| && items[x].IsGlobal())
    }

    /** The ancestors form the parent chain from the topmost parser down to
        the parent of p. */
    lemma {:induction false} AncestorsChain(p: ParserId)
      requires Valid() && p < |parsers|
      ensures var r := Ancestors(p);
              && (r == [] <==> parsers[p].parent.None?)
              && (r != [] ==> parsers[r[0]].parent.None? && parsers[p].parent == Some(r[|r| - 1]))
              && (forall k | 0 <= k < |r| - 1 :: parsers[r[k + 1]].parent == Some(r[k]))
              && p !in r
      decreases p
    {
      match parsers[p].parent
      case None =>
      case Some(q) =>
        assert ParserOk(p);
        AncestorsChain(q);
        var a := Ancestors(q);
        assert Ancestors(p) == a + [q];
        if a != [] {
          assert parsers[q].parent == Some(a[|a| - 1]);
        }
    }

    /** One step of the parent walk: the inherited flags of p are those
        visible at its parent. */
    lemma InheritedFlagsStep(p: ParserId)
      requires Valid() && p < |parsers|
      ensures parsers[p].parent.None? ==> InheritedFlags(p) == []
      ensures parsers[p].parent.Some? ==>
                parsers[p].parent.value < p &&
                InheritedFlags(p) == InheritedFlags(parsers[p].parent.value) + Flags(parsers[p].parent.value)
    {
      if parsers[p].parent.Some? {
        var q := parsers[p].parent.value;
        assert ParserOk(p);
        var ps := Ancestors(p);
        assert ps == Ancestors(q) + [q];
        assert ps[..|ps| - 1] == Ancestors(q);
      }
    }

    /** The flags visible at p belong to p or to an ancestor (all ids at most
        p) and none is repeated. */
    lemma {:induction false} VisibleFlagsDistinct(p: ParserId)
      requires Valid() && p < |parsers|
      ensures NoDup(InheritedFlags(p) + Flags(p))
      ensures forall x | x in InheritedFlags(p) :: items[x].IsFlag() && items[x].parser < p
      ensures forall x | x in Flags(p) :: items[x].IsFlag() && items[x].parser == p
      decreases p
    {
      assert ParserOk(p);
      forall x | x in Flags(p) ensures items[x].IsFlag() && items[x].parser == p {
        var k :| 0 <= k < |parsers[p].items| && parsers[p].items[k] == x;
        assert ListedBy(parsers[p].items[k], p);
      }
      InheritedFlagsStep(p);
      if parsers[p].parent.Some? {
        var q := parsers[p].parent.value;
        VisibleFlagsDistinct(q);
      }
      FilterKeepsNoDup(parsers[p].items, (x: ItemId) => x < |items| && items[x].IsFlag());
      NoDupConcat(InheritedFlags(p), Flags(p));
    }

    /** `AllFlags`: the inherited flags, topmost parser first, followed by the
        parser's own flags; the Union removes nothing. */
    lemma AllFlagsIsConcat(p: ParserId)
      requires Valid() && p < |parsers|
      ensures AllFlags(p) == InheritedFlags(p) + Flags(p)
    {
      VisibleFlagsDistinct(p);
      DistinctOfNoDup(InheritedFlags(p) + Flags(p));
    }

    /** A flag is visible at p exactly when p or one of its ancestors declares it. */
    lemma {:induction false} AllFlagsMembers(p: ParserId, x: ItemId)
      requires Valid() && p < |parsers|
      ensures x in AllFlags(p) <==>
                x < |items| && items[x].IsFlag() && (x in parsers[p].items || exists q | q in Ancestors(p) :: x in parsers[q].items)
      decreases p
    {
      AllFlagsIsConcat(p);
      InheritedFlagsStep(p);
      assert ParserOk(p);
      if parsers[p].parent.Some? {
        var q := parsers[p].parent.value;
        AllFlagsMembers(q, x);
        AllFlagsIsConcat(q);
        assert Ancestors(p) == Ancestors(q) + [q];
      }
    }
  }

  /** A command listed by p opens a sub-parser created after p. */
  lemma CommandOpensChild(t: Tree, p: ParserId, x: ItemId)
    requires t.Valid() && p < |t.parsers|
    requires x in t.Commands(p)
    ensures x < |t.items| && p < t.items[x].parser < |t.parsers|
  {
    assert t.ParserOk(p);
    var k :| 0 <= k < |t.parsers[p].items| && t.parsers[p].items[k] == x;
    assert t.ListedBy(x, p);
    assert t.ParserOk(t.items[x].parser);
  }

  lemma NoDupConcat(a: seq<ItemId>, b: seq<ItemId>)
    requires NoDup(a) && NoDup(b)
    requires forall x | x in a :: x !in b
    ensures NoDup(a + b)
  {
    var s := a + b;
    forall i, j | 0 <= i < j < |s| ensures s[i] != s[j] {
      if j < |a| {
      } else if i >= |a| {
        assert s[i] == b[i - |a|] && s[j] == b[j - |a|];
      } else {
        assert s[i] in a && s[j] in b;
      }
    }
  }

  /** Reverses a sequence (List.Reverse). */
  function Reverse(s: seq<ParserId>): (r: seq<ParserId>)
    ensures |r| == |s|
    decreases |s|
  {
    if s == [] then [] else [s[|s| - 1]] + Reverse(s[..|s| - 1])
  }

  /** `ParentParsers`: walks up the Parent links collecting them, then
      reverses the list. */
  method ParentParsers(t: Tree, p: ParserId) returns (path: seq<ParserId>)
    requires t.Valid() && p < |t.parsers|
    ensures path == t.Ancestors(p)
  {
    var collected: seq<ParserId> := [];
    var cur := t.parsers[p].parent;
    assert t.ParserOk(p);
    while cur.Some?
      invariant cur.Some? ==> cur.value < |t.parsers|
      invariant t.Ancestors(p) == (if cur.Some? then t.Ancestors(cur.value) + [cur.value] else []) + Reverse(collected)
      decreases if cur.Some? then cur.value + 1 else 0
    {
      var q := cur.value;
      assert t.ParserOk(q);
      assert (collected + [q])[..|collected|] == collected;
      collected := collected + [q];
      cur := t.parsers[q].parent;
    }
    path := Reverse(collected);
  }

  /** The construction pass: `Create`, `AddCommand`, the `Add*` flag and
      parameter helpers, `OnCmdlineMatch` and `OnCompletion`.  In the source
      each parser object appends to its own item list; here one builder holds
      every parser and item, and each helper names the parser it extends.
      Descriptions feed only the usage text and are not kept. */
  class ParserBuilder {
    var parsers: seq<Parser>
    var items: seq<Item>

    function Snapshot(): Tree
      reads this
    {
      Tree(parsers, items)
    }

    ghost predicate Valid()
      reads this
    {
      Snapshot().Valid()
    }

    /** `CmdlineParser.Create`: the topmost parser, parser 0. */
    constructor Create()
      ensures Valid()
      ensures parsers == [Parser(None, [], false, None)] && items == []
    {
      parsers := [Parser(None, [], false, None)];
      items := [];
    }

    /** Appends a non-command item to parser p; the new item gets the next id. */
    method AddItem(p: ParserId, it: Item) returns (x: ItemId)
      requires Valid() && p < |parsers|
      requires it.parser == p && !it.IsCommand()
      modifies this
      ensures Valid()
      ensures x == old(|items|)
      ensures items == old(items) + [it]
      ensures parsers == old(parsers)[p := old(parsers)[p].(items := old(parsers)[p].items + [x])]
    {
      x := |items|;
      var t := Snapshot();
      items := items + [it];
      parsers := parsers[p := parsers[p].(items := parsers[p].items + [x])];
      ghost var t' := Snapshot();
      assert forall y | 0 <= y < |t.items| :: t'.items[y] == t.items[y];
      forall y | 0 <= y < |t'.items| ensures t'.ItemOk(y) {
        if y < |t.items| { assert t.ItemOk(y); }
      }
      forall q | 0 <= q < |t'.parsers| ensures t'.ParserOk(q) {
        assert t.ParserOk(q);
        forall k | 0 <= k < |t'.parsers[q].items| ensures t'.ListedBy(t'.parsers[q].items[k], q) {
          if k < |t.parsers[q].items| {
            assert t.ListedBy(t.parsers[q].items[k], q);
          }
        }
        assert NoDup(t'.parsers[q].items) by {
          if q == p {
            assert forall k | 0 <= k < |t.parsers[p].items| :: t.ListedBy(t.parsers[p].items[k], p);
          }
        }
      }
    }

    /** `AddCommand`: a command named `name` in parser p and the sub-parser
        it opens, whose `Command` is the new item. */
    method AddCommand(p: ParserId, name: string) returns (cmd: ItemId, sub: ParserId)
      requires Valid() && p < |parsers|
      modifies this
      ensures Valid()
      ensures cmd == old(|items|) && sub == old(|parsers|)
      ensures items == old(items) + [Item(sub, Command, Some(name), None, None, false, false, true, false)]
      ensures parsers == old(parsers)[p := old(parsers)[p].(items := old(parsers)[p].items + [cmd])]
                         + [Parser(Some(p), [], false, Some(cmd))]
    {
      cmd, sub := |items|, |parsers|;
      var t := Snapshot();
      items := items + [Item(sub, Command, Some(name), None, None, false, false, true, false)];
      parsers := parsers[p := parsers[p].(items := parsers[p].items + [cmd])] + [Parser(Some(p), [], false, Some(cmd))];
      ghost var t' := Snapshot();
      assert forall y | 0 <= y < |t.items| :: t'.items[y] == t.items[y];
      assert forall q | 0 <= q < |t.parsers| :: t'.parsers[q].parent == t.parsers[q].parent;
      forall y | 0 <= y < |t'.items| ensures t'.ItemOk(y) {
        if y < |t.items| { assert t.ItemOk(y); }
      }
      forall q | 0 <= q < |t'.parsers| ensures t'.ParserOk(q) {
        if q < |t.parsers| {
          assert t.ParserOk(q);
          forall k | 0 <= k < |t'.parsers[q].items| ensures t'.ListedBy(t'.parsers[q].items[k], q) {
            if k < |t.parsers[q].items| {
              assert t.ListedBy(t.parsers[q].items[k], q);
            }
          }
          assert NoDup(t'.parsers[q].items) by {
            if q == p {
              assert forall k | 0 <= k < |t.parsers[p].items| :: t.ListedBy(t.parsers[p].items[k], p);
            }
          }
        }
      }
    }

    /** `AddFlag`: the common helper behind the public flag helpers. */
    method AddFlag(p: ParserId, shortName: Option<string>, longName: Option<string>, valueName: Option<string>,
                   mandatory: bool, global: bool, nested: bool) returns (x: ItemId)
      requires Valid() && p < |parsers|
      modifies this
      ensures Valid()
      ensures x == old(|items|)
      ensures items == old(items) + [Item(p, Flag, shortName, longName, valueName, mandatory, global, nested, false)]
      ensures parsers == old(parsers)[p := old(parsers)[p].(items := old(parsers)[p].items + [x])]
    {
      x := AddItem(p, Item(p, Flag, shortName, longName, valueName, mandatory, global, nested, false));
    }

    /** `AddShort`: an optional flag `-name`; a global action, when given, is
        nested unless told otherwise. */
    method AddShort(p: ParserId, name: string, valueName: Option<string> := None,
                    global: bool := false, nested: bool := true) returns (x: ItemId)
      requires Valid() && p < |parsers|
      modifies this
      ensures Valid()
      ensures x == old(|items|)
      ensures items == old(items) + [Item(p, Flag, Some(name), None, valueName, false, global, nested, false)]
      ensures parsers == old(parsers)[p := old(parsers)[p].(items := old(parsers)[p].items + [x])]
    {
      x := AddFlag(p, Some(name), None, valueName, false, global, nested);
    }

    /** `AddLong`: an optional flag `--name`. */
    method AddLong(p: ParserId, name: string, valueName: Option<string> := None,
                   global: bool := false, nested: bool := true) returns (x: ItemId)
      requires Valid() && p < |parsers|
      modifies this
      ensures Valid()
      ensures x == old(|items|)
      ensures items == old(items) + [Item(p, Flag, None, Some(name), valueName, false, global, nested, false)]
      ensures parsers == old(parsers)[p := old(parsers)[p].(items := old(parsers)[p].items + [x])]
    {
      x := AddFlag(p, None, Some(name), valueName, false, global, nested);
    }

    /** `AddShortLong`: an optional flag with both spellings. */
    method AddShortLong(p: ParserId, shortName: string, longName: string, valueName: Option<string> := None,
                        global: bool := false, nested: bool := true) returns (x: ItemId)
      requires Valid() && p < |parsers|
      modifies this
      ensures Valid()
      ensures x == old(|items|)
      ensures items == old(items) + [Item(p, Flag, Some(shortName), Some(longName), valueName, false, global, nested, false)]
      ensures parsers == old(parsers)[p := old(parsers)[p].(items := old(parsers)[p].items + [x])]
    {
      x := AddFlag(p, Some(shortName), Some(longName), valueName, false, global, nested);
    }

    /** `AddMandatoryShort`: a mandatory flag is never global. */
    method AddMandatoryShort(p: ParserId, name: string, valueName: Option<string> := None) returns (x: ItemId)
      requires Valid() && p < |parsers|
      modifies this
      ensures Valid()
      ensures items == old(items) + [Item(p, Flag, Some(name), None, valueName, true, false, true, false)]
      ensures parsers == old(parsers)[p := old(parsers)[p].(items := old(parsers)[p].items + [x])]
      ensures x == old(|items|) && items[x].mandatory && !items[x].IsGlobal()
    {
      x := AddFlag(p, Some(name), None, valueName, true, false, true);
    }

    /** `AddMandatoryLong`. */
    method AddMandatoryLong(p: ParserId, name: string, valueName: Option<string> := None) returns (x: ItemId)
      requires Valid() && p < |parsers|
      modifies this
      ensures Valid()
      ensures items == old(items) + [Item(p, Flag, None, Some(name), valueName, true, false, true, false)]
      ensures parsers == old(parsers)[p := old(parsers)[p].(items := old(parsers)[p].items + [x])]
      ensures x == old(|items|) && items[x].mandatory && !items[x].IsGlobal()
    {
      x := AddFlag(p, None, Some(name), valueName, true, false, true);
    }

    /** `AddMandatoryShortLong`. */
    method AddMandatoryShortLong(p: ParserId, shortName: string, longName: string,
                                 valueName: Option<string> := None) returns (x: ItemId)
      requires Valid() && p < |parsers|
      modifies this
      ensures Valid()
      ensures items == old(items) + [Item(p, Flag, Some(shortName), Some(longName), valueName, true, false, true, false)]
      ensures parsers == old(parsers)[p := old(parsers)[p].(items := old(parsers)[p].items + [x])]
      ensures x == old(|items|) && items[x].mandatory && !items[x].IsGlobal()
    {
      x := AddFlag(p, Some(shortName), Some(longName), valueName, true, false, true);
    }

    /** `AddParameter` / `AddMandatoryParameter`: a positional parameter
        whose name is shown in usage and messages. */
    method AddParameter(p: ParserId, name: string, mandatory: bool := false) returns (x: ItemId)
      requires Valid() && p < |parsers|
      modifies this
      ensures Valid()
      ensures x == old(|items|)
      ensures items == old(items) + [Item(p, Parameter, Some(name), None, None, mandatory, false, true, false)]
      ensures parsers == old(parsers)[p := old(parsers)[p].(items := old(parsers)[p].items + [x])]
    {
      x := AddItem(p, Item(p, Parameter, Some(name), None, None, mandatory, false, true, false));
    }

    /** `AddParameterArray` / `AddMandatoryParameterArray`. */
    method AddParameterArray(p: ParserId, name: string, mandatory: bool := false) returns (x: ItemId)
      requires Valid() && p < |parsers|
      modifies this
      ensures Valid()
      ensures x == old(|items|)
      ensures items == old(items) + [Item(p, ParameterArray, Some(name), None, None, mandatory, false, true, false)]
      ensures parsers == old(parsers)[p := old(parsers)[p].(items := old(parsers)[p].items + [x])]
    {
      x := AddItem(p, Item(p, ParameterArray, Some(name), None, None, mandatory, false, true, false));
    }

    /** `OnCmdlineMatch`: parser p gets a level action. */
    method OnCmdlineMatch(p: ParserId)
      requires Valid() && p < |parsers|
      modifies this
      ensures Valid()
      ensures parsers == old(parsers)[p := old(parsers)[p].(hasAction := true)] && items == old(items)
    {
      var t := Snapshot();
      parsers := parsers[p := parsers[p].(hasAction := true)];
      ghost var t' := Snapshot();
      forall y | 0 <= y < |t'.items| ensures t'.ItemOk(y) {
        assert t.ItemOk(y);
      }
      forall q | 0 <= q < |t'.parsers| ensures t'.ParserOk(q) {
        assert t.ParserOk(q);
        forall k | 0 <= k < |t'.parsers[q].items| ensures t'.ListedBy(t'.parsers[q].items[k], q) {
          assert t.ListedBy(t.parsers[q].items[k], q);
        }
      }
    }

    /** `OnCompletion`: item x gets a completion provider. */
    method OnCompletion(x: ItemId)
      requires Valid() && x < |items|
      modifies this
      ensures Valid()
      ensures items == old(items)[x := old(items)[x].(hasCompletion := true)] && parsers == old(parsers)
    {
      var t := Snapshot();
      items := items[x := items[x].(hasCompletion := true)];
      ghost var t' := Snapshot();
      forall y | 0 <= y < |t'.items| ensures t'.ItemOk(y) {
        assert t.ItemOk(y);
      }
      forall q | 0 <= q < |t'.parsers| ensures t'.ParserOk(q) {
        assert t.ParserOk(q);
        forall k | 0 <= k < |t'.parsers[q].items| ensures t'.ListedBy(t'.parsers[q].items[k], q) {
          assert t.ListedBy(t.parsers[q].items[k], q);
        }
      }
    }
  }
}
