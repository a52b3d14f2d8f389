/// CmdlineParseItem: the declaration of one grammar element (a command, a
/// flag, a positional parameter or a trailing parameter array) and the match
/// state the matcher records on it.  Items and parsers are named by their
/// position in the parser tree (module CmdlineParser): an ItemId indexes the
/// tree's items, a ParserId its parsers.
module CmdlineParseItem {
  import opened Base
  import opened CmdlineArgument

  type ParserId = nat

  /** CmdlineParseItemType. */
  datatype ItemType = Command | Flag | Parameter | ParameterArray

  /** The declaration of an item, fixed once the parser tree is built.
      `parser` is the item's `Parser` property: the parser that lists the
      item, except for a command, whose `Parser` is the sub-parser it opens.
      `global` stands for a non-null GlobalFlagAction, `nested` for
      GlobalFlagActionNested, `hasCompletion` for a non-null onCompletion. */
  datatype Item = Item(
    parser: ParserId,
    kind: ItemType,
    shortName: Option<string>,
    longName: Option<string>,
    valueName: Option<string>,
    mandatory: bool,
    global: bool,
    nested: bool,
    hasCompletion: bool)
  {
    predicate IsCommand() { kind == Command }

    predicate IsFlag() { kind == Flag }

    predicate IsParameter() { kind == Parameter }

    predicate IsParameterArray() { kind == ParameterArray }

    predicate IsParameterOrArray() { kind == Parameter || kind == ParameterArray }

    /** IsGlobal: the flag carries a global action. */
    predicate IsGlobal() { global }

    predicate HasShortName() { !IsNullOrWhiteSpace(shortName) }

    predicate HasLongName() { !IsNullOrWhiteSpace(longName) }

    /** A flag with a value name takes a value. */
    predicate HasValueName() { !IsNullOrWhiteSpace(valueName) }

    /** `-` followed by the short name (a null name prints as nothing). */
    function ShortFlag(): string { "-" + Text(shortName) }

    /** `--` followed by the long name. */
    function LongFlag(): string { "--" + Text(longName) }

    /** The spelling used in the missing-mandatory-flag message.  The source
        prefixes the already dashed ShortFlag and LongFlag once more. */
    function ShortLongFlag(): string {
      (if HasShortName() then "-" + ShortFlag() else "")
      + (if HasShortName() && HasLongName() then "," else "")
      + (if HasLongName() then "--" + LongFlag() else "")
    }

    /** The usage groups: commands, mandatory flags, optional flags,
        parameters, parameter arrays. */
    function SortOrder(): (r: int)
      ensures 0 <= r <= 4
      ensures r == 0 <==> IsCommand()
      ensures r == 1 <==> IsFlag() && mandatory
      ensures r == 2 <==> IsFlag() && !mandatory
      ensures r == 3 <==> IsParameter()
      ensures r == 4 <==> IsParameterArray()
    {
      match kind
      case Command => 0
      case Flag => if mandatory then 1 else 2
      case Parameter => 3
      case ParameterArray => 4
    }
  }

  /** A name counts as present exactly when it is not null and holds a
      character that is not white space: the short name, the long name and
      the value name alike. */
  lemma NamesMeanVisibleChar(it: Item)
    ensures it.HasShortName() <==>
            it.shortName.Some? && exists i | 0 <= i < |it.shortName.value| :: !IsWhiteSpace(it.shortName.value[i])
    ensures it.HasLongName() <==>
            it.longName.Some? && exists i | 0 <= i < |it.longName.value| :: !IsWhiteSpace(it.longName.value[i])
    ensures it.HasValueName() <==>
            it.valueName.Some? && exists i | 0 <= i < |it.valueName.value| :: !IsWhiteSpace(it.valueName.value[i])
  {
  }

  /** The dashed spellings give the names back: ShortFlag is one dash and
      the short name, LongFlag two dashes and the long name, a null name
      printing as nothing. */
  lemma DashedNames(it: Item)
    ensures |it.ShortFlag()| == |Text(it.shortName)| + 1 && it.ShortFlag()[0] == '-'
    ensures it.ShortFlag()[1..] == Text(it.shortName)
    ensures |it.LongFlag()| == |Text(it.longName)| + 2 && it.LongFlag()[..2] == "--"
    ensures it.LongFlag()[2..] == Text(it.longName)
  {
  }

  /** ShortLongFlag for every item: the short name behind two dashes, the
      long name behind four, a comma between them only when both are
      present, and nothing for a name that is null or blank. */
  lemma ShortLongFlagShape(it: Item)
    ensures it.HasShortName() && it.HasLongName() ==>
              it.ShortLongFlag() == "--" + Text(it.shortName) + ",----" + Text(it.longName)
    ensures it.HasShortName() && !it.HasLongName() ==> it.ShortLongFlag() == "--" + Text(it.shortName)
    ensures !it.HasShortName() && it.HasLongName() ==> it.ShortLongFlag() == "----" + Text(it.longName)
    ensures !it.HasShortName() && !it.HasLongName() ==> it.ShortLongFlag() == ""
  {
  }

  /** IsParameterOrArray joins the two positional kinds, and no item is
      both a flag and a positional. */
  lemma KindsPartition(it: Item)
    ensures it.IsParameterOrArray() <==> it.IsParameter() || it.IsParameterArray()
    ensures it.IsFlag() ==> !it.IsParameterOrArray() && !it.IsCommand()
  {
  }

  /** An illustration of ShortLongFlagShape on the names `f` and `file`. */
  lemma ShortLongFlagExamples()
    ensures Item(0, Flag, Some("f"), Some("file"), None, true, false, true, false).ShortLongFlag()
            == "--f,----file"
    ensures Item(0, Flag, Some("f"), None, None, true, false, true, false).ShortLongFlag() == "--f"
    ensures Item(0, Flag, None, Some("file"), None, true, false, true, false).ShortLongFlag()
            == "----file"
    ensures Item(0, Flag, Some(" "), Some("file"), None, true, false, true, false).ShortLongFlag()
            == "----file"
  {
    var blank := Item(0, Flag, Some(" "), Some("file"), None, true, false, true, false);
    assert !blank.HasShortName() by {
      assert IsWhiteSpace(blank.shortName.value[0]);
    }
    var both := Item(0, Flag, Some("f"), Some("file"), None, true, false, true, false);
    assert both.HasShortName() && both.HasLongName() by {
      assert !IsWhiteSpace(both.shortName.value[0]) && !IsWhiteSpace(both.longName.value[0]);
    }
    var short := Item(0, Flag, Some("f"), None, None, true, false, true, false);
    assert short.HasShortName() by {
      assert !IsWhiteSpace(short.shortName.value[0]);
    }
  }

  /** The fields of an item that the matcher changes.  `matchArgument` and
      `argValues` are positions in the argument list; `globalExecuted` is
      GlobalFlagActionExecuted. */
  datatype ItemState = ItemState(
    matches: bool,
    matchParser: Option<ParserId>,
    matchArgument: Option<nat>,
    argValues: seq<nat>,
    values: seq<string>,
    globalExecuted: bool)

  /** The state of a freshly constructed item. */
  const Unmatched := ItemState(false, None, None, [], [], false)

  /** The implicit conversion to bool: the item matched. */
  function AsBool(s: ItemState): bool {
    s.matches
  }

  /** The implicit conversion to string: the first value, or null. */
  function AsString(s: ItemState): (r: Option<string>)
    ensures r.Some? <==> |s.values| > 0
    ensures r.Some? ==> r.value == s.values[0]
  {
    if s.values == [] then None else Some(s.values[0])
  }
}
