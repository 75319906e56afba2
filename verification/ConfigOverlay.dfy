/** How CLI11 combines the command line, several configuration files and the environment. */
module ConfigOverlay {
  import opened Wrappers

  datatype Extras = Error | Ignore | IgnoreAll | Capture

  datatype Item = Item(parents: seq<string>, name: string, inputs: seq<string>)

  /** `flag`: the option may be given without a value. `max`: most values it takes then. */
  datatype Spec = Spec(configurable: bool, flag: bool, max: nat, env: string)

  /** `self`: the configuration option, whose values are the files to read; `required`: it must be
      given. The parts of the library that are parameters here: which sections exist; the search
      for an option by section and name; the splitting of one value into results; the value of a
      flag, if it is allowed; the validation, reduction and callback of an option's results; the
      environment. */
  datatype Config = Config(
    options: seq<Spec>,
    self: nat,
    required: bool,
    extras: Extras,
    section: seq<string> -> bool,
    find: (seq<string>, string) -> Option<nat>,
    split: (nat, string) -> seq<string>,
    flagValue: (nat, Item) -> Option<string>,
    accepts: (nat, seq<string>) -> bool,
    environment: string -> string)

  type Results = seq<seq<string>>

  datatype Outcome<+T> = Ok(value: T) | Failed

  /** set_config makes the configuration option one that a file cannot set. */
  ghost predicate WellFormed(c: Config) {
    && c.self < |c.options| && !c.options[c.self].configurable
    && forall ps: seq<string>, n: string :: c.find(ps, n).Some? ==> c.find(ps, n).value < |c.options|
  }

  function SplitAll(c: Config, o: nat, inputs: seq<string>): (r: seq<string>) {
    if inputs == [] then [] else c.split(o, inputs[0]) + SplitAll(c, o, inputs[1..])
  }

  /** The option an item names: long name, then one-letter short name, then the bare name. */
  function Target(c: Config, item: Item): (o: Option<nat>) {
    var long := c.find(item.parents, "--" + item.name);
    if long.Some? then long else
    var short := if |item.name| == 1 then c.find(item.parents, "-" + item.name) else None;
    if short.Some? then short else c.find(item.parents, item.name)
  }

  predicate SectionMark(item: Item) {
    item.name == "++" || item.name == "--"
  }

  predicate AsFlag(c: Config, o: nat, item: Item)
    requires o < |c.options|
  {
    c.options[o].flag && |item.inputs| <= 1
  }

  /** The results an item adds to an empty option. */
  function Values(c: Config, o: nat, item: Item): (r: Outcome<seq<string>>)
    requires o < |c.options|
  {
    if AsFlag(c, o, item) then
      match c.flagValue(o, item)
      case Some(v) => Ok(c.split(o, v))
      case None => Failed
    else if c.options[o].flag && |item.inputs| > c.options[o].max then Failed
    else if c.accepts(o, SplitAll(c, o, item.inputs)) then Ok(SplitAll(c, o, item.inputs))
    else Failed
  }

  /** What an item gives to option o, if it names it. */
  function Gives(c: Config, item: Item, o: nat): (r: seq<string>)
    requires o < |c.options|
  {
    if && c.section(item.parents) && !SectionMark(item) && Target(c, item) == Some(o)
       && c.options[o].configurable && Values(c, o, item).Ok?
    then Values(c, o, item).value else []
  }

  /** _parse_single_config, with the extras test of _parse_config. */
  function ParseItem(c: Config, rs: Results, item: Item): (r: Outcome<Results>)
    requires WellFormed(c) && |rs| == |c.options|
    ensures r.Ok? ==> |r.value| == |rs|
  {
    if !c.section(item.parents) then if c.extras == Error then Failed else Ok(rs)
    else if SectionMark(item) then Ok(rs)
    else match Target(c, item)
    case None => if c.extras == Error then Failed else Ok(rs)
    case Some(o) =>
      if !c.options[o].configurable then if c.extras == IgnoreAll then Ok(rs) else Failed
      else if rs[o] != [] then Ok(rs)
      else match Values(c, o, item)
           case Failed => Failed
           case Ok(v) => Ok(rs[o := v])
  }

  function ParseItems(c: Config, rs: Results, items: seq<Item>): (r: Outcome<Results>)
    requires WellFormed(c) && |rs| == |c.options|
    ensures r.Ok? ==> |r.value| == |rs|
    decreases |items|
  {
    if items == [] then Ok(rs) else
    match ParseItem(c, rs, items[0])
    case Failed => Failed
    case Ok(rs') => ParseItems(c, rs', items[1..])
  }

  /** A listed file: its items, or that it is absent or cannot be read. */
  datatype File = File(name: string, items: seq<Item>) | NoFile(name: string)

  /** A configuration option that is not given gets the name of each file that is read. */
  function ParseFile(c: Config, rs: Results, f: File, given: bool): (r: Outcome<Results>)
    requires WellFormed(c) && |rs| == |c.options|
    ensures r.Ok? ==> |r.value| == |rs|
  {
    match f
    case NoFile(_) => if c.required || given then Failed else Ok(rs)
    case File(name, items) =>
      match ParseItems(c, rs, items)
      case Failed => Failed
      case Ok(rs') => Ok(if given then rs' else rs'[c.self := rs'[c.self] + c.split(c.self, name)])
  }

  /** The files from the last listed one to the first. */
  function ParseFiles(c: Config, rs: Results, files: seq<File>, given: bool): (r: Outcome<Results>)
    requires WellFormed(c) && |rs| == |c.options|
    ensures r.Ok? ==> |r.value| == |rs|
    decreases |files|
  {
    if files == [] then Ok(rs) else
    match ParseFile(c, rs, files[|files| - 1], given)
    case Failed => Failed
    case Ok(rs') => ParseFiles(c, rs', files[..|files| - 1], given)
  }

  /** The configuration option has values of its own. */
  predicate Given(c: Config, rs: Results)
    requires c.self < |rs|
  {
    rs[c.self] != []
  }

  /** No file is listed, or the first listed name is empty: then nothing is read. */
  predicate Unnamed(files: seq<File>) {
    files == [] || files[0].name == ""
  }

  function EnvValue(c: Config, o: nat): (r: seq<string>)
    requires o < |c.options|
  {
    var name := c.options[o].env;
    if name != "" && c.environment(name) != "" then c.split(o, c.environment(name)) else []
  }

  /* The independent description: for each option by itself, who wins. */

  /** The first item of a file that gives the option a value. */
  function FileGives(c: Config, items: seq<Item>, o: nat): (r: seq<string>)
    requires o < |c.options|
  {
    if items == [] then [] else
    if Gives(c, items[0], o) != [] then Gives(c, items[0], o) else FileGives(c, items[1..], o)
  }

  /** The last listed file that sets the option. */
  function LastFileGives(c: Config, files: seq<File>, o: nat): (r: seq<string>)
    requires o < |c.options|
  {
    if files == [] then [] else
    var f := files[|files| - 1];
    var v := if f.File? then FileGives(c, f.items, o) else [];
    if v != [] then v else LastFileGives(c, files[..|files| - 1], o)
  }

  /** The names of the files that were read, the last listed one first. */
  function NamesRead(c: Config, files: seq<File>): (r: seq<string>) {
    if files == [] then [] else
    var f := files[|files| - 1];
    (if f.File? then c.split(c.self, f.name) else []) + NamesRead(c, files[..|files| - 1])
  }

  /** What the listed files give to an option that has nothing: the configuration option gets the
      names of the files. */
  function FilesGive(c: Config, files: seq<File>, o: nat): (r: seq<string>)
    requires o < |c.options|
  {
    if Unnamed(files) then [] else if o == c.self then NamesRead(c, files) else LastFileGives(c, files, o)
  }

  function Winner(c: Config, commandLine: Results, files: seq<File>, o: nat): (r: seq<string>)
    requires o < |c.options| == |commandLine|
  {
    if commandLine[o] != [] then commandLine[o]
    else if FilesGive(c, files, o) != [] then FilesGive(c, files, o)
    else EnvValue(c, o)
  }

  /** The names an item stands for, in the order in which they are looked up. */
  function Spellings(item: Item): (r: seq<string>) {
    if |item.name| == 1 then ["--" + item.name, "-" + item.name, item.name]
    else ["--" + item.name, item.name]
  }

  /** An option that still has no value cannot take the item: a flag is given a value it does not
      allow or more inputs than it takes, or the inputs are not accepted. */
  predicate Unacceptable(c: Config, o: nat, item: Item)
    requires o < |c.options|
  {
    var spec := c.options[o];
    if spec.flag && |item.inputs| <= 1 then c.flagValue(o, item).None?
    else (spec.flag && |item.inputs| > spec.max) || !c.accepts(o, SplitAll(c, o, item.inputs))
  }

  /** The k-th spelling of the item is the first that names an option of the section. */
  predicate FirstFound(c: Config, item: Item, k: nat) {
    && k < |Spellings(item)| && c.find(item.parents, Spellings(item)[k]).Some?
    && forall i :: 0 <= i < k ==> c.find(item.parents, Spellings(item)[i]).None?
  }

  /** A configurable option gets what its inputs split into, or a flag with at most one input what
      its flag value splits into, and no other option gets anything. */
  lemma GivenItem(c: Config, item: Item, k: nat)
    requires WellFormed(c) && c.section(item.parents) && !SectionMark(item) && FirstFound(c, item, k)
    requires var o := c.find(item.parents, Spellings(item)[k]).value;
      c.options[o].configurable && !Unacceptable(c, o, item)
    ensures forall o :: 0 <= o < |c.options| ==>
      Gives(c, item, o) == if Some(o) != c.find(item.parents, Spellings(item)[k]) then []
                           else if c.options[o].flag && |item.inputs| <= 1 then c.split(o, c.flagValue(o, item).value)
                           else SplitAll(c, o, item.inputs)
  {
    TargetIsFirst(c, item, k);
    hide Spellings, Target;
  }

  /** Without delimiters the option gets the item's inputs as they are, or the flag value. */
  lemma PlainItem(c: Config, item: Item, k: nat)
    requires WellFormed(c) && c.section(item.parents) && !SectionMark(item) && FirstFound(c, item, k)
    requires var o := c.find(item.parents, Spellings(item)[k]).value;
      c.options[o].configurable && (forall v :: c.split(o, v) == [v]) && !Unacceptable(c, o, item)
    ensures forall o :: 0 <= o < |c.options| ==>
      Gives(c, item, o) == if Some(o) != c.find(item.parents, Spellings(item)[k]) then []
                           else if c.options[o].flag && |item.inputs| <= 1 then [c.flagValue(o, item).value]
                           else item.inputs
  {
    SplitPlain(c, c.find(item.parents, Spellings(item)[k]).value, item.inputs);
    GivenItem(c, item, k);
    hide Spellings, Gives;
  }

  /** The results of several inputs are those of each, in order. */
  lemma {:induction false} SplitConcat(c: Config, o: nat, a: seq<string>, b: seq<string>)
    ensures SplitAll(c, o, a + b) == SplitAll(c, o, a) + SplitAll(c, o, b)
  {
    if a == [] {
      assert a + b == b;
    } else {
      assert (a + b)[1..] == a[1..] + b;
      SplitConcat(c, o, a[1..], b);
    }
  }

  lemma TargetIsFirst(c: Config, item: Item, k: nat)
    requires FirstFound(c, item, k)
    ensures Target(c, item) == c.find(item.parents, Spellings(item)[k])
  {
    var ss := Spellings(item);
    assert c.find(item.parents, ss[k]).Some? && (k > 0 ==> c.find(item.parents, ss[0]).None?);
    if k == 2 { assert c.find(item.parents, ss[1]).None?; }
  }

  lemma {:induction false} SplitPlain(c: Config, o: nat, inputs: seq<string>)
    requires forall v :: c.split(o, v) == [v]
    ensures SplitAll(c, o, inputs) == inputs
  {
    if inputs != [] { SplitPlain(c, o, inputs[1..]); }
  }

  lemma ItemOverlay(c: Config, rs: Results, item: Item, o: nat)
    requires WellFormed(c) && |rs| == |c.options| && o < |rs| && ParseItem(c, rs, item).Ok?
    ensures ParseItem(c, rs, item).value[o] == if rs[o] != [] then rs[o] else Gives(c, item, o)
  {
  }

  lemma {:induction false} ItemsOverlay(c: Config, rs: Results, items: seq<Item>, o: nat)
    requires WellFormed(c) && |rs| == |c.options| && o < |rs| && ParseItems(c, rs, items).Ok?
    ensures ParseItems(c, rs, items).value[o] == if rs[o] != [] then rs[o] else FileGives(c, items, o)
    decreases |items|
  {
    hide ParseItem, Gives;
    if items != [] {
      ItemOverlay(c, rs, items[0], o);
      ItemsOverlay(c, ParseItem(c, rs, items[0]).value, items[1..], o);
    }
  }

  /** A file cannot set the configuration option. */
  lemma {:induction false} SelfNotGiven(c: Config, items: seq<Item>)
    requires WellFormed(c)
    ensures FileGives(c, items, c.self) == []
  {
    if items != [] { SelfNotGiven(c, items[1..]); }
  }

  lemma FileOverlay(c: Config, rs: Results, f: File, given: bool, o: nat)
    requires WellFormed(c) && |rs| == |c.options| && o < |rs| && ParseFile(c, rs, f, given).Ok?
    ensures ParseFile(c, rs, f, given).value[o] ==
      if f.NoFile? then rs[o]
      else if o == c.self then if given then rs[o] else rs[o] + c.split(o, f.name)
      else if rs[o] != [] then rs[o] else FileGives(c, f.items, o)
  {
    hide ParseItems, FileGives;
    if f.File? {
      ItemsOverlay(c, rs, f.items, o);
      SelfNotGiven(c, f.items);
    }
  }

  /** Option by option: a set value stays, and otherwise the last listed file that sets the option
      wins; the configuration option collects the names of the files, unless it was given. */
  lemma {:induction false} FilesOverlay(c: Config, rs: Results, files: seq<File>, given: bool, o: nat)
    requires WellFormed(c) && |rs| == |c.options| && o < |rs| && ParseFiles(c, rs, files, given).Ok?
    ensures ParseFiles(c, rs, files, given).value[o] ==
      if o == c.self then if given then rs[o] else rs[o] + NamesRead(c, files)
      else if rs[o] != [] then rs[o] else LastFileGives(c, files, o)
    decreases |files|
  {
    hide ParseFile, FileGives;
    if files != [] {
      var f := files[|files| - 1];
      FileOverlay(c, rs, f, given, o);
      FilesOverlay(c, ParseFile(c, rs, f, given).value, files[..|files| - 1], given, o);
    }
  }

  /* When a run fails, said without the functions above that fail. */

  /** The section of the item does not exist, or no option of it has one of the item's names. */
  predicate Unknown(c: Config, item: Item) {
    || !c.section(item.parents)
    || (!SectionMark(item) &&
        forall k :: 0 <= k < |Spellings(item)| ==> c.find(item.parents, Spellings(item)[k]).None?)
  }

  /** An option is still empty when the files `later` have been applied. */
  predicate Untouched(c: Config, rs: Results, later: seq<File>, o: nat)
    requires o < |c.options| == |rs|
  {
    rs[o] == [] && LastFileGives(c, later, o) == []
  }

  /** The option that the item's k-th spelling names does not take it: a file cannot set the option,
      or it is still empty behind the items `before` and the item's values are unacceptable. */
  ghost predicate RefusedAs(c: Config, rs: Results, later: seq<File>, before: seq<Item>, item: Item, k: nat)
    requires WellFormed(c) && |rs| == |c.options|
  {
    && c.section(item.parents) && !SectionMark(item) && FirstFound(c, item, k)
    && var o := c.find(item.parents, Spellings(item)[k]).value;
       if !c.options[o].configurable then c.extras != IgnoreAll
       else Untouched(c, rs, later, o) && FileGives(c, before, o) == [] && Unacceptable(c, o, item)
  }

  ghost predicate Refused(c: Config, rs: Results, later: seq<File>, before: seq<Item>, item: Item)
    requires WellFormed(c) && |rs| == |c.options|
  {
    || (c.extras == Error && Unknown(c, item))
    || exists k: nat :: RefusedAs(c, rs, later, before, item, k)
  }

  /** The k-th listed file is missed, or one of its items is refused. */
  ghost predicate FileRefused(c: Config, rs: Results, files: seq<File>, k: nat, given: bool)
    requires WellFormed(c) && |rs| == |c.options| && k < |files|
  {
    match files[k]
    case NoFile(_) => c.required || given
    case File(_, items) => exists i :: 0 <= i < |items| && Refused(c, rs, files[k + 1..], items[..i], items[i])
  }

  /** A run is refused: no file is named and one is required, or a named one is refused. */
  ghost predicate Fails(c: Config, rs: Results, files: seq<File>)
    requires WellFormed(c) && |rs| == |c.options|
  {
    if Unnamed(files) then c.required
    else exists k :: 0 <= k < |files| && FileRefused(c, rs, files, k, Given(c, rs))
  }

  lemma UnknownMeansNoTarget(c: Config, item: Item)
    requires c.section(item.parents) && !SectionMark(item)
    ensures Unknown(c, item) <==> Target(c, item).None?
    ensures Target(c, item).Some? ==> exists k: nat :: FirstFound(c, item, k)
  {
    var ss := Spellings(item);
    var n := |ss| - 1;
    if forall k :: 0 <= k <= n ==> c.find(item.parents, ss[k]).None? {
      assert c.find(item.parents, ss[0]).None? && c.find(item.parents, ss[1]).None?;
      assert c.find(item.parents, ss[n]).None?;
    } else if c.find(item.parents, ss[0]).Some? {
      assert FirstFound(c, item, 0);
      TargetIsFirst(c, item, 0);
    } else if c.find(item.parents, ss[1]).Some? {
      assert FirstFound(c, item, 1);
      TargetIsFirst(c, item, 1);
    } else {
      assert FirstFound(c, item, 2);
      TargetIsFirst(c, item, 2);
    }
  }

  lemma FirstFoundUnique(c: Config, item: Item, j: nat, k: nat)
    requires FirstFound(c, item, j) && FirstFound(c, item, k)
    ensures j == k
  {
    hide Spellings;
  }

  /** The state `now` is empty where the option is untouched and not set by the items before. */
  ghost predicate Behind(c: Config, rs: Results, later: seq<File>, before: seq<Item>, now: Results)
    requires WellFormed(c) && |rs| == |c.options| == |now|
  {
    forall o :: 0 <= o < |rs| && c.options[o].configurable ==>
      (now[o] == [] <==> Untouched(c, rs, later, o) && FileGives(c, before, o) == [])
  }

  lemma ItemRefused(c: Config, rs: Results, later: seq<File>, before: seq<Item>, item: Item, now: Results)
    requires WellFormed(c) && |rs| == |c.options| == |now| && Behind(c, rs, later, before, now)
    ensures ParseItem(c, now, item).Failed? <==> Refused(c, rs, later, before, item)
  {
    hide Untouched, FileGives;
    if c.section(item.parents) && !SectionMark(item) {
      UnknownMeansNoTarget(c, item);
      if Target(c, item).Some? {
        var k: nat :| FirstFound(c, item, k);
        TargetIsFirst(c, item, k);
        TargetRefused(c, rs, later, before, item, now, k);
        forall j: nat | RefusedAs(c, rs, later, before, item, j) ensures j == k {
          FirstFoundUnique(c, item, j, k);
        }
      } else {
        forall j: nat | FirstFound(c, item, j) ensures false { TargetIsFirst(c, item, j); }
      }
    }
  }

  lemma TargetRefused(c: Config, rs: Results, later: seq<File>, before: seq<Item>, item: Item, now: Results, k: nat)
    requires WellFormed(c) && |rs| == |c.options| == |now| && Behind(c, rs, later, before, now)
    requires c.section(item.parents) && !SectionMark(item) && FirstFound(c, item, k)
    requires Target(c, item) == c.find(item.parents, Spellings(item)[k])
    ensures ParseItem(c, now, item).Failed? <==> RefusedAs(c, rs, later, before, item, k)
  {
    hide Untouched, FileGives, Spellings, Target;
    var o := Target(c, item).value;
    assert c.options[o].configurable ==>
      (now[o] == [] <==> Untouched(c, rs, later, o) && FileGives(c, before, o) == []);
  }

  lemma {:induction false} ParseItemsSnoc(c: Config, rs: Results, items: seq<Item>, item: Item)
    requires WellFormed(c) && |rs| == |c.options|
    ensures var r := ParseItems(c, rs, items);
      ParseItems(c, rs, items + [item]) == if r.Failed? then Failed else ParseItem(c, r.value, item)
    decreases |items|
  {
    hide ParseItem;
    if items == [] {
      assert items + [item] == [item] && [item][1..] == [];
      var r := ParseItem(c, rs, item);
      assert r.Ok? ==> ParseItems(c, r.value, []) == r;
    } else {
      assert (items + [item])[0] == items[0] && (items + [item])[1..] == items[1..] + [item];
      var r := ParseItem(c, rs, items[0]);
      if r.Ok? { ParseItemsSnoc(c, r.value, items[1..], item); }
    }
  }

  /** The items of a file fail exactly if one of them is refused. */
  lemma {:induction false} ItemsRefused(c: Config, rs: Results, later: seq<File>, items: seq<Item>, now: Results)
    requires WellFormed(c) && |rs| == |c.options| == |now| && Behind(c, rs, later, [], now)
    ensures ParseItems(c, now, items).Failed? <==>
      exists i :: 0 <= i < |items| && Refused(c, rs, later, items[..i], items[i])
    decreases |items|
  {
    hide ParseItem, Refused, Untouched;
    if items != [] {
      var n := |items| - 1;
      var front := items[..n];
      assert front + [items[n]] == items;
      ItemsRefused(c, rs, later, front, now);
      ParseItemsSnoc(c, now, front, items[n]);
      forall i | 0 <= i < n ensures front[..i] == items[..i] && front[i] == items[i] {}
      var r := ParseItems(c, now, front);
      if r.Ok? {
        BehindItems(c, rs, later, front, now);
        ItemRefused(c, rs, later, front, items[n], r.value);
      } else {
        var i :| 0 <= i < n && Refused(c, rs, later, front[..i], front[i]);
        assert Refused(c, rs, later, items[..i], items[i]);
      }
    }
  }

  lemma BehindItems(c: Config, rs: Results, later: seq<File>, items: seq<Item>, now: Results)
    requires WellFormed(c) && |rs| == |c.options| == |now| && Behind(c, rs, later, [], now)
    requires ParseItems(c, now, items).Ok?
    ensures Behind(c, rs, later, items, ParseItems(c, now, items).value)
  {
    hide ParseItems, Untouched;
    forall o | 0 <= o < |rs| && c.options[o].configurable
      ensures ParseItems(c, now, items).value[o] == [] <==> Untouched(c, rs, later, o) && FileGives(c, items, o) == []
    {
      ItemsOverlay(c, now, items, o);
      assert now[o] == [] <==> Untouched(c, rs, later, o);
    }
  }

  /** Whether the last file was applied before or is still counted among the later ones. */
  lemma UntouchedStep(c: Config, rs: Results, files: seq<File>, given: bool, k: nat, o: nat)
    requires WellFormed(c) && |rs| == |c.options| && k + 1 < |files|
    requires o < |rs| && c.options[o].configurable && ParseFile(c, rs, files[|files| - 1], given).Ok?
    ensures var n := |files| - 1; var rs' := ParseFile(c, rs, files[n], given).value;
      Untouched(c, rs', files[..n][k + 1..], o) <==> Untouched(c, rs, files[k + 1..], o)
  {
    hide ParseFile, FileGives;
    var n := |files| - 1;
    FileOverlay(c, rs, files[n], given, o);
    var later := files[k + 1..];
    assert later[|later| - 1] == files[n] && later[..|later| - 1] == files[..n][k + 1..];
  }

  lemma RefusedStep(c: Config, rs: Results, files: seq<File>, given: bool, k: nat)
    requires WellFormed(c) && |rs| == |c.options| && k + 1 < |files|
    requires ParseFile(c, rs, files[|files| - 1], given).Ok?
    ensures var n := |files| - 1; var rs' := ParseFile(c, rs, files[n], given).value;
      FileRefused(c, rs', files[..n], k, given) <==> FileRefused(c, rs, files, k, given)
  {
    hide ParseFile, Untouched, FileGives, Spellings, FirstFound, Unacceptable, Unknown;
    var n := |files| - 1;
    var rs' := ParseFile(c, rs, files[n], given).value;
    if files[k].File? {
      var items, later, later' := files[k].items, files[k + 1..], files[..n][k + 1..];
      forall i | 0 <= i < |items|
        ensures Refused(c, rs', later', items[..i], items[i]) <==> Refused(c, rs, later, items[..i], items[i])
      {
        var before, item := items[..i], items[i];
        forall j: nat
          ensures RefusedAs(c, rs', later', before, item, j) <==> RefusedAs(c, rs, later, before, item, j)
        {
          RefusedAsStep(c, rs, files, given, k, before, item, j);
        }
      }
    }
  }

  lemma RefusedAsStep(c: Config, rs: Results, files: seq<File>, given: bool, k: nat,
                      before: seq<Item>, item: Item, j: nat)
    requires WellFormed(c) && |rs| == |c.options| && k + 1 < |files|
    requires ParseFile(c, rs, files[|files| - 1], given).Ok?
    ensures var n := |files| - 1; var rs' := ParseFile(c, rs, files[n], given).value;
      RefusedAs(c, rs', files[..n][k + 1..], before, item, j) <==> RefusedAs(c, rs, files[k + 1..], before, item, j)
  {
    hide ParseFile, Untouched, FileGives, Spellings, Unacceptable;
    if FirstFound(c, item, j) {
      var o := c.find(item.parents, Spellings(item)[j]).value;
      if c.options[o].configurable { UntouchedStep(c, rs, files, given, k, o); }
    }
  }

  /** A run over the files fails exactly if one of them is missed or holds a refused item. */
  lemma {:induction false} FilesRefused(c: Config, rs: Results, files: seq<File>, given: bool)
    requires WellFormed(c) && |rs| == |c.options|
    ensures ParseFiles(c, rs, files, given).Failed? <==>
      exists k :: 0 <= k < |files| && FileRefused(c, rs, files, k, given)
    decreases |files|
  {
    hide ParseFile, FileRefused;
    if files != [] {
      var n := |files| - 1;
      LastRefused(c, rs, files, given);
      var r := ParseFile(c, rs, files[n], given);
      if r.Ok? {
        FilesRefused(c, r.value, files[..n], given);
        forall k | 0 <= k < n
          ensures FileRefused(c, r.value, files[..n], k, given) <==> FileRefused(c, rs, files, k, given)
        {
          RefusedStep(c, rs, files, given, k);
        }
      }
    }
  }

  lemma FailsExactly(c: Config, rs: Results, files: seq<File>)
    requires WellFormed(c) && |rs| == |c.options|
    ensures Fails(c, rs, files) <==>
      if Unnamed(files) then c.required else ParseFiles(c, rs, files, Given(c, rs)).Failed?
  {
    hide ParseFiles, FileRefused, Given;
    FilesRefused(c, rs, files, Given(c, rs));
  }

  lemma LastRefused(c: Config, rs: Results, files: seq<File>, given: bool)
    requires WellFormed(c) && |rs| == |c.options| && files != []
    ensures ParseFile(c, rs, files[|files| - 1], given).Failed? <==> FileRefused(c, rs, files, |files| - 1, given)
  {
    hide ParseItems, Refused;
    var f := files[|files| - 1];
    if f.File? {
      assert files[|files|..] == [];
      assert Behind(c, rs, [], [], rs);
      ItemsRefused(c, rs, [], f.items, rs);
    }
  }

  /** An option takes what its variable's value splits into, if that is not empty: without
      delimiters the value as it is. */
  lemma EnvLaw(c: Config, o: nat)
    requires o < |c.options|
    ensures var value := c.environment(c.options[o].env);
      if c.options[o].env == "" || value == "" then EnvValue(c, o) == []
      else EnvValue(c, o) == c.split(o, value) && (c.split(o, value) == [value] ==> EnvValue(c, o) == [value])
  {
  }

  class App {
    const config: Config
    var results: Results

    ghost predicate Valid()
      reads this
    {
      WellFormed(config) && |results| == |config.options|
    }

    constructor (config: Config, commandLine: Results)
      requires WellFormed(config) && |commandLine| == |config.options|
      ensures Valid() && this.config == config && results == commandLine
    {
      this.config, results := config, commandLine;
    }

    method ParseConfig(items: seq<Item>) returns (ok: bool)
      requires Valid()
      modifies this
      ensures Valid()
      ensures ok <==> ParseItems(config, old(results), items).Ok?
      ensures ok ==> results == ParseItems(config, old(results), items).value
    {
      hide ParseItem;
      for i := 0 to |items|
        invariant Valid() && ParseItems(config, old(results), items) == ParseItems(config, results, items[i..])
      {
        var r := ParseItem(config, results, items[i]);
        assert items[i..][1..] == items[i + 1..];
        if r.Failed? { return false; }
        results := r.value;
      }
      return true;
    }

    /** The listed files are the values of the configuration option, or its default if it has none. */
    method ProcessConfigFile(files: seq<File>) returns (ok: bool)
      requires Valid()
      modifies this
      ensures Valid()
      ensures Unnamed(files) ==> (ok <==> !config.required) && results == old(results)
      ensures !Unnamed(files) ==> var r := ParseFiles(config, old(results), files, Given(config, old(results)));
        (ok <==> r.Ok?) && (ok ==> results == r.value)
      ensures ok <==> !Fails(config, old(results), files)
    {
      hide ParseItems, Fails;
      FailsExactly(config, results, files);
      var given := |results[config.self]| > 0;
      if Unnamed(files) { return !config.required; }
      var k := |files|;
      assert files[..k] == files;
      while k > 0
        invariant 0 <= k <= |files| && Valid()
        invariant ParseFiles(config, old(results), files, given) == ParseFiles(config, results, files[..k], given)
      {
        var f := files[k - 1];
        assert files[..k][..k - 1] == files[..k - 1];
        match f {
          case File(name, items) =>
            var done := ParseConfig(items);
            if !done { return false; }
            if !given {
              results := results[config.self := results[config.self] + config.split(config.self, name)];
            }
          case NoFile(_) => if config.required || given { return false; }
        }
        k := k - 1;
      }
      return true;
    }

    method ProcessEnv()
      requires Valid()
      modifies this
      ensures Valid()
      ensures forall o :: 0 <= o < |results| ==>
        results[o] == if old(results)[o] != [] then old(results)[o] else EnvValue(config, o)
    {
      for i := 0 to |results|
        invariant Valid()
        invariant forall o :: 0 <= o < i ==>
          results[o] == if old(results)[o] != [] then old(results)[o] else EnvValue(config, o)
        invariant forall o :: i <= o < |results| ==> results[o] == old(results)[o]
      {
        if |results[i]| == 0 && config.options[i].env != "" {
          var value := config.environment(config.options[i].env);
          if value != "" {
            results := results[i := results[i] + config.split(i, value)];
          }
        }
      }
    }

    /** After a run without errors every option holds its command-line results if it has any, else
        the value of the last listed file that sets it, else that of its environment variable;
        otherwise it stays empty and the application's default is used. The configuration option
        holds the names of the files read where the others hold a file's value. */
    method Process(files: seq<File>) returns (ok: bool)
      requires Valid()
      modifies this
      ensures Valid()
      ensures ok <==> !Fails(config, old(results), files)
      ensures ok ==> forall o :: 0 <= o < |results| ==> results[o] == Winner(config, old(results), files, o)
    {
      hide ParseFiles, FilesGive, Fails;
      ok := ProcessConfigFile(files);
      if !ok { return; }
      forall o | 0 <= o < |results|
        ensures results[o] == if old(results)[o] != [] then old(results)[o] else FilesGive(config, files, o)
      {
        AfterFiles(config, old(results), results, files, o);
      }
      ProcessEnv();
    }
  }

  lemma AfterFiles(c: Config, rs: Results, rs': Results, files: seq<File>, o: nat)
    requires WellFormed(c) && |rs| == |c.options| == |rs'| && o < |rs|
    requires if Unnamed(files) then rs' == rs else ParseFiles(c, rs, files, Given(c, rs)) == Ok(rs')
    ensures rs'[o] == if rs[o] != [] then rs[o] else FilesGive(c, files, o)
  {
    hide ParseFiles, LastFileGives, NamesRead;
    if !Unnamed(files) { FilesOverlay(c, rs, files, Given(c, rs), o); }
  }
}
