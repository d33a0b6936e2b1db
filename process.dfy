/** The combinator of src/process.ts and the asset evaluator of src/rules/assets.ts, which
    call each other: every evaluator runs on the same configuration and files, and the
    results are concatenated in the fixed evaluator order. */
module Process {
  import opened Wrappers
  import opened Text
  import opened Types
  import opened Lists
  import Assets
  import AuthorsRule
  import NewRule
  import StatusChangeRule
  import StagnantRule
  import TerminalRule
  import EditorFileRule
  import UnknownRule

  /** The number of entries under `assets/`: it bounds how often the asset evaluator can
      start a nested run. */
  function AssetEntries(files: seq<File>): (n: nat)
    ensures n <= |files|
  {
    if files == [] then 0
    else (if StartsWith(files[0].filename, "assets/") then 1 else 0) + AssetEntries(files[1..])
  }

  lemma {:induction false} AssetEntriesPositive(files: seq<File>, i: nat)
    requires i < |files| && StartsWith(files[i].filename, "assets/")
    ensures AssetEntries(files) >= 1
  {
    if i > 0 {
      AssetEntriesPositive(files[1..], i - 1);
    }
  }

  /** An asset path of either kind lies under `assets/`. */
  lemma UnderAssets(name: string)
    requires StartsWith(name, "assets/eip-") || StartsWith(name, "assets/erc-")
    ensures StartsWith(name, "assets/")
  {
    assert "assets/" + "eip-" == "assets/eip-" && "assets/" + "erc-" == "assets/erc-";
    if StartsWith(name, "assets/eip-") {
      PrefixOfPrefix(name, "assets/", "eip-");
    } else {
      PrefixOfPrefix(name, "assets/", "erc-");
    }
  }

  /** An owner path starts `EIPS/` or `ERCS/`, so it is not under `assets/`. */
  lemma SyntheticIsNoAsset(owner: string)
    requires StartsWith(owner, "EIPS/") || StartsWith(owner, "ERCS/")
    ensures AssetEntries([Assets.Synthetic(owner)]) == 0
  {
    assert owner[0] != 'a';
  }

  /** The asset evaluator on one file: nothing unless the file has an owning document
      that the pull request does not touch; then the whole rule set of that document
      alone. */
  function AssetFileRules(config: Config, parse: Parser, files: seq<File>, i: nat): (r: Result<seq<Rule>, Error>)
    requires i < |files|
    decreases AssetEntries(files), 0, 0
  {
    var owner := Assets.Owner(files, files[i]);
    if owner == "" then Success([])
    else if HasFile(files, owner) then Success([])
    else
      UnderAssets(files[i].filename);
      AssetEntriesPositive(files, i);
      SyntheticIsNoAsset(owner);
      ProcessFiles(config, parse, [Assets.Synthetic(owner)])
  }

  /** The asset evaluator on `files[i..]`, in file order. */
  function AssetsFrom(config: Config, parse: Parser, files: seq<File>, i: nat): (r: Result<seq<Rule>, Error>)
    requires i <= |files|
    decreases AssetEntries(files), 1, |files| - i
  {
    if i == |files| then Success([])
    else
      var head :- AssetFileRules(config, parse, files, i);
      var tail :- AssetsFrom(config, parse, files, i + 1);
      Success(head + tail)
  }

  /** The seven evaluators after the asset one, in order; terminal's failure comes
      before unknown's. */
  function OtherRules(config: Config, parse: Parser, files: seq<File>): (r: Result<seq<Rule>, Error>)
    ensures r.Success? <==> TerminalRule.Check(config, parse, files).Success? && UnknownRule.Check(config, files).Success?
    ensures r.Failure? ==> r.error == MissingGroup("governance") || r.error == MissingGroup("editors")
    ensures r.Success? ==> (|r.value| ==
      |AuthorsRule.Check(config, parse, files)| + |NewRule.Check(config, parse, files)|
      + |StatusChangeRule.Check(config, parse, files)| + |StagnantRule.Check(config, parse, files)|
      + |TerminalRule.Check(config, parse, files).value| + |EditorFileRule.Check(config, files)|
      + |UnknownRule.Check(config, files).value|)
  {
    var terminal :- TerminalRule.Check(config, parse, files);
    var unknown :- UnknownRule.Check(config, files);
    Success(AuthorsRule.Check(config, parse, files)
      + NewRule.Check(config, parse, files)
      + StatusChangeRule.Check(config, parse, files)
      + StagnantRule.Check(config, parse, files)
      + terminal
      + EditorFileRule.Check(config, files)
      + unknown)
  }

  /** `processFiles`: the eight evaluators in the order assets, authors, new, statuschange,
      stagnant, terminal, editors, unknown, each on the same configuration and files,
      their rules concatenated without dropping or merging any; the first evaluator in
      that order that fails decides the error. */
  function ProcessFiles(config: Config, parse: Parser, files: seq<File>): (r: Result<seq<Rule>, Error>)
    ensures r.Success? <==> AssetsFrom(config, parse, files, 0).Success? && OtherRules(config, parse, files).Success?
    ensures r.Success? ==> r.value == AssetsFrom(config, parse, files, 0).value + OtherRules(config, parse, files).value
    ensures AssetsFrom(config, parse, files, 0).Failure? ==> r == Failure(AssetsFrom(config, parse, files, 0).error)
    ensures AssetsFrom(config, parse, files, 0).Success? && OtherRules(config, parse, files).Failure? ==>
      r == Failure(OtherRules(config, parse, files).error)
    decreases AssetEntries(files), 2, 0
  {
    var assets :- AssetsFrom(config, parse, files, 0);
    var others :- OtherRules(config, parse, files);
    Success(assets + others)
  }

  /** Without entries under `assets/eip-` or `assets/erc-`, the asset evaluator adds
      nothing. */
  lemma {:induction false} NoAssetEntries(config: Config, parse: Parser, files: seq<File>, i: nat)
    requires i <= |files|
    requires forall k :: i <= k < |files| ==>
      !StartsWith(files[k].filename, "assets/eip-") && !StartsWith(files[k].filename, "assets/erc-")
    ensures AssetsFrom(config, parse, files, i) == Success([])
    decreases |files| - i
  {
    if i < |files| {
      NoAssetEntries(config, parse, files, i + 1);
      assert Assets.Owner(files, files[i]) == "";
      assert AssetFileRules(config, parse, files, i) == Success([]);
      var none: seq<Rule> := [];
      assert none + none == none;
      assert AssetsFrom(config, parse, files, i) == Success(none + none);
    }
  }

  /** The nested run on an owner document contains no further nested run: its result is
      that of the seven other evaluators on the synthetic entry. */
  lemma DepthOne(config: Config, parse: Parser, owner: string)
    requires StartsWith(owner, "EIPS/") || StartsWith(owner, "ERCS/")
    ensures ProcessFiles(config, parse, [Assets.Synthetic(owner)]) == OtherRules(config, parse, [Assets.Synthetic(owner)])
  {
    assert owner[0] != 'a';
    NoAssetEntries(config, parse, [Assets.Synthetic(owner)], 0);
    WithoutAssetRules(config, parse, [Assets.Synthetic(owner)]);
  }

  lemma WithoutAssetRules(config: Config, parse: Parser, files: seq<File>)
    requires AssetsFrom(config, parse, files, 0) == Success([])
    ensures ProcessFiles(config, parse, files) == OtherRules(config, parse, files)
  {
    var others := OtherRules(config, parse, files);
    var r := ProcessFiles(config, parse, files);
    if others.Success? {
      assert r.value == [] + others.value == others.value;
      assert r == Success(r.value) && others == Success(others.value);
    } else {
      assert r == Failure(others.error) && others == Failure(others.error);
    }
  }

  /** An asset whose owning document is itself part of the pull request adds nothing. */
  lemma OwnerAlreadyChanged(config: Config, parse: Parser, files: seq<File>, i: nat)
    requires i < |files| && HasFile(files, Assets.Owner(files, files[i]))
    ensures AssetFileRules(config, parse, files, i) == Success([])
  {
  }

  /** An asset whose owning document is not part of the pull request gets the rules of
      that document alone, modified and without text. */
  lemma OwnerNotChanged(config: Config, parse: Parser, files: seq<File>, i: nat)
    requires i < |files|
    requires Assets.Owner(files, files[i]) != "" && !HasFile(files, Assets.Owner(files, files[i]))
    ensures AssetFileRules(config, parse, files, i)
      == OtherRules(config, parse, [Assets.Synthetic(Assets.Owner(files, files[i]))])
  {
    DepthOne(config, parse, Assets.Owner(files, files[i]));
  }
}
