/** The "new" evaluator (src/rules/new.ts): an added proposal document needs one
    approval from the group of its category. */
module NewRule {
  import opened Wrappers
  import opened Text
  import opened Types
  import opened Lists

  /** The header of the new text. */
  function Header(parse: Parser, f: File): map<string, string> {
    ParseText(parse, f.contents).attributes
  }

  /** At most one rule, present exactly when the file is a proposal document whose status
      is exactly `added`; its reviewers are the configured group (or none, when the group
      is missing) and it sets neither `pr_approval` nor excluded labels. */
  function CheckFile(config: Config, parse: Parser, f: File): (r: seq<Rule>)
    ensures |r| <= 1
    ensures r != [] <==> InProposalFolders(f.filename) && f.status == "added"
    ensures r != [] ==> r[0] == Rule("new", Lookup(config, GroupOf(Header(parse, f), "governance")), 1, None,
                                     ["e-review"], [], f.filename)
  {
    if !InProposalFolders(f.filename) then []
    else
      var h := Header(parse, f);
      if f.status in ["added"] then
        [Rule("new", Lookup(config, GroupOf(h, "governance")), 1, None, ["e-review"], [], f.filename)]
      else []
  }

  function FileRules(config: Config, parse: Parser): File -> seq<Rule> {
    f => CheckFile(config, parse, f)
  }

  /** The evaluator: at most one rule per file, in file order, each asking for one
      approval from a configured group and labelled for editor review. */
  function Check(config: Config, parse: Parser, files: seq<File>): (r: seq<Rule>)
    ensures |r| <= |files|
    ensures forall rule :: rule in r ==>
      rule.name == "new" && rule.min == 1 && rule.prApproval == None
      && rule.labels == ["e-review"] && rule.excludeLabels == []
      && (rule.reviewers.Some? ==> exists g :: g in config && rule.reviewers.value == config[g])
  {
    FlatMapMembers(FileRules(config, parse), files);
    forall i | 0 <= i < |files| { RuleOfFile(config, parse, files[i]); }
    FlatMap(FileRules(config, parse), files)
  }

  /** The rule of one file, if any, has the shape `Check` promises. */
  lemma RuleOfFile(config: Config, parse: Parser, f: File)
    ensures forall rule :: rule in FileRules(config, parse)(f) ==>
      rule.name == "new" && rule.min == 1 && rule.prApproval == None
      && rule.labels == ["e-review"] && rule.excludeLabels == []
      && (rule.reviewers.Some? ==> exists g :: g in config && rule.reviewers.value == config[g])
  {
    var r := CheckFile(config, parse, f);
    assert FileRules(config, parse)(f) == r;
    var g := GroupOf(Header(parse, f), "governance");
    forall rule | rule in r
      ensures rule == Rule("new", Lookup(config, g), 1, None, ["e-review"], [], f.filename)
    {
      assert r == [r[0]];
    }
    if Lookup(config, g).Some? {
      assert g in config && Lookup(config, g).value == config[g];
    }
  }

  /** The status test is exact: `Added` or `ADDED` gives no rule. */
  lemma StatusIsCaseSensitive(config: Config, parse: Parser, f: File)
    requires f.status != "added"
    ensures CheckFile(config, parse, f) == []
  {
  }

  /** The old text is never read. */
  lemma OldTextIgnored(config: Config, parse: Parser, f: File, oldText: Option<string>)
    ensures CheckFile(config, parse, f.(previousContents := oldText)) == CheckFile(config, parse, f)
  {
  }
}
