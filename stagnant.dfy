/** The "stagnant" evaluator (src/rules/stagnant.ts): reviving a Stagnant document needs
    one approval from the group of its category. */
module StagnantRule {
  import opened Wrappers
  import opened Text
  import opened Types
  import opened Lists

  /** The header of the old text. */
  function Header(parse: Parser, f: File): map<string, string> {
    ParseText(parse, f.previousContents).attributes
  }

  /** At most one rule, present exactly for a Markdown file whose old status is
      `stagnant` in any letter case. */
  function CheckFile(config: Config, parse: Parser, f: File): (r: seq<Rule>)
    ensures |r| <= 1
    ensures r != [] <==> EndsWith(f.filename, ".md") && LowerStatus(Header(parse, f)) == Some("stagnant")
    ensures r != [] ==> r[0] == Rule("stagnant", Lookup(config, GroupOf(Header(parse, f), "governance")), 1, Some(true),
                                     ["e-review"], [], f.filename)
  {
    if !EndsWith(f.filename, ".md") then []
    else
      var h := Header(parse, f);
      if LowerStatus(h) == Some("stagnant") then
        [Rule("stagnant", Lookup(config, GroupOf(h, "governance")), 1, Some(true), ["e-review"], [], f.filename)]
      else []
  }

  function FileRules(config: Config, parse: Parser): File -> seq<Rule> {
    f => CheckFile(config, parse, f)
  }

  /** The evaluator: at most one rule per file, in file order. */
  function Check(config: Config, parse: Parser, files: seq<File>): (r: seq<Rule>)
    ensures |r| <= |files|
    ensures forall rule :: rule in r ==>
      rule.name == "stagnant" && rule.min == 1 && rule.prApproval == Some(true)
      && rule.labels == ["e-review"] && rule.excludeLabels == []
  {
    FlatMapMembers(FileRules(config, parse), files);
    FlatMap(FileRules(config, parse), files)
  }

  /** The new text is never read. */
  lemma NewTextIgnored(config: Config, parse: Parser, f: File, contents: Option<string>)
    ensures CheckFile(config, parse, f.(contents := contents)) == CheckFile(config, parse, f)
  {
  }
}
