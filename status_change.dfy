/** The "statuschange" evaluator (src/rules/statuschange.ts): moving a document up the
    status ladder needs one approval from the group of its category. */
module StatusChangeRule {
  import opened Wrappers
  import opened Text
  import opened Types
  import opened Lists

  /** `statusOrder`, lowest first. */
  const StatusOrder: seq<string> := ["withdrawn", "stagnant", "draft", "review", "last call", "final", "living"]

  /** `statusOrder.indexOf(status)`: the rung of a lowercased status, or -1 when the
      status is absent or not on the ladder. */
  function Rank(status: Option<string>): (k: int)
    ensures -1 <= k < |StatusOrder|
    ensures k == -1 <==> status.None? || status.value !in StatusOrder
    ensures k >= 0 ==> StatusOrder[k] == status.value
  {
    match status
    case None => -1
    case Some(s) => IndexOf(StatusOrder, s)
  }

  function OldHeader(parse: Parser, f: File): map<string, string> {
    ParseText(parse, f.previousContents).attributes
  }

  function NewHeader(parse: Parser, f: File): map<string, string> {
    ParseText(parse, f.contents).attributes
  }

  /** The status moves strictly up the ladder. */
  predicate Promoted(parse: Parser, f: File) {
    Rank(LowerStatus(OldHeader(parse, f))) < Rank(LowerStatus(NewHeader(parse, f)))
  }

  /** At most one rule, present exactly for a Markdown file whose status is promoted; it
      asks for one approval, carries no labels and sets no `pr_approval`. */
  function CheckFile(config: Config, parse: Parser, f: File): (r: seq<Rule>)
    ensures |r| <= 1
    ensures r != [] <==> EndsWith(f.filename, ".md") && Promoted(parse, f)
    ensures r != [] ==> r[0] == Rule("statuschange", Lookup(config, GroupOf(NewHeader(parse, f), "all")), 1,
                                     None, [], [], f.filename)
  {
    if !EndsWith(f.filename, ".md") then []
    else
      var statusOld := LowerStatus(OldHeader(parse, f));
      var statusNew := LowerStatus(NewHeader(parse, f));
      if Rank(statusOld) < Rank(statusNew) then
        [Rule("statuschange", Lookup(config, GroupOf(NewHeader(parse, f), "all")), 1, None, [], [], f.filename)]
      else []
  }

  function FileRules(config: Config, parse: Parser): File -> seq<Rule> {
    f => CheckFile(config, parse, f)
  }

  /** The evaluator: at most one rule per file, in file order. */
  function Check(config: Config, parse: Parser, files: seq<File>): (r: seq<Rule>)
    ensures |r| <= |files|
    ensures forall rule :: rule in r ==>
      rule.name == "statuschange" && rule.min == 1 && rule.prApproval == None
      && rule.labels == [] && rule.excludeLabels == []
  {
    FlatMapMembers(FileRules(config, parse), files);
    forall i | 0 <= i < |files| { RuleOfFile(config, parse, files[i]); }
    FlatMap(FileRules(config, parse), files)
  }

  /** The rule of one file, if any, has the shape `Check` promises. */
  lemma RuleOfFile(config: Config, parse: Parser, f: File)
    ensures forall rule :: rule in FileRules(config, parse)(f) ==>
      rule.name == "statuschange" && rule.min == 1 && rule.prApproval == None
      && rule.labels == [] && rule.excludeLabels == []
  {
    var r := CheckFile(config, parse, f);
    assert FileRules(config, parse)(f) == r;
    forall rule | rule in r
      ensures rule == Rule("statuschange", Lookup(config, GroupOf(NewHeader(parse, f), "all")), 1, None, [], [], f.filename)
    {
      assert r == [r[0]];
    }
  }

  /** A new status that is absent or off the ladder never produces a rule. */
  lemma UnrankedNewStatus(config: Config, parse: Parser, f: File)
    requires Rank(LowerStatus(NewHeader(parse, f))) == -1
    ensures CheckFile(config, parse, f) == []
  {
  }

  /** An absent old status with a status on the ladder produces a rule for a Markdown
      file. */
  lemma FirstStatus(config: Config, parse: Parser, f: File)
    requires EndsWith(f.filename, ".md")
    requires "status" !in OldHeader(parse, f)
    requires "status" in NewHeader(parse, f) && Lower(NewHeader(parse, f)["status"]) in StatusOrder
    ensures |CheckFile(config, parse, f)| == 1
  {
  }

  /** An unchanged or lowered status produces no rule. */
  lemma NoPromotionNoRule(config: Config, parse: Parser, f: File, i: nat, j: nat)
    requires j <= i < |StatusOrder|
    requires LowerStatus(OldHeader(parse, f)) == Some(StatusOrder[i])
    requires LowerStatus(NewHeader(parse, f)) == Some(StatusOrder[j])
    ensures CheckFile(config, parse, f) == []
  {
    assert Rank(Some(StatusOrder[i])) == i by {
      RankOfRung(i);
    }
    RankOfRung(j);
  }

  /** The ladder holds no status twice, so each rung is found at its own place. */
  lemma RankOfRung(i: nat)
    requires i < |StatusOrder|
    ensures Rank(Some(StatusOrder[i])) == i
  {
    var k := Rank(Some(StatusOrder[i]));
    assert StatusOrder[k] == StatusOrder[i];
    assert forall a, b :: 0 <= a < b < |StatusOrder| ==> StatusOrder[a] != StatusOrder[b];
  }

  /** `Draft` to `Review` is a promotion; `Final` to `Draft` is not. */
  lemma LadderExamples()
    ensures Rank(Some("draft")) < Rank(Some("review"))
    ensures !(Rank(Some("final")) < Rank(Some("draft")))
  {
    RankOfRung(2);
    RankOfRung(3);
    RankOfRung(5);
  }
}
