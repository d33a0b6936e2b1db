/** The "terminal" evaluator (src/rules/terminal.ts): changing a Living, Final or
    Withdrawn document needs consensus of the governance group, relaxed to a single
    approval when one of the document's authors belongs to that group. */
module TerminalRule {
  import opened Wrappers
  import opened Text
  import opened Types
  import opened Lists
  import opened Handles

  const TerminalStatuses: seq<string> := ["living", "final", "withdrawn"]

  /** The header of the old text. */
  function Header(parse: Parser, f: File): map<string, string> {
    ParseText(parse, f.previousContents).attributes
  }

  /** The handles in the old header's author field. */
  function FileHandles(parse: Parser, f: File): seq<string> {
    var h := Header(parse, f);
    TerminalHandles(if "author" in h then Some(h["author"]) else None)
  }

  /** The quorum `(min, pr_approval)`: one approval, counting the pull request's own,
      when some governance member is an author; otherwise half the group, rounded
      down, without it. */
  function Quorum(governance: seq<string>, authors: seq<string>): (q: (int, bool))
    ensures q.1 <==> exists i :: 0 <= i < |governance| && governance[i] in authors
    ensures q.1 ==> q.0 == 1
    ensures !q.1 ==> q.0 == |governance| / 2
    ensures 0 <= q.0 <= |governance|
  {
    if exists i :: 0 <= i < |governance| && governance[i] in authors then (1, true)
    else (|governance| / 2, false)
  }

  /** The loop of src/rules/terminal.ts:14-22. */
  method ComputeQuorum(governance: seq<string>, authors: seq<string>) returns (min: int, prApproval: bool)
    ensures (min, prApproval) == Quorum(governance, authors)
  {
    prApproval := false;
    min := |governance| / 2;
    var i := 0;
    while i < |governance|
      invariant 0 <= i <= |governance|
      invariant !prApproval && min == |governance| / 2
      invariant forall k :: 0 <= k < i ==> governance[k] !in authors
    {
      if governance[i] in authors {
        prApproval := true;
        min := 1;
        break;
      }
      i := i + 1;
    }
  }

  /** A Markdown file whose old status, lowercased, is living, final or withdrawn. */
  predicate IsTerminal(parse: Parser, f: File) {
    var status := LowerStatus(Header(parse, f));
    EndsWith(f.filename, ".md") && status.Some? && status.value in TerminalStatuses
  }

  /** No rule for a file that is not terminal; for a terminal one, a missing governance
      group is an error, and otherwise the rule asks the whole group for the quorum. */
  function CheckFile(config: Config, parse: Parser, f: File): (r: Result<seq<Rule>, Error>)
    ensures r.Failure? <==> IsTerminal(parse, f) && "governance" !in config
    ensures r.Failure? ==> r.error == MissingGroup("governance")
    ensures r.Success? ==> (r.value != [] <==> IsTerminal(parse, f))
    ensures r.Success? && r.value != [] ==> "governance" in config
    ensures r.Success? && r.value != [] && "governance" in config ==>
      var q := Quorum(config["governance"], FileHandles(parse, f));
      r.value == [Rule("terminal", Some(config["governance"]), q.0, Some(q.1),
                       ["e-consensus"], ["a-review"], f.filename)]
  {
    if !EndsWith(f.filename, ".md") then Success([])
    else
      var status := LowerStatus(Header(parse, f));
      if status.Some? && status.value in TerminalStatuses then
        var authors := FileHandles(parse, f);
        match Lookup(config, "governance")
        case None => Failure(MissingGroup("governance"))
        case Some(governance) =>
          var q := Quorum(governance, authors);
          Success([Rule("terminal", Some(governance), q.0, Some(q.1), ["e-consensus"], ["a-review"], f.filename)])
      else Success([])
  }

  function FileRules(config: Config, parse: Parser): File -> Result<seq<Rule>, Error> {
    f => CheckFile(config, parse, f)
  }

  /** The evaluator: fails exactly when some file needs the missing governance group. */
  function Check(config: Config, parse: Parser, files: seq<File>): (r: Result<seq<Rule>, Error>)
    ensures r.Failure? <==> exists i :: 0 <= i < |files| && CheckFile(config, parse, files[i]).Failure?
    ensures r.Failure? ==> r.error == MissingGroup("governance")
  {
    FlatMapResult(FileRules(config, parse), files)
  }

  /** A Final document whose authors are outside a four-member governance group needs two
      approvals. */
  lemma FourMembersNeedTwo(config: Config, parse: Parser, f: File)
    requires EndsWith(f.filename, ".md")
    requires LowerStatus(Header(parse, f)) == Some("final")
    requires "governance" in config && |config["governance"]| == 4
    requires forall g :: g in config["governance"] ==> g !in FileHandles(parse, f)
    ensures CheckFile(config, parse, f).Success?
    ensures var r := CheckFile(config, parse, f).value;
      |r| == 1 && r[0].min == 2 && r[0].prApproval == Some(false)
  {
    assert "final" == TerminalStatuses[1];
  }

  /** An author in the governance group brings the quorum down to one approval. */
  lemma AuthorInGovernance(config: Config, parse: Parser, f: File, g: string)
    requires EndsWith(f.filename, ".md")
    requires LowerStatus(Header(parse, f)).Some? && LowerStatus(Header(parse, f)).value in TerminalStatuses
    requires "governance" in config && g in config["governance"] && g in FileHandles(parse, f)
    ensures CheckFile(config, parse, f).Success?
    ensures var r := CheckFile(config, parse, f).value;
      |r| == 1 && r[0].min == 1 && r[0].prApproval == Some(true)
  {
    var i :| 0 <= i < |config["governance"]| && config["governance"][i] == g;
  }
}
