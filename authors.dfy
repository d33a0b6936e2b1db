/** The "authors" evaluator (src/rules/authors.ts): a proposal document that already
    exists and is not Living needs the approval of one of its authors. */
module AuthorsRule {
  import opened Wrappers
  import opened Text
  import opened Types
  import opened Lists
  import opened Handles

  /** `file.previous_contents || file.contents`: the old text unless it is absent or
      empty. */
  function HeaderText(f: File): (r: Option<string>)
    ensures f.previousContents.Some? && f.previousContents.value != "" ==> r == f.previousContents
    ensures f.previousContents.None? || f.previousContents.value == "" ==> r == f.contents
  {
    if f.previousContents.Some? && f.previousContents.value != "" then f.previousContents
    else f.contents
  }

  /** The header the evaluator reads. */
  function Header(parse: Parser, f: File): map<string, string> {
    ParseText(parse, HeaderText(f)).attributes
  }

  /** The handles the evaluator extracts from that header. */
  function FileHandles(parse: Parser, f: File): seq<string> {
    var h := Header(parse, f);
    AuthorsHandles(if "author" in h then Some(h["author"]) else None)
  }

  /** The evaluator's decision for one file: at most one rule, present exactly when the
      file is a proposal document, not being added, whose header status is not `living`
      (both compared case-insensitively) and whose author field names a handle. */
  function CheckFile(parse: Parser, f: File): (r: seq<Rule>)
    ensures |r| <= 1
    ensures r != [] <==>
      InProposalFolders(f.filename) && Lower(f.status) != "added"
      && LowerStatus(Header(parse, f)) != Some("living") && FileHandles(parse, f) != []
    ensures r != [] ==> r[0] == Rule("authors", Some(FileHandles(parse, f)), 1, Some(true),
                                     ["a-review"], ["e-review"], f.filename)
  {
    if !InProposalFolders(f.filename) then []
    else
      var h := Header(parse, f);
      if Lower(f.status) != "added" && LowerStatus(h) != Some("living") then
        var reviewers := FileHandles(parse, f);
        if |reviewers| > 0 then
          [Rule("authors", Some(reviewers), 1, Some(true), ["a-review"], ["e-review"], f.filename)]
        else []
      else []
  }

  /** The evaluator: the rules of the files, one at most per file, in file order. Every
      rule names at least one author, asks for one approval and is labelled for author
      review. */
  function Check(config: Config, parse: Parser, files: seq<File>): (r: seq<Rule>)
    ensures |r| <= |files|
    ensures forall rule :: rule in r ==>
      rule.name == "authors" && rule.min == 1 && rule.prApproval == Some(true)
      && rule.reviewers.Some? && rule.reviewers.value != []
      && rule.labels == ["a-review"] && rule.excludeLabels == ["e-review"]
  {
    FlatMapMembers(FileRules(parse), files);
    forall i | 0 <= i < |files| { RuleOfFile(parse, files[i]); }
    FlatMap(FileRules(parse), files)
  }

  /** The rule of one file, if any, has the shape `Check` promises. */
  lemma RuleOfFile(parse: Parser, f: File)
    ensures forall rule :: rule in FileRules(parse)(f) ==>
      rule.name == "authors" && rule.min == 1 && rule.prApproval == Some(true)
      && rule.reviewers.Some? && rule.reviewers.value != []
      && rule.labels == ["a-review"] && rule.excludeLabels == ["e-review"]
  {
    var r := CheckFile(parse, f);
    assert FileRules(parse)(f) == r;
    forall rule | rule in r
      ensures rule == Rule("authors", Some(FileHandles(parse, f)), 1, Some(true), ["a-review"], ["e-review"], f.filename)
      ensures FileHandles(parse, f) != []
    {
      assert r == [r[0]];
    }
  }

  function FileRules(parse: Parser): File -> seq<Rule> {
    f => CheckFile(parse, f)
  }

  /** When the old text is present and non-empty, the new text is never read. */
  lemma OldTextWins(parse: Parser, f: File, contents: Option<string>)
    requires f.previousContents.Some? && f.previousContents.value != ""
    ensures CheckFile(parse, f.(contents := contents)) == CheckFile(parse, f)
  {
  }

  /** When the old text is absent or empty, the new text is read instead. */
  lemma NewTextFallback(parse: Parser, f: File)
    requires f.previousContents.None? || f.previousContents.value == ""
    ensures Header(parse, f) == ParseText(parse, f.contents).attributes
  {
  }

  /** A file being added (in any letter case) never needs its authors' approval. */
  lemma AddedNeedsNoAuthors(parse: Parser, f: File)
    requires Lower(f.status) == "added"
    ensures CheckFile(parse, f) == []
  {
  }

  /** A document whose author field names one author gives a rule for that author, unless
      it is being added or is Living. */
  lemma OneAuthorRule(parse: Parser, f: File, name: string, handle: string)
    requires InProposalFolders(f.filename) && Lower(f.status) != "added"
    requires LowerStatus(Header(parse, f)) != Some("living")
    requires "author" in Header(parse, f) && Header(parse, f)["author"] == name + "(@" + handle + ")"
    requires Named(name) && NoLineBreak(handle) && ')' !in handle && ',' !in name && ',' !in handle
    ensures CheckFile(parse, f) == [Rule("authors", Some([handle]), 1, Some(true),
                                         ["a-review"], ["e-review"], f.filename)]
  {
    SingleAuthor(name, handle);
  }
}
