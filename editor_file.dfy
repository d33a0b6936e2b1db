/** The "editors" evaluator (src/rules/editorFile.ts): a change to the editors' own
    reviewer file needs one editor's approval. */
module EditorFileRule {
  import opened Wrappers
  import opened Text
  import opened Types
  import opened Lists

  const EDITORS_FILE: string := ".wg/reviewers.yml"

  /** The rule a change to the reviewer file gets. */
  function EditorsRule(config: Config, filename: string): Rule {
    Rule("editors", Lookup(config, "editors"), 1, Some(true), ["e-consensus"], [], filename)
  }

  /** One rule exactly for the reviewer file, none for any other path. */
  function CheckFile(config: Config, f: File): (r: seq<Rule>)
    ensures f.filename == EDITORS_FILE ==> r == [EditorsRule(config, EDITORS_FILE)]
    ensures f.filename != EDITORS_FILE ==> r == []
  {
    if f.filename != EDITORS_FILE then [] else [EditorsRule(config, f.filename)]
  }

  function FileRules(config: Config): File -> seq<Rule> {
    f => CheckFile(config, f)
  }

  /** The evaluator: one editors rule per entry naming the reviewer file. */
  function Check(config: Config, files: seq<File>): (r: seq<Rule>)
    ensures |r| == CountNamed(files, EDITORS_FILE)
    ensures forall rule :: rule in r ==> rule == EditorsRule(config, EDITORS_FILE)
  {
    FlatMapMembers(FileRules(config), files);
    CountEditorRules(config, files);
    FlatMap(FileRules(config), files)
  }

  lemma {:induction false} CountEditorRules(config: Config, files: seq<File>)
    ensures |FlatMap(FileRules(config), files)| == CountNamed(files, EDITORS_FILE)
  {
    if files != [] {
      CountEditorRules(config, files[1..]);
      assert FileRules(config)(files[0]) == CheckFile(config, files[0]);
    }
  }

  /** A proposal path such as `content/00002.md` gives nothing. */
  lemma ProposalPathGivesNothing(config: Config, f: File)
    requires f.filename == "content/00002.md"
    ensures Check(config, [f]) == []
  {
    assert f.filename[0] != EDITORS_FILE[0];
  }
}
