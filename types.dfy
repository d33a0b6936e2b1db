/** The records the rule evaluators, the reconciliation and the merge step share. */
module Types {
  import opened Wrappers
  import opened Text

  /** One changed path of a pull request. `None` stands for a field that is `undefined`. */
  datatype File = File(
    filename: string,
    status: string,
    previousFilename: Option<string>,
    contents: Option<string>,
    previousContents: Option<string>)

  /** What the front-matter library returns: the header attributes and the body after it. */
  datatype FrontMatter = FrontMatter(attributes: map<string, string>, body: string)

  /** The front-matter parser, which is not part of this model. */
  type Parser = string -> FrontMatter

  /** Group name (a category, "governance", "editors", ...) to the logins in that group. */
  type Config = map<string, seq<string>>

  /** One review requirement. `reviewers` is `None` when the configuration has no group of
      the looked-up name (the source then stores `undefined`); `prApproval` is `None` when
      the evaluator sets no `pr_approval`; an absent label list is the empty list. */
  datatype Rule = Rule(
    name: string,
    reviewers: Option<seq<string>>,
    min: int,
    prApproval: Option<bool>,
    labels: seq<string>,
    excludeLabels: seq<string>,
    annotation: string)

  /** The errors a run can raise. */
  datatype Error =
    | MissingGroup(key: string)       // `config.<key>.length` or iteration on undefined
    | MissingReviewers(rule: string)  // `rule.reviewers.includes` or `for..of` on undefined
    | MissingRewrite(index: nat)      // `newFile.filename` on a missing rewritten file

  /** `config[key]`. */
  function Lookup(config: Config, key: string): (r: Option<seq<string>>)
    ensures r.Some? <==> key in config
    ensures r.Some? ==> r.value == config[key]
  {
    if key in config then Some(config[key]) else None
  }

  /** `fm(text as string)`. Assumption: the library reads undefined text as the empty text. */
  function ParseText(parse: Parser, text: Option<string>): FrontMatter {
    parse(text.GetOr(""))
  }

  /** A header value is truthy: present and not the empty string. */
  predicate Truthy(h: map<string, string>, key: string) {
    key in h && h[key] != ""
  }

  /** `h[k1] || h[k2] || fallback`. */
  function FirstTruthy(h: map<string, string>, k1: string, k2: string, fallback: string): (r: string)
    ensures Truthy(h, k1) ==> r == h[k1]
    ensures !Truthy(h, k1) && Truthy(h, k2) ==> r == h[k2]
    ensures !Truthy(h, k1) && !Truthy(h, k2) ==> r == fallback
  {
    if Truthy(h, k1) then h[k1] else if Truthy(h, k2) then h[k2] else fallback
  }

  /** `(h.category || h.type || fallback).toLowerCase()`: the configuration group a
      rule asks, from the document's category, else its type, else the fallback. */
  function GroupOf(h: map<string, string>, fallback: string): (g: string)
    ensures Truthy(h, "category") ==> g == Lower(h["category"])
    ensures !Truthy(h, "category") && Truthy(h, "type") ==> g == Lower(h["type"])
    ensures !Truthy(h, "category") && !Truthy(h, "type") ==> g == Lower(fallback)
  {
    Lower(FirstTruthy(h, "category", "type", fallback))
  }

  /** `h.status?.toLowerCase()`. */
  function LowerStatus(h: map<string, string>): (r: Option<string>)
    ensures r.Some? <==> "status" in h
    ensures r.Some? ==> r.value == Lower(h["status"])
  {
    if "status" in h then Some(Lower(h["status"])) else None
  }

  /** `files.some(f => f.filename == name)`. */
  predicate HasFile(files: seq<File>, name: string) {
    exists i :: 0 <= i < |files| && files[i].filename == name
  }

  /** The number of entries with the given filename. */
  function CountNamed(files: seq<File>, name: string): (n: nat)
    ensures n <= |files|
    ensures n == 0 <==> !HasFile(files, name)
  {
    if files == [] then 0
    else
      assert forall i :: 1 <= i < |files| ==> files[i] == files[1..][i - 1];
      (if files[0].filename == name then 1 else 0) + CountNamed(files[1..], name)
  }

  /** A Markdown document under `EIPS/eip-` or `ERCS/erc-`: the files the "authors" and
      "new" evaluators look at (src/rules/authors.ts:12-20, src/rules/new.ts:12-19). */
  predicate InProposalFolders(name: string) {
    EndsWith(name, ".md") && (StartsWith(name, "EIPS/eip-") || StartsWith(name, "ERCS/erc-"))
  }
}
