/** The catch-all "unknown" evaluator (src/rules/unknown.ts): any path that is neither a
    proposal nor a proposal asset needs the consensus of the editors. */
module UnknownRule {
  import opened Wrappers
  import opened Text
  import opened Pattern
  import opened Types
  import opened Lists
  import Paths

  /** `/^content\/[0-9]+(\/index)?.md$/` */
  const RE_KNOWN_PROPOSAL: seq<Element> := [Lit("content/"), Digits, Optional("/index"), AnyChar, Lit("md")]
  /** `/^content\/[0-9]+\/assets\/.*$/` */
  const RE_KNOWN_ASSET: seq<Element> := [Lit("content/"), Digits, Lit("/assets/"), AnyRun]

  /** The paths the other evaluators handle: exactly the proposals and the assets of
      src/paths.ts. */
  function IsKnown(name: string): (r: bool)
    ensures r <==> Paths.IsProposal(Paths.PathText(name)) || Paths.IsAsset(Paths.PathText(name))
  {
    Matches(RE_KNOWN_PROPOSAL, name) || Matches(RE_KNOWN_ASSET, name)
  }

  /** No rule for a known path; for any other path a missing editors group is an error,
      and otherwise the rule asks the editors for half their number, rounded down. */
  function CheckFile(config: Config, f: File): (r: Result<seq<Rule>, Error>)
    ensures r.Failure? <==> !IsKnown(f.filename) && "editors" !in config
    ensures r.Failure? ==> r.error == MissingGroup("editors")
    ensures r.Success? ==> (r.value == [] <==> IsKnown(f.filename))
    ensures r.Success? && r.value != [] ==> "editors" in config
    ensures r.Success? && r.value != [] && "editors" in config ==>
      r.value == [Rule("unknown", Some(config["editors"]), |config["editors"]| / 2, Some(true),
                       ["e-consensus"], [], f.filename)]
  {
    if IsKnown(f.filename) then Success([])
    else
      match Lookup(config, "editors")
      case None => Failure(MissingGroup("editors"))
      case Some(editors) =>
        Success([Rule("unknown", Some(editors), |editors| / 2, Some(true), ["e-consensus"], [], f.filename)])
  }

  function FileRules(config: Config): File -> Result<seq<Rule>, Error> {
    f => CheckFile(config, f)
  }

  /** The evaluator: fails exactly when some unknown path meets a missing editors group. */
  function Check(config: Config, files: seq<File>): (r: Result<seq<Rule>, Error>)
    ensures r.Failure? <==> "editors" !in config && exists i :: 0 <= i < |files| && !IsKnown(files[i].filename)
    ensures r.Failure? ==> r.error == MissingGroup("editors")
  {
    FlatMapResult(FileRules(config), files)
  }

  /** The quorum never exceeds the group: 0 <= min <= number of reviewers. */
  lemma QuorumWithinGroup(config: Config, f: File)
    requires CheckFile(config, f).Success? && CheckFile(config, f).value != []
    ensures var rule := CheckFile(config, f).value[0];
      rule.reviewers.Some? && 0 <= rule.min <= |rule.reviewers.value|
  {
  }

  /** Any path outside `content/` is unknown: `EIPS/...` and `assets/...` included. */
  lemma OutsideContentIsUnknown(name: string)
    requires !StartsWith(name, "content/")
    ensures !IsKnown(name)
  {
  }

  /** Three editors give a quorum of one. */
  lemma ThreeEditorsNeedOne(config: Config, f: File)
    requires !IsKnown(f.filename)
    requires "editors" in config && |config["editors"]| == 3
    ensures CheckFile(config, f).Success?
    ensures CheckFile(config, f).value[0].min == 1
  {
  }
}
