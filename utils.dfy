/** The second copy of the proposal and asset classifiers (src/utils.ts), with its own
    patterns. */
module Utils {
  import opened Pattern
  import opened Types
  import Paths

  /** `/^content\/([0-9]+)(?:\/index)?.md$/` */
  const RE_PROPOSAL: seq<Element> := [Lit("content/"), Digits, Optional("/index"), AnyChar, Lit("md")]
  /** `/^content\/([0-9]+)\/assets\/.*$/` */
  const RE_ASSET: seq<Element> := [Lit("content/"), Digits, Lit("/assets/"), AnyRun]

  function PathOf(arg: Paths.PathArg): string {
    match arg
    case PathText(p) => p
    case OfFile(f) => f.filename
  }

  /** Holds exactly for the proposal paths of src/paths.ts, and for a File exactly when
      its filename is one. */
  function IsProposal(arg: Paths.PathArg): (r: bool)
    ensures r == Paths.IsProposal(arg)
    ensures r <==> exists d, ix, c :: Paths.ProposalParts(d, ix, c) && PathOf(arg) == Paths.ProposalPath(d, ix, c)
  {
    Paths.ProposalLanguage(PathOf(arg));
    Matches(RE_PROPOSAL, PathOf(arg))
  }

  /** Holds exactly for the asset paths of src/paths.ts, and for a File exactly when its
      filename is one. */
  function IsAsset(arg: Paths.PathArg): (r: bool)
    ensures r == Paths.IsAsset(arg)
    ensures r <==> exists d, rest :: Paths.AssetParts(d, rest) && PathOf(arg) == Paths.AssetPath(d, rest)
  {
    Paths.AssetLanguage(PathOf(arg));
    Matches(RE_ASSET, PathOf(arg))
  }

  /** No path is both a proposal and an asset under these copies either. */
  lemma ProposalNotAsset(arg: Paths.PathArg)
    ensures !(IsProposal(arg) && IsAsset(arg))
  {
    Paths.ProposalNotAsset(PathOf(arg));
  }

  /** A File is classified by its filename alone. */
  lemma ClassifiedByFilename(f: File)
    ensures IsProposal(Paths.OfFile(f)) == IsProposal(Paths.PathText(f.filename))
    ensures IsAsset(Paths.OfFile(f)) == IsAsset(Paths.PathText(f.filename))
  {
  }
}
