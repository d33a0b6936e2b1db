/** Classification of repository paths into proposals, proposal assets and the
    reviewer configuration, and extraction of a proposal's number (src/paths.ts). */
module Paths {
  import opened Wrappers
  import opened Text
  import opened Pattern
  import opened Types

  /** `/^content\/([0-9]+)(?:\/index)?.md$/` -- the dot before `md` is not escaped. */
  const RE_PROPOSAL: seq<Element> := [Lit("content/"), Digits, Optional("/index"), AnyChar, Lit("md")]
  /** `/^content\/([0-9]+)\/assets\/.*$/` */
  const RE_ASSET: seq<Element> := [Lit("content/"), Digits, Lit("/assets/"), AnyRun]
  /** `/^reviewers\.yml$/` */
  const RE_CONFIG: seq<Element> := [Lit("reviewers.yml")]

  /** The argument of the classifiers: a path, or a File whose filename is used. */
  datatype PathArg = PathText(path: string) | OfFile(file: File) {
    function Path(): string {
      match this
      case PathText(p) => p
      case OfFile(f) => f.filename
    }
  }

  predicate IsProposal(arg: PathArg) {
    Matches(RE_PROPOSAL, arg.Path())
  }

  predicate IsAsset(arg: PathArg) {
    Matches(RE_ASSET, arg.Path())
  }

  predicate IsConfig(arg: PathArg) {
    Matches(RE_CONFIG, arg.Path())
  }

  datatype PathError = NotAProposal(path: string)

  // ---------------------------------------------------------------------------
  // The languages of the three patterns, stated without the matcher.

  /** The pieces of a proposal path: a digit run, an optional `/index`, and one
      character that is not a line terminator (where the unescaped dot stands). */
  predicate ProposalParts(digits: string, index: bool, c: char) {
    digits != [] && AllDigits(digits) && !IsLineTerminator(c)
  }

  function ProposalPath(digits: string, index: bool, c: char): string {
    "content/" + digits + (if index then "/index" else "") + [c] + "md"
  }

  /** The pieces of an asset path: a digit run and a rest without line terminators. */
  predicate AssetParts(digits: string, rest: string) {
    digits != [] && AllDigits(digits) && NoLineTerminator(rest)
  }

  function AssetPath(digits: string, rest: string): string {
    "content/" + digits + "/assets/" + rest
  }

  // ---------------------------------------------------------------------------
  // Unfolding the matcher one element at a time, into shapes that no longer
  // mention it.

  predicate TailShape(t: string) {
    |t| == 3 && !IsLineTerminator(t[0]) && t[1..] == "md"
  }

  predicate OptionalTailShape(t: string) {
    TailShape(t) || (StartsWith(t, "/index") && TailShape(t[6..]))
  }

  predicate ProposalShape(s: string) {
    StartsWith(s, "content/") &&
    exists j :: 1 <= j <= |s| - 8 && AllDigits(s[8..][..j]) && OptionalTailShape(s[8..][j..])
  }

  predicate AssetShape(s: string) {
    StartsWith(s, "content/") &&
    exists j :: 1 <= j <= |s| - 8 && AllDigits(s[8..][..j])
      && StartsWith(s[8..][j..], "/assets/") && NoLineTerminator(s[8..][j..][8..])
  }

  lemma {:induction false} TailMatches(t: string)
    ensures Matches([AnyChar, Lit("md")], t) <==> TailShape(t)
  {
    assert [AnyChar, Lit("md")][1..] == [Lit("md")];
    assert [Lit("md")][1..] == [];
    if t != [] {
      if Matches([Lit("md")], t[1..]) {
        assert t[1..][|"md"|..] == [];
      }
      if |t| == 3 && t[1..] == "md" {
        assert StartsWith(t[1..], "md");
      }
    }
  }

  lemma {:induction false} OptionalTailMatches(t: string)
    ensures Matches([Optional("/index"), AnyChar, Lit("md")], t) <==> OptionalTailShape(t)
  {
    assert [Optional("/index"), AnyChar, Lit("md")][1..] == [AnyChar, Lit("md")];
    TailMatches(t);
    if StartsWith(t, "/index") {
      TailMatches(t[6..]);
    }
  }

  lemma {:induction false} ProposalMatches(s: string)
    ensures Matches(RE_PROPOSAL, s) <==> ProposalShape(s)
  {
    assert RE_PROPOSAL[1..] == [Digits, Optional("/index"), AnyChar, Lit("md")];
    assert RE_PROPOSAL[1..][1..] == [Optional("/index"), AnyChar, Lit("md")];
    if StartsWith(s, "content/") {
      forall j | 1 <= j <= |s| - 8
        ensures Matches([Optional("/index"), AnyChar, Lit("md")], s[8..][j..])
          <==> OptionalTailShape(s[8..][j..])
      {
        OptionalTailMatches(s[8..][j..]);
      }
    }
  }

  lemma {:induction false} TailSplit(u: string, j: nat)
    requires j <= |u| && TailShape(u[j..])
    ensures u == u[..j] + [u[j]] + "md"
  {
    var t := u[j..];
    assert t == [t[0]] + t[1..];
    assert u == u[..j] + t;
  }

  lemma {:induction false} IndexTailSplit(u: string, j: nat)
    requires j <= |u| && StartsWith(u[j..], "/index") && TailShape(u[j..][6..])
    ensures u == u[..j] + "/index" + [u[j..][6]] + "md"
  {
    var t := u[j..];
    TailSplit(t, 6);
    assert u == u[..j] + t;
  }

  lemma {:induction false} PlainProposalPath(s: string, j: nat)
    requires StartsWith(s, "content/") && j <= |s| - 8 && TailShape(s[8..][j..])
    ensures s == ProposalPath(s[8..][..j], false, s[8..][j])
  {
    var u := s[8..];
    TailSplit(u, j);
    assert s == s[..8] + u;
  }

  lemma {:induction false} IndexProposalPath(s: string, j: nat)
    requires StartsWith(s, "content/") && j <= |s| - 8
    requires StartsWith(s[8..][j..], "/index") && TailShape(s[8..][j..][6..])
    ensures s == ProposalPath(s[8..][..j], true, s[8..][j..][6])
  {
    var u := s[8..];
    IndexTailSplit(u, j);
    assert s == s[..8] + u;
  }

  /** Reads the pieces back out of a path of proposal shape. */
  lemma {:induction false} ProposalShapeWitness(s: string) returns (d: string, ix: bool, c: char)
    requires ProposalShape(s)
    ensures ProposalParts(d, ix, c) && s == ProposalPath(d, ix, c)
  {
    var j :| 1 <= j <= |s| - 8 && AllDigits(s[8..][..j]) && OptionalTailShape(s[8..][j..]);
    d := s[8..][..j];
    if TailShape(s[8..][j..]) {
      PlainProposalPath(s, j);
      ix, c := false, s[8..][j];
    } else {
      IndexProposalPath(s, j);
      ix, c := true, s[8..][j..][6];
    }
  }

  /** Reads the pieces back out of a path the proposal pattern matches. */
  lemma ProposalWitness(s: string) returns (d: string, ix: bool, c: char)
    requires Matches(RE_PROPOSAL, s)
    ensures ProposalParts(d, ix, c) && s == ProposalPath(d, ix, c)
  {
    ProposalMatches(s);
    d, ix, c := ProposalShapeWitness(s);
  }

  /** Every path built from proposal pieces matches the proposal pattern. */
  lemma {:induction false} ProposalOfParts(d: string, ix: bool, c: char)
    requires ProposalParts(d, ix, c)
    ensures Matches(RE_PROPOSAL, ProposalPath(d, ix, c))
  {
    var s := ProposalPath(d, ix, c);
    var u := s[8..];
    var t := (if ix then "/index" else "") + [c] + "md";
    assert s == "content/" + (d + t);
    assert u == d + t;
    assert u[..|d|] == d;
    assert u[|d|..] == t;
    if ix {
      assert StartsWith(t, "/index");
      assert t[6..] == [c] + "md";
      assert TailShape(t[6..]);
    } else {
      assert t == [c] + "md";
      assert TailShape(t);
    }
    assert OptionalTailShape(u[|d|..]);
    assert ProposalShape(s);
    ProposalMatches(s);
  }

  /** `isProposal` holds exactly for `content/`, a run of digits, an optional `/index`,
      any one character but a line terminator, and `md`. */
  lemma ProposalLanguage(s: string)
    ensures IsProposal(PathText(s)) <==>
      exists d, ix, c :: ProposalParts(d, ix, c) && s == ProposalPath(d, ix, c)
  {
    if IsProposal(PathText(s)) {
      var d, ix, c := ProposalWitness(s);
    }
    if exists d, ix, c :: ProposalParts(d, ix, c) && s == ProposalPath(d, ix, c) {
      var d, ix, c :| ProposalParts(d, ix, c) && s == ProposalPath(d, ix, c);
      ProposalOfParts(d, ix, c);
    }
  }

  lemma {:induction false} AnyRunMatches(r: string)
    ensures Matches([AnyRun], r) <==> NoLineTerminator(r)
  {
    assert [AnyRun][1..] == [];
    if NoLineTerminator(r) {
      assert r[..|r|] == r && r[|r|..] == [];
    }
    if Matches([AnyRun], r) {
      var j :| 0 <= j <= |r| && NoLineTerminator(r[..j]) && Matches([AnyRun][1..], r[j..]);
      assert r[..j] == r;
    }
  }

  lemma {:induction false} AssetTailMatches(t: string)
    ensures Matches([Lit("/assets/"), AnyRun], t) <==> StartsWith(t, "/assets/") && NoLineTerminator(t[8..])
  {
    assert [Lit("/assets/"), AnyRun][1..] == [AnyRun];
    if StartsWith(t, "/assets/") {
      AnyRunMatches(t[8..]);
    }
  }

  lemma {:induction false} AssetMatches(s: string)
    ensures Matches(RE_ASSET, s) <==> AssetShape(s)
  {
    assert RE_ASSET[1..] == [Digits, Lit("/assets/"), AnyRun];
    assert RE_ASSET[1..][1..] == [Lit("/assets/"), AnyRun];
    if StartsWith(s, "content/") {
      forall j | 1 <= j <= |s| - 8
        ensures Matches([Lit("/assets/"), AnyRun], s[8..][j..])
          <==> StartsWith(s[8..][j..], "/assets/") && NoLineTerminator(s[8..][j..][8..])
      {
        AssetTailMatches(s[8..][j..]);
      }
    }
  }

  lemma {:induction false} AssetSplit(s: string, j: nat)
    requires StartsWith(s, "content/") && j <= |s| - 8 && StartsWith(s[8..][j..], "/assets/")
    ensures s == AssetPath(s[8..][..j], s[8..][j..][8..])
  {
    var u := s[8..];
    var t := u[j..];
    assert t == t[..8] + t[8..];
    assert u == u[..j] + t;
    assert s == s[..8] + u;
  }

  /** Reads the pieces back out of a path of asset shape. */
  lemma {:induction false} AssetShapeWitness(s: string) returns (d: string, rest: string)
    requires AssetShape(s)
    ensures AssetParts(d, rest) && s == AssetPath(d, rest)
  {
    var j :| 1 <= j <= |s| - 8 && AllDigits(s[8..][..j])
      && StartsWith(s[8..][j..], "/assets/") && NoLineTerminator(s[8..][j..][8..]);
    AssetSplit(s, j);
    d, rest := s[8..][..j], s[8..][j..][8..];
  }

  /** Reads the pieces back out of a path the asset pattern matches. */
  lemma AssetWitness(s: string) returns (d: string, rest: string)
    requires Matches(RE_ASSET, s)
    ensures AssetParts(d, rest) && s == AssetPath(d, rest)
  {
    AssetMatches(s);
    d, rest := AssetShapeWitness(s);
  }

  /** Every path built from asset pieces matches the asset pattern. */
  lemma {:induction false} AssetOfParts(d: string, rest: string)
    requires AssetParts(d, rest)
    ensures Matches(RE_ASSET, AssetPath(d, rest))
  {
    var s := AssetPath(d, rest);
    var u := s[8..];
    assert s == "content/" + (d + "/assets/" + rest);
    assert u == d + "/assets/" + rest;
    assert u[..|d|] == d;
    assert u[|d|..] == "/assets/" + rest;
    assert u[|d|..][8..] == rest;
    assert AssetShape(s);
    AssetMatches(s);
  }

  /** `isAsset` holds exactly for `content/`, a run of digits, `/assets/`, and a rest
      without line terminators. */
  lemma AssetLanguage(s: string)
    ensures IsAsset(PathText(s)) <==>
      exists d, rest :: AssetParts(d, rest) && s == AssetPath(d, rest)
  {
    if IsAsset(PathText(s)) {
      var d, rest := AssetWitness(s);
    }
    if exists d, rest :: AssetParts(d, rest) && s == AssetPath(d, rest) {
      var d, rest :| AssetParts(d, rest) && s == AssetPath(d, rest);
      AssetOfParts(d, rest);
    }
  }

  /** `isConfig` holds exactly for `reviewers.yml`: the dot of this pattern is escaped. */
  lemma {:induction false} ConfigLanguage(s: string)
    ensures IsConfig(PathText(s)) <==> s == "reviewers.yml"
  {
    assert RE_CONFIG[1..] == [];
    if s == "reviewers.yml" {
      assert StartsWith(s, "reviewers.yml");
      assert s[|"reviewers.yml"|..] == [];
    }
  }

  /** After the digit run, a proposal continues with `/index`, or with one character
      and `md`; so no cut of it into digits and `/assets/` exists. */
  lemma {:induction false} TailsDisagree(u: string, j: nat, k: nat)
    requires 1 <= j <= |u| && AllDigits(u[..j]) && OptionalTailShape(u[j..])
    requires 1 <= k <= |u| && AllDigits(u[..k])
    ensures !StartsWith(u[k..], "/assets/")
  {
    if k < j {
      assert IsDigit(u[..j][k]);
    } else if !TailShape(u[j..]) {
      assert u[j] == u[j..][..6][0] == '/';
      assert k == j;
      assert u[k + 1] == u[j..][..6][1] == 'i';
    }
  }

  /** No path is both a proposal and an asset. */
  lemma ProposalNotAsset(s: string)
    ensures !(IsProposal(PathText(s)) && IsAsset(PathText(s)))
  {
    ProposalMatches(s);
    AssetMatches(s);
    if ProposalShape(s) && AssetShape(s) {
      var u := s[8..];
      var j :| 1 <= j <= |u| && AllDigits(u[..j]) && OptionalTailShape(u[j..]);
      var k :| 1 <= k <= |u| && AllDigits(u[..k])
        && StartsWith(u[k..], "/assets/") && NoLineTerminator(u[k..][8..]);
      TailsDisagree(u, j, k);
    }
  }

  // ---------------------------------------------------------------------------
  // eipNumber

  /** The text of the capture group `([0-9]+)`, read back from the end of the path. */
  function CapturedDigits(s: string): string {
    if |s| < 11 then ""
    else
      var p := s[8..|s| - 3];
      if AllDigits(p) then p
      else if |p| >= 6 then p[..|p| - 6]
      else ""
  }

  /** The pieces of a proposal path are unique, so the capture group is well defined. */
  lemma CapturedDigitsOfParts(d: string, ix: bool, c: char)
    requires ProposalParts(d, ix, c)
    ensures CapturedDigits(ProposalPath(d, ix, c)) == d
  {
    var s := ProposalPath(d, ix, c);
    var p := s[8..|s| - 3];
    if ix {
      assert p == d + "/index";
      assert !IsDigit(p[|d|]);
      assert p[..|p| - 6] == d;
    } else {
      assert p == d;
    }
  }

  /** `eipNumber(arg)`: the number of a proposal path, or the "not a proposal" error. */
  function EipNumber(arg: PathArg): (r: Result<nat, PathError>)
    ensures r.Failure? <==> !IsProposal(arg)
    ensures r.Failure? ==> r.error == NotAProposal(arg.Path())
    ensures forall d, ix, c :: (ProposalParts(d, ix, c) && arg.Path() == ProposalPath(d, ix, c)
      ==> r == Success(DigitsValue(d)))
  {
    var s := arg.Path();
    ProposalLanguage(s);
    if !IsProposal(arg) then Failure(NotAProposal(s))
    else
      var d, ix, c :| ProposalParts(d, ix, c) && s == ProposalPath(d, ix, c);
      CapturedDigitsOfParts(d, ix, c);
      assert forall d', ix', c' :: (ProposalParts(d', ix', c') && s == ProposalPath(d', ix', c')
        ==> d' == d) by {
        forall d', ix', c' | ProposalParts(d', ix', c') && s == ProposalPath(d', ix', c')
          ensures d' == d
        {
          CapturedDigitsOfParts(d', ix', c');
        }
      }
      Success(DigitsValue(CapturedDigits(s)))
  }

  /** Leading zeros do not count: `content/00001.md` is proposal 1. */
  lemma EipNumberOfPaddedPath()
    ensures EipNumber(PathText("content/00001.md")) == Success(1)
    ensures EipNumber(PathText("content/00042/index.md")) == Success(42)
  {
    PaddedFileNumber();
    PaddedDirectoryNumber();
  }

  lemma PaddedFileNumber()
    ensures EipNumber(PathText("content/00001.md")) == Success(1)
  {
    assert ProposalParts("00001", false, '.');
    assert "content/00001.md" == ProposalPath("00001", false, '.');
    assert DigitsValue("00001") == 1 by {
      assert "00001"[..4] == "0000" && "0000"[..3] == "000" && "000"[..2] == "00";
      assert "00"[..1] == "0" && "0"[..0] == "";
    }
  }

  lemma PaddedDirectoryNumber()
    ensures EipNumber(PathText("content/00042/index.md")) == Success(42)
  {
    assert ProposalParts("00042", true, '.');
    assert "content/00042/index.md" == ProposalPath("00042", true, '.');
    assert DigitsValue("00042") == 42 by {
      assert "00042"[..4] == "0004" && "0004"[..3] == "000" && "000"[..2] == "00";
      assert "00"[..1] == "0" && "0"[..0] == "";
    }
  }

  /** A File is classified by its filename alone. */
  lemma ClassifiedByFilename(f: File)
    ensures IsProposal(OfFile(f)) == IsProposal(PathText(f.filename))
    ensures IsAsset(OfFile(f)) == IsAsset(PathText(f.filename))
    ensures IsConfig(OfFile(f)) == IsConfig(PathText(f.filename))
    ensures EipNumber(OfFile(f)) == EipNumber(PathText(f.filename))
  {
  }
}
