/** The owning document of an asset file (src/rules/assets.ts:12-29): the asset evaluator
    re-runs every evaluator on that document when the pull request does not already
    touch it. */
module Assets {
  import opened Wrappers
  import opened Text
  import opened Types

  /** The document an `assets/eip-...` path belongs to: `EIPS/<second segment>.md`. The
      guard tests for `EIPS/<third segment>.md` among the files. */
  function Owner(files: seq<File>, f: File): (owner: string)
    ensures StartsWith(f.filename, "assets/eip-") && !HasFile(files, "EIPS/" + Piece(f.filename, '/', 2) + ".md")
      ==> owner == "EIPS/" + Piece(f.filename, '/', 1) + ".md"
    ensures !(StartsWith(f.filename, "assets/eip-") && !HasFile(files, "EIPS/" + Piece(f.filename, '/', 2) + ".md"))
      && StartsWith(f.filename, "assets/erc-") && !HasFile(files, "ERCS/" + Piece(f.filename, '/', 2) + ".md")
      ==> owner == "ERCS/" + Piece(f.filename, '/', 1) + ".md"
    ensures owner != "" ==> StartsWith(f.filename, "assets/eip-") || StartsWith(f.filename, "assets/erc-")
    ensures owner != "" ==> StartsWith(owner, "EIPS/") || StartsWith(owner, "ERCS/")
  {
    if StartsWith(f.filename, "assets/eip-") && !HasFile(files, "EIPS/" + Piece(f.filename, '/', 2) + ".md") then
      "EIPS/" + Piece(f.filename, '/', 1) + ".md"
    else if StartsWith(f.filename, "assets/erc-") && !HasFile(files, "ERCS/" + Piece(f.filename, '/', 2) + ".md") then
      "ERCS/" + Piece(f.filename, '/', 1) + ".md"
    else ""
  }

  /** The entry the nested run is given: the owner, `modified`, with no text at all. */
  function Synthetic(owner: string): File {
    File(owner, "modified", None, None, None)
  }

  /** An asset `assets/<n>/<name>` with `<n>` starting `eip-` belongs to `EIPS/<n>.md`
      when no `EIPS/<name>.md` is in the pull request. */
  lemma EipAssetOwner(files: seq<File>, f: File, n: string, name: string)
    requires StartsWith(n, "eip-") && '/' !in n && '/' !in name
    requires f.filename == "assets/" + n + "/" + name
    requires !HasFile(files, "EIPS/" + name + ".md")
    ensures Owner(files, f) == "EIPS/" + n + ".md"
  {
    var s := f.filename;
    AssetPieces(s, n, name);
    assert StartsWith(s, "assets/eip-") by {
      assert s[..11] == "assets/" + n[..4];
    }
  }

  lemma AssetPieces(s: string, n: string, name: string)
    requires '/' !in n && '/' !in name
    requires s == "assets/" + n + "/" + name
    ensures Piece(s, '/', 1) == n && Piece(s, '/', 2) == name
  {
    assert s == "assets" + ['/'] + (n + ['/'] + name);
    SplitAfterPiece("assets", '/', n + ['/'] + name);
    SplitAfterPiece(n, '/', name);
    SplitAtFirst(name, '/');
    assert Split(s, '/') == ["assets", n, name];
  }
}
