/** The pull-request title the bot proposes (src/namePr.ts): a ladder of tests over the
    changed files, the first that holds choosing the title; `None` is the source's
    `false`, "leave the title alone". */
module NamePr {
  import opened Wrappers
  import opened Text
  import opened Types

  /** The title prefixes of the bot's local configuration, which is not part of this
      model: `websitePrefix`, `updateEipPrefix`, `ciPrefix`, `configPrefix` and
      `addEipPrefix`. */
  datatype Prefixes = Prefixes(website: string, updateEip: string, ci: string, config: string, addEip: string)

  // ---------------------------------------------------------------------------
  // The lead before the first colon (src/namePr.ts:17-21)

  /** `title.split(":")`: the part before the first colon, trimmed, and the rest rejoined
      with colons and trimmed. Without a colon there is no lead and the title is kept
      as it is, untrimmed. */
  function StripLabel(title: string): (r: (Option<string>, string))
    ensures ':' !in title ==> r == (None, title)
    ensures ':' in title ==> var k := IndexOf(title, ':');
      r == (Some(Trim(title[..k])), Trim(title[k + 1..]))
  {
    if ':' in title then
      var parts := Split(title, ':');
      SplitAtFirst(title, ':');
      (Some(Trim(parts[0])), Trim(Join(parts[1..], ":")))
    else (None, title)
  }

  // ---------------------------------------------------------------------------
  // The tests on the files

  /** A file of the website: a page, a script, a style sheet, or an asset that belongs to
      no proposal. */
  predicate IsSiteFile(name: string) {
    EndsWith(name, ".html") || EndsWith(name, ".js") || EndsWith(name, ".css")
    || (StartsWith(name, "assets/") && !StartsWith(name, "assets/eip-") && !StartsWith(name, "assets/erc-"))
  }

  predicate TouchesSite(files: seq<File>) {
    exists i :: 0 <= i < |files| && IsSiteFile(files[i].filename)
  }

  /** The lead is truthy and, lowercased, ends with `eip-1`. */
  predicate LabelForEip1(lead: Option<string>) {
    lead.Some? && lead.value != "" && EndsWith(Lower(lead.value), "eip-1")
  }

  predicate AnyStartsWith(files: seq<File>, prefix: string) {
    exists i :: 0 <= i < |files| && StartsWith(files[i].filename, prefix)
  }

  /** `\w`. */
  predicate IsWordChar(c: char) {
    'a' <= c <= 'z' || 'A' <= c <= 'Z' || '0' <= c <= '9' || c == '_'
  }

  /** The lookbehind `(?<=status:\W?)` holds just before index `p`. */
  predicate AfterStatusKey(s: string, p: nat)
    requires p <= |s|
  {
    (p >= 7 && s[p - 7..p] == "status:")
    || (p >= 8 && s[p - 8..p - 1] == "status:" && !IsWordChar(s[p - 1]))
  }

  /** A match of `(?<=status:\W?)\w[^\r\n]*` starts at `p`. */
  predicate ValueStarts(s: string, p: nat)
    requires p < |s|
  {
    IsWordChar(s[p]) && AfterStatusKey(s, p)
  }

  /** The first index at or after `p` where a match starts, or -1. */
  function FirstValueFrom(s: string, p: nat): (k: int)
    requires p <= |s|
    ensures k == -1 || p <= k < |s|
    ensures k == -1 <==> forall q :: p <= q < |s| ==> !ValueStarts(s, q)
    ensures k >= 0 ==> ValueStarts(s, k) && forall q :: p <= q < k ==> !ValueStarts(s, q)
    decreases |s| - p
  {
    if p == |s| then -1
    else if ValueStarts(s, p) then p
    else FirstValueFrom(s, p + 1)
  }

  /** The end of the line that index `p` is on: the next `\r` or `\n`, or the end. */
  function LineEnd(s: string, p: nat): (e: nat)
    requires p <= |s|
    ensures p <= e <= |s|
    ensures forall j :: p <= j < e ==> s[j] != '\r' && s[j] != '\n'
    ensures e < |s| ==> s[e] == '\r' || s[e] == '\n'
    decreases |s| - p
  {
    if p == |s| || s[p] == '\r' || s[p] == '\n' then p else LineEnd(s, p + 1)
  }

  /** The first match of `(?<=status:\W?)\w[^\r\n]*` in `s` starts at `k` and is `v`: no
      match starts earlier, and `v` runs from `k` to the end of that line. */
  predicate FirstMatch(s: string, k: nat, v: string) {
    k < |s| && ValueStarts(s, k) && (forall q :: 0 <= q < k ==> !ValueStarts(s, q)) &&
    k + |v| <= |s| && v == s[k..k + |v|] &&
    (k + |v| == |s| || s[k + |v|] == '\r' || s[k + |v|] == '\n')
  }

  /** The first match of `(?<=status:\W?)\w[^\r\n]*` in `s`, if any: the rest of the
      line after the first `status:` (and at most one non-word character) that is
      followed by a word character. */
  function StatusValue(s: string): (r: Option<string>)
    ensures r.None? <==> forall q :: 0 <= q < |s| ==> !ValueStarts(s, q)
    ensures r.Some? ==> r.value != [] && IsWordChar(r.value[0])
    ensures r.Some? ==> '\r' !in r.value && '\n' !in r.value
    ensures r.Some? ==> exists k :: FirstMatch(s, k, r.value)
  {
    var k := FirstValueFrom(s, 0);
    if k == -1 then None
    else
      var e := LineEnd(s, k);
      FirstMatchAt(s, k, e);
      Some(s[k..e])
  }

  lemma FirstMatchAt(s: string, k: nat, e: nat)
    requires k <= e <= |s| && k < |s| && ValueStarts(s, k) && forall q :: 0 <= q < k ==> !ValueStarts(s, q)
    requires e < |s| ==> s[e] == '\r' || s[e] == '\n'
    ensures FirstMatch(s, k, s[k..e])
  {
  }

  /** The status value of a text that may be absent. */
  function StatusOf(text: Option<string>): Option<string> {
    if text.None? then None else StatusValue(text.value)
  }

  datatype Kind = Added | Modified | StatusChanged

  /** The file lies under `folder` and has the given kind of change. */
  predicate Passes(f: File, folder: string, kind: Kind) {
    StartsWith(f.filename, folder) &&
    match kind
    case Added => f.status == "added"
    case Modified => f.status == "modified"
    case StatusChanged => f.status == "modified" && StatusOf(f.contents) != StatusOf(f.previousContents)
  }

  predicate AnyPasses(files: seq<File>, folder: string, kind: Kind) {
    exists i :: 0 <= i < |files| && Passes(files[i], folder, kind)
  }

  /** `files.find(...)`, as an index: the first file that passes, or -1. */
  function FindFrom(files: seq<File>, folder: string, kind: Kind, i: nat): (k: int)
    requires i <= |files|
    ensures k == -1 || i <= k < |files|
    ensures k == -1 <==> forall j :: i <= j < |files| ==> !Passes(files[j], folder, kind)
    ensures k >= 0 ==> Passes(files[k], folder, kind) && forall j :: i <= j < k ==> !Passes(files[j], folder, kind)
    decreases |files| - i
  {
    if i == |files| then -1
    else
      var here := Passes(files[i], folder, kind);
      if here then i
      else
        var k := FindFrom(files, folder, kind, i + 1);
        k
  }

  function Find(files: seq<File>, folder: string, kind: Kind): (k: int)
    ensures k == -1 <==> !AnyPasses(files, folder, kind)
    ensures k >= 0 ==> k < |files| && Passes(files[k], folder, kind)
    ensures k >= 0 ==> forall j :: 0 <= j < k ==> !Passes(files[j], folder, kind)
  {
    FindFrom(files, folder, kind, 0)
  }

  /** `filename.split("/")[1].split(".")[0].split("-")[1]`. */
  function NumberOf(filename: string): string {
    Piece(Piece(Piece(filename, '/', 1), '.', 0), '-', 1)
  }

  /** The number of the first modified file under `folder`. */
  function ModifiedNumber(files: seq<File>, folder: string): string
    requires AnyPasses(files, folder, Modified)
  {
    NumberOf(files[Find(files, folder, Modified)].filename)
  }

  /** The new status of the first file under `folder` whose status changed, or
      "undefined" when its new text has none. */
  function NewStatus(files: seq<File>, folder: string): string
    requires AnyPasses(files, folder, StatusChanged)
  {
    StatusOf(files[Find(files, folder, StatusChanged)].contents).GetOr("undefined")
  }

  /** The title of an added proposal: the prefix and the header's title, or `false` when
      the header has no truthy title. */
  function AddedTitle(prefix: string, parse: Parser, f: File): (r: Option<string>)
    ensures r.None? <==> !Truthy(ParseText(parse, f.contents).attributes, "title")
  {
    var h := ParseText(parse, f.contents).attributes;
    if Truthy(h, "title") then Some(prefix + h["title"]) else None
  }

  lemma StatusChangeIsModification(files: seq<File>, folder: string)
    requires AnyPasses(files, folder, StatusChanged)
    ensures AnyPasses(files, folder, Modified)
  {
    var i :| 0 <= i < |files| && Passes(files[i], folder, StatusChanged);
    assert Passes(files[i], folder, Modified);
  }

  // ---------------------------------------------------------------------------
  // The ladder (src/namePr.ts:7-261)

  /** The tests before the proposal branches: none of them fire. */
  predicate NoEarlyBranch(title: string, files: seq<File>) {
    !(TouchesSite(files) && !LabelForEip1(StripLabel(title).0))
    && !HasFile(files, "EIPS/eip-1.md") && !HasFile(files, "ERCS/erc-1.md")
    && !AnyStartsWith(files, ".github/workflows")
    && !AnyStartsWith(files, "config/") && !AnyStartsWith(files, ".github")
    && !HasFile(files, "eip-template.md") && !HasFile(files, "erc-template.md")
    && !HasFile(files, "README.md")
  }

  /** When the bot leaves the title alone: no early test fires, and either the first added
      proposal has no title or no proposal is added or modified at all. A status change
      is a modification, so it never leaves the title alone. */
  predicate Untitled(parse: Parser, title: string, login: Option<string>, files: seq<File>) {
    login != Some("renovate[bot]") && NoEarlyBranch(title, files) &&
    if AnyPasses(files, "EIPS/eip-", Added) then
      !Truthy(ParseText(parse, files[Find(files, "EIPS/eip-", Added)].contents).attributes, "title")
    else if AnyPasses(files, "ERCS/erc-", Added) then
      !Truthy(ParseText(parse, files[Find(files, "ERCS/erc-", Added)].contents).attributes, "title")
    else
      !AnyPasses(files, "EIPS/eip-", Modified) && !AnyPasses(files, "ERCS/erc-", Modified)
  }

  /** `generatePRTitle`: the author's login (if any), the current title and the changed
      files give the new title, or `None` for `false`. */
  function GeneratePRTitle(pre: Prefixes, parse: Parser, title: string, login: Option<string>, files: seq<File>): (r: Option<string>)
    ensures login == Some("renovate[bot]") ==> r == Some(title)
    ensures r.None? <==> Untitled(parse, title, login, files)
  {
    if login == Some("renovate[bot]") then Some(title)
    else
      var (lead, rest) := StripLabel(title);
      if TouchesSite(files) && !LabelForEip1(lead) then Some(pre.website + rest)
      else if HasFile(files, "EIPS/eip-1.md") then Some(ReplaceFirst(pre.updateEip, "EIP-XXXX", "EIP-1") + rest)
      else if HasFile(files, "ERCS/erc-1.md") then Some(ReplaceFirst(pre.updateEip, "EIP-XXXX", "ERC-1") + rest)
      else if AnyStartsWith(files, ".github/workflows") then Some(pre.ci + rest)
      else if AnyStartsWith(files, "config/") || AnyStartsWith(files, ".github") then Some(pre.config + rest)
      else if HasFile(files, "eip-template.md") || HasFile(files, "erc-template.md") then
        Some(ReplaceFirst(pre.updateEip, "EIP-XXXX", "Template") + rest)
      else if HasFile(files, "README.md") then Some(ReplaceFirst(pre.updateEip, "EIP-XXXX", "README") + rest)
      else if AnyPasses(files, "EIPS/eip-", Added) then
        AddedTitle(pre.addEip, parse, files[Find(files, "EIPS/eip-", Added)])
      else if AnyPasses(files, "ERCS/erc-", Added) then
        AddedTitle(ReplaceFirst(pre.addEip, "EIP", "ERC"), parse, files[Find(files, "ERCS/erc-", Added)])
      else if AnyPasses(files, "EIPS/eip-", StatusChanged) then
        StatusChangeIsModification(files, "EIPS/eip-");
        Some(ReplaceFirst(pre.updateEip, "XXXX", ModifiedNumber(files, "EIPS/eip-"))
          + "Move to " + NewStatus(files, "EIPS/eip-"))
      else if AnyPasses(files, "ERCS/erc-", StatusChanged) then
        StatusChangeIsModification(files, "ERCS/erc-");
        Some(ReplaceFirst(pre.updateEip, "EIP-XXXX", "ERC-" + ModifiedNumber(files, "ERCS/erc-"))
          + "Move to " + NewStatus(files, "ERCS/erc-"))
      else if AnyPasses(files, "EIPS/eip-", Modified) then
        Some(ReplaceFirst(pre.updateEip, "XXXX", ModifiedNumber(files, "EIPS/eip-")) + rest)
      else if AnyPasses(files, "ERCS/erc-", Modified) then
        Some(ReplaceFirst(pre.updateEip, "EIP-XXXX", "ERC-" + ModifiedNumber(files, "ERCS/erc-")) + rest)
      else None
  }

  // ---------------------------------------------------------------------------
  // Properties of the ladder

  /** Without a colon, a change to the website wins over every later test. */
  lemma WebsiteFirst(pre: Prefixes, parse: Parser, title: string, login: Option<string>, files: seq<File>)
    requires login != Some("renovate[bot]") && ':' !in title && TouchesSite(files)
    ensures GeneratePRTitle(pre, parse, title, login, files) == Some(pre.website + title)
  {
  }

  /** The number of `EIPS/eip-<n>.md` is `<n>`. */
  lemma NumberOfPlain(n: string)
    requires AllDigits(n)
    ensures NumberOf("EIPS/eip-" + n + ".md") == n
  {
    assert forall c :: c in n ==> IsDigit(c) by {
      forall c | c in n ensures IsDigit(c) {
        var i :| 0 <= i < |n| && n[i] == c;
      }
    }
    var z := "eip" + ['-'] + n;
    var y := z + ['.'] + "md";
    assert "EIPS/eip-" + n + ".md" == "EIPS" + ['/'] + y;
    assert '/' !in y;
    PiecesAround("EIPS", '/', y);
    assert '.' !in z;
    PiecesAround(z, '.', "md");
    assert '-' !in n;
    PiecesAround("eip", '-', n);
  }

  /** A status line `status: <value>` gives `<value>`. */
  lemma StatusValueAfterKey(v: string)
    requires v != [] && IsWordChar(v[0]) && '\r' !in v && '\n' !in v
    ensures StatusValue("status: " + v) == Some(v)
  {
    var s := "status: " + v;
    assert s[..7] == "status:" && s[7] == ' ' && s[8..] == v;
    assert ValueStarts(s, 8);
    forall q | 0 <= q < 8 ensures !ValueStarts(s, q) {
      if q == 7 {
        assert !IsWordChar(s[7]);
      }
    }
    var k := FirstValueFrom(s, 0);
    assert k == 8;
    forall j | 8 <= j < |s| ensures s[j] != '\r' && s[j] != '\n' {
      assert s[j] == v[j - 8] && v[j - 8] in v;
    }
    assert LineEnd(s, 8) == |s|;
    assert s[8..|s|] == v;
  }

  lemma NotStartsWith(s: string, prefix: string, i: nat)
    requires i < |prefix| && i < |s| && s[i] != prefix[i]
    ensures !StartsWith(s, prefix)
  {
    if |prefix| <= |s| {
      assert s[..|prefix|][i] != prefix[i];
    }
  }

  lemma NotEndsWith(s: string, suffix: string)
    requires s != [] && suffix != [] && s[|s| - 1] != suffix[|suffix| - 1]
    ensures !EndsWith(s, suffix)
  {
    if |suffix| <= |s| {
      assert s[|s| - |suffix|..][|suffix| - 1] != suffix[|suffix| - 1];
    }
  }

  /** A Markdown file under `EIPS/eip-` other than EIP-1 fires none of the early tests. */
  lemma EipFileNotEarly(name: string)
    requires StartsWith(name, "EIPS/eip-") && EndsWith(name, ".md") && name != "EIPS/eip-1.md"
    ensures !IsSiteFile(name)
    ensures !StartsWith(name, ".github") && !StartsWith(name, "config/")
    ensures name != "ERCS/erc-1.md" && name != "README.md" && name != "eip-template.md" && name != "erc-template.md"
  {
    assert name[0] == "EIPS/eip-"[0] && name[1] == "EIPS/eip-"[1];
    assert name[|name| - 1] == ".md"[2];
    NotEndsWith(name, ".html");
    NotEndsWith(name, ".js");
    NotEndsWith(name, ".css");
    NotStartsWith(name, "assets/", 0);
    NotStartsWith(name, ".github", 0);
    NotStartsWith(name, "config/", 0);
    assert "ERCS/erc-1.md"[1] != name[1];
    assert "README.md"[0] != name[0];
    assert "eip-template.md"[0] != name[0] && "erc-template.md"[0] != name[0];
  }

  /** The file name of EIP `<n>`. */
  function EipFile(n: string): string {
    "EIPS/eip-" + n + ".md"
  }

  lemma EipFileShape(n: string)
    requires n != "1"
    ensures StartsWith(EipFile(n), "EIPS/eip-") && EndsWith(EipFile(n), ".md") && EipFile(n) != "EIPS/eip-1.md"
  {
    var name := EipFile(n);
    assert name[..9] == "EIPS/eip-";
    assert name[|name| - 3..] == ".md";
    assert name[9..] == n + ".md";
    assert "EIPS/eip-1.md"[9..] == "1.md";
    if |n| == 1 {
      assert n == [n[0]];
      assert (n + ".md")[0] == n[0] != "1.md"[0];
    } else {
      assert |n + ".md"| != |"1.md"|;
    }
  }

  /** A status line `status: <value>`. */
  predicate StatusLineValue(v: string) {
    v != [] && IsWordChar(v[0]) && '\r' !in v && '\n' !in v
  }

  /** The changed files of a pull request that only moves EIP `<n>` between statuses. */
  function StatusChangeFiles(n: string, newStatus: string, oldStatus: string): seq<File> {
    [File(EipFile(n), "modified", None, Some("status: " + newStatus), Some("status: " + oldStatus))]
  }

  lemma StatusChangeNotEarly(title: string, n: string, newStatus: string, oldStatus: string)
    requires n != "1"
    ensures NoEarlyBranch(title, StatusChangeFiles(n, newStatus, oldStatus))
    ensures !AnyPasses(StatusChangeFiles(n, newStatus, oldStatus), "EIPS/eip-", Added)
    ensures !AnyPasses(StatusChangeFiles(n, newStatus, oldStatus), "ERCS/erc-", Added)
  {
    var name := EipFile(n);
    EipFileShape(n);
    EipFileNotEarly(name);
    NotStartsWith(name, "ERCS/erc-", 1);
    var files := StatusChangeFiles(n, newStatus, oldStatus);
    assert files == [files[0]] && files[0].filename == name && files[0].status == "modified";
    OneFileNotEarly(title, files[0]);
  }

  /** A single file that fires none of the early tests on its own. */
  lemma OneFileNotEarly(title: string, f: File)
    requires !IsSiteFile(f.filename)
    requires !StartsWith(f.filename, ".github") && !StartsWith(f.filename, "config/")
    requires f.filename != "EIPS/eip-1.md" && f.filename != "ERCS/erc-1.md" && f.filename != "README.md"
    requires f.filename != "eip-template.md" && f.filename != "erc-template.md"
    ensures NoEarlyBranch(title, [f])
  {
    var files := [f];
    assert files[0] == f;
    assert ".github" + "/workflows" == ".github/workflows";
    PrefixOfPrefix(f.filename, ".github", "/workflows");
    assert !TouchesSite(files);
    assert !AnyStartsWith(files, ".github/workflows");
    assert !AnyStartsWith(files, "config/") && !AnyStartsWith(files, ".github");
    assert !HasFile(files, "EIPS/eip-1.md") && !HasFile(files, "ERCS/erc-1.md");
    assert !HasFile(files, "eip-template.md") && !HasFile(files, "erc-template.md");
    assert !HasFile(files, "README.md");
  }

  lemma StatusChangeOfFile(n: string, newStatus: string, oldStatus: string)
    requires StatusLineValue(newStatus) && StatusLineValue(oldStatus) && newStatus != oldStatus
    ensures AnyPasses(StatusChangeFiles(n, newStatus, oldStatus), "EIPS/eip-", StatusChanged)
    ensures NewStatus(StatusChangeFiles(n, newStatus, oldStatus), "EIPS/eip-") == newStatus
  {
    var f := StatusChangeFiles(n, newStatus, oldStatus)[0];
    assert StartsWith(f.filename, "EIPS/eip-");
    StatusValueAfterKey(newStatus);
    StatusValueAfterKey(oldStatus);
    assert Passes(f, "EIPS/eip-", StatusChanged);
  }

  lemma StatusChangeNumber(n: string, newStatus: string, oldStatus: string)
    requires AllDigits(n)
    ensures AnyPasses(StatusChangeFiles(n, newStatus, oldStatus), "EIPS/eip-", Modified)
    ensures ModifiedNumber(StatusChangeFiles(n, newStatus, oldStatus), "EIPS/eip-") == n
  {
    var f := StatusChangeFiles(n, newStatus, oldStatus)[0];
    assert StartsWith(f.filename, "EIPS/eip-");
    assert Passes(f, "EIPS/eip-", Modified);
    NumberOfPlain(n);
  }

  /** A pull request that only moves EIP `<n>` from one status to another is titled with
      the number and the new status, whatever its current title. */
  lemma StatusChangeTitle(pre: Prefixes, parse: Parser, title: string, n: string, newStatus: string, oldStatus: string)
    requires AllDigits(n) && n != "1"
    requires StatusLineValue(newStatus) && StatusLineValue(oldStatus) && newStatus != oldStatus
    ensures GeneratePRTitle(pre, parse, title, None, StatusChangeFiles(n, newStatus, oldStatus))
      == Some(ReplaceFirst(pre.updateEip, "XXXX", n) + "Move to " + newStatus)
  {
    StatusChangeNotEarly(title, n, newStatus, oldStatus);
    StatusChangeOfFile(n, newStatus, oldStatus);
    StatusChangeNumber(n, newStatus, oldStatus);
  }
}
