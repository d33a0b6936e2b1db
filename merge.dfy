/** The merge step (src/merge.ts): the header normalisation of every Markdown file of a
    pull request, the pairing of the rewritten files with the originals for the pushes,
    and the choice of a new proposal number. The repository calls themselves are not
    part of this model; what they would be asked to do is returned as data. */
module Merge {
  import opened Wrappers
  import opened Text
  import opened Types

  // ---------------------------------------------------------------------------
  // JavaScript numbers, as far as the number generation needs them

  /** An integer-valued JavaScript number, `NaN` or `-Infinity`. */
  datatype JsNumber = Num(n: int) | NaN | NegInfinity

  /** `${x}`. */
  function NumberText(x: JsNumber): string {
    match x
    case Num(n) => IntToString(n)
    case NaN => "NaN"
    case NegInfinity => "-Infinity"
  }

  /** `Number(s)` for the texts a directory listing yields: surrounding whitespace is
      ignored, the empty text is 0 and a run of decimal digits is its value; every other
      text is `NaN` here. */
  function ToNumber(s: string): (x: JsNumber)
    ensures x.Num? ==> x.n >= 0
  {
    var t := Trim(s);
    if t == "" then Num(0)
    else if AllDigits(t) then Num(DigitsValue(t))
    else NaN
  }

  /** The larger of two numbers under `Math.max`: `NaN` wins, `-Infinity` loses. */
  function Max2(a: JsNumber, b: JsNumber): JsNumber {
    if a.NaN? || b.NaN? then NaN
    else if a.NegInfinity? then b
    else if b.NegInfinity? then a
    else if a.n >= b.n then a else b
  }

  /** `Math.max(...xs)`. */
  function Max(xs: seq<JsNumber>): (r: JsNumber)
    ensures r.NaN? <==> NaN in xs
    ensures r.NegInfinity? <==> forall i :: 0 <= i < |xs| ==> xs[i].NegInfinity?
    ensures r.Num? ==> r in xs && forall i :: 0 <= i < |xs| && xs[i].Num? ==> xs[i].n <= r.n
    decreases |xs|
  {
    if xs == [] then NegInfinity
    else
      var prev := xs[..|xs| - 1];
      assert forall i :: 0 <= i < |prev| ==> prev[i] == xs[i];
      assert forall x :: x in xs <==> x in prev || x == xs[|xs| - 1] by {
        assert xs == prev + [xs[|xs| - 1]];
      }
      Max2(Max(prev), xs[|xs| - 1])
  }

  /** `x + k`. */
  function AddInt(x: JsNumber, k: int): JsNumber {
    if x.Num? then Num(x.n + k) else x
  }

  /** The numbers of the listed names that start with `eip-`, each read by `read`, in
      listing order. */
  function Numbers(names: seq<string>, read: string -> JsNumber): seq<JsNumber>
    decreases |names|
  {
    if names == [] then []
    else
      var name := names[|names| - 1];
      Numbers(names[..|names| - 1], read) + (if StartsWith(name, "eip-") then [read(name)] else [])
  }

  /** Every `eip-` entry is read into the list. */
  lemma {:induction false} NumbersHas(names: seq<string>, read: string -> JsNumber, i: nat)
    requires i < |names| && StartsWith(names[i], "eip-")
    ensures read(names[i]) in Numbers(names, read)
    decreases |names|
  {
    var prev := names[..|names| - 1];
    if i < |prev| {
      assert prev[i] == names[i];
      NumbersHas(prev, read, i);
    }
  }

  /** `Number(name.split('-')[1])`. */
  function ReadAsWritten(name: string): JsNumber {
    ToNumber(Piece(name, '-', 1))
  }

  /** `generateEIPNumber` over the names of the `EIPS` directory, with `offset` standing
      for `Math.floor(Math.random() * 5)`. */
  function GenerateEipNumber(names: seq<string>, offset: nat): JsNumber
    requires offset < 5
  {
    AddInt(Max(Numbers(names, ReadAsWritten)), offset + 1)
  }

  /** The name of a proposal document in the `EIPS` directory: `eip-<digits>.md`. */
  predicate ProposalEntry(name: string) {
    |name| >= 7 && StartsWith(name, "eip-") && EndsWith(name, ".md") && AllDigits(name[4..|name| - 3])
  }

  lemma ProposalEntryParts(name: string)
    requires ProposalEntry(name)
    ensures name == "eip" + ['-'] + (name[4..|name| - 3] + ['.'] + "md")
    ensures '-' !in name[4..|name| - 3] + ['.'] + "md"
    ensures '.' !in name[4..|name| - 3]
  {
    var core := name[4..|name| - 3];
    assert name[..4] == "eip-" && name[|name| - 3..] == ".md";
    assert name == name[..4] + core + name[|name| - 3..];
    forall i | 0 <= i < |core| ensures core[i] != '-' && core[i] != '.' {
      assert IsDigit(core[i]);
    }
  }

  /** A proposal document is read as `NaN`: the piece after the dash still carries the
      `.md` extension. */
  lemma EntryReadAsNaN(name: string)
    requires ProposalEntry(name)
    ensures ReadAsWritten(name) == NaN
  {
    var core := name[4..|name| - 3];
    var piece := core + ['.'] + "md";
    ProposalEntryParts(name);
    SplitAfterPiece("eip", '-', piece);
    SplitAtFirst(piece, '-');
    assert Piece(name, '-', 1) == piece;
    assert !IsWhitespace(piece[0]) by {
      if core != [] {
        assert IsDigit(core[0]);
      }
    }
    TrimKeeps(piece);
    assert piece[|core|] == '.';
  }

  /** As written, one proposal document in the listing makes the number `NaN`, and the
      new file is named `EIPS/eip-NaN.md`. */
  lemma AsWrittenNumberIsNaN(names: seq<string>, offset: nat, i: nat)
    requires offset < 5 && i < |names| && ProposalEntry(names[i])
    ensures GenerateEipNumber(names, offset) == NaN
  {
    EntryReadAsNaN(names[i]);
    NumbersHas(names, ReadAsWritten, i);
  }

  /** `Number(name.split('-')[1].split('.')[0])`: the number with the extension dropped. */
  function ReadIntended(name: string): JsNumber {
    ToNumber(Piece(Piece(name, '-', 1), '.', 0))
  }

  /** The number generation with the extension dropped before the number is read. */
  function IntendedEipNumber(names: seq<string>, offset: nat): JsNumber
    requires offset < 5
  {
    AddInt(Max(Numbers(names, ReadIntended)), offset + 1)
  }

  /** The value of the digits of a proposal document's name. */
  function EntryNumber(name: string): nat
    requires ProposalEntry(name)
  {
    DigitsValue(name[4..|name| - 3])
  }

  /** A run of digits reads as its value. */
  lemma DigitsToNumber(core: string)
    requires AllDigits(core)
    ensures ToNumber(core) == Num(DigitsValue(core))
  {
    if core != [] {
      assert IsDigit(core[0]) && IsDigit(core[|core| - 1]);
    }
    TrimKeeps(core);
  }

  lemma IntendedPieces(name: string)
    requires ProposalEntry(name)
    ensures Piece(Piece(name, '-', 1), '.', 0) == name[4..|name| - 3]
  {
    var core := name[4..|name| - 3];
    var piece := core + ['.'] + "md";
    ProposalEntryParts(name);
    SplitAfterPiece("eip", '-', piece);
    SplitAtFirst(piece, '-');
    assert Piece(name, '-', 1) == piece;
    SplitAfterPiece(core, '.', "md");
  }

  lemma EntryReadIntended(name: string)
    requires ProposalEntry(name)
    ensures ReadIntended(name) == Num(EntryNumber(name))
  {
    IntendedPieces(name);
    DigitsToNumber(name[4..|name| - 3]);
  }

  /** Every `eip-` entry is a proposal document. */
  predicate AllProposalEntries(names: seq<string>) {
    forall i :: 0 <= i < |names| && StartsWith(names[i], "eip-") ==> ProposalEntry(names[i])
  }

  lemma MaxAppend(xs: seq<JsNumber>, x: JsNumber)
    ensures Max(xs + [x]) == Max2(Max(xs), x)
  {
    assert (xs + [x])[..|xs|] == xs;
  }

  /** A listing without `eip-` entries reads as nothing. */
  lemma {:induction false} NoEntriesNoNumbers(names: seq<string>, read: string -> JsNumber)
    requires forall i :: 0 <= i < |names| ==> !StartsWith(names[i], "eip-")
    ensures Numbers(names, read) == []
    decreases |names|
  {
    if names != [] {
      var prev := names[..|names| - 1];
      assert forall i :: 0 <= i < |prev| ==> prev[i] == names[i];
      NoEntriesNoNumbers(prev, read);
    }
  }

  /** Every reading of a listing of proposal documents is a number in use. */
  lemma {:induction false} ReadingsAreEntries(names: seq<string>, k: nat)
    requires AllProposalEntries(names) && k < |Numbers(names, ReadIntended)|
    ensures exists i :: 0 <= i < |names| && StartsWith(names[i], "eip-") && Numbers(names, ReadIntended)[k] == Num(EntryNumber(names[i]))
    decreases |names|
  {
    var last := |names| - 1;
    var prev := names[..last];
    assert forall i :: 0 <= i < |prev| ==> prev[i] == names[i];
    var xs := Numbers(prev, ReadIntended);
    if k < |xs| {
      ReadingsAreEntries(prev, k);
      var i :| 0 <= i < |prev| && StartsWith(prev[i], "eip-") && xs[k] == Num(EntryNumber(prev[i]));
      assert names[i] == prev[i];
    } else {
      EntryReadIntended(names[last]);
    }
  }

  lemma ReadingsAreNumbers(names: seq<string>)
    requires AllProposalEntries(names)
    ensures forall k :: 0 <= k < |Numbers(names, ReadIntended)| ==> Numbers(names, ReadIntended)[k].Num?
  {
    forall k | 0 <= k < |Numbers(names, ReadIntended)| ensures Numbers(names, ReadIntended)[k].Num? {
      ReadingsAreEntries(names, k);
    }
  }

  lemma EntryBelowMax(names: seq<string>, i: nat)
    requires AllProposalEntries(names) && i < |names| && StartsWith(names[i], "eip-")
    ensures Max(Numbers(names, ReadIntended)).Num?
    ensures EntryNumber(names[i]) <= Max(Numbers(names, ReadIntended)).n
  {
    var xs := Numbers(names, ReadIntended);
    EntryReadIntended(names[i]);
    NumbersHas(names, ReadIntended, i);
    ReadingsAreNumbers(names);
    var k :| 0 <= k < |xs| && xs[k] == Num(EntryNumber(names[i]));
    NumberBelowMax(xs, k);
  }

  /** In a list of numbers, the largest is a number and bounds each of them. */
  lemma NumberBelowMax(xs: seq<JsNumber>, k: nat)
    requires forall j :: 0 <= j < |xs| ==> xs[j].Num?
    requires k < |xs|
    ensures Max(xs).Num? && xs[k].n <= Max(xs).n
  {
    assert NaN !in xs;
    assert !xs[k].NegInfinity?;
  }

  /** Over a listing whose `eip-` entries are all proposal documents and include one,
      the largest reading is the largest number in use. */
  lemma MaxOfEntries(names: seq<string>)
    requires AllProposalEntries(names)
    requires exists i :: 0 <= i < |names| && StartsWith(names[i], "eip-")
    ensures Max(Numbers(names, ReadIntended)).Num?
    ensures forall i :: 0 <= i < |names| && StartsWith(names[i], "eip-") ==> EntryNumber(names[i]) <= Max(Numbers(names, ReadIntended)).n
    ensures exists i :: 0 <= i < |names| && StartsWith(names[i], "eip-") && Max(Numbers(names, ReadIntended)).n == EntryNumber(names[i])
  {
    var i0 :| 0 <= i0 < |names| && StartsWith(names[i0], "eip-");
    EntryBelowMax(names, i0);
    forall i | 0 <= i < |names| && StartsWith(names[i], "eip-")
      ensures EntryNumber(names[i]) <= Max(Numbers(names, ReadIntended)).n
    {
      EntryBelowMax(names, i);
    }
    MaxIsEntry(names);
  }

  /** A largest reading that is a number is the number of some entry. */
  lemma MaxIsEntry(names: seq<string>)
    requires AllProposalEntries(names) && Max(Numbers(names, ReadIntended)).Num?
    ensures exists i :: 0 <= i < |names| && StartsWith(names[i], "eip-") && Max(Numbers(names, ReadIntended)).n == EntryNumber(names[i])
  {
    var xs := Numbers(names, ReadIntended);
    var k :| 0 <= k < |xs| && xs[k] == Max(xs);
    ReadingsAreEntries(names, k);
  }

  /** When every `eip-` entry of the listing is a proposal document and there is one,
      the intended number is one to five above the largest number in use. */
  lemma IntendedExceedsAll(names: seq<string>, offset: nat)
    requires offset < 5
    requires AllProposalEntries(names)
    requires exists i :: 0 <= i < |names| && StartsWith(names[i], "eip-")
    ensures IntendedEipNumber(names, offset).Num?
    ensures forall i :: 0 <= i < |names| && StartsWith(names[i], "eip-") ==>
      EntryNumber(names[i]) < IntendedEipNumber(names, offset).n
    ensures exists i :: (0 <= i < |names| && StartsWith(names[i], "eip-") &&
      IntendedEipNumber(names, offset).n == EntryNumber(names[i]) + offset + 1)
  {
    MaxOfEntries(names);
  }

  // ---------------------------------------------------------------------------
  // The header normalisation (src/merge.ts:44-78)

  /** The yaml dumper, which is not part of this model. */
  type Dumper = map<string, string> -> string

  /** The UTC year, zero-based month and day of the date fourteen days ahead. */
  datatype UtcDate = UtcDate(year: int, month: int, day: int)

  /** `${year}-${month}-${day}`, unpadded, the month as `getUTCMonth` gives it. */
  function DateText(d: UtcDate): string {
    IntToString(d.year) + "-" + IntToString(d.month) + "-" + IntToString(d.day)
  }

  /** The header after the three defaults: a number when it has none, the `Draft` status
      when it has none, and a deadline when the status is `Last Call` without one; every
      other entry is kept. */
  function NewHeader(h: map<string, string>, eip: string, deadline: UtcDate): (r: map<string, string>)
    ensures "eip" in r && r["eip"] == (if Truthy(h, "eip") then h["eip"] else eip)
    ensures "status" in r && r["status"] == (if Truthy(h, "status") then h["status"] else "Draft")
    ensures r["status"] == "Last Call" && !Truthy(h, "last-call-deadline") ==>
      "last-call-deadline" in r && r["last-call-deadline"] == DateText(deadline)
    ensures !(r["status"] == "Last Call" && !Truthy(h, "last-call-deadline")) ==>
      ("last-call-deadline" in r <==> "last-call-deadline" in h) &&
      ("last-call-deadline" in h ==> r["last-call-deadline"] == h["last-call-deadline"])
    ensures forall k :: k != "eip" && k != "status" && k != "last-call-deadline" ==>
      (k in r <==> k in h) && (k in h ==> r[k] == h[k])
  {
    var h1 := if Truthy(h, "eip") then h else h["eip" := eip];
    var h2 := if Truthy(h1, "status") then h1 else h1["status" := "Draft"];
    if h2["status"] == "Last Call" && !Truthy(h2, "last-call-deadline") then
      h2["last-call-deadline" := DateText(deadline)]
    else h2
  }

  /** One Markdown file rewritten: renamed to `EIPS/eip-<number>.md` when its header has
      no number, and its text re-emitted from the normalised header and the body. Its
      status and its previous name and text are those of the original. */
  function Rewrite(f: File, parse: Parser, dump: Dumper, number: JsNumber, deadline: UtcDate): (r: File)
    ensures r.status == f.status && r.previousFilename == f.previousFilename && r.previousContents == f.previousContents
    ensures var fm := ParseText(parse, f.contents);
      r.filename == (if Truthy(fm.attributes, "eip") then f.filename else "EIPS/eip-" + NumberText(number) + ".md")
      && r.contents == Some("---\n" + dump(NewHeader(fm.attributes, NumberText(number), deadline)) + "\n---" + fm.body)
  {
    var fm := ParseText(parse, f.contents);
    var eip := NumberText(number);
    f.(filename := if Truthy(fm.attributes, "eip") then f.filename else "EIPS/eip-" + eip + ".md",
       contents := Some("---\n" + dump(NewHeader(fm.attributes, eip, deadline)) + "\n---" + fm.body))
  }

  /** The rewritten Markdown files, in order; `numbers(i)` is the number drawn for
      `files[i]` when it needs one. */
  function Rewritten(files: seq<File>, parse: Parser, dump: Dumper, numbers: nat -> JsNumber, deadline: UtcDate): seq<File>
    decreases |files|
  {
    if files == [] then []
    else
      var i := |files| - 1;
      Rewritten(files[..i], parse, dump, numbers, deadline)
      + (if EndsWith(files[i].filename, ".md") then [Rewrite(files[i], parse, dump, numbers(i), deadline)] else [])
  }

  /** The loop of src/merge.ts:44-78: each Markdown file is copied, its header completed
      step by step and its text regenerated, and the copy is appended to `newFiles`. */
  method NormaliseFiles(files: seq<File>, parse: Parser, dump: Dumper, numbers: nat -> JsNumber, deadline: UtcDate)
    returns (newFiles: seq<File>)
    ensures newFiles == Rewritten(files, parse, dump, numbers, deadline)
  {
    newFiles := [];
    for i := 0 to |files|
      invariant newFiles == Rewritten(files[..i], parse, dump, numbers, deadline)
    {
      assert files[..i + 1][..i] == files[..i];
      assert files[..i + 1][i] == files[i];
      if EndsWith(files[i].filename, ".md") {
        var file := NormaliseFile(files[i], parse, dump, numbers(i), deadline);
        newFiles := newFiles + [file];
      }
    }
    assert files[..|files|] == files;
  }

  /** The body of that loop for one Markdown file: the header is completed in place, one
      default at a time, and the file renamed when it receives a number. */
  method NormaliseFile(f: File, parse: Parser, dump: Dumper, number: JsNumber, deadline: UtcDate)
    returns (file: File)
    ensures file == Rewrite(f, parse, dump, number, deadline)
  {
    file := f;
    var fileData := ParseText(parse, file.contents);
    var frontmatter := fileData.attributes;
    if !Truthy(frontmatter, "eip") {
      frontmatter := frontmatter["eip" := NumberText(number)];
      file := file.(filename := "EIPS/eip-" + NumberText(number) + ".md");
    }
    if !Truthy(frontmatter, "status") {
      frontmatter := frontmatter["status" := "Draft"];
    }
    if frontmatter["status"] == "Last Call" && !Truthy(frontmatter, "last-call-deadline") {
      frontmatter := frontmatter["last-call-deadline" := DateText(deadline)];
    }
    assert frontmatter == NewHeader(fileData.attributes, NumberText(number), deadline);
    file := file.(contents := Some("---\n" + dump(frontmatter) + "\n---" + fileData.body));
  }

  /** The positions of the Markdown files, in increasing order. */
  function MarkdownIndices(files: seq<File>): (r: seq<nat>)
    ensures forall k :: 0 <= k < |r| ==> r[k] < |files| && EndsWith(files[r[k]].filename, ".md")
    ensures forall k, l :: 0 <= k < l < |r| ==> r[k] < r[l]
    ensures forall i :: 0 <= i < |files| && EndsWith(files[i].filename, ".md") ==> i in r
    decreases |files|
  {
    if files == [] then []
    else
      var i := |files| - 1;
      assert forall j :: 0 <= j < i ==> files[..i][j] == files[j];
      MarkdownIndices(files[..i]) + (if EndsWith(files[i].filename, ".md") then [i] else [])
  }

  /** Only the Markdown files are rewritten, one each, in order: the k-th rewritten file
      is the k-th Markdown file rewritten with the number drawn for its position. */
  lemma {:induction false} RewrittenPairing(files: seq<File>, parse: Parser, dump: Dumper, numbers: nat -> JsNumber, deadline: UtcDate)
    ensures |Rewritten(files, parse, dump, numbers, deadline)| == |MarkdownIndices(files)|
    ensures forall k :: 0 <= k < |MarkdownIndices(files)| ==>
      Rewritten(files, parse, dump, numbers, deadline)[k]
        == Rewrite(files[MarkdownIndices(files)[k]], parse, dump, numbers(MarkdownIndices(files)[k]), deadline)
    decreases |files|
  {
    if files != [] {
      var i := |files| - 1;
      var pre := files[..i];
      RewrittenPairing(pre, parse, dump, numbers, deadline);
      assert forall j :: 0 <= j < i ==> pre[j] == files[j];
      var idx, pidx := MarkdownIndices(files), MarkdownIndices(pre);
      var out, pout := Rewritten(files, parse, dump, numbers, deadline), Rewritten(pre, parse, dump, numbers, deadline);
      assert idx == pidx + (if EndsWith(files[i].filename, ".md") then [i] else []);
      assert out == pout + (if EndsWith(files[i].filename, ".md") then [Rewrite(files[i], parse, dump, numbers(i), deadline)] else []);
      forall k | 0 <= k < |idx|
        ensures out[k] == Rewrite(files[idx[k]], parse, dump, numbers(idx[k]), deadline)
      {
        if k < |pidx| {
          assert idx[k] == pidx[k] && out[k] == pout[k];
        }
      }
    }
  }

  /** A file whose header already has a number keeps its name. */
  lemma NumberedKeepsName(f: File, parse: Parser, dump: Dumper, number: JsNumber, deadline: UtcDate)
    requires Truthy(ParseText(parse, f.contents).attributes, "eip")
    ensures Rewrite(f, parse, dump, number, deadline).filename == f.filename
  {
  }

  // ---------------------------------------------------------------------------
  // The pushes (src/merge.ts:80-115)

  /** What the loop asks the repository to do. `Delete` is given the path the call is
      made with and the commit message; `Write` the path, the message and the text. */
  datatype Push = Delete(path: string, message: string) | Write(path: string, message: string, contents: Option<string>)

  /** The calls for one original file and the rewritten file at the same position. */
  function StepPushes(oldFile: File, newFile: File): seq<Push> {
    (if oldFile.filename != newFile.filename then [Delete(newFile.filename, "Delete " + oldFile.filename)] else [])
    + [Write(newFile.filename, "Update " + newFile.filename, newFile.contents)]
  }

  /** As written, a renamed file is deleted at its new path: no call touches the old
      path, so the original stays in the repository. */
  lemma RenameLeavesOldPath(oldFile: File, newFile: File)
    requires oldFile.filename != newFile.filename
    ensures |StepPushes(oldFile, newFile)| == 2
    ensures forall k :: 0 <= k < |StepPushes(oldFile, newFile)| ==> StepPushes(oldFile, newFile)[k].path != oldFile.filename
  {
  }

  /** The calls with the old path deleted, as the comment and the commit message say. */
  function IntendedStepPushes(oldFile: File, newFile: File): seq<Push> {
    (if oldFile.filename != newFile.filename then [Delete(oldFile.filename, "Delete " + oldFile.filename)] else [])
    + [Write(newFile.filename, "Update " + newFile.filename, newFile.contents)]
  }

  /** With the old path deleted, a renamed file leaves the old path and is written at the
      new one; an unrenamed file is only written. */
  lemma IntendedRenameMoves(oldFile: File, newFile: File)
    ensures oldFile.filename != newFile.filename ==>
      IntendedStepPushes(oldFile, newFile)
        == [Delete(oldFile.filename, "Delete " + oldFile.filename), Write(newFile.filename, "Update " + newFile.filename, newFile.contents)]
    ensures oldFile.filename == newFile.filename ==>
      IntendedStepPushes(oldFile, newFile) == [Write(newFile.filename, "Update " + newFile.filename, newFile.contents)]
  {
  }

  /** The first position the loop reaches that is not a removed file and has no
      rewritten file, or -1: reading that missing file's name throws. */
  function CrashFrom(files: seq<File>, newFiles: seq<File>, i: nat): (k: int)
    requires i <= |files|
    ensures k == -1 || i <= k < |files|
    ensures k >= 0 ==> files[k].status != "removed" && k >= |newFiles|
    ensures forall j :: i <= j < |files| && (k == -1 || j < k) ==> files[j].status == "removed" || j < |newFiles|
    decreases |files| - i
  {
    if i == |files| then -1
    else if files[i].status != "removed" && i >= |newFiles| then i
    else CrashFrom(files, newFiles, i + 1)
  }

  /** The calls for the first `n` positions. */
  function Plan(files: seq<File>, newFiles: seq<File>, n: nat): seq<Push>
    requires n <= |files|
    requires forall j :: 0 <= j < n ==> files[j].status == "removed" || j < |newFiles|
    decreases n
  {
    if n == 0 then []
    else
      var i := n - 1;
      Plan(files, newFiles, i) + (if files[i].status == "removed" then [] else StepPushes(files[i], newFiles[i]))
  }

  /** The push loop: position by position, removed files are skipped and every other
      original is paired with the rewritten file at the same position, although only the
      Markdown files were rewritten. The run stops with an error at the first position
      that has no rewritten file, after the calls for the positions before it. */
  method PlanPushes(files: seq<File>, newFiles: seq<File>) returns (pushes: seq<Push>, error: Option<Error>)
    ensures CrashFrom(files, newFiles, 0) == -1 ==> error == None && pushes == Plan(files, newFiles, |files|)
    ensures CrashFrom(files, newFiles, 0) >= 0 ==>
      error == Some(MissingRewrite(CrashFrom(files, newFiles, 0))) && pushes == Plan(files, newFiles, CrashFrom(files, newFiles, 0))
  {
    pushes := [];
    error := None;
    ghost var k := CrashFrom(files, newFiles, 0);
    for i := 0 to |files|
      invariant k == -1 || i <= k
      invariant pushes == Plan(files, newFiles, i)
    {
      var oldFile := files[i];
      if oldFile.status == "removed" {
        continue;
      }
      if i >= |newFiles| {
        error := Some(MissingRewrite(i));
        return;
      }
      var newFile := newFiles[i];
      if oldFile.filename != newFile.filename {
        pushes := pushes + [Delete(newFile.filename, "Delete " + oldFile.filename)];
      }
      pushes := pushes + [Write(newFile.filename, "Update " + newFile.filename, newFile.contents)];
    }
  }

  /** When every original is a Markdown file, each is paired with its own rewrite and the
      loop never stops early. */
  lemma AllMarkdownPairs(files: seq<File>, parse: Parser, dump: Dumper, numbers: nat -> JsNumber, deadline: UtcDate)
    requires forall i :: 0 <= i < |files| ==> EndsWith(files[i].filename, ".md")
    ensures |Rewritten(files, parse, dump, numbers, deadline)| == |files|
    ensures CrashFrom(files, Rewritten(files, parse, dump, numbers, deadline), 0) == -1
  {
    RewrittenPairing(files, parse, dump, numbers, deadline);
    var r := MarkdownIndices(files);
    IndicesOfAll(files, r);
  }

  lemma {:induction false} IndicesOfAll(files: seq<File>, r: seq<nat>)
    requires r == MarkdownIndices(files)
    requires forall i :: 0 <= i < |files| ==> EndsWith(files[i].filename, ".md")
    ensures |r| == |files|
    decreases |files|
  {
    if files != [] {
      var i := |files| - 1;
      assert forall j :: 0 <= j < i ==> files[..i][j] == files[j];
      IndicesOfAll(files[..i], MarkdownIndices(files[..i]));
    }
  }
}
