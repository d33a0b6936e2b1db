# eip-review-bot, modelled in Dafny

This project models the decision logic of the EIP review bot. The bot is a GitHub
Action that watches pull requests against the EIP/ERC repositories and does three things:

* **Review rules.** Eight evaluators each look at the changed files of a pull request and
  produce review rules. A rule names a group of reviewers and the number of approvals
  still needed from it, and it is annotated with the file it is about. The evaluators are
  assets, authors, new, statuschange, stagnant, terminal, editors and unknown. The
  combinator concatenates their rules in that fixed order. The asset evaluator starts a
  nested run on an asset's owning document.
* **Reconciliation.** The action credits every approving review to the rules that list
  the reviewer and drops the rules that are satisfied. It then decides whether the pull
  request passes, and writes the comment listing, file by file, how many approvals each
  distinct group of reviewers still owes.
* **Titles and merging.** The bot proposes a pull-request title from a ladder of tests on
  the changed files. At merge time it normalises the header of every Markdown file: it
  draws a proposal number, defaults the status to `Draft` and sets a Last Call deadline.
  It then plans the repository writes.

Modules, one per source file:

| Dafny module | File | What it models |
|---|---|---|
| `Wrappers` | `wrappers.dfy` | `Option` and `Result`, which stand for `undefined` and for thrown errors. |
| `Text` | `text.dfy` | The JavaScript string operations the bot relies on: split, join, trim, `toLowerCase`, `replace`, `indexOf`, the default `sort` and number printing. |
| `Pattern` | `pattern.dfy` | The fragment of anchored regular expressions the path patterns use. |
| `Paths` | `paths.dfy` | `src/paths.ts` |
| `Utils` | `utils.dfy` | `src/utils.ts` |
| `Types` | `types.dfy` | Files, rules, configuration and front matter. |
| `Lists` | `lists.dfy` | The "map the files, then flatten the lists" combinator, with and without failure. |
| `Handles` | `handles.dfy` | The author-handle extraction of the two author patterns. |
| `AuthorsRule`, `NewRule`, `StatusChangeRule`, `StagnantRule`, `TerminalRule`, `EditorFileRule`, `UnknownRule` | one file per rule | The evaluators of `src/rules/`. |
| `Assets` | `assets.dfy` | How an asset's owner is derived. |
| `Process` | `process.dfy` | `src/process.ts` together with the asset evaluator, which calls it recursively. |
| `Action` | `action.dfy` | The reconciliation part of `src/action.ts`. |
| `NamePr` | `name_pr.dfy` | `src/namePr.ts` |
| `Merge` | `merge.dfy` | `src/merge.ts` |

Inputs that come from outside the modelled code are parameters:

* the front-matter parser, as `parse: string -> FrontMatter`;
* the yaml dumper;
* the title prefixes of the local configuration;
* the random offset of the number generation;
* the date fourteen days ahead;
* the number drawn for each file;
* the results of the GitHub API calls: the changed files, the reviews, the logins already requested and the directory listing.

Where the source runs a loop over mutable state, the model has a method with a loop:

* `Action.ApplyReviews`, `Action.ScanReviewers`, `Action.CollectRequests`, `Action.FileLines` and `Action.BuildComment`;
* `TerminalRule.ComputeQuorum`;
* `Merge.NormaliseFiles` (with its body `Merge.NormaliseFile`) and `Merge.PlanPushes`.

Each of these methods is proved equal to a specification function. The properties are then proved about that function.

Where the code and a reading of its intent differ, the model follows the code. Three places where this matters:

* **The configuration pattern.** `reviewers\.yml` has an escaped dot, so only that exact name matches.
* **The proposal patterns.** They leave the dot before `md` unescaped, so any one character other than a line terminator is accepted there.
* **The asset evaluator.** It tests for `EIPS/<third segment>.md` but names the owner `EIPS/<second segment>.md`. Both are modelled as written.

## Model

| member | source | states |
|---|---|---|
| Text.Split | src/namePr.ts:19 | `split` on a one-character separator yields at least one piece, and no piece contains the separator |
| Text.JoinSplit | src/namePr.ts:19-20 | splitting at `:` and joining with `:` gives the text back, so the title after the lead is exactly the text after the first colon |
| Text.SplitAtFirst | src/namePr.ts:19-20 | the first piece is the text before the first separator; the rest, joined, is the text after it |
| Text.Piece | src/namePr.ts:152-154 | `s.split(c)[i]` is the i-th piece when there is one, and prints as `undefined` otherwise |
| Text.Trim | src/namePr.ts:19 | `trim` keeps the contiguous part of the text left once the white space at both ends is removed: everything before and after it is white space, and it neither starts nor ends with white space |
| Text.ReplaceFirstSpec | src/namePr.ts:43 | `replace` with a string pattern replaces only the first occurrence; the text before it and everything after it, later occurrences included, are kept |
| Text.ReplaceFirstAbsent | src/namePr.ts:167 | without an occurrence of the pattern, `replace` leaves the text unchanged |
| Text.Sort | src/action.ts:111 | `sort()` with no comparator returns the same strings (as a multiset) in ascending character order, which is code-unit order for characters up to U+FFFF |
| Text.IndexOf | src/rules/statuschange.ts:17 | `indexOf` is the first index of the element, or -1 exactly when it is absent |
| Text.Lower | src/rules/authors.ts:27 | `toLowerCase` maps each character and keeps the length |
| Text.IntToString | src/merge.ts:57 | `${eip}` prints a non-negative integer as its shortest decimal text, and a negative one with a minus sign |
| Types.Lookup | src/rules/new.ts:27-34 | `config[key]` is present exactly when the key is configured, and it is that group |
| Types.FirstTruthy | src/rules/new.ts:30-32 | `a \|\| b \|\| fallback` yields the first truthy header value, else the fallback |
| Types.LowerStatus | src/rules/stagnant.ts:10 | `status?.toLowerCase()` is absent exactly when the header has no status |
| Paths.ProposalLanguage | src/paths.ts:3-17 | `isProposal` holds exactly for `content/`, a digit run, an optional `/index`, any character but a line terminator, then `md` (both directions) |
| Paths.AssetLanguage | src/paths.ts:4-21 | `isAsset` holds exactly for `content/`, a digit run, `/assets/` and a rest without line terminators (both directions) |
| Paths.ConfigLanguage | src/paths.ts:5-25 | `isConfig` holds exactly for the name `reviewers.yml` |
| Paths.ProposalNotAsset | src/paths.ts:3-4 | no path is both a proposal and an asset |
| Paths.CapturedDigitsOfParts | src/paths.ts:32-37 | the capture group of a proposal path is exactly its digit run |
| Paths.EipNumber | src/paths.ts:27-43 | `eipNumber` fails with "not a proposal" exactly for non-proposal paths; otherwise it returns the value of the captured digits |
| Paths.EipNumberOfPaddedPath | src/paths.ts:37 | leading zeros do not count: `content/00001.md` is 1 and `content/00042/index.md` is 42 |
| Paths.ClassifiedByFilename | src/paths.ts:7-13 | a File argument is classified, and numbered, by its filename alone |
| Utils.IsProposal | src/utils.ts:6-12 | the second proposal classifier agrees with `paths.ts` on every argument and accepts exactly the proposal-path shape |
| Utils.IsAsset | src/utils.ts:14-20 | the second asset classifier agrees with `paths.ts` on every argument and accepts exactly the asset-path shape |
| Utils.ProposalNotAsset | src/utils.ts:3-4 | no argument is both a proposal and an asset under the second copy |
| Utils.ClassifiedByFilename | src/utils.ts:6-20 | a File is classified by its filename alone |
| Lists.FlatMap | src/rules/authors.ts:57-60 | flattening per-file lists of at most one rule gives at most one rule per file; all-empty lists give nothing |
| Lists.FlatMapAppend | src/process.ts:33-35 | the flattening of two blocks is the flattening of the first followed by that of the second |
| Lists.FlatMapMembers | src/rules/authors.ts:57-60 | every flattened rule comes from the list of some file |
| Lists.FlatMapResult | src/rules/terminal.ts:6-42 | `Promise.all` over per-file results succeeds exactly when every file succeeds; a failure is the failure of some file |
| Lists.FlatMapResultSuccess | src/rules/terminal.ts:6-42 | without failures, the result is the plain flattening of the per-file lists |
| Handles.CloseFrom | src/rules/authors.ts:34 | the end of the lazy `(.*?)` is either absent or a `)` whose following text the lookahead accepts |
| Handles.CloseFromFirst | src/rules/authors.ts:34 | that end is the first one: every earlier character is on the same line and is no acceptable `)`; when there is none, every acceptable `)` lies beyond a line terminator |
| Handles.CloseFromAt | src/rules/authors.ts:34 | a `)` with an accepted tail and only ordinary characters before it is the end the scan finds |
| Handles.HandleCut | src/rules/authors.ts:34 | a handle that is cut lies on one line, and the lookahead accepts the text after its `)` |
| Handles.HandleCutFirst | src/rules/authors.ts:34 | the capture is the shortest: no `)` inside the handle is followed by a tail the lookahead accepts |
| Handles.HandleCutShape | src/rules/authors.ts:34 | a cut segment is a name without `<` or `(`, then `(@`, the handle, `)` and the tail |
| Handles.HandleCutOfParts | src/rules/authors.ts:34 | every segment `name(@handle)tail` with a one-line handle, an accepted tail and no earlier acceptable `)` is cut into exactly that handle and tail |
| Handles.LazyCapturePastParen | src/rules/authors.ts:34 | in `name(@a)b) <w@d>`, where `b` starts with neither a blank nor `<`, the capture runs past the first `)` and is `a)b` |
| Handles.AddressTail | src/rules/authors.ts:34 | blanks followed by `<word@domain>` form an accepted tail |
| Handles.QuotedTail | src/rules/authors.ts:34 | blanks followed by `<"text">` form an accepted tail |
| Handles.QuotedWithDomain | src/rules/authors.ts:34 | `<"text"@domain>` is no accepted tail: the quoted alternative stands alone inside the brackets |
| Handles.SegmentHandles | src/rules/authors.ts:33-35 | at most one handle per comma-separated segment, and every handle lies on one line |
| Handles.SingleAuthor | src/rules/authors.ts:33-35 | a single entry `Name (@handle)` yields exactly that handle under both the authors pattern and the terminal pattern |
| Handles.NoAuthorNoHandles | src/rules/terminal.ts:13 | an absent author field yields no handles under either pattern (`,undefined,` has no `(@`) |
| AuthorsRule.HeaderText | src/rules/authors.ts:22-24 | `previous_contents \|\| contents`: the old text unless it is absent or empty |
| AuthorsRule.CheckFile | src/rules/authors.ts:11-54 | a rule exactly for an existing, non-Living proposal document whose author field names a handle; it asks one author, with PR approval and the `a-review` / `e-review` labels |
| AuthorsRule.Check | src/rules/authors.ts:10-60 | at most one rule per file; every rule is an "authors" rule for one approval |
| AuthorsRule.OldTextWins | src/rules/authors.ts:22-24 | with a non-empty old text, the new text never matters |
| AuthorsRule.NewTextFallback | src/rules/authors.ts:22-24 | with an absent or empty old text, the header is read from the new text |
| AuthorsRule.AddedNeedsNoAuthors | src/rules/authors.ts:26-29 | a file being added, in any letter case, gives no rule |
| AuthorsRule.OneAuthorRule | src/rules/authors.ts:26-50 | a non-added, non-Living document with one author entry gives exactly one rule for that author |
| Types.GroupOf | src/rules/new.ts:28-34 | the group is the lowercased category, else the lowercased type, else the lowercased fallback; the new and stagnant evaluators pass `governance` (src/rules/stagnant.ts:15), the status-change evaluator `all` (src/rules/statuschange.ts:20) |
| NewRule.CheckFile | src/rules/new.ts:11-45 | a rule exactly for an `added` proposal document; it asks the category's group for one approval, labelled `e-review` |
| NewRule.Check | src/rules/new.ts:10-51 | at most one rule per file; every rule is a "new" rule for one approval |
| NewRule.StatusIsCaseSensitive | src/rules/new.ts:23 | any status other than the exact `added` gives no rule |
| NewRule.OldTextIgnored | src/rules/new.ts:21 | the old text is never read |
| StagnantRule.CheckFile | src/rules/stagnant.ts:6-26 | a rule exactly for a Markdown file whose old status is Stagnant in any letter case; one approval with PR approval and `e-review` |
| StagnantRule.Check | src/rules/stagnant.ts:6-31 | at most one rule per file; every rule is a "stagnant" rule |
| StagnantRule.NewTextIgnored | src/rules/stagnant.ts:9 | the new text is never read |
| StatusChangeRule.Rank | src/rules/statuschange.ts:4-17 | the rung of a status on the ladder, or -1 exactly when the status is absent or off the ladder |
| StatusChangeRule.CheckFile | src/rules/statuschange.ts:8-29 | a rule exactly for a Markdown file whose status moves strictly up the ladder; one approval, no labels, no PR approval |
| StatusChangeRule.Check | src/rules/statuschange.ts:8-34 | at most one rule per file; every rule is a "statuschange" rule |
| StatusChangeRule.UnrankedNewStatus | src/rules/statuschange.ts:17 | a new status that is absent or off the ladder never gives a rule |
| StatusChangeRule.FirstStatus | src/rules/statuschange.ts:14-17 | an absent old status (rank -1) with a new status on the ladder gives a rule |
| StatusChangeRule.NoPromotionNoRule | src/rules/statuschange.ts:17 | an unchanged or lowered status gives no rule |
| StatusChangeRule.RankOfRung | src/rules/statuschange.ts:4 | each rung is found at its own position: the ladder has no duplicates |
| StatusChangeRule.LadderExamples | src/rules/statuschange.ts:4-17 | Draft to Review is a promotion; Final to Draft is not |
| TerminalRule.Quorum | src/rules/terminal.ts:14-22 | PR approval holds exactly when some governance member is an author; then one approval is needed, otherwise half the group rounded down |
| TerminalRule.ComputeQuorum | src/rules/terminal.ts:14-22 | the loop with its early `break` computes exactly that quorum |
| TerminalRule.CheckFile | src/rules/terminal.ts:6-37 | a rule exactly for a Markdown file whose old status is Living, Final or Withdrawn; a missing governance group is then an error; the rule asks the whole group for the quorum |
| TerminalRule.Check | src/rules/terminal.ts:6-42 | the evaluator fails exactly when some terminal file meets a missing governance group |
| TerminalRule.FourMembersNeedTwo | src/rules/terminal.ts:15 | a Final document with no author in a four-member group needs two approvals, without PR approval |
| TerminalRule.AuthorInGovernance | src/rules/terminal.ts:16-21 | an author in the governance group brings the quorum to one, with PR approval |
| EditorFileRule.CheckFile | src/rules/editorFile.ts:10-24 | one editors rule exactly for `.wg/reviewers.yml`, none for any other path |
| EditorFileRule.Check | src/rules/editorFile.ts:9-30 | one editors rule per entry naming the reviewer file, and nothing else |
| EditorFileRule.CountEditorRules | src/rules/editorFile.ts:27-30 | the flattened list has as many rules as entries naming the reviewer file |
| EditorFileRule.ProposalPathGivesNothing | src/rules/editorFile.ts:11 | a proposal path gives no editors rule |
| UnknownRule.IsKnown | src/rules/unknown.ts:11-13 | the known paths are exactly the proposals and assets of `paths.ts` |
| UnknownRule.CheckFile | src/rules/unknown.ts:10-31 | no rule for a known path; for any other path a missing editors group is an error, and otherwise the rule asks the editors for half their number rounded down, with PR approval |
| UnknownRule.Check | src/rules/unknown.ts:9-37 | fails exactly when the editors group is missing and some path is unknown |
| UnknownRule.QuorumWithinGroup | src/rules/unknown.ts:23 | the quorum lies between 0 and the size of the group |
| UnknownRule.OutsideContentIsUnknown | src/rules/unknown.ts:11-13 | every path outside `content/` is unknown, including `EIPS/...` and `assets/...` |
| UnknownRule.ThreeEditorsNeedOne | src/rules/unknown.ts:23 | three editors give a quorum of one |
| Assets.Owner | src/rules/assets.ts:12-29 | the owner is non-empty only for `assets/eip-` / `assets/erc-` paths that pass the guard, and then it starts `EIPS/` or `ERCS/` |
| Assets.EipAssetOwner | src/rules/assets.ts:13-20 | an asset `assets/<n>/<name>` with `<n>` starting `eip-` belongs to `EIPS/<n>.md` when no `EIPS/<name>.md` is changed: the guard reads the third segment, the owner the second |
| Process.OtherRules | src/process.ts:11-20 | the seven non-asset evaluators succeed exactly when terminal and unknown do; a failure is a missing governance or editors group; on success the rule count is the sum of the evaluators' counts |
| Process.ProcessFiles | src/process.ts:22-36 | the result is the asset evaluator's rules followed by the other evaluators' rules; it succeeds exactly when both parts do, and otherwise reports the asset evaluator's error first |
| Process.NoAssetEntries | src/rules/assets.ts:30-32 | without `assets/eip-` or `assets/erc-` entries, the asset evaluator adds nothing |
| Process.DepthOne | src/rules/assets.ts:36-41 | the nested run on an owner document starts no further nested run |
| Process.WithoutAssetRules | src/process.ts:22-36 | when the asset evaluator adds nothing, the result is the other evaluators' result |
| Process.OwnerAlreadyChanged | src/rules/assets.ts:33-35 | an asset whose owner document is itself changed adds nothing |
| Process.OwnerNotChanged | src/rules/assets.ts:36-41 | otherwise the asset gets the rules of a nested run on its owner, as a modified file with no text |
| Action.Approve | src/action.ts:71-78 | every rule left after one approval has a reviewer list and a positive count; which rules are left, in what order and with what count and reviewers is stated by Action.ApproveKept and Action.KeptExactly |
| Action.ApproveKept | src/action.ts:71-78 | the rules left after one approval are exactly the credited rules at the kept positions, in order: each keeps its reviewer list and has its count lowered by one exactly when it lists the approver |
| Action.CreditedAt | src/action.ts:71-76 | the map over chosen positions: one credited rule per position, in the positions' order |
| Action.KeptIncreasing | src/action.ts:71-78 | the kept positions are in increasing order, so `map` and `filter` keep the rules' order |
| Action.KeptExactly | src/action.ts:71-78 | a position is kept exactly when its rule's count, after the credit, is still positive |
| Action.ApplyReviews | src/action.ts:69-81 | the review loop ends with the fold of the approvals over the rules, and with the set of approving logins |
| Action.FoldClosedForm | src/action.ts:69-81 | crediting review by review equals lowering each rule once per approval by one of its reviewers, and keeping those still positive; with no approvals the rules are untouched, including those already at zero |
| Action.Requesting | src/action.ts:89-98 | the reviewers still requested are exactly the reviewers of the rule who have not approved |
| Action.RequestingEmpty | src/action.ts:89-98 | a rule requests nobody exactly when all its reviewers approved |
| Action.ScanReviewers | src/action.ts:89-98 | the reviewer loop yields the requested reviewers, whether the rule passed, and the reviewers neither approving nor requested |
| Action.FilesOf | src/action.ts:99-102 | every listed file is the annotation of some pending rule |
| Action.FilesOfEmpty | src/action.ts:93-102 | no file is listed exactly when every reviewer of every rule approved |
| Action.CollectRequests | src/action.ts:83-104 | the rule loop yields the overall verdict, the required set, and the files with their requests in order of first appearance |
| Action.FileLines | src/action.ts:108-121 | the inner loops print one line per distinct group of reviewers, in order of first appearance, with that group's first count |
| Action.BuildComment | src/action.ts:106-122 | the comment is the files' headings and lines, in key order |
| Action.CommentStart | src/action.ts:106-107 | a comment with at least one file starts with a blank line, so it is never empty and never the all-approved message |
| Action.DistinctKeysAllLines | src/action.ts:109-121 | requests with pairwise-distinct groups are each printed on their own line, in order |
| Action.SameKeysOneLine | src/action.ts:109-121 | requests that share one group are printed as one line with the first request's count |
| Action.RequestMap | src/action.ts:101-102 | `filesToRules` has exactly the listed files as keys |
| Action.FirstWithout | src/action.ts:72 | the first rule without a reviewer list, which is the one the run throws on |
| Action.Run | src/action.ts:52-126 | the run throws on the first rule without reviewers; otherwise its outcome is the verdict, comment, required set and approvers computed from the folded rules |
| Action.PassedIffAllApproved | src/action.ts:83-126 | the run passes exactly when it posts the all-approved message |
| Action.FoldNoReviewers | src/action.ts:71-78 | approvals never add a reviewer to a rule |
| Action.EmptyReviewersPass | src/action.ts:89-98 | rules with empty reviewer lists never make a run fail, whatever their count |
| NamePr.StripLabel | src/namePr.ts:17-21 | without a colon the title is kept; otherwise the lead is the trimmed text before the first colon and the title is the trimmed text after it |
| NamePr.FirstValueFrom | src/namePr.ts:140 | the first position at or after `p` where the status pattern matches, or -1 exactly when there is none |
| NamePr.LineEnd | src/namePr.ts:140 | the end of the current line: no `\r` or `\n` before it, and one at it unless it is the end of the text |
| NamePr.StatusValue | src/namePr.ts:140-143 | `match(...)?.[0]` is absent exactly when the pattern matches nowhere; otherwise it is the text from the first match position to the end of that line: it starts with a word character, holds no line break, and is followed by `\r`, `\n` or the end of the text |
| NamePr.StatusValueAfterKey | src/namePr.ts:140 | a text `status: <value>` yields `<value>` |
| NamePr.FindFrom | src/namePr.ts:146-151 | the first file at or after `i` that passes the test, or -1 exactly when none does |
| NamePr.Find | src/namePr.ts:146-151 | `files.find` yields the first passing file, or nothing exactly when none passes |
| NamePr.AddedTitle | src/namePr.ts:104-108 | an added proposal gives `false` exactly when its header has no truthy title |
| NamePr.StatusChangeIsModification | src/namePr.ts:135-151 | a status change is a modification, so the number lookup always finds a file |
| NamePr.GeneratePRTitle | src/namePr.ts:7-261 | Renovate's pull requests keep their title; the result is `false` exactly when no early test fires and either the first added proposal has no title or no proposal is added or modified |
| NamePr.WebsiteFirst | src/namePr.ts:23-38 | without a colon, a website change wins over every later test |
| NamePr.NumberOfPlain | src/namePr.ts:152-154 | the number read from `EIPS/eip-<n>.md` is `<n>` |
| NamePr.EipFileNotEarly | src/namePr.ts:23-89 | a Markdown file under `EIPS/eip-` other than EIP-1 fires none of the early tests |
| NamePr.StatusChangeOfFile | src/namePr.ts:155-165 | a file whose status line changes is found as a status change, and its new status is read |
| NamePr.StatusChangeNumber | src/namePr.ts:146-154 | the number of the first modified EIP is read from its filename |
| NamePr.StatusChangeTitle | src/namePr.ts:135-170 | a pull request that only moves EIP `<n>` between statuses is titled with the update prefix, `<n>` and `Move to <new status>`, whatever its current title |
| Merge.DigitsToNumber | src/merge.ts:20 | a digit run reads as its decimal value |
| Merge.Max | src/merge.ts:27 | `Math.max` is NaN exactly when some argument is NaN, and -Infinity exactly when all are (or there are none); otherwise it is an argument above all the others |
| Merge.NumbersHas | src/merge.ts:16-24 | every `eip-` entry of the listing is read into the list of numbers |
| Merge.NoEntriesNoNumbers | src/merge.ts:16-24 | a listing without `eip-` entries reads as no numbers |
| Merge.EntryReadAsNaN | src/merge.ts:20 | as written, `eip-<digits>.md` reads as NaN, because the piece after the dash still carries `.md` |
| Merge.AsWrittenNumberIsNaN | src/merge.ts:7-32 | as written, one proposal document in the listing makes the generated number NaN |
| Merge.EntryReadIntended | src/merge.ts:20 | with the extension dropped first, `eip-<digits>.md` reads as its number |
| Merge.MaxOfEntries | src/merge.ts:27 | over proposal documents, the largest reading is the largest number in use |
| Merge.MaxIsEntry | src/merge.ts:27 | over proposal documents, a largest reading that is a number is the number of one of the `eip-` entries |
| Merge.IntendedExceedsAll | src/merge.ts:26-31 | the corrected generation gives a number above every number in use, and one to five above the largest |
| Merge.NewHeader | src/merge.ts:53-70 | the header gains the number if it has none, `Draft` if it has no status, and the deadline when it is Last Call without one; every other entry is kept |
| Merge.Rewrite | src/merge.ts:45-77 | a Markdown file is renamed `EIPS/eip-<number>.md` exactly when its header has no number; its text is re-emitted from the new header and the body; its status and previous name and text are kept |
| Merge.NumberedKeepsName | src/merge.ts:54-59 | a file whose header already has a number keeps its name |
| Merge.NormaliseFiles | src/merge.ts:44-78 | the copy-and-update loop yields the rewritten Markdown files, in order |
| Merge.NormaliseFile | src/merge.ts:45-77 | one pass of that loop body, completing the header one default at a time, yields exactly `Rewrite` of the file |
| Merge.MarkdownIndices | src/merge.ts:47 | the positions of the Markdown files: increasing, and each Markdown file's position is among them |
| Merge.RewrittenPairing | src/merge.ts:44-78 | only the Markdown files are rewritten, one each, in order: the k-th rewritten file is the k-th Markdown file rewritten |
| Merge.RenameLeavesOldPath | src/merge.ts:89-102 | as written, a renamed file's delete call targets the new path, so no call touches the old path |
| Merge.IntendedRenameMoves | src/merge.ts:89-114 | with the old path deleted, a renamed file is deleted at its old path and written at the new one; an unrenamed file is only written |
| Merge.CrashFrom | src/merge.ts:81-89 | the first non-removed position without a rewritten file, or -1; every earlier position is removed or has one |
| Merge.PlanPushes | src/merge.ts:80-115 | the push loop skips removed files and pairs each other file with the rewrite at its position; at the first position without one it stops with an error, after the calls for the earlier positions |
| Merge.AllMarkdownPairs | src/merge.ts:81-83 | when every file is Markdown, each is paired with its own rewrite and the loop never stops early |

## Left out

- The GitHub API calls (Octokit, pagination, the throttling plugin), `core.setFailed`, `core.error` and `process.exit` are left out. Their inputs and results are parameters or outcome fields.
- The front-matter library and the yaml dumper are function parameters. An absent text is read as the empty text.
- A header value is a string. Non-string yaml values, such as dates and numbers, are not modelled.
- The author regular expressions are modelled segment by segment over comma-separated segments. A lazy capture or a quoted address that would run across a comma, lookbehind backtracking across commas, and names that themselves contain `(@`, are not modelled.
- `toLowerCase` is modelled on ASCII letters only.
- Strings are sequences of Unicode scalar values. UTF-16 code units are not modelled: surrogate pairs, and the code-unit order the default `sort` gives to characters above U+FFFF, are left out.
- Text.ReplaceFirst: the `$` replacement patterns of `String.prototype.replace` are not modelled.
- Merge.ToNumber: models `Number()` only for an empty or all-digit trimmed text. Hex, exponent and signed forms are read as NaN.
- Merge.ToNumber: values too large for a double are not modelled.
- Paths.EipNumber: numbers are unbounded, so the "did not contain an integer" error is not modelled. `parseInt` reaches it only for digit runs of more than 300 digits, which give Infinity.
- Merge.GenerateEipNumber: `Math.random` is the parameter `offset`, which is below 5.
- Merge.NormaliseFiles: `Date.now` is the parameter `deadline`. So is the calendar arithmetic that turns it into the UTC year, zero-based month and day.
- Merge.NormaliseFiles: the number for each file is the parameter `numbers`.
- Merge.NumberText: only integers, NaN and -Infinity are modelled. Exponent notation for very large numbers is not.
- Merge.PlanPushes: the base64 encoding, the `sha` fields, the committer, the auto-merge mutation and the approving review are left out.
- Action.Run: rules are records modelled as values. Because each rule object appears once in the source's list, updating `rule.min` in place is the same as replacing the record.
- Merge.NewHeader: a header is a map, so the order of its keys is not modelled. `yaml.dump` writes keys in insertion order, and the source adds `eip`, `status` and `last-call-deadline` after the parsed keys. The model does not promise where those keys appear in the dumped text.
- Merge.Rewrite: the dumper receives a map, so two headers with the same entries in a different key order print the same text here, and the rewritten file's key order is not modelled.
- Action.CollectRequests: `filesToRules` is modelled as a map with no inherited keys. In the source it is a plain object, so an annotation named after an `Object.prototype` member, such as `constructor` or `__proto__`, reads an inherited value that has no `push`, and the run throws a TypeError. That failure is not modelled.
- Action.Run: for the same reason, a run whose pending rules annotate a file named after an `Object.prototype` member returns the expected outcome here, while the source throws before it posts any comment.
- Action.CollectRequests: `filesToRules` keys are listed in order of first insertion. JavaScript objects put integer-like keys first, and that is not modelled.
- Lists.FlatMapResult: when several evaluators or files throw, `Promise.all` reports the first rejection in time. The model reports the first in list order.
- NamePr.GeneratePRTitle: the title prefixes of the local configuration are a parameter.

## Findings

| source | as written | input that shows it | evidently intended | confidence | as-written member | corrected member |
|---|---|---|---|---|---|---|
| src/merge.ts:20 | `Number(eip.name.split('-')[1])` reads `eip-5.md` as `Number("5.md")`, which is NaN. One such entry makes `Math.max` NaN, so the new file is named `EIPS/eip-NaN.md` | an `EIPS` listing `["eip-5.md"]` | drop the extension before reading the number, giving a number one to five above the largest in use | high; not executed | Merge.AsWrittenNumberIsNaN | Merge.IntendedExceedsAll |
| src/merge.ts:94 | the delete call for a renamed file uses `path: newFile.filename`, so the old path is never deleted | a file `EIPS/draft.md` with no `eip` header, renamed to `EIPS/eip-<n>.md` | delete `oldFile.filename`, as the comment and the message `Delete ${oldFile.filename}` say | high; not executed | Merge.RenameLeavesOldPath | Merge.IntendedRenameMoves |
