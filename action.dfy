/** The approval reconciliation of src/action.ts:52-126: approving reviews are credited
    against the rules, satisfied rules are dropped, the run passes when every remaining
    rule's reviewers have all approved, and a comment lists, per file, how many more
    approvals each distinct group of reviewers still owes. */
module Action {
  import opened Wrappers
  import opened Text
  import opened Types

  /** A pull-request review: its state and the reviewer's login, if any. */
  datatype Review = Review(state: string, login: Option<string>)

  /** `review.state == 'APPROVED' && review.user?.login`: an approval with a non-empty
      login. */
  predicate Counted(rv: Review) {
    rv.state == "APPROVED" && rv.login.Some? && rv.login.value != ""
  }

  /** Every rule has a reviewer list; a rule without one makes the run throw. */
  predicate HasReviewers(rules: seq<Rule>) {
    forall i :: 0 <= i < |rules| ==> rules[i].reviewers.Some?
  }

  // ---------------------------------------------------------------------------
  // Crediting approvals (src/action.ts:69-81)

  /** The rule after an approval by `login`: one approval fewer is owed when the rule
      lists `login`; nothing else changes. */
  function Credit(rule: Rule, login: string): Rule
    requires rule.reviewers.Some?
  {
    if login in rule.reviewers.value then rule.(min := rule.min - 1) else rule
  }

  /** One approval by `login`, given to every rule that lists `login`; the rules whose
      count reaches zero are dropped and the others keep their order. */
  function Approve(rules: seq<Rule>, login: string): (r: seq<Rule>)
    requires HasReviewers(rules)
    ensures HasReviewers(r) && |r| <= |rules|
    ensures forall i :: 0 <= i < |r| ==> r[i].min > 0
  {
    if rules == [] then []
    else
      var credited := Credit(rules[0], login);
      (if credited.min > 0 then [credited] else []) + Approve(rules[1..], login)
  }

  /** The positions from `j` on of the rules that still owe approvals once `login` is
      credited. */
  function KeptFrom(rules: seq<Rule>, login: string, j: nat): (ks: seq<nat>)
    requires HasReviewers(rules) && j <= |rules|
    ensures forall k :: 0 <= k < |ks| ==> j <= ks[k] < |rules|
    decreases |rules| - j
  {
    if j == |rules| then []
    else (if Credit(rules[j], login).min > 0 then [j] else []) + KeptFrom(rules, login, j + 1)
  }

  predicate Increasing(ks: seq<nat>) {
    forall k, l :: 0 <= k < l < |ks| ==> ks[k] < ks[l]
  }

  /** `KeptFrom` lists its positions in increasing order. */
  lemma {:induction false} KeptIncreasing(rules: seq<Rule>, login: string, j: nat)
    requires HasReviewers(rules) && j <= |rules|
    ensures Increasing(KeptFrom(rules, login, j))
    decreases |rules| - j
  {
    if j < |rules| {
      KeptIncreasing(rules, login, j + 1);
      var ks, rest := KeptFrom(rules, login, j), KeptFrom(rules, login, j + 1);
      var d := if Credit(rules[j], login).min > 0 then 1 else 0;
      assert ks == (if d == 1 then [j] else []) + rest;
      forall k, l | 0 <= k < l < |ks| ensures ks[k] < ks[l] {
        assert ks[l] == rest[l - d] && rest[l - d] > j;
        if k >= d {
          assert ks[k] == rest[k - d] && rest[k - d] < rest[l - d];
        } else {
          assert ks[k] == j;
        }
      }
    }
  }

  /** `KeptFrom` lists exactly the positions from `j` on whose rule still owes approvals
      once `login` is credited. */
  lemma {:induction false} KeptExactly(rules: seq<Rule>, login: string, j: nat)
    requires HasReviewers(rules) && j <= |rules|
    ensures forall i :: j <= i < |rules| ==> (i in KeptFrom(rules, login, j) <==> Credit(rules[i], login).min > 0)
    decreases |rules| - j
  {
    if j < |rules| {
      KeptExactly(rules, login, j + 1);
    }
  }

  lemma ApproveAt(rules: seq<Rule>, login: string, j: nat)
    requires HasReviewers(rules) && j < |rules|
    ensures var c := Credit(rules[j], login);
      Approve(rules[j..], login) == (if c.min > 0 then [c] else []) + Approve(rules[j + 1..], login)
  {
    assert rules[j..][1..] == rules[j + 1..];
  }

  /** The rules at positions `ks`, in that order, each credited with an approval by
      `login`. */
  function CreditedAt(rules: seq<Rule>, ks: seq<nat>, login: string): (r: seq<Rule>)
    requires HasReviewers(rules) && forall k :: 0 <= k < |ks| ==> ks[k] < |rules|
    ensures |r| == |ks| && forall k :: 0 <= k < |ks| ==> r[k] == Credit(rules[ks[k]], login)
  {
    if ks == [] then [] else [Credit(rules[ks[0]], login)] + CreditedAt(rules, ks[1..], login)
  }

  /** One approval keeps exactly the rules that still owe approvals, in order, each
      credited: the rules left are the credited rules at the kept positions. */
  lemma {:induction false} ApproveKept(rules: seq<Rule>, login: string, j: nat)
    requires HasReviewers(rules) && j <= |rules|
    ensures Approve(rules[j..], login) == CreditedAt(rules, KeptFrom(rules, login, j), login)
    decreases |rules| - j
  {
    if j < |rules| {
      ApproveKept(rules, login, j + 1);
      ApproveAt(rules, login, j);
      var ks := KeptFrom(rules, login, j + 1);
      if Credit(rules[j], login).min > 0 {
        assert ([j] + ks)[1..] == ks;
      }
    }
  }


  /** The rules after the reviews, taken in order. */
  function Fold(rules: seq<Rule>, reviews: seq<Review>): (r: seq<Rule>)
    requires HasReviewers(rules)
    ensures HasReviewers(r)
    decreases |reviews|
  {
    if reviews == [] then rules
    else
      var prev := Fold(rules, reviews[..|reviews| - 1]);
      var rv := reviews[|reviews| - 1];
      if Counted(rv) then Approve(prev, rv.login.value) else prev
  }

  /** The logins of the counted reviews. */
  function Approvers(reviews: seq<Review>): set<string> {
    set i | 0 <= i < |reviews| && Counted(reviews[i]) :: reviews[i].login.value
  }

  /** The review loop: `result` ends as the fold of the reviews over the rules, and
      `reviewedBy` as exactly the set of approving logins. */
  method ApplyReviews(rules: seq<Rule>, reviews: seq<Review>) returns (result: seq<Rule>, reviewedBy: set<string>)
    requires HasReviewers(rules)
    ensures result == Fold(rules, reviews)
    ensures reviewedBy == Approvers(reviews)
  {
    result := rules;
    reviewedBy := {};
    for i := 0 to |reviews|
      invariant HasReviewers(result)
      invariant result == Fold(rules, reviews[..i])
      invariant reviewedBy == Approvers(reviews[..i])
    {
      var review := reviews[i];
      assert reviews[..i + 1][..i] == reviews[..i];
      if Counted(review) {
        result := Approve(result, review.login.value);
        reviewedBy := reviewedBy + {review.login.value};
      }
      assert Approvers(reviews[..i + 1]) == reviewedBy by {
        forall x | x in Approvers(reviews[..i + 1]) ensures x in reviewedBy {
          var k :| 0 <= k < i + 1 && Counted(reviews[..i + 1][k]) && reviews[..i + 1][k].login.value == x;
          if k < i {
            assert reviews[..i][k] == reviews[..i + 1][k];
          }
        }
        forall x | x in reviewedBy ensures x in Approvers(reviews[..i + 1]) {
          if x in Approvers(reviews[..i]) {
            var k :| 0 <= k < i && Counted(reviews[..i][k]) && reviews[..i][k].login.value == x;
            assert reviews[..i + 1][k] == reviews[..i][k];
          } else {
            assert reviews[..i + 1][i] == review;
          }
        }
      }
    }
    assert reviews[..|reviews|] == reviews;
  }

  // ---------------------------------------------------------------------------
  // The closed form of the fold

  /** The number of counted reviews by logins in `reviewers`. */
  function Credits(reviewers: seq<string>, reviews: seq<Review>): (n: nat)
    ensures n <= |reviews|
    decreases |reviews|
  {
    if reviews == [] then 0
    else
      var rv := reviews[|reviews| - 1];
      Credits(reviewers, reviews[..|reviews| - 1]) + (if Counted(rv) && rv.login.value in reviewers then 1 else 0)
  }

  /** Some review is counted. */
  predicate AnyCounted(reviews: seq<Review>) {
    exists i :: 0 <= i < |reviews| && Counted(reviews[i])
  }

  /** The rules whose count stays positive after all their credits, with the count
      lowered by those credits, in their original order. */
  function Survivors(rules: seq<Rule>, reviews: seq<Review>): (r: seq<Rule>)
    requires HasReviewers(rules)
    ensures HasReviewers(r)
  {
    if rules == [] then []
    else
      var rule := rules[0];
      var left := rule.min - Credits(rule.reviewers.value, reviews);
      (if left > 0 then [rule.(min := left)] else []) + Survivors(rules[1..], reviews)
  }

  lemma {:induction false} NoCountedNoCredits(reviewers: seq<string>, reviews: seq<Review>)
    requires !AnyCounted(reviews)
    ensures Credits(reviewers, reviews) == 0
    decreases |reviews|
  {
    if reviews != [] {
      var prev := reviews[..|reviews| - 1];
      assert !AnyCounted(prev) by {
        forall i | 0 <= i < |prev| ensures !Counted(prev[i]) {
          assert prev[i] == reviews[i];
        }
      }
      NoCountedNoCredits(reviewers, prev);
    }
  }

  /** An approval after the first lowers the survivors by one more credit each. */
  lemma {:induction false} ApproveSurvivors(rules: seq<Rule>, reviews: seq<Review>)
    requires HasReviewers(rules) && reviews != [] && Counted(reviews[|reviews| - 1])
    ensures Approve(Survivors(rules, reviews[..|reviews| - 1]), reviews[|reviews| - 1].login.value)
      == Survivors(rules, reviews)
  {
    if rules != [] {
      ApproveSurvivors(rules[1..], reviews);
      var prev := reviews[..|reviews| - 1];
      var rule := rules[0];
      var left := rule.min - Credits(rule.reviewers.value, prev);
      var rv := reviews[|reviews| - 1];
      assert Credits(rule.reviewers.value, reviews)
        == Credits(rule.reviewers.value, prev) + (if rv.login.value in rule.reviewers.value then 1 else 0);
      if left > 0 {
        var s := [rule.(min := left)] + Survivors(rules[1..], prev);
        assert Survivors(rules, prev) == s;
        assert s[0] == rule.(min := left) && s[1..] == Survivors(rules[1..], prev);
      } else {
        assert Survivors(rules, prev) == Survivors(rules[1..], prev);
      }
    }
  }

  /** The first approval lowers every rule by its credit. */
  lemma {:induction false} ApproveFirst(rules: seq<Rule>, reviews: seq<Review>)
    requires HasReviewers(rules) && reviews != [] && Counted(reviews[|reviews| - 1])
    requires !AnyCounted(reviews[..|reviews| - 1])
    ensures Approve(rules, reviews[|reviews| - 1].login.value) == Survivors(rules, reviews)
  {
    if rules != [] {
      ApproveFirst(rules[1..], reviews);
      NoCountedNoCredits(rules[0].reviewers.value, reviews[..|reviews| - 1]);
    }
  }

  /** Crediting review by review is the same as crediting every rule once per approval
      of one of its reviewers and then keeping the rules left with a positive count -
      provided at least one review was counted; otherwise the rules are untouched, even
      those starting at zero. */
  lemma {:induction false} FoldClosedForm(rules: seq<Rule>, reviews: seq<Review>)
    requires HasReviewers(rules)
    ensures Fold(rules, reviews) == if AnyCounted(reviews) then Survivors(rules, reviews) else rules
    decreases |reviews|
  {
    if reviews != [] {
      var prev := reviews[..|reviews| - 1];
      var rv := reviews[|reviews| - 1];
      FoldClosedForm(rules, prev);
      assert forall i :: 0 <= i < |prev| ==> prev[i] == reviews[i];
      if Counted(rv) {
        if AnyCounted(prev) {
          ApproveSurvivors(rules, reviews);
        } else {
          ApproveFirst(rules, reviews);
        }
      } else {
        assert AnyCounted(reviews) == AnyCounted(prev);
        SurvivorsUncounted(rules, reviews);
      }
    }
  }

  lemma {:induction false} SurvivorsUncounted(rules: seq<Rule>, reviews: seq<Review>)
    requires HasReviewers(rules) && reviews != [] && !Counted(reviews[|reviews| - 1])
    ensures Survivors(rules, reviews) == Survivors(rules, reviews[..|reviews| - 1])
  {
    if rules != [] {
      SurvivorsUncounted(rules[1..], reviews);
    }
  }

  // ---------------------------------------------------------------------------
  // The verdict (src/action.ts:83-104)

  /** What one unsatisfied rule owes: its remaining count and the reviewers it still
      waits for. */
  datatype Request = Request(min: int, requesting: seq<string>)

  /** The reviewers who have not approved, in list order. */
  function Requesting(reviewers: seq<string>, reviewedBy: set<string>): (r: seq<string>)
    ensures forall x :: x in r <==> x in reviewers && x !in reviewedBy
    ensures |r| <= |reviewers|
    decreases |reviewers|
  {
    if reviewers == [] then []
    else
      var prev := Requesting(reviewers[..|reviewers| - 1], reviewedBy);
      var x := reviewers[|reviewers| - 1];
      assert forall y :: y in reviewers <==> y in reviewers[..|reviewers| - 1] || y == x by {
        assert reviewers == reviewers[..|reviewers| - 1] + [x];
      }
      if x !in reviewedBy then prev + [x] else prev
  }

  /** A rule some of whose reviewers have not approved. */
  predicate Pending(rule: Rule, reviewedBy: set<string>)
    requires rule.reviewers.Some?
  {
    Requesting(rule.reviewers.value, reviewedBy) != []
  }

  /** Every reviewer of every rule has approved. */
  predicate AllApproved(rules: seq<Rule>, reviewedBy: set<string>)
    requires HasReviewers(rules)
  {
    forall i :: 0 <= i < |rules| ==> forall x :: x in rules[i].reviewers.value ==> x in reviewedBy
  }

  /** The reviewers of the rules who have neither approved nor been requested. */
  function RequiredSet(rules: seq<Rule>, reviewedBy: set<string>, requested: seq<string>): set<string>
    requires HasReviewers(rules)
  {
    set i, x | 0 <= i < |rules| && x in rules[i].reviewers.value && x !in reviewedBy && x !in requested :: x
  }

  /** The annotation files of the pending rules, each once, in order of first
      appearance: the key order of `filesToRules`. */
  function FilesOf(rules: seq<Rule>, reviewedBy: set<string>): (r: seq<string>)
    requires HasReviewers(rules)
    ensures forall f :: f in r ==> exists i :: 0 <= i < |rules| && rules[i].annotation == f && Pending(rules[i], reviewedBy)
    decreases |rules|
  {
    if rules == [] then []
    else
      var prev := FilesOf(rules[..|rules| - 1], reviewedBy);
      var rule := rules[|rules| - 1];
      assert forall i :: 0 <= i < |rules| - 1 ==> rules[..|rules| - 1][i] == rules[i];
      if Pending(rule, reviewedBy) && rule.annotation !in prev then prev + [rule.annotation] else prev
  }

  /** The requests of the pending rules annotated with `file`, in rule order. */
  function RequestsOf(rules: seq<Rule>, reviewedBy: set<string>, file: string): seq<Request>
    requires HasReviewers(rules)
    decreases |rules|
  {
    if rules == [] then []
    else
      var prev := RequestsOf(rules[..|rules| - 1], reviewedBy, file);
      var rule := rules[|rules| - 1];
      if Pending(rule, reviewedBy) && rule.annotation == file then
        prev + [Request(rule.min, Requesting(rule.reviewers.value, reviewedBy))]
      else prev
  }

  lemma {:induction false} RequestsOfUnlisted(rules: seq<Rule>, reviewedBy: set<string>, file: string)
    requires HasReviewers(rules) && file !in FilesOf(rules, reviewedBy)
    ensures RequestsOf(rules, reviewedBy, file) == []
    decreases |rules|
  {
    if rules != [] {
      RequestsOfUnlisted(rules[..|rules| - 1], reviewedBy, file);
    }
  }

  /** Nothing is requested exactly when every reviewer approved. */
  lemma RequestingEmpty(reviewers: seq<string>, reviewedBy: set<string>)
    ensures Requesting(reviewers, reviewedBy) == [] <==> forall x :: x in reviewers ==> x in reviewedBy
  {
    var r := Requesting(reviewers, reviewedBy);
    if r != [] {
      assert r[0] in r;
    }
  }

  /** The reviewer loop of one rule (src/action.ts:89-98): who it still waits for, and
      who of those was not even requested. */
  method ScanReviewers(reviewers: seq<string>, reviewedBy: set<string>, requested: seq<string>)
    returns (passed: bool, requesting: seq<string>, required: set<string>)
    ensures requesting == Requesting(reviewers, reviewedBy)
    ensures passed <==> forall x :: x in reviewers ==> x in reviewedBy
    ensures required == set x | x in reviewers && x !in reviewedBy && x !in requested
  {
    passed := true;
    requesting := [];
    required := {};
    for j := 0 to |reviewers|
      invariant requesting == Requesting(reviewers[..j], reviewedBy)
      invariant passed <==> requesting == []
      invariant required == set x | x in reviewers[..j] && x !in reviewedBy && x !in requested
    {
      var reviewer := reviewers[j];
      assert reviewers[..j + 1][..j] == reviewers[..j];
      assert reviewers[..j + 1] == reviewers[..j] + [reviewer];
      if reviewer !in reviewedBy && reviewer !in requested {
        required := required + {reviewer};
      }
      if reviewer !in reviewedBy {
        passed := false;
        requesting := requesting + [reviewer];
      }
    }
    assert reviewers[..|reviewers|] == reviewers;
    RequestingEmpty(reviewers, reviewedBy);
  }

  /** The rule loop: `wholePassed` says whether every reviewer of every remaining rule
      approved, `requiredReviewers` collects those who neither approved nor were
      requested, and `filesToRules` groups the requests of the pending rules by file,
      with keys in order of first appearance. */
  method CollectRequests(result: seq<Rule>, reviewedBy: set<string>, requested: seq<string>)
    returns (wholePassed: bool, requiredReviewers: set<string>, order: seq<string>, filesToRules: map<string, seq<Request>>)
    requires HasReviewers(result)
    ensures wholePassed == AllApproved(result, reviewedBy)
    ensures requiredReviewers == RequiredSet(result, reviewedBy, requested)
    ensures order == FilesOf(result, reviewedBy)
    ensures forall f :: f in filesToRules <==> f in order
    ensures forall f :: f in filesToRules ==> filesToRules[f] == RequestsOf(result, reviewedBy, f)
  {
    wholePassed := true;
    requiredReviewers := {};
    order := [];
    filesToRules := map[];
    for i := 0 to |result|
      invariant HasReviewers(result[..i])
      invariant wholePassed == AllApproved(result[..i], reviewedBy)
      invariant requiredReviewers == RequiredSet(result[..i], reviewedBy, requested)
      invariant order == FilesOf(result[..i], reviewedBy)
      invariant forall f :: f in filesToRules <==> f in order
      invariant forall f :: f in filesToRules ==> filesToRules[f] == RequestsOf(result[..i], reviewedBy, f)
    {
      var rule := result[i];
      var passed, requesting, required := ScanReviewers(rule.reviewers.value, reviewedBy, requested);
      StepApproved(result, i, reviewedBy);
      StepRequired(result, i, reviewedBy, requested);
      StepFiles(result, i, reviewedBy);
      StepRequests(result, i, reviewedBy);
      RequestingEmpty(rule.reviewers.value, reviewedBy);
      assert Pending(rule, reviewedBy) == !passed;
      wholePassed := wholePassed && passed;
      requiredReviewers := requiredReviewers + required;
      if !passed {
        var file := rule.annotation;
        var group := if file in filesToRules then filesToRules[file] else [];
        if file !in filesToRules {
          RequestsOfUnlisted(result[..i], reviewedBy, file);
        }
        assert group == RequestsOf(result[..i], reviewedBy, file);
        ghost var before := filesToRules;
        filesToRules := filesToRules[file := group + [Request(rule.min, requesting)]];
        forall f | f in filesToRules
          ensures filesToRules[f] == RequestsOf(result[..i + 1], reviewedBy, f)
        {
          if f != file {
            assert filesToRules[f] == before[f];
          }
        }
        if file !in order {
          order := order + [file];
        }
      }
    }
    assert result[..|result|] == result;
  }

  lemma StepApproved(result: seq<Rule>, i: nat, reviewedBy: set<string>)
    requires HasReviewers(result) && i < |result|
    ensures HasReviewers(result[..i + 1]) && HasReviewers(result[..i])
    ensures AllApproved(result[..i + 1], reviewedBy)
      == (AllApproved(result[..i], reviewedBy) && forall x :: x in result[i].reviewers.value ==> x in reviewedBy)
  {
    assert result[..i + 1][..i] == result[..i];
    assert forall k :: 0 <= k < i ==> result[..i + 1][k] == result[..i][k];
    assert result[..i + 1][i] == result[i];
  }

  lemma StepRequired(result: seq<Rule>, i: nat, reviewedBy: set<string>, requested: seq<string>)
    requires HasReviewers(result) && i < |result|
    ensures HasReviewers(result[..i + 1]) && HasReviewers(result[..i])
    ensures RequiredSet(result[..i + 1], reviewedBy, requested)
      == RequiredSet(result[..i], reviewedBy, requested)
         + (set x | x in result[i].reviewers.value && x !in reviewedBy && x !in requested)
  {
    var p := result[..i + 1];
    assert forall k :: 0 <= k < i ==> p[k] == result[..i][k];
    assert p[i] == result[i];
  }

  lemma StepFiles(result: seq<Rule>, i: nat, reviewedBy: set<string>)
    requires HasReviewers(result) && i < |result|
    ensures HasReviewers(result[..i + 1]) && HasReviewers(result[..i])
    ensures FilesOf(result[..i + 1], reviewedBy)
      == (if Pending(result[i], reviewedBy) && result[i].annotation !in FilesOf(result[..i], reviewedBy)
          then FilesOf(result[..i], reviewedBy) + [result[i].annotation] else FilesOf(result[..i], reviewedBy))
  {
    assert result[..i + 1][..i] == result[..i];
  }

  lemma StepRequests(result: seq<Rule>, i: nat, reviewedBy: set<string>)
    requires HasReviewers(result) && i < |result|
    ensures HasReviewers(result[..i + 1]) && HasReviewers(result[..i])
    ensures forall f :: (RequestsOf(result[..i + 1], reviewedBy, f)
      == if Pending(result[i], reviewedBy) && result[i].annotation == f
         then RequestsOf(result[..i], reviewedBy, f) + [Request(result[i].min, Requesting(result[i].reviewers.value, reviewedBy))]
         else RequestsOf(result[..i], reviewedBy, f))
  {
    assert result[..i + 1][..i] == result[..i];
  }

  // ---------------------------------------------------------------------------
  // The comment (src/action.ts:106-126)

  const ALL_APPROVED: string := "All reviewers have approved. Auto merging..."

  /** `requesting.sort().join(',')`: what identifies a group of reviewers. */
  function Key(req: Request): string {
    Join(Sort(req.requesting), ",")
  }

  /** `requesting.map(r => `@${r}`)`. */
  function Mentions(handles: seq<string>): (r: seq<string>)
    ensures |r| == |handles|
    ensures forall i :: 0 <= i < |r| ==> r[i] == "@" + handles[i]
  {
    if handles == [] then [] else ["@" + handles[0]] + Mentions(handles[1..])
  }

  /** One line of the comment: the count, then the sorted handles. */
  function Line(min: int, requesting: seq<string>): string {
    "Requires " + IntToString(min) + " more reviewers from " + Join(Mentions(Sort(requesting)), ", ") + "\n"
  }

  /** The keys of the requests. */
  function Keys(reqs: seq<Request>): set<string> {
    Image(Key, reqs)
  }

  /** The values `f` takes on the elements of `xs`. */
  function Image<T, U>(f: T -> U, xs: seq<T>): set<U> {
    set k | 0 <= k < |xs| :: f(xs[k])
  }

  /** The lines of one file: one per distinct group of reviewers, in order of first
      appearance, showing the count of the first request of that group. */
  function Lines(reqs: seq<Request>): string
    decreases |reqs|
  {
    if reqs == [] then ""
    else
      var prev := reqs[..|reqs| - 1];
      var req := reqs[|reqs| - 1];
      Lines(prev) + (if Key(req) in Keys(prev) then "" else Line(req.min, req.requesting))
  }

  function Heading(file: string): string {
    "\n\n### File `" + file + "`\n\n"
  }

  /** The sections of the files, in the given order. */
  function CommentOf(order: seq<string>, filesToRules: map<string, seq<Request>>): string
    requires forall f :: f in order ==> f in filesToRules
    decreases |order|
  {
    if order == [] then ""
    else
      var file := order[|order| - 1];
      CommentOf(order[..|order| - 1], filesToRules) + Heading(file) + Lines(filesToRules[file])
  }

  lemma ImageStep<T, U>(f: T -> U, xs: seq<T>, i: nat)
    requires i < |xs|
    ensures Image(f, xs[..i + 1]) == Image(f, xs[..i]) + {f(xs[i])}
  {
    var p, q := xs[..i + 1], xs[..i];
    forall x | x in Image(f, p) ensures x in Image(f, q) + {f(xs[i])} {
      var k :| 0 <= k < |p| && x == f(p[k]);
      if k < i {
        assert p[k] == q[k];
      }
    }
    forall x | x in Image(f, q) + {f(xs[i])} ensures x in Image(f, p) {
      if x == f(xs[i]) {
        assert p[i] == xs[i];
      } else {
        var k :| 0 <= k < |q| && x == f(q[k]);
        assert p[k] == q[k];
      }
    }
  }

  lemma KeysStep(reqs: seq<Request>, i: nat)
    requires i < |reqs|
    ensures Keys(reqs[..i + 1]) == Keys(reqs[..i]) + {Key(reqs[i])}
  {
    ImageStep(Key, reqs, i);
  }

  lemma LinesStep(reqs: seq<Request>, i: nat)
    requires i < |reqs|
    ensures Lines(reqs[..i + 1]) == Lines(reqs[..i])
      + (if Key(reqs[i]) in Keys(reqs[..i]) then "" else Line(reqs[i].min, reqs[i].requesting))
  {
    assert reqs[..i + 1][..i] == reqs[..i];
  }

  /** The loops over the rules of one file. For each rule the inner loop looks for the
      first rule of the file with the same reviewers; since every earlier group is
      already recorded in `pastReviewers`, the rule it stops at is the rule itself, so the
      count shown is that of the first rule of each group. */
  method FileLines(group: seq<Request>) returns (lines: string)
    ensures lines == Lines(group)
  {
    lines := "";
    var pastReviewers: seq<string> := [];
    for i := 0 to |group|
      invariant lines == Lines(group[..i])
      invariant forall x :: x in pastReviewers <==> x in Keys(group[..i])
    {
      var rule := group[i];
      ghost var before := lines;
      ghost var seen := Key(rule) in pastReviewers;
      forall k | 0 <= k < i
        ensures Key(group[k]) in Keys(group[..i])
      {
        assert group[..i][k] == group[k];
      }
      var j := 0;
      while j < |group|
        invariant 0 <= j <= |group|
        invariant lines == before
        invariant forall x :: x in pastReviewers <==> x in Keys(group[..i])
        invariant !seen ==> j <= i
      {
        var rule2 := group[j];
        if Key(rule) !in pastReviewers && Key(rule) == Key(rule2) {
          assert j == i && rule2 == rule;
          pastReviewers := pastReviewers + [Key(rule)];
          var shown := if rule2.min > rule.min then rule2.min else rule.min;
          lines := lines + Line(shown, rule.requesting);
          assert lines == before + Line(rule.min, rule.requesting);
          break;
        }
        j := j + 1;
      }
      KeysStep(group, i);
      LinesStep(group, i);
    }
    assert group[..|group|] == group;
  }

  /** The loop over the files, in key order. */
  method BuildComment(order: seq<string>, filesToRules: map<string, seq<Request>>) returns (comment: string)
    requires forall f :: f in order ==> f in filesToRules
    ensures comment == CommentOf(order, filesToRules)
  {
    comment := "";
    for k := 0 to |order|
      invariant comment == CommentOf(order[..k], filesToRules)
    {
      var file := order[k];
      assert order[..k + 1][..k] == order[..k];
      var lines := FileLines(filesToRules[file]);
      comment := comment + Heading(file) + lines;
    }
    assert order[..|order|] == order;
  }

  // ---------------------------------------------------------------------------
  // Properties of the comment

  /** A comment with at least one file starts with the blank lines of its first
      heading, so it is never empty and never the all-approved message. */
  lemma {:induction false} CommentStart(order: seq<string>, filesToRules: map<string, seq<Request>>)
    requires forall f :: f in order ==> f in filesToRules
    requires order != []
    ensures |CommentOf(order, filesToRules)| >= 2
    ensures CommentOf(order, filesToRules)[0] == '\n'
    decreases |order|
  {
    var prefix := order[..|order| - 1];
    var file := order[|order| - 1];
    var rest := Heading(file) + Lines(filesToRules[file]);
    assert CommentOf(order, filesToRules) == CommentOf(prefix, filesToRules) + rest;
    if prefix != [] {
      CommentStart(prefix, filesToRules);
    } else {
      assert CommentOf(prefix, filesToRules) == "";
      assert rest[0] == '\n' && |rest| >= 2;
    }
  }

  /** No file is listed exactly when every reviewer of every rule approved. */
  lemma {:induction false} FilesOfEmpty(rules: seq<Rule>, reviewedBy: set<string>)
    requires HasReviewers(rules)
    ensures FilesOf(rules, reviewedBy) == [] <==> AllApproved(rules, reviewedBy)
    decreases |rules|
  {
    if rules != [] {
      var prev := rules[..|rules| - 1];
      var rule := rules[|rules| - 1];
      assert HasReviewers(prev) by {
        assert forall i :: 0 <= i < |prev| ==> prev[i] == rules[i];
      }
      FilesOfEmpty(prev, reviewedBy);
      RequestingEmpty(rule.reviewers.value, reviewedBy);
      assert forall i :: 0 <= i < |prev| ==> prev[i] == rules[i];
      if !Pending(rule, reviewedBy) {
        assert AllApproved(rules, reviewedBy) <==> AllApproved(prev, reviewedBy);
      } else {
        assert !AllApproved(rules, reviewedBy);
        var p := FilesOf(prev, reviewedBy);
        assert FilesOf(rules, reviewedBy) == (if rule.annotation !in p then p + [rule.annotation] else p);
      }
    }
  }

  /** Requests whose reviewer groups are pairwise distinct, each on its own line. */
  function AllLines(reqs: seq<Request>): string
    decreases |reqs|
  {
    if reqs == [] then "" else AllLines(reqs[..|reqs| - 1]) + Line(reqs[|reqs| - 1].min, reqs[|reqs| - 1].requesting)
  }

  predicate DistinctKeys(reqs: seq<Request>) {
    forall i, j :: 0 <= i < j < |reqs| ==> Key(reqs[i]) != Key(reqs[j])
  }

  predicate SameKeys(reqs: seq<Request>) {
    forall i :: 0 <= i < |reqs| ==> Key(reqs[i]) == Key(reqs[0])
  }

  /** When no two requests of a file share a group of reviewers, nothing is merged:
      every request gets its own line, with its own count, in order. */
  lemma {:induction false} DistinctKeysAllLines(reqs: seq<Request>)
    requires DistinctKeys(reqs)
    ensures Lines(reqs) == AllLines(reqs)
    decreases |reqs|
  {
    if reqs != [] {
      var prev := reqs[..|reqs| - 1];
      var last := reqs[|reqs| - 1];
      assert forall i :: 0 <= i < |prev| ==> prev[i] == reqs[i];
      DistinctKeysAllLines(prev);
      assert Key(last) !in Keys(prev);
    }
  }

  /** Requests that all wait for the same group of reviewers give one line, showing the
      count of the first of them. */
  lemma {:induction false} SameKeysOneLine(reqs: seq<Request>)
    requires reqs != [] && SameKeys(reqs)
    ensures Lines(reqs) == Line(reqs[0].min, reqs[0].requesting)
    decreases |reqs|
  {
    var prev := reqs[..|reqs| - 1];
    if prev == [] {
      assert Lines(reqs) == Lines(prev) + Line(reqs[0].min, reqs[0].requesting);
    } else {
      assert forall i :: 0 <= i < |prev| ==> prev[i] == reqs[i];
      SameKeysOneLine(prev);
      assert Key(reqs[|reqs| - 1]) == Key(prev[0]);
      assert Key(reqs[|reqs| - 1]) in Keys(prev);
    }
  }

  // ---------------------------------------------------------------------------
  // The whole reconciliation

  /** What a run decides: whether it passes, the comment it posts, the reviewers it
      found neither approving nor requested, and the approving logins. */
  datatype Outcome = Outcome(passed: bool, comment: string, required: set<string>, reviewedBy: set<string>)

  /** `filesToRules`: the requests of every listed file. */
  function RequestMap(rules: seq<Rule>, reviewedBy: set<string>, order: seq<string>): (m: map<string, seq<Request>>)
    requires HasReviewers(rules)
    ensures forall f :: f in m <==> f in order
  {
    map f | f in order :: RequestsOf(rules, reviewedBy, f)
  }

  /** The outcome of the reconciliation, stated on the folded rules. */
  function Expected(rules: seq<Rule>, reviews: seq<Review>, requested: seq<string>): Outcome
    requires HasReviewers(rules)
  {
    var result := Fold(rules, reviews);
    var approvers := Approvers(reviews);
    var order := FilesOf(result, approvers);
    var comment := CommentOf(order, RequestMap(result, approvers, order));
    Outcome(AllApproved(result, approvers), if comment == "" then ALL_APPROVED else comment, RequiredSet(result, approvers, requested), approvers)
  }

  /** The index of the first rule without a reviewer list. */
  function FirstWithout(rules: seq<Rule>): (i: nat)
    requires !HasReviewers(rules)
    ensures i < |rules| && rules[i].reviewers.None?
    ensures forall k :: 0 <= k < i ==> rules[k].reviewers.Some?
  {
    if rules[0].reviewers.None? then 0
    else
      assert !HasReviewers(rules[1..]) by {
        var k :| 0 <= k < |rules| && rules[k].reviewers.None?;
        assert rules[1..][k - 1] == rules[k];
      }
      1 + FirstWithout(rules[1..])
  }

  /** src/action.ts:52-126 over the rules, the reviews and the logins already requested.
      A rule without a reviewer list makes the run throw on its first use, whether in the
      review loop or in the rule loop. */
  method Run(rules: seq<Rule>, reviews: seq<Review>, requested: seq<string>) returns (r: Result<Outcome, Error>)
    ensures !HasReviewers(rules) ==> r == Failure(MissingReviewers(rules[FirstWithout(rules)].name))
    ensures HasReviewers(rules) ==> r == Success(Expected(rules, reviews, requested))
  {
    if !HasReviewers(rules) {
      return Failure(MissingReviewers(rules[FirstWithout(rules)].name));
    }
    var result, reviewedBy := ApplyReviews(rules, reviews);
    var wholePassed, requiredReviewers, order, filesToRules := CollectRequests(result, reviewedBy, requested);
    assert filesToRules == RequestMap(result, reviewedBy, order);
    var comment := BuildComment(order, filesToRules);
    if comment == "" {
      comment := ALL_APPROVED;
    }
    return Success(Outcome(wholePassed, comment, requiredReviewers, reviewedBy));
  }

  /** The run passes exactly when it posts the all-approved message. */
  lemma PassedIffAllApproved(rules: seq<Rule>, reviews: seq<Review>, requested: seq<string>)
    requires HasReviewers(rules)
    ensures Expected(rules, reviews, requested).passed <==> Expected(rules, reviews, requested).comment == ALL_APPROVED
  {
    var result := Fold(rules, reviews);
    var approvers := Approvers(reviews);
    var order := FilesOf(result, approvers);
    var m := RequestMap(result, approvers, order);
    FilesOfEmpty(result, approvers);
    if order != [] {
      CommentStart(order, m);
      assert ALL_APPROVED[0] == 'A';
    }
  }

  /** Every rule has an empty reviewer list. */
  predicate NoReviewers(rules: seq<Rule>)
    requires HasReviewers(rules)
  {
    forall i :: 0 <= i < |rules| ==> rules[i].reviewers.value == []
  }

  /** Approving never adds a reviewer to a rule. */
  lemma {:induction false} ApproveNoReviewers(rules: seq<Rule>, login: string)
    requires HasReviewers(rules) && NoReviewers(rules)
    ensures NoReviewers(Approve(rules, login))
    decreases |rules|
  {
    if rules != [] {
      assert HasReviewers(rules[1..]) && NoReviewers(rules[1..]) by {
        assert forall i :: 0 <= i < |rules| - 1 ==> rules[1..][i] == rules[i + 1];
      }
      ApproveNoReviewers(rules[1..], login);
    }
  }

  lemma {:induction false} FoldNoReviewers(rules: seq<Rule>, reviews: seq<Review>)
    requires HasReviewers(rules) && NoReviewers(rules)
    ensures NoReviewers(Fold(rules, reviews))
    decreases |reviews|
  {
    if reviews != [] {
      FoldNoReviewers(rules, reviews[..|reviews| - 1]);
      var prev := Fold(rules, reviews[..|reviews| - 1]);
      var rv := reviews[|reviews| - 1];
      if Counted(rv) {
        ApproveNoReviewers(prev, rv.login.value);
      }
    }
  }

  /** Rules with empty reviewer lists never make a run fail, whatever their count. */
  lemma EmptyReviewersPass(rules: seq<Rule>, reviews: seq<Review>, requested: seq<string>)
    requires HasReviewers(rules) && NoReviewers(rules)
    ensures Expected(rules, reviews, requested).passed
    ensures Expected(rules, reviews, requested).comment == ALL_APPROVED
  {
    FoldNoReviewers(rules, reviews);
    PassedIffAllApproved(rules, reviews, requested);
  }
}
