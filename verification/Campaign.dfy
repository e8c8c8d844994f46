// The campaign loop and the verdicts of scripts/accept_cross_interface_matrix.py.
module Campaign {
  import opened Options
  import opened EvidenceLedger

  // What a failure is recorded as: the script's own categories and the names of
  // exception types, none of them empty.
  type Category = text: string | text != "" witness "AcceptanceFailure"

  // What producing one case twice comes to. A failure of the harness outside the
  // guarded part, or a cancellation, ends the loop.
  datatype Attempt = Snapshots(first: string, replay: string) | Raised(reason: Category) | Aborted(error: Category)

  const REPLAY_MISMATCH := "same_seed_replay_mismatch"
  const INTERFACE_MISMATCH := "cross_interface_mismatch"
  const SAVE_FAILED: Category := "OSError"

  predicate IsStable(attempt: Attempt) {
    attempt.Snapshots? && attempt.first == attempt.replay
  }

  // The evidence of the earliest stable attempt among the first n for a key.
  ghost function FirstStable(cases: seq<Case>, attempts: seq<Attempt>, key: Key, n: nat): Option<string>
    requires n <= |cases| && n <= |attempts|
  {
    if n == 0 then None
    else
      var earlier := FirstStable(cases, attempts, key, n - 1);
      if earlier.Some? || cases[n - 1].key != key || !IsStable(attempts[n - 1]) then earlier
      else Some(attempts[n - 1].first)
  }

  // How case i must end: passed with its evidence if its attempt is stable and
  // agrees with the earliest stable attempt for the same key, failed otherwise.
  ghost predicate IsJudged(cases: seq<Case>, attempts: seq<Attempt>, i: nat, judged: Case)
    requires i < |cases| && i < |attempts|
  {
    var attempt := attempts[i];
    var agreed := FirstStable(cases, attempts, cases[i].key, i + 1);
    && judged.id == cases[i].id && judged.key == cases[i].key && judged.surface == cases[i].surface
    && (judged.status.Passed? <==> IsStable(attempt) && agreed == Some(attempt.first))
    && (judged.status.Passed? ==> judged.evidence == Some(attempt.first) && judged.reason == None)
    && (!judged.status.Passed? ==> judged.status.Failed? && judged.evidence == cases[i].evidence)
    && (attempt.Raised? ==> judged.reason == Some(attempt.reason))
    && (attempt.Snapshots? && !IsStable(attempt) ==> judged.reason == Some(REPLAY_MISMATCH))
    && (IsStable(attempt) && judged.status.Failed? ==> judged.reason == Some(INTERFACE_MISMATCH))
  }

  // The baselines after n cases: for every key the earliest stable evidence.
  ghost predicate AreBaselines(cases: seq<Case>, attempts: seq<Attempt>, n: nat, baselines: map<Key, string>)
    requires n <= |cases| && n <= |attempts|
  {
    forall key :: FirstStable(cases, attempts, key, n) == Lookup(baselines, key)
  }

  function Lookup(baselines: map<Key, string>, key: Key): Option<string> {
    if key in baselines then Some(baselines[key]) else None
  }

  // What one pass of the loop body makes of a case and of the baselines.
  function Decided(case_: Case, attempt: Attempt, baselines: map<Key, string>): Case {
    if attempt.Raised? then case_.(status := Failed, reason := Some(attempt.reason))
    else if !IsStable(attempt) then case_.(status := Failed, reason := Some(REPLAY_MISMATCH))
    else if Lookup(baselines, case_.key) == None || Lookup(baselines, case_.key) == Some(attempt.first) then
      case_.(status := Passed, reason := None, evidence := Some(attempt.first))
    else case_.(status := Failed, reason := Some(INTERFACE_MISMATCH))
  }

  function WithBaseline(baselines: map<Key, string>, key: Key, attempt: Attempt): map<Key, string> {
    if IsStable(attempt) && key !in baselines then baselines[key := attempt.first] else baselines
  }

  lemma DecidedIsJudged(cases: seq<Case>, attempts: seq<Attempt>, i: nat, baselines: map<Key, string>)
    requires i < |cases| && i < |attempts| && !attempts[i].Aborted?
    requires AreBaselines(cases, attempts, i, baselines)
    ensures IsJudged(cases, attempts, i, Decided(cases[i], attempts[i], baselines))
    ensures AreBaselines(cases, attempts, i + 1, WithBaseline(baselines, cases[i].key, attempts[i]))
  {
    assert FirstStable(cases, attempts, cases[i].key, i) == Lookup(baselines, cases[i].key);
    forall key
      ensures FirstStable(cases, attempts, key, i + 1)
         == Lookup(WithBaseline(baselines, cases[i].key, attempts[i]), key)
    {
      assert FirstStable(cases, attempts, key, i) == Lookup(baselines, key);
    }
  }

  // `Counter` of the statuses.
  function Count(cases: seq<Case>, status: Status): nat {
    if cases == [] then 0 else (if cases[0].status == status then 1 else 0) + Count(cases[1..], status)
  }

  datatype Report = Report(cases: seq<Case>, blocked: nat, passed: nat, failed: nat)

  function Save(cases: seq<Case>): Report {
    Report(cases, Count(cases, Blocked), Count(cases, Passed), Count(cases, Failed))
  }

  function Total(report: Report): nat {
    report.blocked + report.passed + report.failed
  }

  lemma {:induction false} CountsAddUp(cases: seq<Case>)
    ensures Total(Save(cases)) == |cases|
  {
    if cases != [] { CountsAddUp(cases[1..]); }
  }

  ghost function WithStatus(cases: seq<Case>, status: Status): set<nat> {
    set i | 0 <= i < |cases| && cases[i].status == status
  }

  lemma OneMoreWithStatus(cases: seq<Case>, last: Case, status: Status)
    ensures |WithStatus(cases + [last], status)| == |WithStatus(cases, status)| + if last.status == status then 1 else 0
  {
    var before, after := WithStatus(cases, status), WithStatus(cases + [last], status);
    assert |cases| !in before;
    assert after == before + if last.status == status then {|cases|} else {};
  }

  lemma {:induction false} CountOneMore(cases: seq<Case>, last: Case, status: Status)
    ensures Count(cases + [last], status) == Count(cases, status) + if last.status == status then 1 else 0
  {
    if cases == [] {
      assert cases + [last] == [last] && [last][1..] == [];
    } else {
      assert (cases + [last])[1..] == cases[1..] + [last];
      CountOneMore(cases[1..], last, status);
    }
  }

  lemma {:induction false} CountIsOfCases(cases: seq<Case>, status: Status)
    ensures Count(cases, status) == |WithStatus(cases, status)|
  {
    if cases == [] {
      assert WithStatus(cases, status) == {};
    } else {
      var last, rest := cases[|cases| - 1], cases[..|cases| - 1];
      assert cases == rest + [last];
      CountIsOfCases(rest, status);
      CountOneMore(rest, last, status);
      OneMoreWithStatus(rest, last, status);
    }
  }

  // A report counts the cases of each status.
  lemma ReportCountsCases(cases: seq<Case>)
    ensures Save(cases).cases == cases && Save(cases).blocked == |WithStatus(cases, Blocked)|
    ensures Save(cases).passed == |WithStatus(cases, Passed)| && Save(cases).failed == |WithStatus(cases, Failed)|
  {
    CountIsOfCases(cases, Blocked);
    CountIsOfCases(cases, Passed);
    CountIsOfCases(cases, Failed);
  }

  // When the first `done` cases are decided and the others are not.
  lemma {:induction false} RestIsBlocked(cases: seq<Case>, done: nat)
    requires done <= |cases|
    requires forall i :: 0 <= i < |cases| ==> (cases[i].status.Blocked? <==> done <= i)
    ensures Count(cases, Blocked) == |cases| - done
  {
    if cases != [] { RestIsBlocked(cases[1..], if done > 0 then done - 1 else 0); }
  }

  // No case is decided yet.
  ghost predicate IsFresh(ledger: seq<Case>) {
    forall i :: 0 <= i < |ledger| ==> ledger[i].status.Blocked?
  }

  // The case list after n cases: those decided, and the rest of the ledger.
  function AfterCases(cases: seq<Case>, ledger: seq<Case>, n: nat): seq<Case>
    requires n <= |cases| && n <= |ledger|
  {
    cases[..n] + ledger[n..]
  }

  // Report k could be written, and holds the first k + 1 cases decided.
  ghost predicate AreReports(saved: seq<Report>, cases: seq<Case>, ledger: seq<Case>, saves: seq<bool>)
    requires |saved| <= |cases| == |ledger| == |saves|
  {
    forall k :: 0 <= k < |saved| ==> saves[k] && saved[k] == Save(AfterCases(cases, ledger, k + 1))
  }

  lemma LaterCasesDoNotMatter(
    saved: seq<Report>, before: seq<Case>, after: seq<Case>, ledger: seq<Case>, saves: seq<bool>)
    requires |saved| <= |before| == |after| == |ledger| == |saves|
    requires before[..|saved|] == after[..|saved|] && AreReports(saved, before, ledger, saves)
    ensures AreReports(saved, after, ledger, saves)
  {
    forall n: nat | n <= |saved| ensures AfterCases(after, ledger, n) == AfterCases(before, ledger, n) {
      assert before[..n] == before[..|saved|][..n] == after[..n];
    }
  }

  lemma OneMoreReport(saved: seq<Report>, cases: seq<Case>, ledger: seq<Case>, saves: seq<bool>)
    requires |saved| < |cases| == |ledger| == |saves| && AreReports(saved, cases, ledger, saves)
    requires saves[|saved|] && cases[|saved| + 1..] == ledger[|saved| + 1..]
    ensures AreReports(saved + [Save(cases)], cases, ledger, saves)
  {
    assert AfterCases(cases, ledger, |saved| + 1) == cases;
  }

  // The first n cases are judged by their attempts, the others are as they were.
  ghost predicate HasDecided(
    ledger: seq<Case>, attempts: seq<Attempt>, cases: seq<Case>, baselines: map<Key, string>, n: nat)
    requires n <= |ledger| == |attempts| == |cases|
  {
    && (forall i :: 0 <= i < n ==> !attempts[i].Aborted? && IsJudged(ledger, attempts, i, cases[i]))
    && cases[n..] == ledger[n..]
    && AreBaselines(ledger, attempts, n, baselines)
  }

  lemma DecideOne(
    ledger: seq<Case>, attempts: seq<Attempt>, cases: seq<Case>, baselines: map<Key, string>, n: nat)
    requires n < |ledger| == |attempts| == |cases| && !attempts[n].Aborted?
    requires HasDecided(ledger, attempts, cases, baselines, n)
    ensures HasDecided(ledger, attempts, cases[n := Decided(cases[n], attempts[n], baselines)],
      WithBaseline(baselines, cases[n].key, attempts[n]), n + 1)
  {
    assert cases[n] == cases[n..][0] == ledger[n..][0] == ledger[n];
    DecidedIsJudged(ledger, attempts, n, baselines);
    var after := cases[n := Decided(cases[n], attempts[n], baselines)];
    assert after[n + 1..] == cases[n..][1..] == ledger[n..][1..] == ledger[n + 1..];
  }

  class Runner {
    var cases: seq<Case>
    var baselines: map<Key, string>
    // Every report written so far.
    var saved: seq<Report>

    constructor (ledger: seq<Case>)
      ensures cases == ledger && baselines == map[] && saved == []
    {
      cases, baselines, saved := ledger, map[], [];
    }

    // One case: the body of the loop, up to its report. A baseline that is there
    // stays.
    method RunCase(i: nat, attempt: Attempt)
      requires i < |cases| && !attempt.Aborted?
      modifies this`cases, this`baselines
      ensures cases == old(cases)[i := Decided(old(cases)[i], attempt, old(baselines))]
      ensures baselines == WithBaseline(old(baselines), old(cases)[i].key, attempt)
      ensures Keeps(old(baselines), baselines)
    {
      var case_ := cases[i];
      if attempt.Raised? {
        case_ := case_.(status := Failed, reason := Some(attempt.reason));
      } else if attempt.first != attempt.replay {
        case_ := case_.(status := Failed, reason := Some(REPLAY_MISMATCH));
      } else if case_.key in baselines && attempt.first != baselines[case_.key] {
        case_ := case_.(status := Failed, reason := Some(INTERFACE_MISMATCH));
      } else {
        if case_.key !in baselines {
          baselines := baselines[case_.key := attempt.first];
        }
        case_ := case_.(status := Passed, reason := None, evidence := Some(attempt.first));
      }
      cases := cases[i := case_];
    }

    // The loop over the ledger, where report k can be written if saves[k]. `done`
    // is the number of cases decided; the report of the last may be missing.
    method Execute(attempts: seq<Attempt>, saves: seq<bool>) returns (done: nat, error: Option<Category>)
      requires |attempts| == |saves| == |cases| && baselines == map[] && saved == []
      requires IsFresh(cases)
      modifies this
      ensures done <= |cases| == |old(cases)|
      ensures HasDecided(old(cases), attempts, cases, baselines, done)
      ensures |saved| <= done && AreReports(saved, cases, old(cases), saves)
      ensures error == None <==> |saved| == |cases|
      ensures error != None ==>
        || (|saved| == done < |cases| && attempts[done].Aborted? && error == Some(attempts[done].error))
        || (|saved| + 1 == done && !saves[|saved|] && error == Some(SAVE_FAILED))
    {
      ghost var ledger := cases;
      done := 0;
      while done < |cases|
        invariant done <= |cases| == |ledger| && |saved| == done
        invariant HasDecided(ledger, attempts, cases, baselines, done)
        invariant AreReports(saved, cases, ledger, saves)
      {
        if attempts[done].Aborted? {
          return done, Some(attempts[done].error);
        }
        ghost var before := cases;
        DecideOne(ledger, attempts, cases, baselines, done);
        RunCase(done, attempts[done]);
        LaterCasesDoNotMatter(saved, before, cases, ledger, saves);
        done := done + 1;
        if !saves[done - 1] {
          return done, Some(SAVE_FAILED);
        }
        OneMoreReport(saved, cases, ledger, saves);
        saved := saved + [Save(cases)];
      }
      return done, None;
    }
  }

  // A baseline, once there, never changes.
  lemma {:induction false} BaselineStays(cases: seq<Case>, attempts: seq<Attempt>, key: Key, n: nat, m: nat)
    requires n <= m <= |cases| && m <= |attempts| && FirstStable(cases, attempts, key, n).Some?
    ensures FirstStable(cases, attempts, key, m) == FirstStable(cases, attempts, key, n)
    decreases m
  {
    if n < m { BaselineStays(cases, attempts, key, n, m - 1); }
  }

  ghost predicate Keeps(before: map<Key, string>, after: map<Key, string>) {
    forall key <- before :: key in after && after[key] == before[key]
  }

  // So the runner's baselines after more cases keep all that were there before.
  lemma BaselinesGrow(
    cases: seq<Case>, attempts: seq<Attempt>, n: nat, m: nat, before: map<Key, string>, after: map<Key, string>)
    requires n <= m <= |cases| && m <= |attempts|
    requires AreBaselines(cases, attempts, n, before) && AreBaselines(cases, attempts, m, after)
    ensures Keeps(before, after)
  {
    forall key | key in before ensures key in after && after[key] == before[key] {
      assert FirstStable(cases, attempts, key, n) == Lookup(before, key) == Some(before[key]);
      BaselineStays(cases, attempts, key, n, m);
      assert FirstStable(cases, attempts, key, m) == Lookup(after, key);
    }
  }

  // All passed cases with one source, output and mode carry the same evidence.
  lemma PassedCasesAgree(cases: seq<Case>, attempts: seq<Attempt>, judged: seq<Case>, i: nat, j: nat)
    requires |cases| == |attempts| == |judged| && i <= j < |cases|
    requires IsJudged(cases, attempts, i, judged[i]) && IsJudged(cases, attempts, j, judged[j])
    requires judged[i].status.Passed? && judged[j].status.Passed? && judged[i].key == judged[j].key
    ensures judged[i].evidence == judged[j].evidence
  {
    BaselineStays(cases, attempts, cases[i].key, i + 1, j + 1);
  }

  ghost predicate AgreeIfPassed(a: Case, b: Case) {
    a.status.Passed? && b.status.Passed? ==> a.evidence == b.evidence
  }

  // A report says which cases are decided, and its counts account for all of them.
  lemma ReportIsComplete(cases: seq<Case>, ledger: seq<Case>, done: nat, n: nat)
    requires n <= done <= |cases| == |ledger|
    requires IsFresh(ledger)
    requires forall i :: 0 <= i < done ==> !cases[i].status.Blocked?
    ensures Save(AfterCases(cases, ledger, n)).blocked == |cases| - n
    ensures Total(Save(AfterCases(cases, ledger, n))) == |cases|
  {
    RestIsBlocked(AfterCases(cases, ledger, n), n);
    CountsAddUp(AfterCases(cases, ledger, n));
  }

  lemma DecidedOrNot(
    ledger: seq<Case>, attempts: seq<Attempt>, cases: seq<Case>, baselines: map<Key, string>, n: nat, i: nat)
    requires n <= |ledger| == |attempts| == |cases| && i < |cases| && IsFresh(ledger)
    requires HasDecided(ledger, attempts, cases, baselines, n)
    ensures cases[i].id == ledger[i].id && (cases[i].status.Blocked? <==> n <= i)
    ensures Combination(cases[i]) == Combination(ledger[i])
  {
    if n <= i { assert cases[i] == cases[n..][i - n] == ledger[n..][i - n] == ledger[i]; }
  }

  lemma DecidedAgree(
    ledger: seq<Case>, attempts: seq<Attempt>, cases: seq<Case>, baselines: map<Key, string>, n: nat, i: nat, j: nat)
    requires n <= |ledger| == |attempts| == |cases| && i <= j < |cases| && IsFresh(ledger)
    requires HasDecided(ledger, attempts, cases, baselines, n)
    requires ledger[i].key == ledger[j].key
    ensures AgreeIfPassed(cases[i], cases[j]) && AgreeIfPassed(cases[j], cases[i])
  {
    DecidedOrNot(ledger, attempts, cases, baselines, n, i);
    DecidedOrNot(ledger, attempts, cases, baselines, n, j);
    if cases[i].status.Passed? && cases[j].status.Passed? {
      PassedCasesAgree(ledger, attempts, cases, i, j);
    }
  }

  // A whole campaign over its ledger: passed cases with one source, output and
  // mode agree, and report k holds the first k + 1 cases decided and no others.
  method RunCampaign(
    sources: seq<string>, outputs: seq<string>, modes: seq<string>, surfaces: seq<string>,
    attempts: seq<Attempt>, saves: seq<bool>)
    returns (cases: seq<Case>, saved: seq<Report>, done: nat)
    requires |attempts| == |saves| == |Combinations(sources, outputs, modes, surfaces)|
    ensures |cases| == |Combinations(sources, outputs, modes, surfaces)|
    ensures |saved| <= done <= |cases| && done <= |saved| + 1
    ensures |saved| < |cases| ==> !saves[|saved|] || attempts[|saved|].Aborted?
    ensures forall i :: 0 <= i < |cases| ==> cases[i].id == Ledger(sources, outputs, modes, surfaces)[i].id
    ensures forall i :: 0 <= i < |cases| ==>
      Combination(cases[i]) == Combinations(sources, outputs, modes, surfaces)[i]
    ensures forall i :: 0 <= i < |cases| ==> (cases[i].status.Blocked? <==> done <= i)
    ensures forall i, j :: 0 <= i < |cases| && 0 <= j < |cases| ==>
      (AreCompared(Combinations(sources, outputs, modes, surfaces), i, j) ==> AgreeIfPassed(cases[i], cases[j]))
    ensures forall k :: 0 <= k < |saved| ==>
      saved[k].cases == AfterCases(cases, Ledger(sources, outputs, modes, surfaces), k + 1)
    ensures forall k :: 0 <= k < |saved| ==> saved[k].blocked == |cases| - k - 1 && Total(saved[k]) == |cases|
  {
    var ledger := Ledger(sources, outputs, modes, surfaces);
    assert IsFresh(ledger);
    var runner := new Runner(ledger);
    var error;
    done, error := runner.Execute(attempts, saves);
    cases, saved := runner.cases, runner.saved;
    forall i | 0 <= i < |cases|
      ensures cases[i].id == ledger[i].id && (cases[i].status.Blocked? <==> done <= i)
      ensures Combination(cases[i]) == Combination(ledger[i])
    {
      DecidedOrNot(ledger, attempts, cases, runner.baselines, done, i);
    }
    LedgerIsProduct(sources, outputs, modes, surfaces);
    ghost var tuples := Combinations(sources, outputs, modes, surfaces);
    forall i, j | 0 <= i < |cases| && 0 <= j < |cases| && AreCompared(tuples, i, j)
      ensures AgreeIfPassed(cases[i], cases[j])
    {
      KeysFollowCombinations(sources, outputs, modes, surfaces, i, j);
      if i <= j { DecidedAgree(ledger, attempts, cases, runner.baselines, done, i, j); }
      else { DecidedAgree(ledger, attempts, cases, runner.baselines, done, j, i); }
    }
    forall k | 0 <= k < |saved| ensures saved[k].blocked == |cases| - k - 1 && Total(saved[k]) == |cases| {
      ReportIsComplete(cases, ledger, done, k + 1);
    }
  }

  // ---- The verdicts ----

  // The fields of the report that the verdicts read.
  datatype Evidence = Evidence(cases: seq<Case>, campaignError: Option<string>, workerComplete: bool, tornDown: bool)

  // Python's truth value of `report.get("campaign_error")`.
  predicate HasError(evidence: Evidence) {
    evidence.campaignError.Some? && evidence.campaignError.value != ""
  }

  function ExitCode(evidence: Evidence): int {
    if !HasError(evidence) && Count(evidence.cases, Passed) == |evidence.cases| then 0 else 1
  }

  // What the controller adds once the worker has ended.
  function Supervised(evidence: Evidence, timedOut: bool, returnCode: int, usesMcp: bool): Evidence {
    if timedOut then evidence.(campaignError := Some("campaign_timeout"))
    else if returnCode != 0 then
      evidence.(campaignError :=
        if evidence.campaignError.None? then Some("worker_exit_failed")
        else evidence.campaignError)
    else if !evidence.workerComplete then evidence.(campaignError := Some("worker_completion_missing"))
    else if usesMcp && !evidence.tornDown then evidence.(campaignError := Some("mcp_teardown_missing"))
    else evidence
  }

  lemma {:induction false} CountAll(cases: seq<Case>, status: Status)
    ensures Count(cases, status) <= |cases|
    ensures Count(cases, status) == |cases| <==> forall i :: 0 <= i < |cases| ==> cases[i].status == status
  {
    if cases != [] {
      CountAll(cases[1..], status);
      assert forall i :: 0 < i < |cases| ==> cases[i] == cases[1..][i - 1];
      assert forall i :: 0 <= i < |cases[1..]| ==> cases[1..][i] == cases[i + 1];
    }
  }

  ghost predicate AllPassed(cases: seq<Case>) {
    forall i :: 0 <= i < |cases| ==> cases[i].status.Passed?
  }

  ghost predicate EndedCleanly(evidence: Evidence, timedOut: bool, returnCode: int, usesMcp: bool) {
    !timedOut && returnCode == 0 && evidence.workerComplete && (usesMcp ==> evidence.tornDown) && !HasError(evidence)
  }

  // The controller accepts a campaign whose cases all passed and whose worker
  // ended cleanly. It would also accept one whose worker failed after recording
  // an empty error, because `setdefault` keeps what is there.
  lemma ControllerAccepts(evidence: Evidence, timedOut: bool, returnCode: int, usesMcp: bool)
    ensures ExitCode(Supervised(evidence, timedOut, returnCode, usesMcp)) == 0 <==>
      && AllPassed(evidence.cases)
      && (EndedCleanly(evidence, timedOut, returnCode, usesMcp)
          || (!timedOut && returnCode != 0 && evidence.campaignError == Some("")))
  {
    CountAll(evidence.cases, Passed);
  }

  // No category of the script is empty, and then a zero exit means a clean end.
  lemma ControllerIsSound(evidence: Evidence, timedOut: bool, returnCode: int, usesMcp: bool)
    requires evidence.campaignError != Some("")
    ensures ExitCode(Supervised(evidence, timedOut, returnCode, usesMcp)) == 0 <==>
      && AllPassed(evidence.cases)
      && EndedCleanly(evidence, timedOut, returnCode, usesMcp)
  {
    ControllerAccepts(evidence, timedOut, returnCode, usesMcp);
  }

  // ---- Worker and controller together ----

  // Everything outside the script that decides how a campaign goes: an exception
  // before the loop, what the cases come to, which reports can be written, an
  // exception after the loop, whether the server was seen to be gone, whether the
  // last reports of the worker and of the controller can be written, and whether
  // the worker was stopped from outside.
  datatype Circumstances = Circumstances(
    before: Option<Category>, attempts: seq<Attempt>, saves: seq<bool>, after: Option<Category>,
    reaped: bool, savesLast: bool, savesVerdict: bool, timedOut: bool, killed: bool)

  const NOT_REAPED: Category := "mcp_process_not_reaped"
  const MCP := "mcp"

  // Nothing kept the worker from running the whole ledger and reporting on it.
  ghost predicate HasGoneThrough(usesMcp: bool, c: Circumstances)
    requires |c.attempts| == |c.saves|
  {
    && c.before == None && c.after == None && c.savesLast && (usesMcp ==> c.reaped)
    && (forall i :: 0 <= i < |c.attempts| ==> c.saves[i] && !c.attempts[i].Aborted?)
  }

  // Every case was produced twice alike, and cases with one source, output and
  // mode alike whatever the interface.
  ghost predicate AllStable(ledger: seq<Case>, attempts: seq<Attempt>)
    requires |attempts| == |ledger|
  {
    && (forall i :: 0 <= i < |ledger| ==> IsStable(attempts[i]))
    && (forall i, j :: 0 <= i < j < |ledger| && ledger[i].key == ledger[j].key ==>
          attempts[i].first == attempts[j].first)
  }

  // Case k gave the evidence.
  ghost predicate IsBaseline(cases: seq<Case>, attempts: seq<Attempt>, key: Key, evidence: Option<string>, k: nat)
    requires k < |cases| && k < |attempts|
  {
    cases[k].key == key && IsStable(attempts[k]) && evidence == Some(attempts[k].first)
  }

  lemma {:induction false} FirstStableIs(cases: seq<Case>, attempts: seq<Attempt>, key: Key, n: nat)
    requires n <= |cases| && n <= |attempts| && FirstStable(cases, attempts, key, n).Some?
    ensures exists k :: 0 <= k < n && IsBaseline(cases, attempts, key, FirstStable(cases, attempts, key, n), k)
  {
    if FirstStable(cases, attempts, key, n - 1).Some? {
      FirstStableIs(cases, attempts, key, n - 1);
    } else {
      assert IsBaseline(cases, attempts, key, FirstStable(cases, attempts, key, n), n - 1);
    }
  }

  // All cases pass exactly when the attempts are stable and agree.
  lemma AllPassedIsAllStable(ledger: seq<Case>, attempts: seq<Attempt>, cases: seq<Case>)
    requires |attempts| == |ledger| == |cases|
    requires forall i :: 0 <= i < |cases| ==> IsJudged(ledger, attempts, i, cases[i])
    ensures AllPassed(cases) <==> AllStable(ledger, attempts)
  {
    if AllPassed(cases) {
      forall i | 0 <= i < |ledger| ensures IsStable(attempts[i]) {
        assert cases[i].status.Passed?;
      }
      forall i, j | 0 <= i < j < |ledger| && ledger[i].key == ledger[j].key
        ensures attempts[i].first == attempts[j].first
      {
        PassedCasesAgree(ledger, attempts, cases, i, j);
      }
    }
    if AllStable(ledger, attempts) {
      forall i | 0 <= i < |cases| ensures cases[i].status.Passed? {
        StableIsFirst(ledger, attempts, i);
      }
    }
  }

  lemma StableIsFirst(ledger: seq<Case>, attempts: seq<Attempt>, i: nat)
    requires |attempts| == |ledger| && i < |ledger| && AllStable(ledger, attempts)
    ensures FirstStable(ledger, attempts, ledger[i].key, i + 1) == Some(attempts[i].first)
  {
    FirstStableIs(ledger, attempts, ledger[i].key, i + 1);
  }

  // The worker: the reports it leaves on the disk, and its exit code. The
  // controller wrote the first report.
  method Work(ledger: seq<Case>, usesMcp: bool, c: Circumstances) returns (disk: seq<Evidence>, returnCode: int)
    requires |c.attempts| == |c.saves| == |ledger| && IsFresh(ledger)
    ensures disk != [] && forall report <- disk :: report.campaignError != Some("")
    ensures returnCode == 0 <==> HasGoneThrough(usesMcp, c) && AllStable(ledger, c.attempts)
    ensures returnCode == 0 ==> EndedCleanly(disk[|disk| - 1], false, returnCode, usesMcp)
    ensures returnCode == 0 ==> AllPassed(disk[|disk| - 1].cases)
  {
    disk := [Evidence(ledger, None, false, false)];
    var runner := new Runner(ledger);
    var error: Option<Category> := c.before;
    if error == None {
      var done;
      done, error := runner.Execute(c.attempts, c.saves);
      var saved := runner.saved;
      disk := disk + seq(|saved|, k requires 0 <= k < |saved| => Evidence(saved[k].cases, None, false, false));
      if error == None { AllPassedIsAllStable(ledger, c.attempts, runner.cases); }
    }
    if error == None && usesMcp && !c.reaped {
      error := Some(NOT_REAPED);
    }
    if error == None {
      error := c.after;
    }
    CountAll(runner.cases, Passed);
    returnCode := 1;
    if c.savesLast {
      var last := Evidence(runner.cases, error, error == None, usesMcp && c.reaped);
      disk := disk + [last];
      returnCode := ExitCode(last);
    }
  }

  // Every combination was produced twice alike, and combinations that share source,
  // output and mode alike.
  ghost predicate AllAgree(tuples: seq<seq<string>>, attempts: seq<Attempt>)
    requires |attempts| == |tuples|
  {
    && (forall i :: 0 <= i < |tuples| ==> IsStable(attempts[i]))
    && (forall i, j :: 0 <= i < j < |tuples| && AreCompared(tuples, i, j) ==> attempts[i].first == attempts[j].first)
  }

  lemma AllStableIsAllAgree(
    sources: seq<string>, outputs: seq<string>, modes: seq<string>, surfaces: seq<string>, attempts: seq<Attempt>)
    requires |attempts| == |Combinations(sources, outputs, modes, surfaces)|
    ensures |attempts| == |Ledger(sources, outputs, modes, surfaces)|
    ensures AllStable(Ledger(sources, outputs, modes, surfaces), attempts)
       <==> AllAgree(Combinations(sources, outputs, modes, surfaces), attempts)
  {
    var ledger, tuples := Ledger(sources, outputs, modes, surfaces), Combinations(sources, outputs, modes, surfaces);
    LedgerIsProduct(sources, outputs, modes, surfaces);
    forall i, j | 0 <= i < j < |tuples| ensures ledger[i].key == ledger[j].key <==> AreCompared(tuples, i, j) {
      KeysFollowCombinations(sources, outputs, modes, surfaces, i, j);
    }
  }

  // The whole script. It exits with 0 exactly when nothing stopped it, the worker
  // went through the whole ledger, and every combination was stable and agreed with
  // the others of its source, output and mode.
  method Accept(
    sources: seq<string>, outputs: seq<string>, modes: seq<string>, surfaces: seq<string>, c: Circumstances)
    returns (exitCode: int)
    requires |c.attempts| == |c.saves| == |Combinations(sources, outputs, modes, surfaces)|
    ensures exitCode == 0 <==>
      && !c.timedOut && !c.killed && c.savesVerdict && HasGoneThrough(MCP in surfaces, c)
      && AllAgree(Combinations(sources, outputs, modes, surfaces), c.attempts)
  {
    var ledger, usesMcp := Ledger(sources, outputs, modes, surfaces), MCP in surfaces;
    LedgerIsProduct(sources, outputs, modes, surfaces);
    AllStableIsAllAgree(sources, outputs, modes, surfaces, c.attempts);
    assert IsFresh(ledger);
    var disk, returnCode := Work(ledger, usesMcp, c);
    var last := disk[|disk| - 1];
    if c.timedOut || c.killed {
      // The worker was stopped at any moment.
      var k: nat := *;
      last := disk[if 0 <= k < |disk| then k else 0];
      returnCode := -9;
    }
    var report := Supervised(last, c.timedOut, returnCode, usesMcp);
    ControllerIsSound(last, c.timedOut, returnCode, usesMcp);
    return if c.savesVerdict then ExitCode(report) else 1;
  }

  // With one source, output and mode all combinations are compared.
  lemma OneKeyIsCompared(source: string, output: string, mode: string, surfaces: seq<string>, i: nat, j: nat)
    requires i < |surfaces| && j < |surfaces|
    ensures |Combinations([source], [output], [mode], surfaces)| == |surfaces|
    ensures AreCompared(Combinations([source], [output], [mode], surfaces), i, j)
  {
    var tuples := Combinations([source], [output], [mode], surfaces);
    LedgerIsProduct([source], [output], [mode], surfaces);
    LedgerSize([source], [output], [mode], surfaces);
    CombinationsContain([source], [output], [mode], surfaces, tuples[i]);
    CombinationsContain([source], [output], [mode], surfaces, tuples[j]);
    SameFront(tuples[i], tuples[j]);
  }

  // Two interfaces that disagree make the script fail, however calm the run is.
  method RejectDisagreement(one: string, other: string) returns (exitCode: int)
    requires one != other
    ensures exitCode != 0
  {
    var surfaces := ["python", "cli"];
    var attempts := [Snapshots(one, one), Snapshots(other, other)];
    OneKeyIsCompared("csv", "csv", "valid", surfaces, 0, 1);
    exitCode := Accept(["csv"], ["csv"], ["valid"], surfaces,
      Circumstances(None, attempts, [true, true], None, true, true, true, false, false));
    assert attempts[0].first != attempts[1].first;
  }
}
