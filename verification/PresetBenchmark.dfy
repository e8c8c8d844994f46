// The accumulation loop of `run_advisor_preset_benchmark` in
// scripts/benchmark_openai_advisor_presets.py.
module PresetBenchmark {
  import opened Options
  import NearestRank

  // A validated proposal, or an `AdvisorContractError`.
  datatype Verdict = Valid(safe: bool) | Refused(timeout: bool)

  datatype Usage = Usage(input: nat, output: nat)

  datatype Run = Run(verdict: Verdict, status: string, latency: int, retries: Option<nat>, usage: Option<Usage>)

  // Any other exception, or missing run metadata, ends the benchmark.
  datatype Attempt = Completed(run: Run) | Interrupted

  // What a client makes of a profile, by the index of the run.
  type Client = (nat, nat) -> Attempt

  datatype Report = Report(
    valid: nat, safe: nat, errors: nat, timeouts: nat, statusCounts: map<string, nat>,
    inputTokens: nat, outputTokens: nat, usageReported: nat,
    retries: Option<nat>, retriesReported: nat, p50: int, p95: int)

  datatype Outcome = TooFewProfiles | TooFewRuns | TooManyRuns | Stopped | Finished(reports: seq<Report>)

  const MINIMUM_PROFILES := 5
  const MAXIMUM_RUNS := 25

  // ---- What a report says about the runs ----

  ghost function Count(runs: seq<Run>, p: Run -> bool): nat {
    if runs == [] then 0
    else Count(runs[..|runs| - 1], p) + if p(runs[|runs| - 1]) then 1 else 0
  }

  ghost function Sum(runs: seq<Run>, f: Run -> nat): nat {
    if runs == [] then 0 else Sum(runs[..|runs| - 1], f) + f(runs[|runs| - 1])
  }

  lemma CountMore(runs: seq<Run>, run: Run, p: Run -> bool)
    ensures Count(runs + [run], p) == Count(runs, p) + if p(run) then 1 else 0
  {
    assert (runs + [run])[..|runs|] == runs;
  }

  const IsValid: Run -> bool := (run: Run) => run.verdict.Valid?
  const IsSafe: Run -> bool := (run: Run) => run.verdict.Valid? && run.verdict.safe
  const IsError: Run -> bool := (run: Run) => run.verdict.Refused?
  const IsTimeout: Run -> bool := (run: Run) => run.verdict.Refused? && run.verdict.timeout
  const HasUsage: Run -> bool := (run: Run) => run.usage.Some?
  const HasRetries: Run -> bool := (run: Run) => run.retries.Some?
  const InputOf: Run -> nat := (run: Run) => if run.usage.Some? then run.usage.value.input else 0
  const OutputOf: Run -> nat := (run: Run) => if run.usage.Some? then run.usage.value.output else 0
  const RetriesOf: Run -> nat := (run: Run) => if run.retries.Some? then run.retries.value else 0

  function HasStatus(status: string): Run -> bool {
    (run: Run) => run.status == status
  }

  // The status counts hold exactly the statuses that occurred, as often as they did.
  ghost predicate CountsStatuses(counts: map<string, nat>, runs: seq<Run>) {
    forall status :: Count(runs, HasStatus(status)) == if status in counts then counts[status] else 0
  }

  function Latencies(runs: seq<Run>): (samples: seq<int>)
    ensures |samples| == |runs|
  {
    seq(|runs|, i requires 0 <= i < |runs| => runs[i].latency)
  }

  ghost predicate Describes(report: Report, runs: seq<Run>)
    requires runs != []
  {
    && report.valid == Count(runs, IsValid) && report.safe == Count(runs, IsSafe)
    && report.errors == Count(runs, IsError) && report.timeouts == Count(runs, IsTimeout)
    && CountsStatuses(report.statusCounts, runs)
    && report.usageReported == Count(runs, HasUsage)
    && report.inputTokens == Sum(runs, InputOf) && report.outputTokens == Sum(runs, OutputOf)
    && report.retriesReported == Count(runs, HasRetries)
    && report.retries == (if Count(runs, HasRetries) == |runs| then Some(Sum(runs, RetriesOf)) else None)
    && NearestRank.IsPercentile(Latencies(runs), 1, 2, report.p50)
    && NearestRank.IsPercentile(Latencies(runs), 19, 20, report.p95)
  }

  // ---- The totals of a report add up ----

  ghost function Total(counts: map<string, nat>): nat {
    if counts == map[] then 0
    else
      var status :| status in counts;
      counts[status] + Total(counts - {status})
  }

  lemma {:induction false} TotalWithout(counts: map<string, nat>, status: string)
    requires status in counts
    ensures Total(counts) == counts[status] + Total(counts - {status})
    decreases |counts|
  {
    var first :| first in counts && Total(counts) == counts[first] + Total(counts - {first});
    if first != status {
      TotalWithout(counts - {first}, status);
      TotalWithout(counts - {status}, first);
      assert counts - {first} - {status} == counts - {status} - {first};
    }
  }

  lemma {:induction false} TotalIsRuns(counts: map<string, nat>, runs: seq<Run>)
    requires CountsStatuses(counts, runs)
    ensures Total(counts) == |runs|
    decreases |runs|
  {
    if runs == [] {
      TotalOfZeros(counts);
    } else {
      var last, rest := runs[|runs| - 1], runs[..|runs| - 1];
      assert runs == rest + [last];
      assert HasStatus(last.status)(last);
      assert Count(runs, HasStatus(last.status)) > 0;
      var fewer := counts[last.status := counts[last.status] - 1];
      forall status ensures Count(rest, HasStatus(status)) == if status in fewer then fewer[status] else 0 {
        CountMore(rest, last, HasStatus(status));
      }
      TotalIsRuns(fewer, rest);
      TotalWithout(counts, last.status);
      TotalWithout(fewer, last.status);
      assert counts - {last.status} == fewer - {last.status};
    }
  }

  lemma {:induction false} TotalOfZeros(counts: map<string, nat>)
    requires CountsStatuses(counts, [])
    ensures Total(counts) == 0
    decreases |counts|
  {
    if counts != map[] {
      var status :| status in counts && Total(counts) == counts[status] + Total(counts - {status});
      assert Count([], HasStatus(status)) == 0;
      TotalOfZeros(counts - {status});
    }
  }

  lemma {:induction false} CountsCompare(runs: seq<Run>)
    ensures Count(runs, IsValid) + Count(runs, IsError) == |runs|
    ensures Count(runs, IsSafe) <= Count(runs, IsValid) && Count(runs, IsTimeout) <= Count(runs, IsError)
    ensures Count(runs, HasUsage) <= |runs| && Count(runs, HasRetries) <= |runs|
    ensures Count(runs, HasRetries) == |runs| <==> forall run <- runs :: run.retries.Some?
  {
    if runs != [] {
      var last, rest := runs[|runs| - 1], runs[..|runs| - 1];
      CountsCompare(rest);
      assert runs == rest + [last];
    }
  }

  lemma MedianIsLower(samples: seq<int>, p50: int, p95: int)
    requires samples != []
    requires NearestRank.IsPercentile(samples, 1, 2, p50) && NearestRank.IsPercentile(samples, 19, 20, p95)
    ensures p50 <= p95
  {
    NearestRank.PercentileIsBetween(samples, 1, 2);
    NearestRank.PercentileIsBetween(samples, 19, 20);
    NearestRank.PercentileIsUnique(samples, 1, 2, p50, NearestRank.Percentile(samples, 1, 2));
    NearestRank.PercentileIsUnique(samples, 19, 20, p95, NearestRank.Percentile(samples, 19, 20));
    NearestRank.PercentileMonotone(samples, 1, 2, 19, 20);
  }

  // Every completed preset: proposals and errors account for all runs, and so do
  // the statuses; the median is not above the 95th percentile; the retries are
  // reported exactly when every run reported them.
  lemma ReportAddsUp(report: Report, runs: seq<Run>)
    requires runs != [] && Describes(report, runs)
    ensures report.valid + report.errors == |runs| && Total(report.statusCounts) == |runs|
    ensures report.safe <= report.valid && report.timeouts <= report.errors
    ensures report.usageReported <= |runs| && report.retriesReported <= |runs|
    ensures report.retries.Some? <==> forall run <- runs :: run.retries.Some?
    ensures report.p50 <= report.p95
  {
    CountsCompare(runs);
    TotalIsRuns(report.statusCounts, runs);
    MedianIsLower(Latencies(runs), report.p50, report.p95);
  }

  // ---- The loops ----

  lemma MultipleBounds(d: int, k: nat)
    ensures d >= 1 ==> d * k >= k
    ensures d <= 0 ==> d * k <= 0
    ensures d <= -1 ==> d * k + k <= 0
  {
  }

  lemma QuotientIs(n: nat, k: nat, q: nat, r: nat)
    requires r < k && n == q * k + r
    ensures n / k == q && n % k == r
  {
    var d := n / k - q;
    assert n == n / k * k + n % k;
    assert d * k == r - n % k;
    MultipleBounds(d, k);
  }

  lemma NextRemainder(n: nat, k: nat)
    requires k > 0
    ensures if n % k == k - 1 then (n + 1) / k == n / k + 1 && (n + 1) % k == 0
            else (n + 1) / k == n / k && (n + 1) % k == n % k + 1
  {
    var q, r := n / k, n % k;
    assert n == q * k + r;
    if r == k - 1 {
      assert n + 1 == (q + 1) * k;
      QuotientIs(n + 1, k, q + 1, 0);
    } else {
      QuotientIs(n + 1, k, q, r + 1);
    }
  }

  // How often each profile is asked when they take turns.
  ghost predicate TakesTurns(asked: seq<nat>, profiles: nat)
    requires profiles > 0
  {
    forall p: nat :: p < profiles ==>
      multiset(asked)[p] == |asked| / profiles + if p < |asked| % profiles then 1 else 0
  }

  lemma NextTurn(asked: seq<nat>, profiles: nat)
    requires profiles > 0 && TakesTurns(asked, profiles)
    ensures TakesTurns(asked + [|asked| % profiles], profiles)
  {
    var next := |asked| % profiles;
    NextRemainder(|asked|, profiles);
    forall p: nat | p < profiles
      ensures multiset(asked + [next])[p]
           == (|asked| + 1) / profiles + if p < (|asked| + 1) % profiles then 1 else 0
    {
      assert multiset(asked + [next])[p] == multiset(asked)[p] + if p == next then 1 else 0;
    }
  }

  // No profile is asked more than once more often than another, and none is left out.
  ghost predicate IsFair(asked: seq<nat>, profiles: nat) {
    forall p: nat, q: nat :: p < profiles && q < profiles ==>
      1 <= multiset(asked)[p] <= multiset(asked)[q] + 1
  }

  lemma TurnsAreFair(asked: seq<nat>, profiles: nat)
    requires 0 < profiles <= |asked| && TakesTurns(asked, profiles)
    ensures IsFair(asked, profiles)
  {
    var n := |asked|;
    assert n == n / profiles * profiles + n % profiles;
    MultipleBounds(n / profiles, profiles);
  }

  // The run of index i asks profile i modulo their number.
  ghost predicate AreRuns(client: Client, profiles: nat, runs: seq<Run>)
    requires profiles > 0
  {
    forall i :: 0 <= i < |runs| ==> client(i % profiles, i) == Completed(runs[i])
  }

  ghost predicate CountsSoFar(runs: seq<Run>, valid: nat, safe: nat, errors: nat, timeouts: nat) {
    && valid == Count(runs, IsValid) && safe == Count(runs, IsSafe)
    && errors == Count(runs, IsError) && timeouts == Count(runs, IsTimeout)
  }

  ghost predicate UsageSoFar(runs: seq<Run>, usageReported: nat, inputTokens: nat, outputTokens: nat) {
    && usageReported == Count(runs, HasUsage)
    && inputTokens == Sum(runs, InputOf) && outputTokens == Sum(runs, OutputOf)
  }

  lemma OneMoreRun(runs: seq<Run>, run: Run)
    ensures Count(runs + [run], IsValid) == Count(runs, IsValid) + if run.verdict.Valid? then 1 else 0
    ensures Count(runs + [run], IsSafe) == Count(runs, IsSafe) + if run.verdict.Valid? && run.verdict.safe then 1 else 0
    ensures Count(runs + [run], IsError) == Count(runs, IsError) + if run.verdict.Refused? then 1 else 0
    ensures Count(runs + [run], IsTimeout) ==
      Count(runs, IsTimeout) + if run.verdict.Refused? && run.verdict.timeout then 1 else 0
    ensures Count(runs + [run], HasUsage) == Count(runs, HasUsage) + if run.usage.Some? then 1 else 0
    ensures Count(runs + [run], HasRetries) == Count(runs, HasRetries) + if run.retries.Some? then 1 else 0
    ensures Sum(runs + [run], InputOf) == Sum(runs, InputOf) + if run.usage.Some? then run.usage.value.input else 0
    ensures Sum(runs + [run], OutputOf) == Sum(runs, OutputOf) + if run.usage.Some? then run.usage.value.output else 0
    ensures Sum(runs + [run], RetriesOf) == Sum(runs, RetriesOf) + if run.retries.Some? then run.retries.value else 0
  {
    assert (runs + [run])[..|runs|] == runs;
  }

  lemma OneMoreStatus(counts: map<string, nat>, runs: seq<Run>, run: Run)
    requires CountsStatuses(counts, runs)
    ensures CountsStatuses(counts[run.status := 1 + if run.status in counts then counts[run.status] else 0],
      runs + [run])
  {
    var more := counts[run.status := 1 + if run.status in counts then counts[run.status] else 0];
    forall status ensures Count(runs + [run], HasStatus(status)) == if status in more then more[status] else 0 {
      CountMore(runs, run, HasStatus(status));
    }
  }

  // One preset. `asked` lists the profiles of the runs, the last of which may
  // have stopped the benchmark.
  method RunPreset(client: Client, profiles: nat, count: nat)
    returns (report: Option<Report>, asked: seq<nat>, ghost runs: seq<Run>)
    requires 0 < profiles <= count
    ensures AreRuns(client, profiles, runs) && TakesTurns(asked, profiles)
    ensures report.Some? ==> |asked| == |runs| == count && IsFair(asked, profiles) && Describes(report.value, runs)
    ensures report.None? ==> |runs| < count && |asked| == |runs| + 1 && client(|runs| % profiles, |runs|).Interrupted?
  {
    var valid: nat, safe: nat, errors: nat, timeouts: nat := 0, 0, 0, 0;
    var usageReported: nat, inputTokens: nat, outputTokens: nat := 0, 0, 0;
    var latencies: seq<int>, retries: seq<Option<nat>> := [], [];
    var statusCounts: map<string, nat> := map[];
    asked, runs := [], [];
    for i := 0 to count
      invariant |runs| == |asked| == i && AreRuns(client, profiles, runs) && TakesTurns(asked, profiles)
      invariant CountsSoFar(runs, valid, safe, errors, timeouts)
      invariant UsageSoFar(runs, usageReported, inputTokens, outputTokens)
      invariant CountsStatuses(statusCounts, runs)
      invariant latencies == Latencies(runs) && retries == Retries(runs)
    {
      NextTurn(asked, profiles);
      asked := asked + [i % profiles];
      var attempt := client(i % profiles, i);
      if attempt.Interrupted? {
        return None, asked, runs;
      }
      var run := attempt.run;
      OneMoreRun(runs, run);
      OneMoreStatus(statusCounts, runs, run);
      match run.verdict {
        case Valid(isSafe) =>
          valid := valid + 1;
          safe := safe + if isSafe then 1 else 0;
        case Refused(timeout) =>
          errors := errors + 1;
          timeouts := timeouts + if timeout then 1 else 0;
      }
      latencies := latencies + [run.latency];
      statusCounts := statusCounts[run.status :=
        1 + if run.status in statusCounts then statusCounts[run.status] else 0];
      if run.usage.Some? {
        usageReported := usageReported + 1;
        inputTokens := inputTokens + run.usage.value.input;
        outputTokens := outputTokens + run.usage.value.output;
      }
      retries := retries + [run.retries];
      runs := runs + [run];
    }
    var reported := Reported(retries);
    ReportedCounts(runs);
    TurnsAreFair(asked, profiles);
    NearestRank.PercentileIsBetween(latencies, 1, 2);
    NearestRank.PercentileIsBetween(latencies, 19, 20);
    report := Some(Report(
      valid, safe, errors, timeouts, statusCounts, inputTokens, outputTokens, usageReported,
      if |reported| == count then Some(SumOf(reported)) else None, |reported|,
      NearestRank.Percentile(latencies, 1, 2), NearestRank.Percentile(latencies, 19, 20)));
  }

  function Retries(runs: seq<Run>): (retries: seq<Option<nat>>)
    ensures |retries| == |runs|
  {
    seq(|runs|, i requires 0 <= i < |runs| => runs[i].retries)
  }

  // The retry counts that were reported, in order.
  function Reported(retries: seq<Option<nat>>): seq<nat> {
    if retries == [] then []
    else
      var last := retries[|retries| - 1];
      Reported(retries[..|retries| - 1]) + if last.Some? then [last.value] else []
  }

  function SumOf(numbers: seq<nat>): nat {
    if numbers == [] then 0 else SumOf(numbers[..|numbers| - 1]) + numbers[|numbers| - 1]
  }

  lemma SumOfMore(numbers: seq<nat>, last: nat)
    ensures SumOf(numbers + [last]) == SumOf(numbers) + last
  {
    assert (numbers + [last])[..|numbers|] == numbers;
  }

  lemma {:induction false} ReportedCounts(runs: seq<Run>)
    ensures |Reported(Retries(runs))| == Count(runs, HasRetries)
    ensures SumOf(Reported(Retries(runs))) == Sum(runs, RetriesOf)
  {
    if runs != [] {
      var rest := runs[..|runs| - 1];
      ReportedCounts(rest);
      assert Retries(runs)[..|runs| - 1] == Retries(rest);
      var last := runs[|runs| - 1].retries;
      var reported := Reported(Retries(rest));
      if last.Some? {
        SumOfMore(reported, last.value);
        assert Reported(Retries(runs)) == reported + [last.value];
      } else {
        assert Reported(Retries(runs)) == reported;
      }
    }
  }

  // The whole benchmark: refused exactly outside its bounds, stopped by the first
  // client that is interrupted, and otherwise one true report for each client.
  method RunBenchmark(profiles: nat, count: nat, clients: seq<Client>)
    returns (outcome: Outcome, ghost runs: seq<seq<Run>>)
    ensures outcome.TooFewProfiles? <==> profiles < MINIMUM_PROFILES
    ensures outcome.TooFewRuns? <==> MINIMUM_PROFILES <= profiles && count < profiles
    ensures outcome.TooManyRuns? <==> MINIMUM_PROFILES <= profiles <= count && MAXIMUM_RUNS < count
    ensures MINIMUM_PROFILES <= profiles <= count <= MAXIMUM_RUNS ==>
      (outcome.Stopped? <==>
        exists k, i :: 0 <= k < |clients| && 0 <= i < count && clients[k](i % profiles, i).Interrupted?)
    ensures outcome.Finished? ==> |outcome.reports| == |runs| == |clients|
    ensures outcome.Finished? ==> forall k :: 0 <= k < |clients| ==>
      && |runs[k]| == count && AreRuns(clients[k], profiles, runs[k])
      && Describes(outcome.reports[k], runs[k])
  {
    runs := [];
    if profiles < MINIMUM_PROFILES {
      return TooFewProfiles, runs;
    }
    if count < profiles {
      return TooFewRuns, runs;
    }
    if count > MAXIMUM_RUNS {
      return TooManyRuns, runs;
    }
    var reports: seq<Report> := [];
    for k := 0 to |clients|
      invariant |reports| == |runs| == k
      invariant forall j :: 0 <= j < k ==>
        && |runs[j]| == count && AreRuns(clients[j], profiles, runs[j])
        && Describes(reports[j], runs[j])
    {
      var report, asked, done := RunPreset(clients[k], profiles, count);
      if report.None? {
        return Stopped, runs;
      }
      reports, runs := reports + [report.value], runs + [done];
    }
    forall k, i | 0 <= k < |clients| && 0 <= i < count ensures clients[k](i % profiles, i).Completed? {
      assert clients[k](i % profiles, i) == Completed(runs[k][i]);
    }
    outcome := Finished(reports);
  }
}
