/** The status validator object: its construction from functional options, the
    check of its fields, and the evaluation pass that reads the commit's
    combined status and check runs through the GitHub client and reports how
    many jobs are complete. Each method is proved against the functions of
    modules StatusOptions and Reconcile. */
module Validator {
  import opened Common
  import opened GoStrings
  import MultiError
  import opened StatusOptions
  import opened Reconcile
  import StatusReport

  /** A listing call made to the GitHub client, with its coordinates. */
  datatype Request =
    | CombinedStatusRequest(owner: string, repo: string, ref: string)
    | CheckRunsRequest(owner: string, repo: string, ref: string)

  /** The GitHub client as the validator uses it: each listing call answers
      with a fixed response (its first page), and the calls made are logged. */
  class Client {
    const combinedResponse: Result<seq<RepoStatus>, NonNilError>
    const checkRunsResponse: Result<seq<CheckRun>, NonNilError>
    ghost var requests: seq<Request>

    constructor(combined: Result<seq<RepoStatus>, NonNilError>, runs: Result<seq<CheckRun>, NonNilError>)
      ensures combinedResponse == combined && checkRunsResponse == runs
      ensures requests == []
    {
      combinedResponse := combined;
      checkRunsResponse := runs;
      requests := [];
    }

    method GetCombinedStatus(owner: string, repo: string, ref: string) returns (r: Result<seq<RepoStatus>, NonNilError>)
      modifies this
      ensures r == combinedResponse
      ensures requests == old(requests) + [CombinedStatusRequest(owner, repo, ref)]
    {
      requests := requests + [CombinedStatusRequest(owner, repo, ref)];
      r := combinedResponse;
    }

    method ListCheckRunsForRef(owner: string, repo: string, ref: string) returns (r: Result<seq<CheckRun>, NonNilError>)
      modifies this
      ensures r == checkRunsResponse
      ensures requests == old(requests) + [CheckRunsRequest(owner, repo, ref)]
    {
      requests := requests + [CheckRunsRequest(owner, repo, ref)];
      r := checkRunsResponse;
    }
  }

  // ---------------------------------------------------------------------------
  // Field check
  // ---------------------------------------------------------------------------

  const RepoEmpty := Error("repository name is empty")
  const OwnerEmpty := Error("repository owner is empty")
  const RefEmpty := Error("reference of repository is empty")
  const SelfJobEmpty := Error("self job name is empty")
  const ClientEmpty := Error("github client is empty")

  /** One check's contribution: its error when the field is missing. */
  function When(missing: bool, e: GoError): seq<GoError> {
    if missing then [e] else []
  }

  /** The errors `validateFields` collects, one per missing field. */
  function FieldErrors(c: Config, hasClient: bool): MultiError.Errors {
    When(c.repo == "", RepoEmpty)
    + When(c.owner == "", OwnerEmpty)
    + When(c.ref == "", RefEmpty)
    + When(c.selfJobName == "", SelfJobEmpty)
    + When(!hasClient, ClientEmpty)
  }

  /** The five messages differ from one another. */
  lemma FieldErrorsDiffer()
    ensures RepoEmpty != OwnerEmpty && RepoEmpty != RefEmpty && RepoEmpty != SelfJobEmpty && RepoEmpty != ClientEmpty
    ensures OwnerEmpty != RefEmpty && OwnerEmpty != SelfJobEmpty && OwnerEmpty != ClientEmpty
    ensures RefEmpty != SelfJobEmpty && RefEmpty != ClientEmpty
    ensures SelfJobEmpty != ClientEmpty
  {
    assert |RepoEmpty.text| == 24 && |OwnerEmpty.text| == 25 && |RefEmpty.text| == 32;
    assert |SelfJobEmpty.text| == 22 && |ClientEmpty.text| == 22;
    assert SelfJobEmpty.text[0] != ClientEmpty.text[0];
  }

  lemma InWhens(x: GoError, a: seq<GoError>, b: seq<GoError>, c: seq<GoError>, d: seq<GoError>, e: seq<GoError>)
    ensures x in a + b + c + d + e <==> x in a || x in b || x in c || x in d || x in e
  {
  }

  /** The field check reports each missing field and only those; it passes
      iff every field is set. */
  lemma FieldErrorsReportMissingFields(c: Config, hasClient: bool)
    ensures var errs := FieldErrors(c, hasClient);
      && (RepoEmpty in errs <==> c.repo == "")
      && (OwnerEmpty in errs <==> c.owner == "")
      && (RefEmpty in errs <==> c.ref == "")
      && (SelfJobEmpty in errs <==> c.selfJobName == "")
      && (ClientEmpty in errs <==> !hasClient)
    ensures FieldErrors(c, hasClient) == [] <==>
      c.repo != "" && c.owner != "" && c.ref != "" && c.selfJobName != "" && hasClient
  {
    FieldErrorsDiffer();
    var w1, w2, w3 := When(c.repo == "", RepoEmpty), When(c.owner == "", OwnerEmpty), When(c.ref == "", RefEmpty);
    var w4, w5 := When(c.selfJobName == "", SelfJobEmpty), When(!hasClient, ClientEmpty);
    InWhens(RepoEmpty, w1, w2, w3, w4, w5);
    InWhens(OwnerEmpty, w1, w2, w3, w4, w5);
    InWhens(RefEmpty, w1, w2, w3, w4, w5);
    InWhens(SelfJobEmpty, w1, w2, w3, w4, w5);
    InWhens(ClientEmpty, w1, w2, w3, w4, w5);
    assert |FieldErrors(c, hasClient)| == |w1| + |w2| + |w3| + |w4| + |w5|;
  }

  /** The position of each field's error in the order the fields are checked. */
  function FieldRank(e: GoError): int {
    if e == RepoEmpty then 0
    else if e == OwnerEmpty then 1
    else if e == RefEmpty then 2
    else if e == SelfJobEmpty then 3
    else if e == ClientEmpty then 4
    else 5
  }

  lemma FieldRanks()
    ensures FieldRank(RepoEmpty) == 0 && FieldRank(OwnerEmpty) == 1 && FieldRank(RefEmpty) == 2
    ensures FieldRank(SelfJobEmpty) == 3 && FieldRank(ClientEmpty) == 4
  {
    FieldErrorsDiffer();
  }

  /** Errors in strictly increasing rank, all below `bound`. */
  predicate RankedBelow(errs: seq<GoError>, bound: int) {
    && (forall i :: 0 <= i < |errs| ==> FieldRank(errs[i]) < bound)
    && (forall i, j :: 0 <= i < j < |errs| ==> FieldRank(errs[i]) < FieldRank(errs[j]))
  }

  lemma RankedWhen(errs: seq<GoError>, missing: bool, e: GoError)
    requires RankedBelow(errs, FieldRank(e))
    ensures RankedBelow(errs + When(missing, e), FieldRank(e) + 1)
  {
  }

  /** The errors come once each, in the order repository name, owner, ref,
      self job, client. */
  lemma FieldErrorsInFieldOrder(c: Config, hasClient: bool)
    ensures var errs := FieldErrors(c, hasClient);
      && (forall i :: 0 <= i < |errs| ==> FieldRank(errs[i]) < 5)
      && (forall i, j :: 0 <= i < j < |errs| ==> FieldRank(errs[i]) < FieldRank(errs[j]))
  {
    FieldRanks();
    var s0: seq<GoError> := [];
    RankedWhen(s0, c.repo == "", RepoEmpty);
    var s1 := s0 + When(c.repo == "", RepoEmpty);
    RankedWhen(s1, c.owner == "", OwnerEmpty);
    var s2 := s1 + When(c.owner == "", OwnerEmpty);
    RankedWhen(s2, c.ref == "", RefEmpty);
    var s3 := s2 + When(c.ref == "", RefEmpty);
    RankedWhen(s3, c.selfJobName == "", SelfJobEmpty);
    var s4 := s3 + When(c.selfJobName == "", SelfJobEmpty);
    RankedWhen(s4, !hasClient, ClientEmpty);
    assert s1 == When(c.repo == "", RepoEmpty);
  }

  /** Owner, repository, ref and self job given non-empty, with a client:
      the field check passes, whatever ignored list is given. */
  lemma CompleteOptionsPass(owner: string, repo: string, ref: string, job: string, ignored: string)
    requires owner != "" && repo != "" && ref != "" && job != ""
    ensures var opts := [WithGitHubOwnerAndRepo(owner, repo), WithGitHubRef(ref), WithSelfJob(job), WithIgnoredJobs(ignored)];
      FieldErrors(ApplyAll(Unset, opts), true) == []
  {
    var opts := [WithGitHubOwnerAndRepo(owner, repo), WithGitHubRef(ref), WithSelfJob(job), WithIgnoredJobs(ignored)];
    assert opts[..1][..0] == [] && opts[..2][..1] == opts[..1] && opts[..3][..2] == opts[..2] && opts[..4][..3] == opts[..3];
    assert opts[..4] == opts;
    var c1 := ApplyAll(Unset, opts[..1]);
    assert c1.owner == owner && c1.repo == repo;
    var c2 := ApplyAll(Unset, opts[..2]);
    assert c2 == Apply(c1, opts[1]);
    var c3 := ApplyAll(Unset, opts[..3]);
    assert c3 == Apply(c2, opts[2]);
    var c := ApplyAll(Unset, opts);
    assert c == Apply(c3, opts[3]);
    FieldErrorsReportMissingFields(c, true);
  }

  /** With no options and no client every check fails, in field order. */
  lemma NothingSetReportsEverything()
    ensures FieldErrors(ApplyAll(Unset, []), false) == [RepoEmpty, OwnerEmpty, RefEmpty, SelfJobEmpty, ClientEmpty]
  {
    var es := FieldErrors(Unset, false);
    assert es[..1][..0] == [] && es[..2][..1] == es[..1] && es[..3][..2] == es[..2] && es[..4][..3] == es[..3] && es[..5] == es;
  }

  /** The requests one evaluation pass makes: the combined status always,
      the check runs only when the combined statuses arrived well-formed. */
  function PassRequests(owner: string, repo: string, ref: string, combined: Result<seq<RepoStatus>, NonNilError>): seq<Request> {
    [CombinedStatusRequest(owner, repo, ref)]
    + (if combined.Success? && AllValidStatuses(combined.value) then [CheckRunsRequest(owner, repo, ref)] else [])
  }

  // ---------------------------------------------------------------------------
  // The validator
  // ---------------------------------------------------------------------------

  class StatusValidator {
    var repo: string
    var owner: string
    var ref: string
    var selfJobName: string
    var ignoredJobs: Option<seq<string>>
    const client: Client?

    /** The configurable fields, as a value. */
    function Fields(): Config
      reads this
    {
      Config(repo, owner, ref, selfJobName, ignoredJobs)
    }

    /** A validator holding only the client. */
    constructor(c: Client?)
      ensures Fields() == Unset && client == c
    {
      repo := "";
      owner := "";
      ref := "";
      selfJobName := "";
      ignoredJobs := None;
      client := c;
    }

    function Name(): string
      reads this
    {
      selfJobName
    }

    // The four options, applied to this validator.

    method ApplySelfJob(name: string)
      modifies this
      ensures Fields() == Apply(old(Fields()), WithSelfJob(name))
    {
      if |name| != 0 {
        selfJobName := name;
      }
    }

    method ApplyOwnerAndRepo(owner': string, repo': string)
      modifies this
      ensures Fields() == Apply(old(Fields()), WithGitHubOwnerAndRepo(owner', repo'))
    {
      if |owner'| != 0 {
        owner := owner';
      }
      if |repo'| != 0 {
        repo := repo';
      }
    }

    method ApplyRef(ref': string)
      modifies this
      ensures Fields() == Apply(old(Fields()), WithGitHubRef(ref'))
    {
      if |ref'| != 0 {
        ref := ref';
      }
    }

    /** An empty argument changes nothing; otherwise the comma-separated
        pieces, trimmed, empty ones skipped, replace the ignored list. */
    method ApplyIgnoredJobs(names: string)
      modifies this
      ensures Fields() == Apply(old(Fields()), WithIgnoredJobs(names))
    {
      if |names| == 0 {
        return;
      }
      var jobs: seq<string> := [];
      var ss := Split(names, ',');
      for i := 0 to |ss|
        invariant jobs == NonEmptyTrimmed(ss[..i])
      {
        assert ss[..i + 1][..i] == ss[..i];
        var jobName := TrimSpace(ss[i]);
        if |jobName| == 0 {
          continue;
        }
        jobs := jobs + [jobName];
      }
      assert ss[..|ss|] == ss;
      ignoredJobs := Some(jobs);
    }

    method ApplyOption(opt: ValidatorOption)
      modifies this
      ensures Fields() == Apply(old(Fields()), opt)
    {
      match opt
      case WithSelfJob(name) => ApplySelfJob(name);
      case WithGitHubOwnerAndRepo(o, r) => ApplyOwnerAndRepo(o, r);
      case WithGitHubRef(r) => ApplyRef(r);
      case WithIgnoredJobs(names) => ApplyIgnoredJobs(names);
    }

    /** `validateFields`: one error per missing field, in field order. */
    method ValidateFields() returns (errs: MultiError.Errors)
      ensures errs == FieldErrors(Fields(), client != null)
    {
      errs := [];
      if |repo| == 0 {
        errs := errs + [RepoEmpty];
      }
      if |owner| == 0 {
        errs := errs + [OwnerEmpty];
      }
      if |ref| == 0 {
        errs := errs + [RefEmpty];
      }
      if |selfJobName| == 0 {
        errs := errs + [SelfJobEmpty];
      }
      if client == null {
        errs := errs + [ClientEmpty];
      }
    }

    /** `listGhaStatuses`: the combined statuses, then the check runs, merged
        by first-seen job name. */
    method ListGhaStatuses() returns (r: Result<seq<GhaStatus>, StatusError>)
      requires client != null
      requires NoNilConclusion(client.combinedResponse, client.checkRunsResponse)
      modifies client
      ensures r == Reconcile.ListGhaStatuses(client.combinedResponse, client.checkRunsResponse)
      ensures client.requests == old(client.requests) + PassRequests(owner, repo, ref, client.combinedResponse)
    {
      var combined := client.GetCombinedStatus(owner, repo, ref);
      if combined.Failure? {
        return Failure(ClientError(combined.error));
      }
      var valid, seen, out := MergeStatuses(combined.value);
      if !valid {
        return Failure(InvalidCombinedStatusResponse);
      }

      var runResult := client.ListCheckRunsForRef(owner, repo, ref);
      if runResult.Failure? {
        return Failure(ClientError(runResult.error));
      }
      RunsLoopEntry(combined, runResult);
      valid, seen, out := MergeRuns(combined, runResult, seen, out);
      if !valid {
        return Failure(InvalidCheckRunResponse);
      }
      return Success(out);
    }

    /** `Validate`: the merged jobs, with the ignored jobs and the self job
        counted as successes, aggregated into a report; any failed job makes
        the whole pass an error carrying the report's detail. */
    method Validate() returns (r: Result<StatusReport.Status, StatusError>)
      requires client != null
      requires NoNilConclusion(client.combinedResponse, client.checkRunsResponse)
      modifies client
      ensures r == ValidateResult(selfJobName, ignoredJobs.GetOr([]),
                                  Reconcile.ListGhaStatuses(client.combinedResponse, client.checkRunsResponse))
      ensures client.requests == old(client.requests) + PassRequests(owner, repo, ref, client.combinedResponse)
    {
      var listed := ListGhaStatuses();
      if listed.Failure? {
        return Failure(listed.error);
      }
      var gs := listed.value;
      var ignored := ignoredJobs.GetOr([]);

      var total: seq<string> := [];
      var complete: seq<string> := [];
      var errs: seq<string> := [];
      var successCnt: nat := 0;
      ghost var requests := client.requests;
      for i := 0 to |gs|
        invariant client.requests == requests
        invariant Aggregate(selfJobName, ignored, gs[..i]) == Tally(total, complete, errs, successCnt)
      {
        assert gs[..i + 1][..i] == gs[..i];
        var g := gs[i];
        var toIgnore := MatchesIgnored(g.job, ignored);

        if toIgnore || g.job == selfJobName {
          successCnt := successCnt + 1;
          continue;
        }
        total := total + [g.job];
        if g.state == SuccessState {
          complete := complete + [g.job];
          successCnt := successCnt + 1;
        } else if g.state == ErrorState || g.state == FailureState {
          errs := errs + [g.job];
        }
      }
      assert gs[..|gs|] == gs;

      var st := StatusReport.Status(total, complete, errs, [], true);
      if |errs| != 0 {
        return Failure(JobsFailed(StatusReport.Detail(st)));
      }
      if |gs| != successCnt {
        st := st.(succeeded := false);
        return Success(st);
      }
      return Success(st);
    }
  }

  /** `Validate`'s inner loop: whether the job equals a trimmed ignored
      entry; the search stops at the first match. */
  method MatchesIgnored(job: string, ignored: seq<string>) returns (toIgnore: bool)
    ensures toIgnore <==> exists m :: 0 <= m < |ignored| && job == TrimSpace(ignored[m])
  {
    toIgnore := false;
    for k := 0 to |ignored|
      invariant !toIgnore
      invariant forall m :: 0 <= m < k ==> job != TrimSpace(ignored[m])
    {
      if job == TrimSpace(ignored[k]) {
        toIgnore := true;
        break;
      }
    }
  }

  /** The combined-status loop of `listGhaStatuses`: it stops at the first
      malformed status; otherwise `seen` and `out` are the names and the
      first-seen merge of the statuses. */
  method MergeStatuses(sts: seq<RepoStatus>) returns (valid: bool, seen: set<string>, out: seq<GhaStatus>)
    ensures valid <==> AllValidStatuses(sts)
    ensures valid ==> ReachableClassifiable(StatusEntries(sts))
    ensures valid ==> seen == Names(StatusEntries(sts)) && out == Dedup(StatusEntries(sts))
  {
    seen, out := {}, [];
    for i := 0 to |sts|
      invariant AllValidStatuses(sts[..i])
      invariant ReachableClassifiable(StatusEntries(sts[..i]))
      invariant seen == Names(StatusEntries(sts[..i]))
      invariant out == Dedup(StatusEntries(sts[..i]))
    {
      var s := sts[i];
      if s.context.None? || s.state.None? {
        assert !ValidStatus(sts[i]);
        return false, seen, out;
      }
      CombinedStep(sts, i);
      if s.context.value in seen {
        continue;
      }
      seen := seen + {s.context.value};
      out := out + [GhaStatus(s.context.value, s.state.value)];
    }
    assert sts[..|sts|] == sts;
    return true, seen, out;
  }

  /** The check-run loop of `listGhaStatuses`, continuing from the merge of
      the combined statuses: it stops at the first malformed run; otherwise
      `out` is the first-seen merge of the statuses followed by the runs. */
  method MergeRuns(combined: Result<seq<RepoStatus>, NonNilError>, runs: Result<seq<CheckRun>, NonNilError>,
                   seen0: set<string>, out0: seq<GhaStatus>)
    returns (valid: bool, seen: set<string>, out: seq<GhaStatus>)
    requires NoNilConclusion(combined, runs)
    requires combined.Success? && AllValidStatuses(combined.value) && runs.Success?
    requires ReachableClassifiable(Entries(combined.value, runs.value[..0]))
    requires seen0 == Names(Entries(combined.value, runs.value[..0]))
    requires out0 == Dedup(Entries(combined.value, runs.value[..0]))
    ensures valid <==> AllValidRuns(runs.value)
    ensures valid ==> ReachableClassifiable(Entries(combined.value, runs.value))
    ensures valid ==> out == Dedup(Entries(combined.value, runs.value))
  {
    var sts, rs := combined.value, runs.value;
    seen, out := seen0, out0;
    for j := 0 to |rs|
      invariant AllValidRuns(rs[..j])
      invariant ReachableClassifiable(Entries(sts, rs[..j]))
      invariant seen == Names(Entries(sts, rs[..j]))
      invariant out == Dedup(Entries(sts, rs[..j]))
    {
      var run := rs[j];
      if run.name.None? || run.status.None? {
        assert !ValidRun(rs[j]);
        return false, seen, out;
      }
      RunStep(combined, runs, j);
      if run.name.value in seen {
        continue;
      }
      seen := seen + {run.name.value};
      EmitRun(run);

      if run.status.value != CompletedStatus {
        out := out + [GhaStatus(run.name.value, PendingState)];
        continue;
      }
      var conclusion := run.conclusion.value;
      var state;
      if conclusion == NeutralConclusion || conclusion == SuccessConclusion {
        state := SuccessState;
      } else if conclusion == SkippedConclusion {
        continue;
      } else {
        state := ErrorState;
      }
      out := out + [GhaStatus(run.name.value, state)];
    }
    assert rs[..|rs|] == rs;
    return true, seen, out;
  }

  /** `CreateValidator`: a validator holding the client, with the options
      applied in order, returned only when its field check passes. */
  method CreateValidator(c: Client?, opts: seq<ValidatorOption>) returns (r: Result<StatusValidator, MultiError.Errors>)
    ensures r.Failure? <==> FieldErrors(ApplyAll(Unset, opts), c != null) != []
    ensures r.Failure? ==> r.error == FieldErrors(ApplyAll(Unset, opts), c != null)
    ensures r.Success? ==> fresh(r.value) && r.value.client == c && r.value.Fields() == ApplyAll(Unset, opts)
  {
    var sv := new StatusValidator(c);
    for i := 0 to |opts|
      invariant sv.Fields() == ApplyAll(Unset, opts[..i])
    {
      assert opts[..i + 1][..i] == opts[..i];
      sv.ApplyOption(opts[i]);
    }
    assert opts[..|opts|] == opts;
    var errs := sv.ValidateFields();
    if |errs| != 0 {
      return Failure(errs);
    }
    return Success(sv);
  }
}
