/** What one evaluation pass of the status validator computes, as functions of
    what the status source answered:
    - the merge of the combined-status listing and the check-run listing into
      one de-duplicated, ordered list of (job, state) pairs (`listGhaStatuses`);
    - the split of that list into total, complete and failed jobs with the self
      job and the ignored jobs left out, and the resulting verdict (`Validate`).
    The imperative code that computes these is in module Validator (class StatusValidator). */
module Reconcile {
  import opened Common
  import opened GoStrings
  import StatusReport

  const SuccessState := "success"
  const ErrorState := "error"
  const FailureState := "failure"
  const PendingState := "pending"

  const CompletedStatus := "completed"

  const NeutralConclusion := "neutral"
  const SuccessConclusion := "success"
  const SkippedConclusion := "skipped"

  /** An entry of the combined-status listing; either field may be missing. */
  datatype RepoStatus = RepoStatus(context: Option<string>, state: Option<string>)

  /** An entry of the check-run listing; any field may be missing. */
  datatype CheckRun = CheckRun(name: Option<string>, status: Option<string>, conclusion: Option<string>)

  /** One job and its state after reconciliation. */
  datatype GhaStatus = GhaStatus(job: string, state: string)

  /** Why an evaluation pass fails: the status source failed (its error is
      passed on unchanged), a listing held a malformed entry, or some job
      failed (the message is the summary of the partial report). */
  datatype StatusError =
    | ClientError(err: GoError)
    | InvalidCombinedStatusResponse
    | InvalidCheckRunResponse
    | JobsFailed(detail: string)

  predicate ValidStatus(s: RepoStatus) {
    s.context.Some? && s.state.Some?
  }

  predicate ValidRun(r: CheckRun) {
    r.name.Some? && r.status.Some?
  }

  predicate AllValidStatuses(sts: seq<RepoStatus>) {
    forall i :: 0 <= i < |sts| ==> ValidStatus(sts[i])
  }

  predicate AllValidRuns(rs: seq<CheckRun>) {
    forall i :: 0 <= i < |rs| ==> ValidRun(rs[i])
  }

  // ---------------------------------------------------------------------------
  // Both listings as one sequence of entries
  // ---------------------------------------------------------------------------

  /** A well-formed entry of either listing, identified by its job name. */
  datatype Entry =
    | CombinedEntry(job: string, state: string)
    | RunEntry(job: string, status: string, conclusion: Option<string>)

  function StatusEntry(s: RepoStatus): Entry
    requires ValidStatus(s)
  {
    CombinedEntry(s.context.value, s.state.value)
  }

  function RunEntryOf(r: CheckRun): Entry
    requires ValidRun(r)
  {
    RunEntry(r.name.value, r.status.value, r.conclusion)
  }

  function StatusEntries(sts: seq<RepoStatus>): (es: seq<Entry>)
    requires AllValidStatuses(sts)
    ensures |es| == |sts|
    ensures forall i :: 0 <= i < |sts| ==> es[i] == StatusEntry(sts[i])
  {
    seq(|sts|, i requires 0 <= i < |sts| => StatusEntry(sts[i]))
  }

  function RunEntries(rs: seq<CheckRun>): (es: seq<Entry>)
    requires AllValidRuns(rs)
    ensures |es| == |rs|
    ensures forall i :: 0 <= i < |rs| ==> es[i] == RunEntryOf(rs[i])
  {
    seq(|rs|, i requires 0 <= i < |rs| => RunEntryOf(rs[i]))
  }

  /** The combined-status entries first, then the check runs. */
  function Entries(sts: seq<RepoStatus>, rs: seq<CheckRun>): seq<Entry>
    requires AllValidStatuses(sts) && AllValidRuns(rs)
  {
    StatusEntries(sts) + RunEntries(rs)
  }

  /** A completed check run without a conclusion cannot be classified (the
      source dereferences the missing conclusion). */
  predicate Classifiable(e: Entry) {
    e.RunEntry? && e.status == CompletedStatus ==> e.conclusion.Some?
  }

  /** The state an entry contributes, or None for a skipped check run. */
  function Outcome(e: Entry): Option<string>
    requires Classifiable(e)
  {
    match e
    case CombinedEntry(_, state) => Some(state)
    case RunEntry(_, status, conclusion) =>
      if status != CompletedStatus then Some(PendingState)
      else if conclusion.value == NeutralConclusion || conclusion.value == SuccessConclusion then Some(SuccessState)
      else if conclusion.value == SkippedConclusion then None
      else Some(ErrorState)
  }

  /** The job names of a sequence of entries: the "seen" set after them. */
  function Names(es: seq<Entry>): set<string> {
    if es == [] then {} else Names(es[..|es| - 1]) + {es[|es| - 1].job}
  }

  /** Entry `i` is the first one with its job name. */
  predicate FirstAt(es: seq<Entry>, i: int)
    requires 0 <= i < |es|
  {
    es[i].job !in Names(es[..i])
  }

  /** Every entry that is the first with its name can be classified. */
  predicate ReachableClassifiable(es: seq<Entry>) {
    forall i {:trigger FirstAt(es, i)} :: 0 <= i < |es| && FirstAt(es, i) ==> Classifiable(es[i])
  }

  lemma PrefixClassifiable(es: seq<Entry>, m: int)
    requires ReachableClassifiable(es) && 0 <= m <= |es|
    ensures ReachableClassifiable(es[..m])
  {
    forall i | 0 <= i < m && FirstAt(es[..m], i) ensures Classifiable(es[..m][i]) {
      assert es[..m][..i] == es[..i];
      assert FirstAt(es, i);
    }
  }

  /** What one first-seen entry adds to the merged list. */
  function Emit(e: Entry): seq<GhaStatus>
    requires Classifiable(e)
  {
    match Outcome(e)
    case None => []
    case Some(state) => [GhaStatus(e.job, state)]
  }

  /** The merge: entries in order, each kept only when no earlier entry had its
      name, skipped check runs dropped (their names still count as seen). */
  function Dedup(es: seq<Entry>): seq<GhaStatus>
    requires ReachableClassifiable(es)
  {
    if es == [] then []
    else
      var n := |es| - 1;
      PrefixClassifiable(es, n);
      Dedup(es[..n]) + LastEmitted(es)
  }

  /** What the last entry adds to the merge: nothing when an earlier entry
      had its name. */
  function LastEmitted(es: seq<Entry>): seq<GhaStatus>
    requires es != [] && ReachableClassifiable(es)
  {
    var n := |es| - 1;
    if es[n].job in Names(es[..n]) then [] else assert FirstAt(es, n); Emit(es[n])
  }

  // ---------------------------------------------------------------------------
  // listGhaStatuses
  // ---------------------------------------------------------------------------

  /** The source does not panic: when both listings arrive and the combined
      statuses are well-formed, every check run reached before the first
      malformed one that is the first with its name and completed has a
      conclusion. */
  predicate NoNilConclusion(combined: Result<seq<RepoStatus>, NonNilError>, runs: Result<seq<CheckRun>, NonNilError>) {
    (combined.Success? && AllValidStatuses(combined.value) && runs.Success?) ==>
      forall j :: 0 <= j <= |runs.value| && AllValidRuns(runs.value[..j]) ==>
        ReachableClassifiable(StatusEntries(combined.value) + RunEntries(runs.value[..j]))
  }

  /** What `listGhaStatuses` returns, given the answers of the two listing calls. */
  function ListGhaStatuses(combined: Result<seq<RepoStatus>, NonNilError>, runs: Result<seq<CheckRun>, NonNilError>)
    : Result<seq<GhaStatus>, StatusError>
    requires NoNilConclusion(combined, runs)
  {
    if combined.Failure? then Failure(ClientError(combined.error))
    else if !AllValidStatuses(combined.value) then Failure(InvalidCombinedStatusResponse)
    else if runs.Failure? then Failure(ClientError(runs.error))
    else if !AllValidRuns(runs.value) then Failure(InvalidCheckRunResponse)
    else
      assert runs.value[..|runs.value|] == runs.value;
      Success(Dedup(Entries(combined.value, runs.value)))
  }

  /** On success both listings arrived well-formed and the result is the merge
      of their entries. */
  lemma ListGhaStatusesSuccess(combined: Result<seq<RepoStatus>, NonNilError>, runs: Result<seq<CheckRun>, NonNilError>)
    requires NoNilConclusion(combined, runs)
    requires ListGhaStatuses(combined, runs).Success?
    ensures combined.Success? && runs.Success? && AllValidStatuses(combined.value) && AllValidRuns(runs.value)
    ensures ReachableClassifiable(Entries(combined.value, runs.value))
    ensures ListGhaStatuses(combined, runs).value == Dedup(Entries(combined.value, runs.value))
  {
    assert runs.value[..|runs.value|] == runs.value;
  }

  // ---------------------------------------------------------------------------
  // Properties of the merge
  // ---------------------------------------------------------------------------

  lemma {:induction false} NamesMembership(es: seq<Entry>, x: string)
    ensures x in Names(es) <==> exists k :: 0 <= k < |es| && es[k].job == x
    decreases |es|
  {
    if es != [] {
      var n := |es| - 1;
      NamesMembership(es[..n], x);
      if x in Names(es[..n]) {
        var k :| 0 <= k < n && es[..n][k].job == x;
        assert es[k].job == x;
      }
    }
  }

  /** Entry `i` is first with its name iff no earlier entry has that name. */
  lemma FirstAtIff(es: seq<Entry>, i: int)
    requires 0 <= i < |es|
    ensures FirstAt(es, i) <==> forall k :: 0 <= k < i ==> es[k].job != es[i].job
  {
    NamesMembership(es[..i], es[i].job);
    if !FirstAt(es, i) {
      var k :| 0 <= k < i && es[..i][k].job == es[i].job;
      assert es[k].job == es[i].job;
    }
  }

  /** Two first occurrences of the same name are the same entry. */
  lemma FirstAtUnique(es: seq<Entry>, i: int, i': int)
    requires 0 <= i < |es| && 0 <= i' < |es|
    requires FirstAt(es, i) && FirstAt(es, i') && es[i].job == es[i'].job
    ensures i == i'
  {
    FirstAtIff(es, i);
    FirstAtIff(es, i');
  }

  /** The merged names are pairwise distinct and all come from the entries. */
  lemma {:induction false} DedupDistinct(es: seq<Entry>)
    requires ReachableClassifiable(es)
    ensures forall k :: 0 <= k < |Dedup(es)| ==> Dedup(es)[k].job in Names(es)
    ensures forall a, b :: 0 <= a < b < |Dedup(es)| ==> Dedup(es)[a].job != Dedup(es)[b].job
    decreases |es|
  {
    if es != [] {
      var n := |es| - 1;
      PrefixClassifiable(es, n);
      DedupDistinct(es[..n]);
      assert es[..n + 1] == es;
    }
  }

  /** The pair `(job, state)` comes from the first entry with that name. */
  predicate FirstWith(es: seq<Entry>, job: string, state: string)
    requires ReachableClassifiable(es)
  {
    exists i :: 0 <= i < |es| && FirstAt(es, i) && es[i].job == job && Outcome(es[i]) == Some(state)
  }

  /** `FirstWith` over one more entry: an earlier first entry, or the new one. */
  lemma FirstWithSnoc(es: seq<Entry>, job: string, state: string)
    requires es != [] && ReachableClassifiable(es) && ReachableClassifiable(es[..|es| - 1])
    ensures FirstWith(es, job, state) <==>
      FirstWith(es[..|es| - 1], job, state) ||
      (FirstAt(es, |es| - 1) && es[|es| - 1].job == job && Outcome(es[|es| - 1]) == Some(state))
  {
    var n := |es| - 1;
    var init := es[..n];
    if FirstWith(init, job, state) {
      var i :| 0 <= i < |init| && FirstAt(init, i) && init[i].job == job && Outcome(init[i]) == Some(state);
      FirstAtPrefix(es, n, i);
      assert FirstWith(es, job, state);
    }
    if FirstWith(es, job, state) {
      var i :| 0 <= i < |es| && FirstAt(es, i) && es[i].job == job && Outcome(es[i]) == Some(state);
      if i < n {
        FirstAtPrefix(es, n, i);
        assert FirstWith(init, job, state);
      }
    }
    if FirstAt(es, n) && es[n].job == job && Outcome(es[n]) == Some(state) {
      assert FirstWith(es, job, state);
    }
  }

  /** Entry `i` of a prefix is the same entry, first with its name in the
      prefix iff in the whole sequence. */
  lemma FirstAtPrefix(es: seq<Entry>, m: int, i: int)
    requires 0 <= i < m <= |es|
    ensures es[..m][i] == es[i]
    ensures FirstAt(es[..m], i) <==> FirstAt(es, i)
  {
    assert es[..m][..i] == es[..i];
  }

  /** The pair is what the last entry adds iff that entry is the first with
      its name and gives that state. */
  lemma LastEmittedMembership(es: seq<Entry>, job: string, state: string)
    requires es != [] && ReachableClassifiable(es)
    ensures GhaStatus(job, state) in LastEmitted(es) <==>
      FirstAt(es, |es| - 1) && es[|es| - 1].job == job && Outcome(es[|es| - 1]) == Some(state)
  {
  }

  /** A pair is in the merge iff it comes from the first entry with that name,
      and that entry is not a skipped check run. */
  lemma {:induction false} DedupMembership(es: seq<Entry>, job: string, state: string)
    requires ReachableClassifiable(es)
    ensures GhaStatus(job, state) in Dedup(es) <==> FirstWith(es, job, state)
    decreases |es|
  {
    if es != [] {
      PrefixClassifiable(es, |es| - 1);
      DedupMembership(es[..|es| - 1], job, state);
      FirstWithSnoc(es, job, state);
      LastEmittedMembership(es, job, state);
    }
  }

  /** The merge of a prefix of the entries is a prefix of the merge: output
      order follows input order. */
  lemma {:induction false} DedupPrefix(es: seq<Entry>, m: int)
    requires ReachableClassifiable(es) && 0 <= m <= |es|
    ensures ReachableClassifiable(es[..m])
    ensures |Dedup(es[..m])| <= |Dedup(es)| && Dedup(es)[..|Dedup(es[..m])|] == Dedup(es[..m])
    decreases |es| - m
  {
    PrefixClassifiable(es, m);
    if m == |es| {
      assert es[..m] == es;
    } else {
      var n := |es| - 1;
      PrefixClassifiable(es, n);
      DedupPrefix(es[..n], m);
      assert es[..n][..m] == es[..m];
    }
  }

  /** The output names are pairwise distinct, and a (job, state) pair is in the
      output iff the first entry with that name, combined statuses before
      check runs, yields that state. */
  lemma ListGhaStatusesFirstWins(combined: Result<seq<RepoStatus>, NonNilError>, runs: Result<seq<CheckRun>, NonNilError>, job: string, state: string)
    requires NoNilConclusion(combined, runs)
    requires ListGhaStatuses(combined, runs).Success?
    ensures combined.Success? && runs.Success? && AllValidStatuses(combined.value) && AllValidRuns(runs.value)
    ensures var out := ListGhaStatuses(combined, runs).value;
      forall a, b :: 0 <= a < b < |out| ==> out[a].job != out[b].job
    ensures var es := Entries(combined.value, runs.value);
      ReachableClassifiable(es) &&
      (GhaStatus(job, state) in ListGhaStatuses(combined, runs).value <==>
        exists i :: 0 <= i < |es| && FirstAt(es, i) && es[i].job == job && Outcome(es[i]) == Some(state))
  {
    ListGhaStatusesSuccess(combined, runs);
    var es := Entries(combined.value, runs.value);
    DedupDistinct(es);
    DedupMembership(es, job, state);
  }

  /** The combined statuses with duplicates removed: first occurrence wins,
      input order kept, states copied verbatim. */
  function CombinedJobs(sts: seq<RepoStatus>): seq<GhaStatus>
    requires AllValidStatuses(sts)
  {
    assert ReachableClassifiable(StatusEntries(sts));
    Dedup(StatusEntries(sts))
  }

  /** The output opens with the de-duplicated combined statuses. */
  lemma CombinedStatusesComeFirst(combined: Result<seq<RepoStatus>, NonNilError>, runs: Result<seq<CheckRun>, NonNilError>)
    requires NoNilConclusion(combined, runs)
    requires ListGhaStatuses(combined, runs).Success?
    ensures combined.Success? && AllValidStatuses(combined.value)
    ensures var out := ListGhaStatuses(combined, runs).value;
      var head := CombinedJobs(combined.value);
      |head| <= |out| && out[..|head|] == head
  {
    ListGhaStatusesSuccess(combined, runs);
    var sts := combined.value;
    var es := Entries(sts, runs.value);
    DedupPrefix(es, |sts|);
    assert es[..|sts|] == StatusEntries(sts);
  }

  /** A pair is among the combined jobs iff the first status with that context
      carries that state. */
  lemma CombinedJobsVerbatim(sts: seq<RepoStatus>, job: string, state: string)
    requires AllValidStatuses(sts)
    ensures GhaStatus(job, state) in CombinedJobs(sts) <==>
      exists i :: 0 <= i < |sts| && sts[i] == RepoStatus(Some(job), Some(state))
        && forall k :: 0 <= k < i ==> sts[k].context != Some(job)
  {
    var es := StatusEntries(sts);
    assert ReachableClassifiable(es);
    DedupMembership(es, job, state);
    if GhaStatus(job, state) in CombinedJobs(sts) {
      var i :| 0 <= i < |es| && FirstAt(es, i) && es[i].job == job && Outcome(es[i]) == Some(state);
      FirstAtIff(es, i);
      assert sts[i] == RepoStatus(Some(job), Some(state));
      forall k | 0 <= k < i ensures sts[k].context != Some(job) {
        assert es[k].job != job;
      }
    }
    if exists i :: 0 <= i < |sts| && sts[i] == RepoStatus(Some(job), Some(state))
        && forall k :: 0 <= k < i ==> sts[k].context != Some(job) {
      var i :| 0 <= i < |sts| && sts[i] == RepoStatus(Some(job), Some(state))
        && forall k :: 0 <= k < i ==> sts[k].context != Some(job);
      FirstAtIff(es, i);
      forall k | 0 <= k < i ensures es[k].job != es[i].job {
        assert sts[k].context != Some(job);
      }
    }
  }

  /** How a check run that is the first entry with its name is reported: not
      completed gives "pending"; completed with "neutral" or "success" gives
      "success"; "skipped" leaves the name out of the output altogether, so no
      later entry with that name appears either; any other conclusion gives
      "error". */
  lemma FirstCheckRunClassified(combined: Result<seq<RepoStatus>, NonNilError>, runs: Result<seq<CheckRun>, NonNilError>, i: int)
    requires NoNilConclusion(combined, runs)
    requires ListGhaStatuses(combined, runs).Success?
    requires runs.Success? && 0 <= i < |runs.value| && runs.value[i].name.Some?
    requires forall k :: 0 <= k < |combined.value| ==> combined.value[k].context != runs.value[i].name
    requires forall k :: 0 <= k < i ==> runs.value[k].name != runs.value[i].name
    ensures var out := ListGhaStatuses(combined, runs).value;
      var run := runs.value[i];
      var name := run.name.value;
      && run.status.Some?
      && (run.status.value != CompletedStatus ==> GhaStatus(name, PendingState) in out)
      && (run.status.value == CompletedStatus ==>
            && run.conclusion.Some?
            && (run.conclusion.value in {NeutralConclusion, SuccessConclusion} ==> GhaStatus(name, SuccessState) in out)
            && (run.conclusion.value == SkippedConclusion ==> forall k :: 0 <= k < |out| ==> out[k].job != name)
            && (run.conclusion.value !in {NeutralConclusion, SuccessConclusion, SkippedConclusion} ==>
                  GhaStatus(name, ErrorState) in out))
  {
    ListGhaStatusesSuccess(combined, runs);
    var sts, rs := combined.value, runs.value;
    var es := Entries(sts, rs);
    var p := |sts| + i;
    var name := rs[i].name.value;
    assert es[p] == RunEntryOf(rs[i]);
    FirstAtIff(es, p);
    forall k | 0 <= k < p ensures es[k].job != name {
      if k < |sts| {
        assert es[k] == StatusEntry(sts[k]);
      } else {
        assert es[k] == RunEntryOf(rs[k - |sts|]);
      }
    }
    assert FirstAt(es, p);
    var out := ListGhaStatuses(combined, runs).value;
    match Outcome(es[p])
    case Some(st) =>
      DedupMembership(es, name, st);
    case None =>
      forall k | 0 <= k < |out| ensures out[k].job != name {
        if out[k].job == name {
          assert out[k] in out;
          DedupMembership(es, name, out[k].state);
          var i' :| 0 <= i' < |es| && FirstAt(es, i') && es[i'].job == name && Outcome(es[i']) == Some(out[k].state);
          FirstAtUnique(es, p, i');
        }
      }
  }

  /** A malformed entry fails the whole call, wherever it is and even when an
      earlier entry has the same name; a failing listing call is passed on. */
  lemma MalformedEntryFailsWholeCall(combined: Result<seq<RepoStatus>, NonNilError>, runs: Result<seq<CheckRun>, NonNilError>)
    requires NoNilConclusion(combined, runs)
    ensures combined.Failure? ==> ListGhaStatuses(combined, runs) == Failure(ClientError(combined.error))
    ensures combined.Success? && (exists i :: 0 <= i < |combined.value| && !ValidStatus(combined.value[i]))
      ==> ListGhaStatuses(combined, runs) == Failure(InvalidCombinedStatusResponse)
    ensures combined.Success? && AllValidStatuses(combined.value) && runs.Failure?
      ==> ListGhaStatuses(combined, runs) == Failure(ClientError(runs.error))
    ensures combined.Success? && AllValidStatuses(combined.value) && runs.Success?
        && (exists i :: 0 <= i < |runs.value| && !ValidRun(runs.value[i]))
      ==> ListGhaStatuses(combined, runs) == Failure(InvalidCheckRunResponse)
  {
  }

  // ---------------------------------------------------------------------------
  // Validate: exclusion and aggregation
  // ---------------------------------------------------------------------------

  /** The job is the self job or equals a whitespace-trimmed ignored entry. */
  predicate Excluded(selfJob: string, ignored: seq<string>, job: string) {
    job == selfJob || exists k :: 0 <= k < |ignored| && job == TrimSpace(ignored[k])
  }

  /** The lists and the success tally that `Validate`'s loop builds. */
  datatype Tally = Tally(totalJobs: seq<string>, completeJobs: seq<string>, errJobs: seq<string>, successCnt: nat)

  function Aggregate(selfJob: string, ignored: seq<string>, gs: seq<GhaStatus>): Tally {
    if gs == [] then Tally([], [], [], 0)
    else
      var t := Aggregate(selfJob, ignored, gs[..|gs| - 1]);
      var g := gs[|gs| - 1];
      if Excluded(selfJob, ignored, g.job) then t.(successCnt := t.successCnt + 1)
      else if g.state == SuccessState then
        Tally(t.totalJobs + [g.job], t.completeJobs + [g.job], t.errJobs, t.successCnt + 1)
      else if g.state == ErrorState || g.state == FailureState then
        Tally(t.totalJobs + [g.job], t.completeJobs, t.errJobs + [g.job], t.successCnt)
      else t.(totalJobs := t.totalJobs + [g.job])
  }

  /** What `Validate` returns, given what `listGhaStatuses` returned. */
  function ValidateResult(selfJob: string, ignored: seq<string>, listed: Result<seq<GhaStatus>, StatusError>)
    : Result<StatusReport.Status, StatusError>
  {
    match listed
    case Failure(e) => Failure(e)
    case Success(gs) =>
      var t := Aggregate(selfJob, ignored, gs);
      var st := StatusReport.Status(t.totalJobs, t.completeJobs, t.errJobs, [], true);
      if |t.errJobs| != 0 then Failure(JobsFailed(StatusReport.Detail(st)))
      else if |gs| != t.successCnt then Success(st.(succeeded := false))
      else Success(st)
  }

  /** `a` is `b` with some elements removed, order kept. */
  predicate Subsequence(a: seq<string>, b: seq<string>)
    decreases |b|
  {
    a == [] || (b != [] && if a[0] == b[0] then Subsequence(a[1..], b[1..]) else Subsequence(a, b[1..]))
  }

  lemma {:induction false} SubsequenceLast(x: string, b: seq<string>)
    ensures Subsequence([x], b + [x])
    decreases |b|
  {
    if b != [] && b[0] != x {
      assert (b + [x])[1..] == b[1..] + [x];
      SubsequenceLast(x, b[1..]);
    }
  }

  lemma {:induction false} SubsequenceExtend(a: seq<string>, b: seq<string>, x: string)
    requires Subsequence(a, b)
    ensures Subsequence(a, b + [x])
    ensures Subsequence(a + [x], b + [x])
    decreases |b|
  {
    if a == [] {
      assert a + [x] == [x];
      SubsequenceLast(x, b);
    } else {
      assert (b + [x])[1..] == b[1..] + [x];
      assert (a + [x])[1..] == a[1..] + [x];
      if a[0] == b[0] {
        SubsequenceExtend(a[1..], b[1..], x);
      } else {
        SubsequenceExtend(a, b[1..], x);
      }
    }
  }

  lemma {:induction false} AggregateTotalJobs(selfJob: string, ignored: seq<string>, gs: seq<GhaStatus>, x: string)
    ensures x in Aggregate(selfJob, ignored, gs).totalJobs <==>
      !Excluded(selfJob, ignored, x) && exists i :: 0 <= i < |gs| && gs[i].job == x
    decreases |gs|
  {
    if gs != [] {
      var n := |gs| - 1;
      AggregateTotalJobs(selfJob, ignored, gs[..n], x);
      assert forall i :: 0 <= i < n ==> gs[..n][i] == gs[i];
    }
  }

  lemma {:induction false} AggregateCompleteJobs(selfJob: string, ignored: seq<string>, gs: seq<GhaStatus>, x: string)
    ensures x in Aggregate(selfJob, ignored, gs).completeJobs <==>
      !Excluded(selfJob, ignored, x) && exists i :: 0 <= i < |gs| && gs[i].job == x && gs[i].state == SuccessState
    decreases |gs|
  {
    if gs != [] {
      var n := |gs| - 1;
      AggregateCompleteJobs(selfJob, ignored, gs[..n], x);
      assert forall i :: 0 <= i < n ==> gs[..n][i] == gs[i];
    }
  }

  lemma {:induction false} AggregateErrJobs(selfJob: string, ignored: seq<string>, gs: seq<GhaStatus>, x: string)
    ensures x in Aggregate(selfJob, ignored, gs).errJobs <==>
      !Excluded(selfJob, ignored, x)
      && exists i :: 0 <= i < |gs| && gs[i].job == x && (gs[i].state == ErrorState || gs[i].state == FailureState)
    decreases |gs|
  {
    if gs != [] {
      var n := |gs| - 1;
      AggregateErrJobs(selfJob, ignored, gs[..n], x);
      assert forall i :: 0 <= i < n ==> gs[..n][i] == gs[i];
    }
  }

  /** Who lands in which list: a name is in totalJobs iff some entry has it
      and it is not excluded; in completeJobs iff moreover that entry's state
      is "success"; in errJobs iff its state is "error" or "failure". The
      self job and the ignored jobs are never in any list. */
  lemma AggregateMembership(selfJob: string, ignored: seq<string>, gs: seq<GhaStatus>, x: string)
    ensures var t := Aggregate(selfJob, ignored, gs);
      && (x in t.totalJobs <==>
            !Excluded(selfJob, ignored, x) && exists i :: 0 <= i < |gs| && gs[i].job == x)
      && (x in t.completeJobs <==>
            !Excluded(selfJob, ignored, x) && exists i :: 0 <= i < |gs| && gs[i].job == x && gs[i].state == SuccessState)
      && (x in t.errJobs <==>
            !Excluded(selfJob, ignored, x)
            && (exists i :: 0 <= i < |gs| && gs[i].job == x && (gs[i].state == ErrorState || gs[i].state == FailureState)))
  {
    AggregateTotalJobs(selfJob, ignored, gs, x);
    AggregateCompleteJobs(selfJob, ignored, gs, x);
    AggregateErrJobs(selfJob, ignored, gs, x);
  }

  /** completeJobs and errJobs are order-preserving sub-lists of totalJobs. */
  lemma {:induction false} AggregateSublists(selfJob: string, ignored: seq<string>, gs: seq<GhaStatus>)
    ensures Subsequence(Aggregate(selfJob, ignored, gs).completeJobs, Aggregate(selfJob, ignored, gs).totalJobs)
    ensures Subsequence(Aggregate(selfJob, ignored, gs).errJobs, Aggregate(selfJob, ignored, gs).totalJobs)
    decreases |gs|
  {
    if gs != [] {
      var n := |gs| - 1;
      var t := Aggregate(selfJob, ignored, gs[..n]);
      AggregateSublists(selfJob, ignored, gs[..n]);
      SubsequenceExtend(t.completeJobs, t.totalJobs, gs[n].job);
      SubsequenceExtend(t.errJobs, t.totalJobs, gs[n].job);
    } else {
      assert Subsequence([], []);
    }
  }

  /** The success tally counts the excluded jobs and the complete ones, so the
      tally reaches the number of entries exactly when every counted job is
      complete. */
  lemma {:induction false} AggregateTally(selfJob: string, ignored: seq<string>, gs: seq<GhaStatus>)
    ensures var t := Aggregate(selfJob, ignored, gs);
      t.successCnt + |t.totalJobs| == |gs| + |t.completeJobs|
    decreases |gs|
  {
    if gs != [] {
      AggregateTally(selfJob, ignored, gs[..|gs| - 1]);
    }
  }

  /** With distinct job names, no job is both complete and failed, and a job
      in any other state is in totalJobs only. */
  lemma AggregateDisjoint(selfJob: string, ignored: seq<string>, gs: seq<GhaStatus>, x: string)
    requires forall a, b :: 0 <= a < b < |gs| ==> gs[a].job != gs[b].job
    ensures var t := Aggregate(selfJob, ignored, gs);
      && !(x in t.completeJobs && x in t.errJobs)
      && (forall i :: 0 <= i < |gs| && gs[i].job == x && !Excluded(selfJob, ignored, x)
            && gs[i].state !in {SuccessState, ErrorState, FailureState}
            ==> x in t.totalJobs && x !in t.completeJobs && x !in t.errJobs)
  {
    AggregateMembership(selfJob, ignored, gs, x);
  }

  /** The verdict of one pass: a failed job makes it a hard failure whose
      message is the summary of the partial report; otherwise the status has
      no failed jobs and has succeeded iff every counted job is complete. The
      error of the listing is passed on unchanged. */
  lemma ValidateVerdict(selfJob: string, ignored: seq<string>, listed: Result<seq<GhaStatus>, StatusError>)
    ensures listed.Failure? ==> ValidateResult(selfJob, ignored, listed) == Failure(listed.error)
    ensures listed.Success? ==>
      var t := Aggregate(selfJob, ignored, listed.value);
      var r := ValidateResult(selfJob, ignored, listed);
      && (|t.errJobs| > 0 ==>
            r == Failure(JobsFailed(StatusReport.Detail(StatusReport.Status(t.totalJobs, t.completeJobs, t.errJobs, [], true)))))
      && (|t.errJobs| == 0 ==>
            && r.Success?
            && r.value.totalJobs == t.totalJobs && r.value.completeJobs == t.completeJobs
            && r.value.errJobs == [] && r.value.ignoredJobs == []
            && (r.value.succeeded <==> |t.completeJobs| == |t.totalJobs|))
  {
    if listed.Success? {
      AggregateTally(selfJob, ignored, listed.value);
    }
  }

  /** Every successful result satisfies the report invariant: succeeded iff no
      job failed and every counted job is complete. */
  lemma ValidateSucceededInvariant(selfJob: string, ignored: seq<string>, listed: Result<seq<GhaStatus>, StatusError>)
    requires ValidateResult(selfJob, ignored, listed).Success?
    ensures var st := ValidateResult(selfJob, ignored, listed).value;
      StatusReport.IsSuccess(st) <==> |st.errJobs| == 0 && |st.completeJobs| == |st.totalJobs|
  {
    ValidateVerdict(selfJob, ignored, listed);
  }

  /** No jobs at all is a success with empty lists. */
  lemma ValidateNoJobs(selfJob: string, ignored: seq<string>)
    ensures ValidateResult(selfJob, ignored, Success([])) == Success(StatusReport.Status([], [], [], [], true))
  {
  }

  /** On a merged listing, completeJobs and errJobs are disjoint. */
  lemma ValidateListsDisjoint(selfJob: string, ignored: seq<string>,
                              combined: Result<seq<RepoStatus>, NonNilError>, runs: Result<seq<CheckRun>, NonNilError>, x: string)
    requires NoNilConclusion(combined, runs)
    requires ListGhaStatuses(combined, runs).Success?
    ensures var t := Aggregate(selfJob, ignored, ListGhaStatuses(combined, runs).value);
      !(x in t.completeJobs && x in t.errJobs)
  {
    ListGhaStatusesSuccess(combined, runs);
    DedupDistinct(Entries(combined.value, runs.value));
    AggregateDisjoint(selfJob, ignored, ListGhaStatuses(combined, runs).value, x);
  }

  // ---------------------------------------------------------------------------
  // One step of the merge, as the validator's loops take it
  // ---------------------------------------------------------------------------

  /** Combined-status entries can always be classified. */
  lemma StatusEntriesClassifiable(sts: seq<RepoStatus>)
    requires AllValidStatuses(sts)
    ensures ReachableClassifiable(StatusEntries(sts))
  {
  }

  /** The entries of a longer prefix of the combined statuses. */
  lemma StatusEntriesSnoc(sts: seq<RepoStatus>, i: int)
    requires 0 <= i < |sts| && AllValidStatuses(sts[..i]) && ValidStatus(sts[i])
    ensures AllValidStatuses(sts[..i + 1])
    ensures StatusEntries(sts[..i + 1]) == StatusEntries(sts[..i]) + [StatusEntry(sts[i])]
  {
    assert sts[..i + 1][..i] == sts[..i];
    assert sts[..i + 1][i] == sts[i];
  }

  /** The entries of a longer prefix of the check runs. */
  lemma RunEntriesSnoc(rs: seq<CheckRun>, j: int)
    requires 0 <= j < |rs| && AllValidRuns(rs[..j]) && ValidRun(rs[j])
    ensures AllValidRuns(rs[..j + 1])
    ensures RunEntries(rs[..j + 1]) == RunEntries(rs[..j]) + [RunEntryOf(rs[j])]
  {
    assert rs[..j + 1][..j] == rs[..j];
    assert rs[..j + 1][j] == rs[j];
  }

  /** Taking one more entry: its name joins the seen set, and it is emitted
      (and so must be classifiable) exactly when its name was not seen. */
  lemma DedupStep(es: seq<Entry>, e: Entry)
    requires ReachableClassifiable(es + [e])
    ensures ReachableClassifiable(es)
    ensures Names(es + [e]) == Names(es) + {e.job}
    ensures e.job !in Names(es) ==> Classifiable(e)
    ensures Dedup(es + [e]) == Dedup(es) + (if e.job in Names(es) then [] else Emit(e))
  {
    var es' := es + [e];
    assert es'[..|es|] == es;
    PrefixClassifiable(es', |es|);
    if e.job !in Names(es) {
      assert FirstAt(es', |es|);
    }
  }

  /** One step of the combined-status loop. */
  lemma CombinedStep(sts: seq<RepoStatus>, i: int)
    requires 0 <= i < |sts| && AllValidStatuses(sts[..i]) && ValidStatus(sts[i])
    ensures AllValidStatuses(sts[..i + 1])
    ensures ReachableClassifiable(StatusEntries(sts[..i + 1]))
    ensures var es := StatusEntries(sts[..i]);
      var e := StatusEntry(sts[i]);
      && StatusEntries(sts[..i + 1]) == es + [e]
      && Names(es + [e]) == Names(es) + {e.job}
      && Dedup(es + [e]) == Dedup(es) + (if e.job in Names(es) then [] else Emit(e))
  {
    StatusEntriesSnoc(sts, i);
    StatusEntriesClassifiable(sts[..i + 1]);
    DedupStep(StatusEntries(sts[..i]), StatusEntry(sts[i]));
  }

  /** Before the check-run loop: no runs taken yet. */
  lemma RunsLoopEntry(combined: Result<seq<RepoStatus>, NonNilError>, runs: Result<seq<CheckRun>, NonNilError>)
    requires combined.Success? && AllValidStatuses(combined.value) && runs.Success?
    ensures AllValidRuns(runs.value[..0])
    ensures Entries(combined.value, runs.value[..0]) == StatusEntries(combined.value)
    ensures ReachableClassifiable(Entries(combined.value, runs.value[..0]))
  {
    assert RunEntries(runs.value[..0]) == [];
    assert Entries(combined.value, runs.value[..0]) == StatusEntries(combined.value);
    StatusEntriesClassifiable(combined.value);
  }

  /** One step of the check-run loop; the run is classifiable whenever it is
      the first with its name, since the source does not panic. */
  lemma RunStep(combined: Result<seq<RepoStatus>, NonNilError>, runs: Result<seq<CheckRun>, NonNilError>, j: int)
    requires NoNilConclusion(combined, runs)
    requires combined.Success? && AllValidStatuses(combined.value) && runs.Success?
    requires 0 <= j < |runs.value| && AllValidRuns(runs.value[..j]) && ValidRun(runs.value[j])
    ensures AllValidRuns(runs.value[..j + 1])
    ensures ReachableClassifiable(Entries(combined.value, runs.value[..j + 1]))
    ensures ReachableClassifiable(Entries(combined.value, runs.value[..j]))
    ensures var es := Entries(combined.value, runs.value[..j]);
      var e := RunEntryOf(runs.value[j]);
      && Entries(combined.value, runs.value[..j + 1]) == es + [e]
      && Names(es + [e]) == Names(es) + {e.job}
      && (e.job !in Names(es) ==> Classifiable(e))
      && Dedup(es + [e]) == Dedup(es) + (if e.job in Names(es) then [] else Emit(e))
  {
    var sts, rs := combined.value, runs.value;
    RunEntriesSnoc(rs, j);
    var es := Entries(sts, rs[..j]);
    var e := RunEntryOf(rs[j]);
    assert Entries(sts, rs[..j + 1]) == es + [e];
    DedupStep(es, e);
  }

  /** What a first-seen check run adds to the merge, by its status and
      conclusion. */
  lemma EmitRun(r: CheckRun)
    requires ValidRun(r) && Classifiable(RunEntryOf(r))
    ensures r.status.value != CompletedStatus ==> Emit(RunEntryOf(r)) == [GhaStatus(r.name.value, PendingState)]
    ensures r.status.value == CompletedStatus ==>
      var c := r.conclusion.value;
      && (c == NeutralConclusion || c == SuccessConclusion ==> Emit(RunEntryOf(r)) == [GhaStatus(r.name.value, SuccessState)])
      && (c == SkippedConclusion ==> Emit(RunEntryOf(r)) == [])
      && (c != NeutralConclusion && c != SuccessConclusion && c != SkippedConclusion ==>
            Emit(RunEntryOf(r)) == [GhaStatus(r.name.value, ErrorState)])
  {
  }
}

