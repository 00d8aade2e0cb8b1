/** The `validate` command's logic: splitting the `owner/repo` argument, the
    verdict on one validator, one tick of the polling loop over all
    validators, and the loop itself over an abstract sequence of events
    (cancellation, time-out, tick). */
module Cli {
  import opened Common
  import opened GoStrings
  import StatusReport

  // ---------------------------------------------------------------------------
  // ownerAndRepository
  // ---------------------------------------------------------------------------

  /** The owner is the text before the first '/', the repository the rest. */
  function OwnerAndRepository(str: string): (string, string) {
    var sp := Split(str, '/');
    if |sp| == 0 then ("", "")
    else if |sp| == 1 then (sp[0], "")
    else if |sp| == 2 then (sp[0], sp[1])
    else (sp[0], Join(sp[1..], '/'))
  }

  /** The empty string gives two empty names; a string without '/' is all
      owner; otherwise the owner holds no '/' and owner, '/', repository
      spell the argument back. */
  lemma OwnerAndRepositorySplitsAtFirstSlash(str: string)
    ensures str == "" ==> OwnerAndRepository(str) == ("", "")
    ensures '/' !in str ==> OwnerAndRepository(str) == (str, "")
    ensures '/' in str ==>
      var (owner, repo) := OwnerAndRepository(str);
      '/' !in owner && owner + "/" + repo == str
  {
    if '/' !in str {
      SplitWithoutSeparator(str, '/');
    } else {
      var sp := Split(str, '/');
      SplitAtSeparator(str, '/');
      JoinSplit(str, '/');
      assert Join(sp, '/') == sp[0] + ['/'] + Join(sp[1..], '/');
      if |sp| == 2 {
        assert Join(sp[1..], '/') == sp[1];
      }
    }
  }

  // ---------------------------------------------------------------------------
  // validate: the verdict on one validator
  // ---------------------------------------------------------------------------

  /** A validator as the command sees it: its name and what its `Validate`
      returns, a status or the text of an error. */
  datatype ValidatorRun = ValidatorRun(name: string, result: Result<StatusReport.Status, string>)

  /** `validate`'s two results: whether the validator succeeded, and an error. */
  datatype Verdict = Verdict(ok: bool, err: GoError)

  const ValidateErrorPrefix := "error occurs\tvalidator: "

  function ValidateOne(v: ValidatorRun): Verdict {
    match v.result
    case Failure(msg) => Verdict(false, Error(ValidateErrorPrefix + v.name + ", err: " + msg))
    case Success(st) =>
      if !StatusReport.IsSuccess(st) then Verdict(false, Nil) else Verdict(true, Nil)
  }

  /** An error comes exactly from a failing `Validate`, names the validator
      and carries its message; otherwise the verdict is the status's success. */
  lemma ValidateOneVerdicts(v: ValidatorRun)
    ensures ValidateOne(v).err != Nil <==> v.result.Failure?
    ensures ValidateOne(v).ok <==> v.result.Success? && v.result.value.succeeded
    ensures v.result.Failure? ==>
      var text := ValidateOne(v).err.text;
      && text[..|ValidateErrorPrefix|] == ValidateErrorPrefix
      && text[|ValidateErrorPrefix|..|ValidateErrorPrefix| + |v.name|] == v.name
      && text[|text| - |v.result.error|..] == v.result.error
  {
  }

  // ---------------------------------------------------------------------------
  // One tick of the polling loop
  // ---------------------------------------------------------------------------

  datatype TickOutcome =
    | TickFailed(err: GoError)  // a validator erred: the loop returns its error
    | AllSucceeded              // every validator succeeded: the loop returns nil
    | NotYet                    // the loop waits for the next event

  /** The outcome of a tick over the validators, taken in order. */
  function TickVerdict(vs: seq<ValidatorRun>): TickOutcome {
    if vs == [] then AllSucceeded
    else
      var prev := TickVerdict(vs[..|vs| - 1]);
      var v := ValidateOne(vs[|vs| - 1]);
      if prev.TickFailed? then prev
      else if v.err != Nil then TickFailed(v.err)
      else if prev == AllSucceeded && v.ok then AllSucceeded
      else NotYet
  }

  /** The number of validators among `vs` that reported success. */
  function OkCount(vs: seq<ValidatorRun>): (n: nat)
    ensures n <= |vs|
  {
    if vs == [] then 0
    else OkCount(vs[..|vs| - 1]) + (if ValidateOne(vs[|vs| - 1]).ok then 1 else 0)
  }

  /** A failed tick stays failed, with the same error, whatever follows. */
  lemma {:induction false} TickFailedPersists(vs: seq<ValidatorRun>, i: int)
    requires 0 <= i <= |vs| && TickVerdict(vs[..i]).TickFailed?
    ensures TickVerdict(vs) == TickVerdict(vs[..i])
    decreases |vs| - i
  {
    if i < |vs| {
      var n := |vs| - 1;
      assert vs[..n][..i] == vs[..i];
      TickFailedPersists(vs[..n], i);
      assert vs[..n + 1] == vs;
    } else {
      assert vs[..i] == vs;
    }
  }

  /** A tick fails iff some validator errs, and then with the first error; it
      succeeds iff every validator reports success without error. */
  lemma {:induction false} TickVerdictIs(vs: seq<ValidatorRun>)
    ensures TickVerdict(vs).TickFailed? <==> exists i :: 0 <= i < |vs| && ValidateOne(vs[i]).err != Nil
    ensures TickVerdict(vs).TickFailed? ==>
      exists i :: 0 <= i < |vs| && TickVerdict(vs).err == ValidateOne(vs[i]).err != Nil
        && forall j :: 0 <= j < i ==> ValidateOne(vs[j]).err == Nil
    ensures TickVerdict(vs) == AllSucceeded <==> forall i :: 0 <= i < |vs| ==> ValidateOne(vs[i]) == Verdict(true, Nil)
    decreases |vs|
  {
    if vs != [] {
      var n := |vs| - 1;
      TickVerdictIs(vs[..n]);
      assert forall j :: 0 <= j < n ==> vs[..n][j] == vs[j];
      if TickVerdict(vs[..n]).TickFailed? {
        var i :| 0 <= i < n && TickVerdict(vs[..n]).err == ValidateOne(vs[..n][i]).err != Nil
          && forall j :: 0 <= j < i ==> ValidateOne(vs[..n][j]).err == Nil;
        assert TickVerdict(vs).err == ValidateOne(vs[i]).err;
      }
    }
  }

  /** One tick (`validate.go`'s tick case): the validators are run in order
      and the first error ends the tick; `ran` counts the validators run. */
  method Tick(vs: seq<ValidatorRun>) returns (r: TickOutcome, ghost ran: nat)
    ensures r == TickVerdict(vs)
    ensures ran <= |vs|
    ensures r.TickFailed? ==> 0 < ran && r.err == ValidateOne(vs[ran - 1]).err
    ensures !r.TickFailed? ==> ran == |vs|
    ensures forall j :: 0 <= j < ran - 1 ==> ValidateOne(vs[j]).err == Nil
  {
    var successCnt := 0;
    ran := 0;
    for i := 0 to |vs|
      invariant ran == i
      invariant successCnt == OkCount(vs[..i])
      invariant TickVerdict(vs[..i]) == (if successCnt == i then AllSucceeded else NotYet)
      invariant forall j :: 0 <= j < i ==> ValidateOne(vs[j]).err == Nil
    {
      assert vs[..i + 1][..i] == vs[..i];
      var verdict := ValidateOne(vs[i]);
      ran := ran + 1;
      if verdict.err != Nil {
        TickFailedPersists(vs, i + 1);
        return TickFailed(verdict.err), ran;
      }
      if verdict.ok {
        successCnt := successCnt + 1;
      }
    }
    assert vs[..|vs|] == vs;
    if successCnt == |vs| {
      return AllSucceeded, ran;
    }
    return NotYet, ran;
  }

  // ---------------------------------------------------------------------------
  // The polling loop
  // ---------------------------------------------------------------------------

  /** What the loop's `select` receives, in the order it handles them. */
  datatype Event =
    | Cancelled(cause: NonNilError)   // the context is done; `cause` is its Err()
    | TimedOut                        // the time-out ticker fired
    | Ticked(vs: seq<ValidatorRun>)   // the interval ticker fired

  const TimedOutError := Error("validation timed out")

  /** The error an event makes the loop return, or None when it goes on. */
  function EventResult(e: Event): Option<GoError> {
    match e
    case Cancelled(cause) => Some(cause)
    case TimedOut => Some(TimedOutError)
    case Ticked(vs) =>
      match TickVerdict(vs)
      case TickFailed(err) => Some(err)
      case AllSucceeded => Some(Nil)
      case NotYet => None
  }

  /** The loop still running after the events, or its returned error (nil on
      success). */
  datatype LoopOutcome = Running | Returned(err: GoError)

  function LoopResult(events: seq<Event>): LoopOutcome {
    if events == [] then Running
    else
      var prev := LoopResult(events[..|events| - 1]);
      if prev.Returned? then prev
      else match EventResult(events[|events| - 1])
        case Some(err) => Returned(err)
        case None => Running
  }

  /** `doValidateCmd` over a finite sequence of events; `handled` counts the
      events received before it returned. */
  method DoValidate(events: seq<Event>) returns (r: LoopOutcome, ghost handled: nat)
    ensures r == LoopResult(events)
    ensures handled <= |events|
    ensures r.Returned? ==> 0 < handled && EventResult(events[handled - 1]) == Some(r.err)
    ensures forall j :: 0 <= j < handled - 1 ==> EventResult(events[j]).None?
  {
    handled := 0;
    var n := 0;
    while n < |events|
      invariant 0 <= n <= |events| && handled == n
      invariant LoopResult(events[..n]) == Running
      invariant forall j :: 0 <= j < n ==> EventResult(events[j]).None?
    {
      assert events[..n + 1][..n] == events[..n];
      handled := handled + 1;
      match events[n] {
        case Cancelled(cause) =>
          LoopReturnedPersists(events, n + 1);
          return Returned(cause), handled;
        case TimedOut =>
          LoopReturnedPersists(events, n + 1);
          return Returned(TimedOutError), handled;
        case Ticked(vs) =>
          var t, _ := Tick(vs);
          match t {
            case TickFailed(err) =>
              LoopReturnedPersists(events, n + 1);
              return Returned(err), handled;
            case AllSucceeded =>
              LoopReturnedPersists(events, n + 1);
              return Returned(Nil), handled;
            case NotYet =>
          }
      }
      // Only a tick that neither failed nor fully succeeded gets here.
      n := n + 1;
    }
    assert events[..n] == events;
    return Running, handled;
  }

  /** Once the loop has returned, later events change nothing. */
  lemma {:induction false} LoopReturnedPersists(events: seq<Event>, i: int)
    requires 0 <= i <= |events| && LoopResult(events[..i]).Returned?
    ensures LoopResult(events) == LoopResult(events[..i])
    decreases |events| - i
  {
    if i < |events| {
      var n := |events| - 1;
      assert events[..n][..i] == events[..i];
      LoopReturnedPersists(events[..n], i);
      assert events[..n + 1] == events;
    } else {
      assert events[..i] == events;
    }
  }

  /** The loop returns iff some event is decisive, and then with the result
      of the first decisive event: a cancellation returns the context's error,
      a time-out "validation timed out", a tick its tick outcome. */
  lemma {:induction false} LoopResultIsFirstDecisive(events: seq<Event>)
    ensures LoopResult(events).Returned? <==> exists i :: 0 <= i < |events| && EventResult(events[i]).Some?
    ensures LoopResult(events).Returned? ==>
      exists i :: 0 <= i < |events| && EventResult(events[i]) == Some(LoopResult(events).err)
        && forall j :: 0 <= j < i ==> EventResult(events[j]).None?
    decreases |events|
  {
    if events != [] {
      var n := |events| - 1;
      LoopResultIsFirstDecisive(events[..n]);
      assert forall j :: 0 <= j < n ==> events[..n][j] == events[j];
      if LoopResult(events[..n]).Returned? {
        var i :| 0 <= i < n && EventResult(events[..n][i]) == Some(LoopResult(events[..n]).err)
          && forall j :: 0 <= j < i ==> EventResult(events[..n][j]).None?;
        assert EventResult(events[i]) == Some(LoopResult(events).err);
      }
    }
  }

  /** The only event whose result is nil is a tick in which every validator
      succeeded: a cancellation carries the context's non-nil error, and a
      failed tick a validator's error. */
  lemma EventResultNil(e: Event)
    ensures EventResult(e) == Some(Nil) <==> e.Ticked? && TickVerdict(e.vs) == AllSucceeded
  {
    if e.Ticked? {
      TickVerdictIs(e.vs);
    }
  }

  /** The loop returns nil iff its first decisive event is a tick in which
      every validator succeeded. */
  lemma LoopReturnsNilIffTickSucceeded(events: seq<Event>)
    ensures LoopResult(events) == Returned(Nil) <==>
      exists i :: 0 <= i < |events| && events[i].Ticked? && TickVerdict(events[i].vs) == AllSucceeded
        && forall j :: 0 <= j < i ==> EventResult(events[j]).None?
  {
    LoopResultIsFirstDecisive(events);
    if LoopResult(events) == Returned(Nil) {
      var i :| 0 <= i < |events| && EventResult(events[i]) == Some(LoopResult(events).err)
        && forall j :: 0 <= j < i ==> EventResult(events[j]).None?;
      EventResultNil(events[i]);
    }
    if exists i :: 0 <= i < |events| && events[i].Ticked? && TickVerdict(events[i].vs) == AllSucceeded
        && forall j :: 0 <= j < i ==> EventResult(events[j]).None? {
      var i :| 0 <= i < |events| && events[i].Ticked? && TickVerdict(events[i].vs) == AllSucceeded
        && forall j :: 0 <= j < i ==> EventResult(events[j]).None?;
      EventResultNil(events[i]);
      var i' :| 0 <= i' < |events| && EventResult(events[i']) == Some(LoopResult(events).err)
        && forall j :: 0 <= j < i' ==> EventResult(events[j]).None?;
      assert i' == i;
    }
  }
}
