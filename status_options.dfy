/** The functional options of the status validator, as values: which field each
    option sets and how, the configuration that a sequence of options leaves
    behind, and the parse of the comma-separated ignored-jobs list. The methods
    that apply them to a validator object are in module Validator. */
module StatusOptions {
  import opened Common
  import opened GoStrings

  /** The configurable fields of a validator; `ignoredJobs` is None while the
      list was never set (a nil slice). */
  datatype Config = Config(
    repo: string,
    owner: string,
    ref: string,
    selfJobName: string,
    ignoredJobs: Option<seq<string>>)

  /** The fields of a freshly created validator. */
  const Unset := Config("", "", "", "", None)

  /** An option, given by the arguments it was built with. */
  datatype ValidatorOption =
    | WithSelfJob(name: string)
    | WithGitHubOwnerAndRepo(owner: string, repo: string)
    | WithGitHubRef(ref: string)
    | WithIgnoredJobs(names: string)

  /** A field keeps its value unless the option brings a non-empty one. */
  function KeepUnlessEmpty(current: string, given: string): string {
    if |given| != 0 then given else current
  }

  /** Each piece trimmed, empty results dropped, order kept: the list that the
      option's loop builds. */
  function NonEmptyTrimmed(pieces: seq<string>): seq<string> {
    if pieces == [] then []
    else
      var job := TrimSpace(pieces[|pieces| - 1]);
      NonEmptyTrimmed(pieces[..|pieces| - 1]) + (if |job| == 0 then [] else [job])
  }

  /** The ignored-jobs list that a non-empty `names` argument sets. */
  function IgnoredJobList(names: string): seq<string> {
    NonEmptyTrimmed(Split(names, ','))
  }

  /** The effect of one option on the fields. */
  function Apply(c: Config, opt: ValidatorOption): Config {
    match opt
    case WithSelfJob(name) => c.(selfJobName := KeepUnlessEmpty(c.selfJobName, name))
    case WithGitHubOwnerAndRepo(owner, repo) =>
      c.(owner := KeepUnlessEmpty(c.owner, owner), repo := KeepUnlessEmpty(c.repo, repo))
    case WithGitHubRef(ref) => c.(ref := KeepUnlessEmpty(c.ref, ref))
    case WithIgnoredJobs(names) =>
      if |names| == 0 then c else c.(ignoredJobs := Some(IgnoredJobList(names)))
  }

  /** Options applied one after another, in order. */
  function ApplyAll(c: Config, opts: seq<ValidatorOption>): Config {
    if opts == [] then c else Apply(ApplyAll(c, opts[..|opts| - 1]), opts[|opts| - 1])
  }

  // ---------------------------------------------------------------------------
  // Last non-empty argument wins
  // ---------------------------------------------------------------------------

  /** The arguments that the options give for one field, in order. */
  function SelfJobArgs(opts: seq<ValidatorOption>): seq<string> {
    if opts == [] then []
    else SelfJobArgs(opts[..|opts| - 1]) + (if opts[|opts| - 1].WithSelfJob? then [opts[|opts| - 1].name] else [])
  }

  function OwnerArgs(opts: seq<ValidatorOption>): seq<string> {
    if opts == [] then []
    else OwnerArgs(opts[..|opts| - 1]) + (if opts[|opts| - 1].WithGitHubOwnerAndRepo? then [opts[|opts| - 1].owner] else [])
  }

  function RepoArgs(opts: seq<ValidatorOption>): seq<string> {
    if opts == [] then []
    else RepoArgs(opts[..|opts| - 1]) + (if opts[|opts| - 1].WithGitHubOwnerAndRepo? then [opts[|opts| - 1].repo] else [])
  }

  function RefArgs(opts: seq<ValidatorOption>): seq<string> {
    if opts == [] then []
    else RefArgs(opts[..|opts| - 1]) + (if opts[|opts| - 1].WithGitHubRef? then [opts[|opts| - 1].ref] else [])
  }

  function IgnoredArgs(opts: seq<ValidatorOption>): seq<string> {
    if opts == [] then []
    else IgnoredArgs(opts[..|opts| - 1]) + (if opts[|opts| - 1].WithIgnoredJobs? then [opts[|opts| - 1].names] else [])
  }

  /** The last non-empty argument, or `init` when every argument is empty. */
  function LastNonEmpty(init: string, args: seq<string>): string {
    if args == [] then init
    else if args[|args| - 1] != "" then args[|args| - 1]
    else LastNonEmpty(init, args[..|args| - 1])
  }

  /** When every argument is empty, LastNonEmpty is `init`. */
  lemma {:induction false} LastNonEmptyOfEmpties(init: string, args: seq<string>)
    requires forall k :: 0 <= k < |args| ==> args[k] == ""
    ensures LastNonEmpty(init, args) == init
    decreases |args|
  {
    if args != [] {
      var prev := args[..|args| - 1];
      assert forall k :: 0 <= k < |prev| ==> prev[k] == args[k];
      LastNonEmptyOfEmpties(init, prev);
    }
  }

  /** A non-empty argument followed only by empty ones is LastNonEmpty. */
  lemma {:induction false} LastNonEmptyIs(init: string, args: seq<string>, k: int)
    requires 0 <= k < |args| && args[k] != ""
    requires forall j :: k < j < |args| ==> args[j] == ""
    ensures LastNonEmpty(init, args) == args[k]
    decreases |args|
  {
    var n := |args| - 1;
    if k < n {
      var prev := args[..n];
      assert forall j :: k < j < n ==> prev[j] == args[j];
      assert prev[k] == args[k];
      LastNonEmptyIs(init, prev, k);
    }
  }

  /** After a sequence of options each field holds the last non-empty value
      given for it, or its starting value when none was given; the ignored
      list is the parse of the last non-empty `WithIgnoredJobs` argument. No
      option touches a field other than its own. */
  lemma {:induction false} ApplyAllLastNonEmptyWins(c: Config, opts: seq<ValidatorOption>)
    ensures var r := ApplyAll(c, opts);
      && r.selfJobName == LastNonEmpty(c.selfJobName, SelfJobArgs(opts))
      && r.owner == LastNonEmpty(c.owner, OwnerArgs(opts))
      && r.repo == LastNonEmpty(c.repo, RepoArgs(opts))
      && r.ref == LastNonEmpty(c.ref, RefArgs(opts))
      && r.ignoredJobs == (var names := LastNonEmpty("", IgnoredArgs(opts));
                           if names == "" then c.ignoredJobs else Some(IgnoredJobList(names)))
    decreases |opts|
  {
    if opts != [] {
      var n := |opts| - 1;
      var init, opt := opts[..n], opts[n];
      ApplyAllLastNonEmptyWins(c, init);
      ArgsStep(opts);
      match opt
      case WithSelfJob(name) =>
        LastNonEmptyAppend(c.selfJobName, SelfJobArgs(init), name);
      case WithGitHubOwnerAndRepo(owner, repo) =>
        LastNonEmptyAppend(c.owner, OwnerArgs(init), owner);
        LastNonEmptyAppend(c.repo, RepoArgs(init), repo);
      case WithGitHubRef(ref) =>
        LastNonEmptyAppend(c.ref, RefArgs(init), ref);
      case WithIgnoredJobs(names) =>
        LastNonEmptyAppend("", IgnoredArgs(init), names);
    }
  }

  lemma LastNonEmptyAppend(init: string, args: seq<string>, a: string)
    ensures LastNonEmpty(init, args + [a]) == KeepUnlessEmpty(LastNonEmpty(init, args), a)
  {
    assert (args + [a])[..|args|] == args;
  }

  /** One more option adds its arguments to the argument lists of its own
      fields only. */
  lemma ArgsStep(opts: seq<ValidatorOption>)
    requires opts != []
    ensures var init, opt := opts[..|opts| - 1], opts[|opts| - 1];
      && SelfJobArgs(opts) == (if opt.WithSelfJob? then SelfJobArgs(init) + [opt.name] else SelfJobArgs(init))
      && OwnerArgs(opts) == (if opt.WithGitHubOwnerAndRepo? then OwnerArgs(init) + [opt.owner] else OwnerArgs(init))
      && RepoArgs(opts) == (if opt.WithGitHubOwnerAndRepo? then RepoArgs(init) + [opt.repo] else RepoArgs(init))
      && RefArgs(opts) == (if opt.WithGitHubRef? then RefArgs(init) + [opt.ref] else RefArgs(init))
      && IgnoredArgs(opts) == (if opt.WithIgnoredJobs? then IgnoredArgs(init) + [opt.names] else IgnoredArgs(init))
  {
  }

  // ---------------------------------------------------------------------------
  // The ignored-jobs list
  // ---------------------------------------------------------------------------

  /** Trimming keeps a contiguous part of the string, so it adds no comma. */
  lemma TrimSpaceKeepsOut(s: string, c: char)
    requires c !in s
    ensures c !in TrimSpace(s)
  {
    TrimSpaceTrims(s);
    var i, j :| 0 <= i <= j <= |s| && TrimSpace(s) == s[i..j];
    forall k | 0 <= k < j - i ensures s[i..j][k] != c {
      assert s[i..j][k] == s[i + k];
    }
  }

  /** Every listed name is the non-empty trimmed form of some piece. */
  lemma {:induction false} NonEmptyTrimmedFrom(pieces: seq<string>)
    ensures forall k :: 0 <= k < |NonEmptyTrimmed(pieces)| ==>
      NonEmptyTrimmed(pieces)[k] != "" &&
      exists m :: 0 <= m < |pieces| && TrimSpace(pieces[m]) == NonEmptyTrimmed(pieces)[k]
    decreases |pieces|
  {
    if pieces != [] {
      var n := |pieces| - 1;
      var prev := NonEmptyTrimmed(pieces[..n]);
      NonEmptyTrimmedFrom(pieces[..n]);
      forall k | 0 <= k < |prev|
        ensures exists m :: 0 <= m < |pieces| && TrimSpace(pieces[m]) == prev[k]
      {
        var m :| 0 <= m < n && TrimSpace(pieces[..n][m]) == prev[k];
        assert pieces[m] == pieces[..n][m];
      }
    }
  }

  /** The non-empty trimmed form of every piece is listed. */
  lemma {:induction false} NonEmptyTrimmedHas(pieces: seq<string>, m: int)
    requires 0 <= m < |pieces| && TrimSpace(pieces[m]) != ""
    ensures TrimSpace(pieces[m]) in NonEmptyTrimmed(pieces)
    decreases |pieces|
  {
    var n := |pieces| - 1;
    if m < n {
      assert pieces[..n][m] == pieces[m];
      NonEmptyTrimmedHas(pieces[..n], m);
    }
  }

  /** Every ignored name is non-empty, already trimmed and holds no comma. */
  lemma IgnoredJobsAreClean(names: string)
    ensures forall k :: 0 <= k < |IgnoredJobList(names)| ==>
      var job := IgnoredJobList(names)[k];
      job != "" && Trimmed(job) && ',' !in job
  {
    var pieces := Split(names, ',');
    var jobs := IgnoredJobList(names);
    NonEmptyTrimmedFrom(pieces);
    forall k | 0 <= k < |jobs| ensures Trimmed(jobs[k]) && ',' !in jobs[k] {
      var m :| 0 <= m < |pieces| && TrimSpace(pieces[m]) == jobs[k];
      TrimSpaceTrims(pieces[m]);
      TrimSpaceKeepsOut(pieces[m], ',');
    }
  }

  /** A name is listed iff it is the non-empty trimmed form of a
      comma-separated piece. */
  lemma IgnoredJobsFromPieces(names: string, x: string)
    ensures x in IgnoredJobList(names) <==>
      x != "" && exists m :: 0 <= m < |Split(names, ',')| && TrimSpace(Split(names, ',')[m]) == x
  {
    var pieces := Split(names, ',');
    var jobs := NonEmptyTrimmed(pieces);
    assert jobs == IgnoredJobList(names);
    if x in jobs {
      NonEmptyTrimmedFrom(pieces);
      var k :| 0 <= k < |jobs| && jobs[k] == x;
      var m :| 0 <= m < |pieces| && TrimSpace(pieces[m]) == jobs[k];
      assert 0 <= m < |pieces| && TrimSpace(pieces[m]) == x;
      assert x != "" && exists m' :: 0 <= m' < |Split(names, ',')| && TrimSpace(Split(names, ',')[m']) == x;
    } else if x != "" && exists m :: 0 <= m < |pieces| && TrimSpace(pieces[m]) == x {
      var m :| 0 <= m < |pieces| && TrimSpace(pieces[m]) == x;
      NonEmptyTrimmedHas(pieces, m);
      assert false;
    }
  }

  /** Pieces that are already clean come back unchanged. */
  lemma {:induction false} NonEmptyTrimmedOfClean(pieces: seq<string>)
    requires forall k :: 0 <= k < |pieces| ==> pieces[k] != "" && Trimmed(pieces[k])
    ensures NonEmptyTrimmed(pieces) == pieces
    decreases |pieces|
  {
    if pieces != [] {
      var n := |pieces| - 1;
      NonEmptyTrimmedOfClean(pieces[..n]);
      TrimSpaceTrims(pieces[n]);
      assert pieces[..n] + [pieces[n]] == pieces;
    }
  }

  /** Listing clean names joined by commas gives the names back, in order. */
  lemma IgnoredJobsRoundTrip(jobs: seq<string>)
    requires |jobs| >= 1
    requires forall k :: 0 <= k < |jobs| ==> jobs[k] != "" && Trimmed(jobs[k]) && ',' !in jobs[k]
    ensures Join(jobs, ',') != ""
    ensures IgnoredJobList(Join(jobs, ',')) == jobs
  {
    SplitJoin(jobs, ',');
    NonEmptyTrimmedOfClean(jobs);
    JoinSplit(Join(jobs, ','), ',');
  }

  /** `WithIgnoredJobs("")` leaves the list alone, while `","` sets it to an
      empty, non-nil list. */
  lemma IgnoredJobsEdgeCases(c: Config)
    ensures Apply(c, WithIgnoredJobs("")) == c
    ensures Apply(c, WithIgnoredJobs(",")).ignoredJobs == Some([])
  {
    assert Split(",", ',') == ["", ""] by {
      assert ","[1..] == "";
    }
    var pieces := Split(",", ',');
    assert pieces[..1] == [""] && pieces[..1][..0] == [];
    assert TrimSpace("") == "";
    assert NonEmptyTrimmed(pieces[..1]) == [];
  }
}
