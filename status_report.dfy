/** The `status` record that one evaluation pass reports: the job names that
    count (total), those that completed successfully, those that failed, the
    ignored names, and whether the pass succeeded; and its human-readable
    `Detail` summary. */
module StatusReport {
  import opened GoStrings

  datatype Status = Status(
    totalJobs: seq<string>,
    completeJobs: seq<string>,
    errJobs: seq<string>,
    ignoredJobs: seq<string>,
    succeeded: bool)

  /** `status.IsSuccess()`. */
  function IsSuccess(s: Status): bool {
    s.succeeded
  }

  /** A name as fmt's `%q` prints it (escaping is not modelled). */
  function Quote(name: string): string {
    "\"" + name + "\""
  }

  function QuotedItems(names: seq<string>): string {
    if names == [] then ""
    else if |names| == 1 then Quote(names[0])
    else Quote(names[0]) + " " + QuotedItems(names[1..])
  }

  /** A list of names as fmt's `%+q` prints a `[]string`: `["a" "b"]`. */
  function QuoteList(names: seq<string>): (r: string)
    ensures |r| >= 2 && r[0] == '[' && r[|r| - 1] == ']'
  {
    "[" + QuotedItems(names) + "]"
  }

  /** The opening line: complete count "out of" total count. */
  function Header(complete: seq<string>, total: seq<string>): string {
    Itoa(|complete|) + " out of " + Itoa(|total|)
  }

  /** The counts and the lists that follow the opening line; each count is
      printed beside the list it counts. */
  function Lists(total: seq<string>, complete: seq<string>, failed: seq<string>): (r: string)
    ensures |r| > 0 && r[0] == '\n' && r[|r| - 1] == '\n'
  {
    "\n\n"
    + "  Total job count:     " + Itoa(|total|) + "\n"
    + "    jobs: " + QuoteList(total) + "\n"
    + "  Completed job count: " + Itoa(|complete|) + "\n"
    + "    jobs: " + QuoteList(complete) + "\n"
    + "  Failed job count:    " + Itoa(|failed|) + "\n"
    + "    jobs: " + QuoteList(failed) + "\n"
  }

  const IgnoredSeparator := "\n\n  --\n  Ignored jobs: "

  /** The section appended when there are ignored jobs. */
  function IgnoredSection(ignored: seq<string>): string {
    if |ignored| > 0 then IgnoredSeparator + QuoteList(ignored) else ""
  }

  /** `status.Detail()`. */
  function Detail(s: Status): string {
    Header(s.completeJobs, s.totalJobs) + Lists(s.totalJobs, s.completeJobs, s.errJobs) + IgnoredSection(s.ignoredJobs)
  }

  /** What follows the opening line of the summary. */
  function Body(s: Status): string {
    Lists(s.totalJobs, s.completeJobs, s.errJobs) + IgnoredSection(s.ignoredJobs)
  }

  /** The summary opens with the complete count, " out of ", and the total
      count, and what follows the opening line starts a new line. */
  lemma DetailOpensWithCounts(s: Status)
    ensures Detail(s) == Itoa(|s.completeJobs|) + (" out of " + (Itoa(|s.totalJobs|) + Body(s)))
    ensures Body(s)[0] == '\n'
  {
    var l, i := Lists(s.totalJobs, s.completeJobs, s.errJobs), IgnoredSection(s.ignoredJobs);
    Regroup(Itoa(|s.completeJobs|), " out of ", Itoa(|s.totalJobs|), l, i);
    assert (l + i)[0] == l[0];
  }

  /** Concatenation regrouped to the right. */
  lemma Regroup(a: string, b: string, c: string, d: string, e: string)
    ensures a + b + c + d + e == a + (b + (c + (d + e)))
  {
  }

  /** Two statuses with the same summary have the same complete and total
      counts: the opening line can be read back. */
  lemma DetailDeterminesCounts(s1: Status, s2: Status)
    requires Detail(s1) == Detail(s2)
    ensures |s1.completeJobs| == |s2.completeJobs|
    ensures |s1.totalJobs| == |s2.totalJobs|
  {
    var r1, r2 := Body(s1), Body(s2);
    var c1, c2 := |s1.completeJobs|, |s2.completeJobs|;
    var t1, t2 := |s1.totalJobs|, |s2.totalJobs|;
    DetailOpensWithCounts(s1);
    DetailOpensWithCounts(s2);
    var x1, x2 := " out of " + (Itoa(t1) + r1), " out of " + (Itoa(t2) + r2);
    ItoaPrefixFree(c1, c2, x1, x2);
    assert Itoa(t1) + r1 == x1[8..] == x2[8..] == Itoa(t2) + r2;
    ItoaPrefixFree(t1, t2, r1, r2);
  }

  /** The ignored-jobs section is there exactly when there are ignored jobs:
      without one the summary ends with a newline, with one it is the summary
      of the same status without ignored jobs followed by the section. */
  lemma DetailIgnoredSection(s: Status)
    ensures |Detail(s)| > 0
    ensures Detail(s)[|Detail(s)| - 1] == '\n' <==> |s.ignoredJobs| == 0
    ensures |s.ignoredJobs| > 0 ==>
      Detail(s) == Detail(s.(ignoredJobs := [])) + IgnoredSeparator + QuoteList(s.ignoredJobs)
  {
    var hl := Header(s.completeJobs, s.totalJobs) + Lists(s.totalJobs, s.completeJobs, s.errJobs);
    assert Detail(s.(ignoredJobs := [])) == hl + "" == hl;
    LastOfConcat(Header(s.completeJobs, s.totalJobs), Lists(s.totalJobs, s.completeJobs, s.errJobs));
    if |s.ignoredJobs| > 0 {
      var q := QuoteList(s.ignoredJobs);
      assert hl + (IgnoredSeparator + q) == hl + IgnoredSeparator + q;
      LastOfConcat(hl + IgnoredSeparator, q);
    }
  }

  lemma LastOfConcat(a: string, b: string)
    requires |b| > 0
    ensures |a + b| > 0 && (a + b)[|a + b| - 1] == b[|b| - 1]
  {
  }

  /** The summary never reads `succeeded`. */
  lemma DetailIgnoresSucceeded(s: Status, b: bool)
    ensures Detail(s.(succeeded := b)) == Detail(s)
  {
  }
}
