/** Reports are a faithful account of a run (executor.rs, report.rs). */
module Reports {
  import opened Plan
  import opened Report
  import opened Executor
  import opened Runs

  // ---------------------------------------------------------------- apply reports

  /** Each list is in strictly ascending order of operation indices. */
  ghost predicate Ascending(report: ApplyReport, bound: nat) {
    && (forall k | 0 <= k < |report.succeeded| :: report.succeeded[k].index < bound)
    && (forall k | 0 <= k < |report.failed| :: report.failed[k].context.index < bound)
    && (forall k | 0 <= k < |report.skipped| :: report.skipped[k].context.index < bound)
    && (forall j, k | 0 <= j < k < |report.succeeded| :: report.succeeded[j].index < report.succeeded[k].index)
    && (forall j, k | 0 <= j < k < |report.failed| :: report.failed[j].context.index < report.failed[k].context.index)
    && (forall j, k | 0 <= j < k < |report.skipped| ::
          report.skipped[j].context.index < report.skipped[k].context.index)
  }

  /** The verdict of one operation is exactly what the report lists for it. */
  ghost predicate Accounts(diff: StateDiff, verdicts: seq<Verdict>, report: ApplyReport, i: nat)
    requires i < |verdicts| <= |diff.operations|
  {
    var context := ContextOf(diff, i);
    && (context in report.succeeded <==> verdicts[i].Succeeded?)
    && (forall e :: FailedOperation(context, e) in report.failed <==> verdicts[i] == Failed(e))
    && (forall r :: SkippedOperation(context, r) in report.skipped <==> verdicts[i] == Skipped(r))
  }

  lemma ReportedAscends(diff: StateDiff, report: ApplyReport, index: nat, verdict: Verdict)
    requires index < |diff.operations| && Ascending(report, index)
    ensures Ascending(Reported(diff, report, index, verdict), index + 1)
  {
  }

  /** The three lists partition the operations, each in ascending order. */
  lemma {:induction false} ListsAreAscending(diff: StateDiff, verdicts: seq<Verdict>)
    requires |verdicts| <= |diff.operations|
    ensures var report := ReportOf(diff, verdicts);
            && Ascending(report, |verdicts|)
            && |report.succeeded| + |report.failed| + |report.skipped| == |verdicts|
  {
    if verdicts != [] {
      hide Ascending;
      var last := |verdicts| - 1;
      ListsAreAscending(diff, verdicts[..last]);
      ReportedAscends(diff, ReportOf(diff, verdicts[..last]), last, verdicts[last]);
    } else {
      assert ReportOf(diff, verdicts) == ApplyReport([], [], []);
    }
  }

  lemma {:induction false} VerdictsAreListed(diff: StateDiff, verdicts: seq<Verdict>, i: nat)
    requires i < |verdicts| <= |diff.operations|
    ensures Accounts(diff, verdicts, ReportOf(diff, verdicts), i)
  {
    var last := |verdicts| - 1;
    var earlier := ReportOf(diff, verdicts[..last]);
    if i < last {
      VerdictsAreListed(diff, verdicts[..last], i);
      assert Accounts(diff, verdicts[..last], earlier, i);
    } else {
      ListsAreAscending(diff, verdicts[..last]);
      NotYetListed(diff, verdicts[..last], last);
    }
  }

  lemma NotYetListed(diff: StateDiff, verdicts: seq<Verdict>, i: nat)
    requires |verdicts| <= i < |diff.operations|
    ensures var report, context := ReportOf(diff, verdicts), ContextOf(diff, i);
            && context !in report.succeeded
            && (forall e :: FailedOperation(context, e) !in report.failed)
            && (forall r :: SkippedOperation(context, r) !in report.skipped)
  {
    ListsAreAscending(diff, verdicts);
  }

  /** A report is a success exactly when no operation blocks its dependents. */
  lemma {:induction false} SuccessMeansAllUnblocked(diff: StateDiff, verdicts: seq<Verdict>)
    requires |verdicts| <= |diff.operations|
    ensures ReportOf(diff, verdicts).IsSuccess() <==> forall i | 0 <= i < |verdicts| :: verdicts[i].Unblocks()
  {
    if verdicts != [] {
      var last := |verdicts| - 1;
      SuccessMeansAllUnblocked(diff, verdicts[..last]);
      var earlier, report := ReportOf(diff, verdicts[..last]), ReportOf(diff, verdicts);
      if verdicts[last].Skipped? {
        var entry := SkippedOperation(ContextOf(diff, last), verdicts[last].reason);
        assert report.skipped == earlier.skipped + [entry];
        assert entry in report.skipped;
        assert forall s :: s in report.skipped <==> s in earlier.skipped || s == entry;
      }
    }
  }

  // ---------------------------------------------------------------- the report of an unreachable worker

  /** Operations without dependencies fail, the others are skipped. */
  function FailedReport(diff: StateDiff, n: nat, failure: BackendErrorKind): ApplyReport
    requires n <= |diff.operations|
  {
    if n == 0 then ApplyReport([], [], [])
    else
      var earlier, op, context := FailedReport(diff, n - 1, failure), diff.operations[n - 1], ContextOf(diff, n - 1);
      if op.dependsOn == []
      then earlier.(failed := earlier.failed + [FailedOperation(context, failure)])
      else earlier.(skipped := earlier.skipped + [SkippedOperation(context, DependencyFailed(op.dependsOn))])
  }

  /** Every attempted operation fails, with one error. */
  ghost predicate EveryAttemptFails(diff: StateDiff, verdicts: seq<Verdict>, failure: BackendErrorKind)
    requires |verdicts| == |diff.operations|
  {
    forall i | 0 <= i < |verdicts| && !Malformed(diff.operations[i], i) && !Blames(verdicts[i]) ::
      verdicts[i] == Failed(failure)
  }

  lemma {:induction false} AllBlock(dependsOn: seq<nat>, eligible: seq<bool>)
    requires forall d | d in dependsOn :: d < |eligible| && !eligible[d]
    ensures Blockers(dependsOn, eligible) == dependsOn
  {
    if dependsOn != [] {
      AllBlock(dependsOn[1..], eligible);
    }
  }

  lemma {:induction false} NothingUnblocks(diff: StateDiff, verdicts: seq<Verdict>, failure: BackendErrorKind, i: nat)
    requires Possible(diff, verdicts) && i < |verdicts| == |diff.operations|
      && EveryAttemptFails(diff, verdicts, failure)
    ensures !verdicts[i].Unblocks()
  {
    assert ObeysDependencies(diff, verdicts, i);
  }

  /** The verdict when nothing unblocks: well-formed dependencies skip, roots fail. */
  lemma VerdictWhenAllFail(diff: StateDiff, verdicts: seq<Verdict>, failure: BackendErrorKind, i: nat)
    requires Possible(diff, verdicts) && i < |verdicts| == |diff.operations|
      && EveryAttemptFails(diff, verdicts, failure)
    ensures var op := diff.operations[i];
            verdicts[i] ==
              if Malformed(op, i) then Failed(UnsupportedOperation)
              else if op.dependsOn == [] then Failed(failure)
              else Skipped(DependencyFailed(op.dependsOn))
  {
    var op := diff.operations[i];
    assert ObeysDependencies(diff, verdicts, i);
    if !Malformed(op, i) {
      forall d | d in op.dependsOn ensures d < i && !verdicts[d].Unblocks() {
        NothingUnblocks(diff, verdicts, failure, d);
      }
      AllBlock(op.dependsOn, EligibleAfter(diff, verdicts[..i]));
    }
  }

  /**
   The report of an unreachable worker is the report of a run whose every step
   fails, exactly when all dependencies point backwards.
   */
  lemma {:induction false} FailedReportIsAllFailing(diff: StateDiff, verdicts: seq<Verdict>,
                                                    failure: BackendErrorKind, n: nat)
    requires Possible(diff, verdicts) && n <= |verdicts| == |diff.operations|
      && EveryAttemptFails(diff, verdicts, failure)
    ensures FailedReport(diff, n, failure) == ReportOf(diff, verdicts[..n])
       <==> forall i | 0 <= i < n :: !Malformed(diff.operations[i], i)
  {
    if n > 0 {
      var last := n - 1;
      FailedReportIsAllFailing(diff, verdicts, failure, last);
      VerdictWhenAllFail(diff, verdicts, failure, last);
      assert verdicts[..n][..last] == verdicts[..last];
      var expected, actual := FailedReport(diff, n, failure), ReportOf(diff, verdicts[..n]);
      var before, sofar := FailedReport(diff, last, failure), ReportOf(diff, verdicts[..last]);
      SameCounts(diff, verdicts, n, failure);
      if Malformed(diff.operations[last], last) {
        assert |expected.skipped| == |before.skipped| + 1;
        assert |actual.skipped| == |sofar.skipped|;
        FewerSkips(diff, verdicts, failure, last);
      } else if before != sofar {
        AppendingKeepsDifference(before.failed, sofar.failed, FailedOperation(ContextOf(diff, last), failure));
        AppendingKeepsDifference(before.skipped, sofar.skipped,
                                 SkippedOperation(ContextOf(diff, last),
                                                  DependencyFailed(diff.operations[last].dependsOn)));
        NothingSucceeds(diff, verdicts, failure, last);
      }
    }
  }

  lemma AppendingKeepsDifference<T>(a: seq<T>, b: seq<T>, x: T)
    ensures a + [x] == b + [x] <==> a == b
  {
    if a + [x] == b + [x] {
      assert (a + [x])[..|a|] == a && (b + [x])[..|b|] == b;
    }
  }

  lemma SameCounts(diff: StateDiff, verdicts: seq<Verdict>, n: nat, failure: BackendErrorKind)
    requires n <= |verdicts| == |diff.operations|
    ensures FailedReport(diff, n, failure).succeeded == []
  {
  }

  lemma {:induction false} NothingSucceeds(diff: StateDiff, verdicts: seq<Verdict>, failure: BackendErrorKind, n: nat)
    requires Possible(diff, verdicts) && n <= |verdicts| == |diff.operations|
      && EveryAttemptFails(diff, verdicts, failure)
    ensures ReportOf(diff, verdicts[..n]).succeeded == FailedReport(diff, n, failure).succeeded == []
  {
    if n > 0 {
      NothingSucceeds(diff, verdicts, failure, n - 1);
      NothingUnblocks(diff, verdicts, failure, n - 1);
      assert verdicts[..n][..n - 1] == verdicts[..n - 1];
    }
  }

  /** A run never skips more operations than the unreachable worker reports. */
  lemma {:induction false} FewerSkips(diff: StateDiff, verdicts: seq<Verdict>, failure: BackendErrorKind, n: nat)
    requires Possible(diff, verdicts) && n <= |verdicts| == |diff.operations|
      && EveryAttemptFails(diff, verdicts, failure)
    ensures |ReportOf(diff, verdicts[..n]).skipped| <= |FailedReport(diff, n, failure).skipped|
  {
    if n > 0 {
      FewerSkips(diff, verdicts, failure, n - 1);
      VerdictWhenAllFail(diff, verdicts, failure, n - 1);
      assert verdicts[..n][..n - 1] == verdicts[..n - 1];
    }
  }

  // ---------------------------------------------------------------- preview reports

  function StatusOf(verdict: Verdict): PlannedStatus {
    match verdict
    case Succeeded => Write
    case Skipped(reason) => Skip(reason)
    case Failed(_) => Fail
  }

  function PlannedSuccesses(entries: seq<OperationContext>): seq<PlannedOperation> {
    if entries == [] then [] else [PlannedOperation(entries[0], Write)] + PlannedSuccesses(entries[1..])
  }

  function PlannedSkips(entries: seq<SkippedOperation>): seq<PlannedOperation> {
    if entries == [] then []
    else [PlannedOperation(entries[0].context, Skip(entries[0].reason))] + PlannedSkips(entries[1..])
  }

  function PlannedFailures(entries: seq<FailedOperation>): seq<PlannedOperation> {
    if entries == [] then [] else [PlannedOperation(entries[0].context, Fail)] + PlannedFailures(entries[1..])
  }

  function InsertByIndex(sorted: seq<PlannedOperation>, entry: PlannedOperation): (r: seq<PlannedOperation>)
    ensures multiset(r) == multiset(sorted) + multiset{entry}
  {
    if sorted == [] then [entry]
    else if entry.context.index <= sorted[0].context.index then [entry] + sorted
    else
      assert sorted == [sorted[0]] + sorted[1..];
      [sorted[0]] + InsertByIndex(sorted[1..], entry)
  }

  /** A stable sort by operation index. */
  function SortByIndex(entries: seq<PlannedOperation>): (r: seq<PlannedOperation>)
    ensures multiset(r) == multiset(entries)
  {
    if entries == [] then []
    else
      assert entries == [entries[0]] + entries[1..];
      InsertByIndex(SortByIndex(entries[1..]), entries[0])
  }

  function PreviewReport(report: ApplyReport): DryRunReport {
    DryRunReport(
      SortByIndex(PlannedSuccesses(report.succeeded) + PlannedSkips(report.skipped) + PlannedFailures(report.failed)),
      report.failed)
  }

  ghost predicate SortedByIndex(entries: seq<PlannedOperation>) {
    forall j, k | 0 <= j < k < |entries| :: entries[j].context.index <= entries[k].context.index
  }

  /** What a preview shows: every operation in plan order, with its own verdict. */
  function InPlanOrder(diff: StateDiff, verdicts: seq<Verdict>): (r: seq<PlannedOperation>)
    requires |verdicts| <= |diff.operations|
    ensures |r| == |verdicts|
    ensures forall i | 0 <= i < |r| :: r[i] == PlannedOperation(ContextOf(diff, i), StatusOf(verdicts[i]))
  {
    seq(|verdicts|, i requires 0 <= i < |verdicts| => PlannedOperation(ContextOf(diff, i), StatusOf(verdicts[i])))
  }

  lemma {:induction false} InsertionKeepsSorted(sorted: seq<PlannedOperation>, entry: PlannedOperation)
    requires SortedByIndex(sorted)
    ensures SortedByIndex(InsertByIndex(sorted, entry))
  {
    if sorted != [] && entry.context.index > sorted[0].context.index {
      InsertionKeepsSorted(sorted[1..], entry);
      var rest := InsertByIndex(sorted[1..], entry);
      forall k | 0 <= k < |rest| ensures sorted[0].context.index <= rest[k].context.index {
        assert rest[k] in multiset(rest);
      }
    }
  }

  lemma {:induction false} SortIsSorted(entries: seq<PlannedOperation>)
    ensures SortedByIndex(SortByIndex(entries))
  {
    if entries != [] {
      SortIsSorted(entries[1..]);
      InsertionKeepsSorted(SortByIndex(entries[1..]), entries[0]);
    }
  }

  ghost predicate StrictByIndex(entries: seq<PlannedOperation>) {
    forall j, k | 0 <= j < k < |entries| :: entries[j].context.index < entries[k].context.index
  }

  lemma SameFirst(a: seq<PlannedOperation>, b: seq<PlannedOperation>)
    requires SortedByIndex(a) && StrictByIndex(b) && multiset(a) == multiset(b) && a != [] && b != []
    ensures a[0] == b[0]
  {
    assert a[0] in multiset(b) && b[0] in multiset(a);
    var i :| 0 <= i < |b| && b[i] == a[0];
    var j :| 0 <= j < |a| && a[j] == b[0];
  }

  lemma SplitFirst(a: seq<PlannedOperation>)
    requires a != []
    ensures multiset(a[1..]) == multiset(a) - multiset{a[0]}
  {
    assert a == [a[0]] + a[1..];
  }

  /** Sorted entries with distinct indices are determined by their contents. */
  lemma {:induction false} SortedIsUnique(a: seq<PlannedOperation>, b: seq<PlannedOperation>)
    requires SortedByIndex(a) && StrictByIndex(b) && multiset(a) == multiset(b)
    ensures a == b
  {
    assert |a| == |multiset(a)| == |multiset(b)| == |b|;
    if a != [] {
      SameFirst(a, b);
      SplitFirst(a);
      SplitFirst(b);
      assert multiset(a[1..]) == multiset(b[1..]);
      SortedIsUnique(a[1..], b[1..]);
    }
  }

  lemma {:induction false} SuccessAppended(entries: seq<OperationContext>, last: OperationContext)
    ensures PlannedSuccesses(entries + [last]) == PlannedSuccesses(entries) + [PlannedOperation(last, Write)]
  {
    if entries != [] {
      SuccessAppended(entries[1..], last);
      assert (entries + [last])[1..] == entries[1..] + [last];
    }
  }

  lemma {:induction false} SkipAppended(entries: seq<SkippedOperation>, last: SkippedOperation)
    ensures PlannedSkips(entries + [last])
      == PlannedSkips(entries) + [PlannedOperation(last.context, Skip(last.reason))]
  {
    if entries != [] {
      SkipAppended(entries[1..], last);
      assert (entries + [last])[1..] == entries[1..] + [last];
    }
  }

  lemma {:induction false} FailureAppended(entries: seq<FailedOperation>, last: FailedOperation)
    ensures PlannedFailures(entries + [last]) == PlannedFailures(entries) + [PlannedOperation(last.context, Fail)]
  {
    if entries != [] {
      FailureAppended(entries[1..], last);
      assert (entries + [last])[1..] == entries[1..] + [last];
    }
  }

  ghost function Listed(report: ApplyReport): multiset<PlannedOperation> {
    multiset(PlannedSuccesses(report.succeeded)) + multiset(PlannedSkips(report.skipped))
      + multiset(PlannedFailures(report.failed))
  }

  lemma OneMoreListed(diff: StateDiff, verdicts: seq<Verdict>)
    requires 0 < |verdicts| <= |diff.operations|
    ensures var last := |verdicts| - 1;
            Listed(ReportOf(diff, verdicts))
            == Listed(ReportOf(diff, verdicts[..last]))
              + multiset{PlannedOperation(ContextOf(diff, last), StatusOf(verdicts[last]))}
  {
    hide PlannedSuccesses, PlannedSkips, PlannedFailures;
    var last := |verdicts| - 1;
    var earlier, context := ReportOf(diff, verdicts[..last]), ContextOf(diff, last);
    var successes, skips, failures :=
      PlannedSuccesses(earlier.succeeded), PlannedSkips(earlier.skipped), PlannedFailures(earlier.failed);
    var planned := PlannedOperation(context, StatusOf(verdicts[last]));
    AnyOrder(successes, skips, failures, planned);
    match verdicts[last] {
      case Succeeded => SuccessAppended(earlier.succeeded, context);
      case Skipped(reason) => SkipAppended(earlier.skipped, SkippedOperation(context, reason));
      case Failed(e) => FailureAppended(earlier.failed, FailedOperation(context, e));
    }
  }

  lemma AnyOrder<T>(a: seq<T>, b: seq<T>, c: seq<T>, x: T)
    ensures var all := multiset(a) + multiset(b) + multiset(c) + multiset{x};
            && multiset(a + [x]) + multiset(b) + multiset(c) == all
            && multiset(a) + multiset(b + [x]) + multiset(c) == all
            && multiset(a) + multiset(b) + multiset(c + [x]) == all
  {
  }

  lemma {:induction false} ListedIsPlanned(diff: StateDiff, verdicts: seq<Verdict>)
    requires |verdicts| <= |diff.operations|
    ensures Listed(ReportOf(diff, verdicts)) == multiset(InPlanOrder(diff, verdicts))
  {
    hide Listed, ReportOf;
    if verdicts == [] {
      NothingListed(diff);
    } else {
      var last := |verdicts| - 1;
      ListedIsPlanned(diff, verdicts[..last]);
      OneMoreListed(diff, verdicts);
      assert InPlanOrder(diff, verdicts)
          == InPlanOrder(diff, verdicts[..last]) + [PlannedOperation(ContextOf(diff, last), StatusOf(verdicts[last]))];
    }
  }

  lemma NothingListed(diff: StateDiff)
    ensures Listed(ReportOf(diff, [])) == multiset{}
  {
  }

  /** A preview report lists operations 0 to n-1 in order, each with its own verdict, and agrees on success. */
  lemma PreviewReportIsInPlanOrder(diff: StateDiff, verdicts: seq<Verdict>)
    requires |verdicts| == |diff.operations|
    ensures var report := ReportOf(diff, verdicts);
            && PreviewReport(report).operations == InPlanOrder(diff, verdicts)
            && (PreviewReport(report).IsSuccess() <==> report.IsSuccess())
  {
    var report := ReportOf(diff, verdicts);
    var listed := PlannedSuccesses(report.succeeded) + PlannedSkips(report.skipped) + PlannedFailures(report.failed);
    ListedIsPlanned(diff, verdicts);
    SortIsSorted(listed);
    SortedIsUnique(SortByIndex(listed), InPlanOrder(diff, verdicts));
    PreviewSuccess(diff, verdicts);
  }

  lemma PreviewSuccess(diff: StateDiff, verdicts: seq<Verdict>)
    requires |verdicts| == |diff.operations|
    ensures DryRunReport(InPlanOrder(diff, verdicts), ReportOf(diff, verdicts).failed).IsSuccess()
       <==> ReportOf(diff, verdicts).IsSuccess()
  {
    var operations, report := InPlanOrder(diff, verdicts), ReportOf(diff, verdicts);
    SuccessMeansAllUnblocked(diff, verdicts);
    if report.IsSuccess() {
      forall o | o in operations ensures !(o.status.Skip? && o.status.reason.DependencyFailed?) {
        var i :| 0 <= i < |operations| && operations[i] == o;
        assert verdicts[i].Unblocks();
      }
    }
    if DryRunReport(operations, report.failed).IsSuccess() {
      forall i | 0 <= i < |verdicts| ensures verdicts[i].Unblocks() {
        assert operations[i] in operations;
        VerdictsAreListed(diff, verdicts, i);
        if verdicts[i].Failed? {
          assert FailedOperation(ContextOf(diff, i), verdicts[i].error) in report.failed;
        }
      }
    }
  }
}
