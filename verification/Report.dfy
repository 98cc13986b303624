/** Outcomes of plan execution (report.rs). Messages and errno details are not modelled. */
module Report {
  import opened Plan

  datatype BackendErrorKind =
    | UnsupportedEntityType
    | UnsupportedOperation
    | QueryFailed
    | ApplyFailed
    | OutcomeUnknown
    | NotFound
    | PermissionDenied
    | StaleState
    | Conflict
    | Internal

  datatype OperationContext = OperationContext(index: nat, target: InterfaceId, kind: OperationKind)

  datatype SkipReason =
    | AlreadySatisfied
    | ReadOnly
    | DependencyFailed(operations: seq<nat>)

  datatype FailedOperation = FailedOperation(context: OperationContext, error: BackendErrorKind)
  datatype SkippedOperation = SkippedOperation(context: OperationContext, reason: SkipReason)

  datatype ApplyReport = ApplyReport(
    succeeded: seq<OperationContext>,
    failed: seq<FailedOperation>,
    skipped: seq<SkippedOperation>)
  {
    predicate IsSuccess() {
      failed == [] && forall s | s in skipped :: !s.reason.DependencyFailed?
    }
  }

  datatype PlannedStatus = Write | Skip(reason: SkipReason) | Fail

  datatype PlannedOperation = PlannedOperation(context: OperationContext, status: PlannedStatus)

  datatype DryRunReport = DryRunReport(
    operations: seq<PlannedOperation>,
    failed: seq<FailedOperation>)
  {
    predicate IsSuccess() {
      failed == [] && forall o | o in operations :: !(o.status.Skip? && o.status.reason.DependencyFailed?)
    }
  }
}
