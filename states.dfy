/** The pipeline-state snapshot the converters consume: the `PipelineState`
    record of the program and the parts of the pipeline service's `StageState`
    that the converters read. Pointers that may be nil become `Option`s. */
module States {

  datatype Option<+T> = None | Some(value: T)

  /** An instant. Only the order of instants matters to the converters
      (Go's `time.Time.After`); the unit is immaterial. */
  type Time = int

  /** Go's zero `time.Time` (January 1, year 1, 00:00:00 UTC). */
  const ZeroTime: Time := 0

  /** Every status string other than the three the converters test for. */
  type OtherStatus = s: string | s != "Failed" && s != "Succeeded" && s != "InProgress"
    witness "Stopped"

  /** The status of a stage's latest execution. The pipeline service sends it
      as a string, so any value outside the three named ones is possible. */
  datatype StageExecutionStatus = Failed | Succeeded | InProgress | Other(name: OtherStatus)

  datatype StageExecution = StageExecution(status: StageExecutionStatus)

  datatype ActionExecution = ActionExecution(lastStatusChange: Option<Time>)

  datatype ActionState = ActionState(latestExecution: Option<ActionExecution>)

  /** A nil action list and an empty one behave alike, so both are `[]`. */
  datatype StageState = StageState(
    stageName: Option<string>,
    latestExecution: Option<StageExecution>,
    actionStates: seq<ActionState>)

  datatype PipelineState = PipelineState(
    name: string,
    created: Time,
    region: string,
    stageStates: seq<StageState>)

  /** The stage's first action has an execution that records a status change. */
  predicate HasFirstActionTime(stage: StageState) {
    |stage.actionStates| > 0 &&
    stage.actionStates[0].latestExecution.Some? &&
    stage.actionStates[0].latestExecution.value.lastStatusChange.Some?
  }

  /** The first action's last status change; defined only when it exists. */
  function FirstActionTime(stage: StageState): Time
    requires HasFirstActionTime(stage)
  {
    stage.actionStates[0].latestExecution.value.lastStatusChange.value
  }
}
