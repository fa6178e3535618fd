/** The per-pipeline converter: every pipeline becomes one project whose
    status, activity and time are folded over all of its stages.
    `format` stands for RFC 3339 rendering of an instant. */
module PerPipeline {
  import opened States
  import opened Projects

  /** Stage status: no execution is Unknown, Failed is Failure, and every
      other recorded status (InProgress, Stopped, ...) is taken as Success. */
  function BuildLastBuildStatus(stage: StageState): (r: LastBuildStatus)
    ensures r == Unknown <==> stage.latestExecution.None?
    ensures r == Failure <==> stage.latestExecution.Some? && stage.latestExecution.value.status == Failed
    ensures r == Success <==> stage.latestExecution.Some? && stage.latestExecution.value.status != Failed
  {
    match stage.latestExecution
    case None => Unknown
    case Some(execution) =>
      match execution.status
      case Failed => Failure
      case Succeeded => Success
      case _ => Success
  }

  /** A stage is Building exactly while its latest execution is in progress;
      such a stage always reports the optimistic status Success. */
  function BuildActivity(stage: StageState): (r: Activity)
    ensures r == Building <==> stage.latestExecution == Some(StageExecution(InProgress))
    ensures r == Building ==> BuildLastBuildStatus(stage) == Success
  {
    if stage.latestExecution.Some? && stage.latestExecution.value.status == InProgress then Building
    else Sleeping
  }

  /** The stage's time is its first action's last status change, else the
      pipeline's creation time. */
  function GetStageTime(created: Time, stage: StageState): (r: Time)
    ensures HasFirstActionTime(stage) ==> r == FirstActionTime(stage)
    ensures !HasFirstActionTime(stage) ==> r == created
  {
    if !HasFirstActionTime(stage) then created
    else FirstActionTime(stage)
  }

  /** Only the first action is consulted: stages that both have no actions,
      or agree on their first action, agree on their time. */
  lemma GetStageTimeFirstActionOnly(created: Time, s: StageState, t: StageState)
    requires (|s.actionStates| == 0) == (|t.actionStates| == 0)
    requires |s.actionStates| > 0 ==> s.actionStates[0] == t.actionStates[0]
    ensures GetStageTime(created, s) == GetStageTime(created, t)
  {
  }

  /** The status accumulator after the stages seen so far: it starts at
      Success and is switched to Failure by any failed stage. */
  function StatusFold(stages: seq<StageState>): (r: LastBuildStatus)
    ensures r != Unknown
  {
    if |stages| == 0 then Success
    else if BuildLastBuildStatus(stages[|stages| - 1]) == Failure then Failure
    else StatusFold(stages[..|stages| - 1])
  }

  /** The activity accumulator: it starts at Sleeping and is switched to
      Building by any building stage. */
  function ActivityFold(stages: seq<StageState>): (r: Activity)
    ensures |stages| == 0 ==> r == Sleeping
    ensures r == Building ==> exists i :: 0 <= i < |stages| && BuildActivity(stages[i]) == Building
  {
    if |stages| == 0 then Sleeping
    else if BuildActivity(stages[|stages| - 1]) == Building then Building
    else ActivityFold(stages[..|stages| - 1])
  }

  /** The time accumulator: it starts at Go's zero time and is replaced by
      every stage time that is strictly later. */
  function LatestTime(created: Time, stages: seq<StageState>): (r: Time)
    ensures r >= ZeroTime
  {
    if |stages| == 0 then ZeroTime
    else
      var previous := LatestTime(created, stages[..|stages| - 1]);
      var stageTime := GetStageTime(created, stages[|stages| - 1]);
      if stageTime > previous then stageTime else previous
  }

  /** Failure dominates: the pipeline fails iff some stage fails, and it is
      Success otherwise, even when every stage is Unknown. */
  lemma {:induction false} StatusFoldFailureDominates(stages: seq<StageState>)
    ensures StatusFold(stages) == Failure <==>
      exists i :: 0 <= i < |stages| && BuildLastBuildStatus(stages[i]) == Failure
    ensures StatusFold(stages) == Success <==>
      forall i :: 0 <= i < |stages| ==> BuildLastBuildStatus(stages[i]) != Failure
  {
    if |stages| > 0 {
      var n := |stages| - 1;
      StatusFoldFailureDominates(stages[..n]);
      assert forall i :: 0 <= i < n ==> stages[..n][i] == stages[i];
      if BuildLastBuildStatus(stages[n]) != Failure {
        assert forall i :: 0 <= i < |stages| && BuildLastBuildStatus(stages[i]) == Failure ==> i < n;
      }
    }
  }

  /** The pipeline is Building iff some stage is Building, that is, iff some
      stage's latest execution is in progress. */
  lemma {:induction false} ActivityFoldAnyBuilding(stages: seq<StageState>)
    ensures ActivityFold(stages) == Building <==>
      exists i :: 0 <= i < |stages| && BuildActivity(stages[i]) == Building
    ensures ActivityFold(stages) == Building <==>
      exists i :: 0 <= i < |stages| && stages[i].latestExecution == Some(StageExecution(InProgress))
  {
    if |stages| > 0 {
      var n := |stages| - 1;
      ActivityFoldAnyBuilding(stages[..n]);
      assert forall i :: 0 <= i < n ==> stages[..n][i] == stages[i];
      if BuildActivity(stages[n]) != Building {
        assert forall i :: 0 <= i < |stages| && BuildActivity(stages[i]) == Building ==> i < n;
      }
    }
  }

  /** The time is the maximum of Go's zero time and every stage time: it is
      no earlier than any stage time, and it is the zero time or one of them. */
  lemma {:induction false} LatestTimeIsMaximum(created: Time, stages: seq<StageState>)
    ensures forall i :: 0 <= i < |stages| ==> GetStageTime(created, stages[i]) <= LatestTime(created, stages)
    ensures LatestTime(created, stages) == ZeroTime ||
      exists i :: 0 <= i < |stages| && LatestTime(created, stages) == GetStageTime(created, stages[i])
  {
    if |stages| > 0 {
      var n := |stages| - 1;
      LatestTimeIsMaximum(created, stages[..n]);
      assert forall i :: 0 <= i < n ==> stages[..n][i] == stages[i];
    }
  }

  /** With no stages the time stays Go's zero time, not the creation time. */
  lemma NoStagesGivesZeroTime(created: Time)
    ensures LatestTime(created, []) == ZeroTime
    ensures StatusFold([]) == Success && ActivityFold([]) == Sleeping
  {
  }

  /** The creation time is no lower bound: a stage whose first action changed
      before the pipeline was created gives that earlier time. */
  lemma EarlierActionTimeIsNotRaisedToCreated(created: Time, t: Time)
    requires ZeroTime < t < created
    ensures LatestTime(created, [StageState(None, None, [ActionState(Some(ActionExecution(Some(t))))])]) == t
  {
    var stage := StageState(None, None, [ActionState(Some(ActionExecution(Some(t))))]);
    assert [stage][..0] == [];
  }

  /** The project of one pipeline, as the loop body of `Convert` builds it. */
  function Summarize(pipeline: PipelineState, format: Time -> string): (r: Project)
    ensures r.name == pipeline.name
    ensures r.lastBuildStatus != Unknown
    ensures r.lastBuildStatus == Failure <==>
      exists i :: 0 <= i < |pipeline.stageStates| && BuildLastBuildStatus(pipeline.stageStates[i]) == Failure
    ensures r.activity == Building <==>
      exists i :: 0 <= i < |pipeline.stageStates| && BuildActivity(pipeline.stageStates[i]) == Building
    ensures r.lastBuildTime == format(LatestTime(pipeline.created, pipeline.stageStates))
  {
    StatusFoldFailureDominates(pipeline.stageStates);
    ActivityFoldAnyBuilding(pipeline.stageStates);
    Project(
      pipeline.name,
      StatusFold(pipeline.stageStates),
      ActivityFold(pipeline.stageStates),
      format(LatestTime(pipeline.created, pipeline.stageStates)))
  }

  /** Stage sequences with the same elements fold to the same status. */
  lemma StatusFoldSameElements(ps: seq<StageState>, qs: seq<StageState>)
    requires forall x :: x in ps <==> x in qs
    ensures StatusFold(ps) == StatusFold(qs)
  {
    StatusFoldFailureDominates(ps);
    StatusFoldFailureDominates(qs);
    forall i | 0 <= i < |ps| && BuildLastBuildStatus(ps[i]) == Failure
      ensures exists k :: 0 <= k < |qs| && BuildLastBuildStatus(qs[k]) == Failure
    {
      assert ps[i] in qs;
    }
    forall k | 0 <= k < |qs| && BuildLastBuildStatus(qs[k]) == Failure
      ensures exists i :: 0 <= i < |ps| && BuildLastBuildStatus(ps[i]) == Failure
    {
      assert qs[k] in ps;
    }
  }

  /** Stage sequences with the same elements fold to the same activity. */
  lemma ActivityFoldSameElements(ps: seq<StageState>, qs: seq<StageState>)
    requires forall x :: x in ps <==> x in qs
    ensures ActivityFold(ps) == ActivityFold(qs)
  {
    ActivityFoldAnyBuilding(ps);
    ActivityFoldAnyBuilding(qs);
    forall i | 0 <= i < |ps| && BuildActivity(ps[i]) == Building
      ensures exists k :: 0 <= k < |qs| && BuildActivity(qs[k]) == Building
    {
      assert ps[i] in qs;
    }
    forall k | 0 <= k < |qs| && BuildActivity(qs[k]) == Building
      ensures exists i :: 0 <= i < |ps| && BuildActivity(ps[i]) == Building
    {
      assert qs[k] in ps;
    }
  }

  /** Stage sequences with the same elements fold to the same time. */
  lemma LatestTimeSameElements(created: Time, ps: seq<StageState>, qs: seq<StageState>)
    requires forall x :: x in ps <==> x in qs
    ensures LatestTime(created, ps) == LatestTime(created, qs)
  {
    LatestTimeIsMaximum(created, ps);
    LatestTimeIsMaximum(created, qs);
    var tp, tq := LatestTime(created, ps), LatestTime(created, qs);
    if tp != ZeroTime {
      var i :| 0 <= i < |ps| && tp == GetStageTime(created, ps[i]);
      assert ps[i] in qs;
    }
    if tq != ZeroTime {
      var k :| 0 <= k < |qs| && tq == GetStageTime(created, qs[k]);
      assert qs[k] in ps;
    }
  }

  /** Permuting a pipeline's stages does not change its project. */
  lemma StageOrderIrrelevant(p: PipelineState, q: PipelineState, format: Time -> string)
    requires p.name == q.name && p.created == q.created
    requires multiset(p.stageStates) == multiset(q.stageStates)
    ensures Summarize(p, format) == Summarize(q, format)
  {
    assert forall x :: x in p.stageStates <==> x in multiset(q.stageStates);
    StatusFoldSameElements(p.stageStates, q.stageStates);
    ActivityFoldSameElements(p.stageStates, q.stageStates);
    LatestTimeSameElements(p.created, p.stageStates, q.stageStates);
  }

  /** Converts the pipeline states to projects, one per pipeline, in order:
      a nested loop over the stages updates three accumulators. */
  method Convert(pipelineStates: seq<PipelineState>, format: Time -> string) returns (projects: seq<Project>)
    ensures |projects| == |pipelineStates|
    ensures forall i :: 0 <= i < |pipelineStates| ==> projects[i] == Summarize(pipelineStates[i], format)
  {
    projects := [];
    for i := 0 to |pipelineStates|
      invariant |projects| == i
      invariant forall k :: 0 <= k < i ==> projects[k] == Summarize(pipelineStates[k], format)
    {
      var pipeline := pipelineStates[i];
      var lastBuildStatus := Success;
      var activity := Sleeping;
      var lastBuildTime := ZeroTime;
      for j := 0 to |pipeline.stageStates|
        invariant lastBuildStatus == StatusFold(pipeline.stageStates[..j])
        invariant activity == ActivityFold(pipeline.stageStates[..j])
        invariant lastBuildTime == LatestTime(pipeline.created, pipeline.stageStates[..j])
      {
        var stage := pipeline.stageStates[j];
        assert pipeline.stageStates[..j + 1][..j] == pipeline.stageStates[..j];
        var stageStatus := BuildLastBuildStatus(stage);
        if stageStatus == Failure {
          lastBuildStatus := Failure;
        }
        var stageActivity := BuildActivity(stage);
        if stageActivity == Building {
          activity := Building;
        }
        var stageTime := GetStageTime(pipeline.created, stage);
        if stageTime > lastBuildTime {
          lastBuildTime := stageTime;
        }
      }
      assert pipeline.stageStates[..|pipeline.stageStates|] == pipeline.stageStates;
      projects := projects + [Project(pipeline.name, lastBuildStatus, activity, format(lastBuildTime))];
    }
  }
}
