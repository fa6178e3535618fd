/** How the two converters relate: they apply the same stage rules, and the
    per-pipeline project summarises exactly the per-stage projects of the
    same pipeline. */
module Granularity {
  import opened States
  import opened Projects
  import P = PerPipeline
  import S = PerStage

  /** Both versions classify a stage alike, and the per-stage time is the
      rendered per-pipeline stage time. */
  lemma SameStageRules(created: Time, stage: StageState, format: Time -> string)
    ensures P.BuildLastBuildStatus(stage) == S.BuildLastBuildStatus(stage)
    ensures P.BuildActivity(stage) == S.BuildActivity(stage)
    ensures S.BuildLastBuildTime(created, stage, format) == format(P.GetStageTime(created, stage))
  {
  }

  /** A pipeline's per-pipeline status is Failure iff some of its
      per-stage projects has status Failure. */
  lemma PipelineFailsIffSomeStageProjectFails(pipeline: PipelineState, format: Time -> string)
    requires S.StagesNamed(pipeline)
    ensures P.Summarize(pipeline, format).lastBuildStatus == Failure <==>
      exists j :: 0 <= j < |S.PipelineProjects(pipeline, format)| && S.PipelineProjects(pipeline, format)[j].lastBuildStatus == Failure
  {
    var projects := S.PipelineProjects(pipeline, format);
    forall j | 0 <= j < |projects|
      ensures projects[j].lastBuildStatus == P.BuildLastBuildStatus(pipeline.stageStates[j])
    {
      SameStageRules(pipeline.created, pipeline.stageStates[j], format);
    }
    if P.Summarize(pipeline, format).lastBuildStatus == Failure {
      var j :| 0 <= j < |pipeline.stageStates| && P.BuildLastBuildStatus(pipeline.stageStates[j]) == Failure;
      assert projects[j].lastBuildStatus == Failure;
    }
  }

  /** In the whole per-stage feed, pipeline `i` has a project with status Failure among
      the positions it owns iff its per-pipeline project has status Failure. */
  lemma FeedFailsIffSomeStageProjectFails(pipelineStates: seq<PipelineState>, i: nat, format: Time -> string)
    requires S.AllStagesNamed(pipelineStates) && i < |pipelineStates|
    ensures
      var n := |pipelineStates[i].stageStates|;
      var out := S.Flatten(pipelineStates, format);
      var offset := S.Offset(pipelineStates, i);
      P.Summarize(pipelineStates[i], format).lastBuildStatus == Failure <==>
        exists k :: offset <= k < offset + n && k < |out| && out[k].lastBuildStatus == Failure
  {
    S.FlattenSlice(pipelineStates, i, format);
    PipelineFailsIffSomeStageProjectFails(pipelineStates[i], format);
    SliceHasFailure(S.Flatten(pipelineStates, format), S.Offset(pipelineStates, i), S.PipelineProjects(pipelineStates[i], format));
  }

  lemma SliceHasFailure(out: seq<Project>, offset: nat, projects: seq<Project>)
    requires offset + |projects| <= |out| && out[offset..offset + |projects|] == projects
    ensures (exists j :: 0 <= j < |projects| && projects[j].lastBuildStatus == Failure) <==>
      exists k :: offset <= k < offset + |projects| && k < |out| && out[k].lastBuildStatus == Failure
  {
    forall k | offset <= k < offset + |projects|
      ensures out[k] == projects[k - offset]
    {
      assert out[k] == out[offset..offset + |projects|][k - offset];
    }
    if j :| 0 <= j < |projects| && projects[j].lastBuildStatus == Failure {
      assert out[offset + j] == projects[j];
    }
  }

  /** A pipeline's per-pipeline activity is Building iff some of
      its per-stage projects is Building. */
  lemma PipelineBuildsIffSomeStageProjectBuilds(pipeline: PipelineState, format: Time -> string)
    requires S.StagesNamed(pipeline)
    ensures P.Summarize(pipeline, format).activity == Building <==>
      exists j :: 0 <= j < |S.PipelineProjects(pipeline, format)| && S.PipelineProjects(pipeline, format)[j].activity == Building
  {
    var projects := S.PipelineProjects(pipeline, format);
    forall j | 0 <= j < |projects|
      ensures projects[j].activity == P.BuildActivity(pipeline.stageStates[j])
    {
      SameStageRules(pipeline.created, pipeline.stageStates[j], format);
    }
    if P.Summarize(pipeline, format).activity == Building {
      var j :| 0 <= j < |pipeline.stageStates| && P.BuildActivity(pipeline.stageStates[j]) == Building;
      assert projects[j].activity == Building;
    }
  }

  /** In the whole per-stage feed, pipeline `i` has a Building project among
      the positions it owns iff its per-pipeline project is Building. */
  lemma FeedBuildsIffSomeStageProjectBuilds(pipelineStates: seq<PipelineState>, i: nat, format: Time -> string)
    requires S.AllStagesNamed(pipelineStates) && i < |pipelineStates|
    ensures
      var n := |pipelineStates[i].stageStates|;
      var out := S.Flatten(pipelineStates, format);
      var offset := S.Offset(pipelineStates, i);
      P.Summarize(pipelineStates[i], format).activity == Building <==>
        exists k :: offset <= k < offset + n && k < |out| && out[k].activity == Building
  {
    S.FlattenSlice(pipelineStates, i, format);
    PipelineBuildsIffSomeStageProjectBuilds(pipelineStates[i], format);
    SliceHasBuilding(S.Flatten(pipelineStates, format), S.Offset(pipelineStates, i), S.PipelineProjects(pipelineStates[i], format));
  }

  lemma SliceHasBuilding(out: seq<Project>, offset: nat, projects: seq<Project>)
    requires offset + |projects| <= |out| && out[offset..offset + |projects|] == projects
    ensures (exists j :: 0 <= j < |projects| && projects[j].activity == Building) <==>
      exists k :: offset <= k < offset + |projects| && k < |out| && out[k].activity == Building
  {
    forall k | offset <= k < offset + |projects|
      ensures out[k] == projects[k - offset]
    {
      assert out[k] == out[offset..offset + |projects|][k - offset];
    }
    if j :| 0 <= j < |projects| && projects[j].activity == Building {
      assert out[offset + j] == projects[j];
    }
  }

  /** Every per-stage project of a pipeline renders a stage time that is no
      later than the instant the per-pipeline project renders; unless that
      instant is Go's zero time, one of the per-stage projects renders it. */
  lemma PipelineTimeIsLatestStageTime(pipelineStates: seq<PipelineState>, i: nat, format: Time -> string)
    requires S.AllStagesNamed(pipelineStates) && i < |pipelineStates|
    ensures
      var p := pipelineStates[i];
      var out := S.Flatten(pipelineStates, format);
      var offset := S.Offset(pipelineStates, i);
      forall j :: 0 <= j < |p.stageStates| ==>
        offset + j < |out| &&
        out[offset + j].lastBuildTime == format(P.GetStageTime(p.created, p.stageStates[j])) &&
        P.GetStageTime(p.created, p.stageStates[j]) <= P.LatestTime(p.created, p.stageStates)
    ensures
      var p := pipelineStates[i];
      var out := S.Flatten(pipelineStates, format);
      var offset := S.Offset(pipelineStates, i);
      P.LatestTime(p.created, p.stageStates) == ZeroTime ||
      exists j :: 0 <= j < |p.stageStates| &&
        P.GetStageTime(p.created, p.stageStates[j]) == P.LatestTime(p.created, p.stageStates) &&
        offset + j < |out| &&
        out[offset + j].lastBuildTime == P.Summarize(p, format).lastBuildTime
  {
    var p := pipelineStates[i];
    P.LatestTimeIsMaximum(p.created, p.stageStates);
    forall j | 0 <= j < |p.stageStates|
      ensures S.Offset(pipelineStates, i) + j < |S.Flatten(pipelineStates, format)|
      ensures S.Flatten(pipelineStates, format)[S.Offset(pipelineStates, i) + j].lastBuildTime ==
        format(P.GetStageTime(p.created, p.stageStates[j]))
    {
      S.FlattenAt(pipelineStates, i, j, format);
    }
  }

  function DemoStage(name: string, status: StageExecutionStatus, changed: Time): StageState {
    StageState(Some(name), Some(StageExecution(status)), [ActionState(Some(ActionExecution(Some(changed))))])
  }

  function Demo(created: Time, t1: Time, t2: Time): PipelineState {
    PipelineState("demo", created, "eu-west-1", [DemoStage("build", Succeeded, t1), DemoStage("deploy", Failed, t2)])
  }

  /** One pipeline "demo" with a succeeded stage "build" whose first action
      changed at t1 and a failed stage "deploy" whose first action changed at
      t2 > t1 gives one failed, sleeping project at t2 per pipeline. */
  lemma DemoPerPipeline(created: Time, t1: Time, t2: Time, format: Time -> string)
    requires ZeroTime < t1 < t2
    ensures P.Summarize(Demo(created, t1, t2), format) == Project("demo", Failure, Sleeping, format(t2))
  {
    var build, deploy := DemoStage("build", Succeeded, t1), DemoStage("deploy", Failed, t2);
    assert [build, deploy][..1] == [build];
    assert [build][..0] == [];
    assert P.LatestTime(created, [build]) == t1;
    assert P.LatestTime(created, [build, deploy]) == t2;
    assert P.StatusFold([build, deploy]) == Failure;
    assert P.ActivityFold([build]) == Sleeping;
    assert P.ActivityFold([build, deploy]) == Sleeping;
  }

  /** The same pipeline gives, per stage, "demo :: build" succeeded at t1 and
      "demo :: deploy" failed at t2, both sleeping. */
  lemma DemoPerStage(created: Time, t1: Time, t2: Time, format: Time -> string)
    requires ZeroTime < t1 < t2
    ensures S.AllStagesNamed([Demo(created, t1, t2)])
    ensures S.Flatten([Demo(created, t1, t2)], format) ==
      [Project("demo :: build", Success, Sleeping, format(t1)),
       Project("demo :: deploy", Failure, Sleeping, format(t2))]
  {
    var demo := Demo(created, t1, t2);
    var build, deploy := DemoStage("build", Succeeded, t1), DemoStage("deploy", Failed, t2);
    assert S.StageProject(demo, build, format) == Project("demo :: build", Success, Sleeping, format(t1)) by {
      assert "demo" + " :: " + "build" == "demo :: build";
    }
    assert S.StageProject(demo, deploy, format) == Project("demo :: deploy", Failure, Sleeping, format(t2)) by {
      assert "demo" + " :: " + "deploy" == "demo :: deploy";
    }
    S.FlattenSingle(demo, format);
    assert S.PipelineProjects(demo, format) == [S.StageProject(demo, build, format), S.StageProject(demo, deploy, format)];
  }
}
