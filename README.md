# CodePipeline status feed: the state-reduction step

This project models, in Dafny, how the pipeline-status feed service reduces
the live state of its continuous-delivery pipelines into dashboard `Project`
records (name, last build status, activity, last build time) for a
CCTray-style feed. The repository holds two versions of this step:

- **per-pipeline** (`aws-codepipeline-ccxml/convert.go`, module `PerPipeline`):
  each pipeline becomes one project. Its status is Failure if any stage
  failed and Success otherwise, never Unknown. Its activity is Building if
  any stage is in progress. Its time is the latest stage time, starting from
  Go's zero time.
- **per-stage** (`convert.go`, module `PerStage`): each (pipeline, stage)
  pair becomes one project named `"<pipeline> :: <stage>"`, computed from
  that stage alone.

Both use the same stage rules:

- A stage with no execution is Unknown.
- Failed is Failure.
- Succeeded, and every other status such as InProgress or Stopped, is Success.
- A stage is Building exactly while its execution is InProgress.
- The stage time is the first action's last status change, else the pipeline's creation time.

Module `States` holds the input snapshot: `PipelineState` and the parts of the
service's `StageState` that the converters read, with nil pointers as
`Option`. Module `Projects` holds the output record. Module `Granularity`
proves how the two versions relate. For example, a pipeline's per-pipeline
status is Failure iff one of its per-stage projects is Failure.

Both `Convert`s are methods with the source's nested loops. Each is proved
equal to a specification function (`Summarize`, `Flatten`), and the
properties are lemmas about those functions.

Modelling choices:

- An instant is an `int`. Go's zero `time.Time` is `ZeroTime`, and
  `After` is `>`.
- RFC 3339 rendering (section 5.6 of RFC 3339, `date-time`) is a parameter
  `format: Time -> string` of every operation that renders a time.
- A status other than Failed, Succeeded and InProgress is
  `Other(name)`. Its `name` is a string that differs from those three
  wire values, so `Other` never stands in for a named status.

The per-pipeline time is a running maximum of the stage times that starts at
Go's zero time (aws-codepipeline-ccxml/convert.go:17, 33-34). It is therefore
the maximum of the zero time and all stage times
(`PerPipeline.LatestTimeIsMaximum`), not a fallback to the creation time.
Two consequences follow:

- A pipeline with no stages reports the zero time, not its creation time
  (`PerPipeline.NoStagesGivesZeroTime`).
- When the stages' first actions all changed before the pipeline was created,
  the pipeline reports the latest of those earlier times, not its creation
  time. This follows from `PerPipeline.LatestTimeIsMaximum`;
  `PerPipeline.EarlierActionTimeIsNotRaisedToCreated` states it for a single
  stage.

## Model

| member | source | states |
|---|---|---|
| PerPipeline.BuildLastBuildStatus | aws-codepipeline-ccxml/convert.go:49-63 | Unknown iff there is no execution; Failure iff the execution failed; Success iff an execution exists and did not fail (Succeeded, InProgress, any other status) |
| PerPipeline.BuildActivity | aws-codepipeline-ccxml/convert.go:65-71 | Building iff the latest execution is present and InProgress; a Building stage always has stage status Success |
| PerPipeline.GetStageTime | aws-codepipeline-ccxml/convert.go:73-79 | the first action's last status change when the first action has an execution with a timestamp, otherwise the creation time |
| PerPipeline.GetStageTimeFirstActionOnly | aws-codepipeline-ccxml/convert.go:73-79 | later actions are never consulted: two stages that both have no actions, or have the same first action, have the same time |
| PerPipeline.StatusFold | aws-codepipeline-ccxml/convert.go:15-24 | the status accumulator is never Unknown |
| PerPipeline.ActivityFold | aws-codepipeline-ccxml/convert.go:16-29 | the activity accumulator: Sleeping at the start (no stages), and Building only if some stage builds |
| PerPipeline.LatestTime | aws-codepipeline-ccxml/convert.go:17-35 | the time accumulator never falls below Go's zero time |
| PerPipeline.StatusFoldFailureDominates | aws-codepipeline-ccxml/convert.go:15-24 | the pipeline status is Failure iff some stage's status is Failure, and Success iff none is, even if all stages are Unknown or there are none |
| PerPipeline.ActivityFoldAnyBuilding | aws-codepipeline-ccxml/convert.go:16-29 | the pipeline is Building iff some stage is Building, iff some stage's latest execution is InProgress; with no stages it is Sleeping |
| PerPipeline.LatestTimeIsMaximum | aws-codepipeline-ccxml/convert.go:17-35 | the time is no earlier than any stage time, and it is Go's zero time or one of the stage times: the maximum of both |
| PerPipeline.NoStagesGivesZeroTime | aws-codepipeline-ccxml/convert.go:15-17 | with no stages the project is Success, Sleeping, at Go's zero time rather than the creation time |
| PerPipeline.EarlierActionTimeIsNotRaisedToCreated | aws-codepipeline-ccxml/convert.go:32-35 | a stage whose first action changed before the pipeline's creation gives that earlier time: the creation time is not a lower bound |
| PerPipeline.Summarize | aws-codepipeline-ccxml/convert.go:38-43 | the project keeps the pipeline name; its status is never Unknown and is Failure iff some stage fails; it is Building iff some stage builds; its time renders the latest stage time |
| PerPipeline.StatusFoldSameElements | aws-codepipeline-ccxml/convert.go:20-24 | stage lists with the same elements give the same status |
| PerPipeline.ActivityFoldSameElements | aws-codepipeline-ccxml/convert.go:26-29 | stage lists with the same elements give the same activity |
| PerPipeline.LatestTimeSameElements | aws-codepipeline-ccxml/convert.go:31-35 | stage lists with the same elements give the same time |
| PerPipeline.StageOrderIrrelevant | aws-codepipeline-ccxml/convert.go:20-36 | permuting a pipeline's stages does not change its project |
| PerPipeline.Convert | aws-codepipeline-ccxml/convert.go:11-47 | exactly one project per pipeline, in input order, each the pipeline's summary (the nested loop computes the three folds) |
| PerStage.BuildName | convert.go:29-31 | the name is the pipeline name, then " :: ", then the stage name, which must be present |
| PerStage.BuildNameInjective | convert.go:29-31 | if the names contain no space, the project name determines the pipeline name and the stage name |
| PerStage.BuildNameCollision | convert.go:29-31 | when names may contain spaces, two different (pipeline, stage) pairs can give the same project name |
| PerStage.BuildLastBuildStatus | convert.go:33-46 | Unknown iff there is no execution; Failure iff it failed; Success for Succeeded and every other status |
| PerStage.BuildActivity | convert.go:48-54 | Building iff the latest execution is present and InProgress; a Building stage has status Success |
| PerStage.BuildLastBuildTime | convert.go:56-63 | the rendered first-action timestamp when present, else the rendered creation time |
| PerStage.StageProject | convert.go:17-22 | a stage's project takes only the name and creation time from the pipeline; status, activity and time come from that stage |
| PerStage.PipelineProjects | convert.go:15-23 | one project per stage of the pipeline |
| PerStage.Flatten | convert.go:14-24 | the output length is the total number of stages; a pipeline with no stages contributes nothing |
| PerStage.FlattenAppend | convert.go:14-24 | converting a concatenation of pipeline lists gives the concatenation of the conversions |
| PerStage.FlattenSlice | convert.go:14-23 | pipeline i's projects sit contiguously in the output, starting at the number of stages of the pipelines before it |
| PerStage.FlattenAt | convert.go:14-23 | the project at pipeline i's offset plus j is the project of stage j of pipeline i |
| PerStage.StageChangeIsLocal | convert.go:15-22 | changing one stage changes only the project at that stage's position, and the length stays the same |
| PerStage.Convert | convert.go:11-27 | the nested loop's result is the pipelines' stage projects, concatenated in pipeline order and then stage order |
| Granularity.SameStageRules | aws-codepipeline-ccxml/convert.go:49-79 | the two versions give a stage the same status and activity (convert.go:33-54), and the per-stage time renders the per-pipeline stage time |
| Granularity.PipelineFailsIffSomeStageProjectFails | aws-codepipeline-ccxml/convert.go:20-24 | a pipeline's per-pipeline status is Failure iff one of its per-stage projects has status Failure |
| Granularity.FeedFailsIffSomeStageProjectFails | aws-codepipeline-ccxml/convert.go:20-24 | in the whole per-stage feed, pipeline i owns a project with status Failure iff its per-pipeline project has status Failure |
| Granularity.PipelineBuildsIffSomeStageProjectBuilds | aws-codepipeline-ccxml/convert.go:26-29 | a pipeline's per-pipeline activity is Building iff one of its per-stage projects is Building |
| Granularity.FeedBuildsIffSomeStageProjectBuilds | aws-codepipeline-ccxml/convert.go:26-29 | in the whole per-stage feed, pipeline i owns a Building project iff its per-pipeline project is Building |
| Granularity.PipelineTimeIsLatestStageTime | aws-codepipeline-ccxml/convert.go:31-35 | each per-stage project renders a stage time no later than the per-pipeline time; unless that time is Go's zero time, some per-stage project of the pipeline renders exactly the per-pipeline time |
| Granularity.DemoPerPipeline | aws-codepipeline-ccxml/convert.go:11-47 | a pipeline "demo" with a succeeded stage at t1 and a failed stage at t2 > t1 becomes one project: Failure, Sleeping, at t2 |
| Granularity.DemoPerStage | convert.go:11-27 | the same pipeline becomes "demo :: build" (Success, Sleeping, t1) followed by "demo :: deploy" (Failure, Sleeping, t2) |

## Left out

- Fetching pipeline states (`GetPipelineState` in both `pipeline.go` files) is network I/O. Only the `PipelineState` record is modelled, as input.
- Persistence (`persist.go`) is not modelled. It covers the S3 `PutObject` with a 15-second timeout and the atomic file replace. Both are foreign I/O.
- The feed encoder `Encode` is not part of this model, so its escaping and determinism are not modelled.
- The Lambda entry point, environment reads and client singletons (`main.go`) are not modelled. `updateProjectsStatus` is only fetch, then convert, then persist, and it stops at the first error.
- RFC 3339 rendering and time zones are not modelled. `format` is a parameter, and instants are compared as integers, whatever their unit (Go keeps nanoseconds).
- The `Region` field and the stage fields the converters never read are carried or dropped without effect.
- PerStage.Convert: a nil stage name, on which the Go code panics, is excluded by a precondition rather than modelled as a crash. The same holds for PerStage.BuildName, PerStage.StageProject, PerStage.PipelineProjects and PerStage.Flatten.
