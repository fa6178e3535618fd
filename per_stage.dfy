/** The per-stage converter: every (pipeline, stage) pair becomes one
    project named "<pipeline> :: <stage>", computed from that stage alone.
    `format` stands for RFC 3339 rendering of an instant. */
module PerStage {
  import opened States
  import opened Projects

  const Separator: string := " :: "

  /** Every stage of every pipeline carries a name (the converter
      dereferences the name pointer unconditionally). */
  predicate AllStagesNamed(pipelineStates: seq<PipelineState>) {
    forall i :: 0 <= i < |pipelineStates| ==> StagesNamed(pipelineStates[i])
  }

  predicate StagesNamed(pipeline: PipelineState) {
    forall j :: 0 <= j < |pipeline.stageStates| ==> pipeline.stageStates[j].stageName.Some?
  }

  /** The project name: the pipeline name, the separator, then the stage name. */
  function BuildName(name: string, stage: StageState): (r: string)
    requires stage.stageName.Some?
    ensures |r| == |name| + |Separator| + |stage.stageName.value|
    ensures r[..|name|] == name
    ensures r[|name|..|name| + |Separator|] == Separator
    ensures r[|name| + |Separator|..] == stage.stageName.value
  {
    name + Separator + stage.stageName.value
  }

  predicate NoSpace(s: string) {
    forall i :: 0 <= i < |s| ==> s[i] != ' '
  }

  /** Names without spaces never collide: the project name determines both
      the pipeline name and the stage name. */
  lemma BuildNameInjective(a: string, s: StageState, b: string, t: StageState)
    requires s.stageName.Some? && t.stageName.Some?
    requires NoSpace(a) && NoSpace(b)
    requires BuildName(a, s) == BuildName(b, t)
    ensures a == b && s.stageName == t.stageName
  {
    var r := BuildName(a, s);
    assert forall k :: 0 <= k < |a| ==> r[k] == r[..|a|][k] == a[k];
    assert forall k :: 0 <= k < |b| ==> r[k] == r[..|b|][k] == b[k];
    assert r[|a|] == r[|a|..|a| + |Separator|][0] == ' ';
    assert r[|b|] == r[|b|..|b| + |Separator|][0] == ' ';
    assert |a| == |b|;
    assert a == r[..|a|] == b;
  }

  /** With spaces allowed, two different pairs can produce the same name. */
  lemma BuildNameCollision()
    ensures BuildName("a :: b", StageState(Some("c"), None, [])) ==
            BuildName("a", StageState(Some("b :: c"), None, []))
  {
  }

  /** Stage status: no execution is Unknown, Failed is Failure, and every
      other recorded status (InProgress, Stopped, ...) is taken as Success. */
  function BuildLastBuildStatus(stage: StageState): (r: LastBuildStatus)
    ensures r == Unknown <==> stage.latestExecution.None?
    ensures r == Failure <==> stage.latestExecution.Some? && stage.latestExecution.value.status == Failed
    ensures r == Success <==> stage.latestExecution.Some? && stage.latestExecution.value.status != Failed
  {
    match stage.latestExecution
    case None => Unknown
    case Some(execution) =>
      match execution.status
      case Failed => Failure
      case Succeeded => Success
      case _ => Success
  }

  /** A stage is Building exactly while its latest execution is in progress;
      such a stage always reports the optimistic status Success. */
  function BuildActivity(stage: StageState): (r: Activity)
    ensures r == Building <==> stage.latestExecution == Some(StageExecution(InProgress))
    ensures r == Building ==> BuildLastBuildStatus(stage) == Success
  {
    if stage.latestExecution.Some? && stage.latestExecution.value.status == InProgress then Building
    else Sleeping
  }

  /** The rendered time of the first action's last status change, else the
      rendered creation time of the pipeline. */
  function BuildLastBuildTime(created: Time, stage: StageState, format: Time -> string): (r: string)
    ensures HasFirstActionTime(stage) ==> r == format(FirstActionTime(stage))
    ensures !HasFirstActionTime(stage) ==> r == format(created)
  {
    if !HasFirstActionTime(stage) then format(created)
    else format(FirstActionTime(stage))
  }

  /** The project of one stage: the pipeline contributes only its name and
      its creation time; everything else comes from this stage. */
  function StageProject(pipeline: PipelineState, stage: StageState, format: Time -> string): (r: Project)
    requires stage.stageName.Some?
    ensures r.name == pipeline.name + " :: " + stage.stageName.value
    ensures r.lastBuildStatus == BuildLastBuildStatus(stage)
    ensures r.activity == BuildActivity(stage)
    ensures r.lastBuildTime == BuildLastBuildTime(pipeline.created, stage, format)
  {
    Project(
      BuildName(pipeline.name, stage),
      BuildLastBuildStatus(stage),
      BuildActivity(stage),
      BuildLastBuildTime(pipeline.created, stage, format))
  }

  /** The projects of one pipeline, one per stage, in stage order. */
  function PipelineProjects(pipeline: PipelineState, format: Time -> string): (r: seq<Project>)
    requires StagesNamed(pipeline)
    ensures |r| == |pipeline.stageStates|
  {
    seq(|pipeline.stageStates|, j requires 0 <= j < |pipeline.stageStates| =>
      StageProject(pipeline, pipeline.stageStates[j], format))
  }

  /** The number of stages over all pipelines. */
  function TotalStages(pipelineStates: seq<PipelineState>): nat {
    if |pipelineStates| == 0 then 0
    else TotalStages(pipelineStates[..|pipelineStates| - 1]) + |pipelineStates[|pipelineStates| - 1].stageStates|
  }

  /** What the nested loop of `Convert` appends, pipeline after pipeline. */
  function Flatten(pipelineStates: seq<PipelineState>, format: Time -> string): (r: seq<Project>)
    requires AllStagesNamed(pipelineStates)
    ensures |r| == TotalStages(pipelineStates)
  {
    if |pipelineStates| == 0 then []
    else
      var n := |pipelineStates| - 1;
      assert forall i :: 0 <= i < n ==> pipelineStates[..n][i] == pipelineStates[i];
      Flatten(pipelineStates[..n], format) + PipelineProjects(pipelineStates[n], format)
  }

  lemma AllStagesNamedAppend(a: seq<PipelineState>, b: seq<PipelineState>)
    requires AllStagesNamed(a) && AllStagesNamed(b)
    ensures AllStagesNamed(a + b)
  {
    assert forall i :: 0 <= i < |a + b| ==> (a + b)[i] == if i < |a| then a[i] else b[i - |a|];
  }

  lemma SplitLast<T>(a: seq<T>, b: seq<T>)
    requires |b| > 0
    ensures (a + b)[..|a + b| - 1] == a + b[..|b| - 1]
    ensures (a + b)[|a + b| - 1] == b[|b| - 1]
  {
  }

  /** Flattening distributes over concatenation of the pipeline list. */
  lemma {:induction false} FlattenAppend(a: seq<PipelineState>, b: seq<PipelineState>, format: Time -> string)
    requires AllStagesNamed(a) && AllStagesNamed(b)
    ensures AllStagesNamed(a + b)
    ensures Flatten(a + b, format) == Flatten(a, format) + Flatten(b, format)
  {
    AllStagesNamedAppend(a, b);
    if |b| == 0 {
      assert a + b == a;
    } else {
      var n := |b| - 1;
      AllStagesNamedSlice(b, 0, n);
      assert b[0..n] == b[..n];
      FlattenAppend(a, b[..n], format);
      SplitLast(a, b);
      calc {
        Flatten(a + b, format);
        Flatten(a + b[..n], format) + PipelineProjects(b[n], format);
        Flatten(a, format) + Flatten(b[..n], format) + PipelineProjects(b[n], format);
        Flatten(a, format) + Flatten(b, format);
      }
    }
  }

  /** Offset of pipeline `i`'s first project in the output. */
  function Offset(pipelineStates: seq<PipelineState>, i: nat): nat
    requires i <= |pipelineStates|
  {
    TotalStages(pipelineStates[..i])
  }

  lemma AllStagesNamedSlice(pipelineStates: seq<PipelineState>, lo: nat, hi: nat)
    requires AllStagesNamed(pipelineStates) && lo <= hi <= |pipelineStates|
    ensures AllStagesNamed(pipelineStates[lo..hi])
  {
    assert forall k :: 0 <= k < hi - lo ==> pipelineStates[lo..hi][k] == pipelineStates[lo + k];
  }

  lemma FlattenSingle(pipeline: PipelineState, format: Time -> string)
    requires StagesNamed(pipeline)
    ensures AllStagesNamed([pipeline])
    ensures Flatten([pipeline], format) == PipelineProjects(pipeline, format)
  {
    assert [pipeline][..0] == [];
  }

  lemma SplitAround<T>(s: seq<T>, i: nat)
    requires i < |s|
    ensures s == s[..i] + [s[i]] + s[i + 1..]
  {
  }

  lemma NamedAround(pipelineStates: seq<PipelineState>, i: nat)
    requires AllStagesNamed(pipelineStates) && i < |pipelineStates|
    ensures AllStagesNamed(pipelineStates[..i]) && AllStagesNamed(pipelineStates[i + 1..])
    ensures StagesNamed(pipelineStates[i])
  {
    AllStagesNamedSlice(pipelineStates, 0, i);
    AllStagesNamedSlice(pipelineStates, i + 1, |pipelineStates|);
    assert pipelineStates[0..i] == pipelineStates[..i];
    assert pipelineStates[i + 1..|pipelineStates|] == pipelineStates[i + 1..];
  }

  /** A pipeline list split around pipeline `i`. */
  lemma FlattenAround(pipelineStates: seq<PipelineState>, i: nat, format: Time -> string)
    requires AllStagesNamed(pipelineStates) && i < |pipelineStates|
    ensures AllStagesNamed(pipelineStates[..i]) && AllStagesNamed(pipelineStates[i + 1..])
    ensures StagesNamed(pipelineStates[i])
    ensures Flatten(pipelineStates, format) ==
      Flatten(pipelineStates[..i], format) + PipelineProjects(pipelineStates[i], format) +
      Flatten(pipelineStates[i + 1..], format)
  {
    var ps := pipelineStates;
    var front, middle, back := ps[..i], [ps[i]], ps[i + 1..];
    NamedAround(ps, i);
    FlattenSingle(ps[i], format);
    FlattenAppend(front, middle, format);
    FlattenAppend(front + middle, back, format);
    SplitAround(ps, i);
  }

  /** Pipeline `i`'s projects sit contiguously in the output, starting at its offset. */
  lemma FlattenSlice(pipelineStates: seq<PipelineState>, i: nat, format: Time -> string)
    requires AllStagesNamed(pipelineStates) && i < |pipelineStates|
    ensures StagesNamed(pipelineStates[i])
    ensures Offset(pipelineStates, i) + |pipelineStates[i].stageStates| <= |Flatten(pipelineStates, format)|
    ensures Flatten(pipelineStates, format)[Offset(pipelineStates, i)..Offset(pipelineStates, i) + |pipelineStates[i].stageStates|]
      == PipelineProjects(pipelineStates[i], format)
  {
    FlattenAround(pipelineStates, i, format);
  }

  /** The project at pipeline `i`'s offset plus `j` is the project of stage
      `j` of pipeline `i`. */
  lemma FlattenAt(pipelineStates: seq<PipelineState>, i: nat, j: nat, format: Time -> string)
    requires AllStagesNamed(pipelineStates)
    requires i < |pipelineStates| && j < |pipelineStates[i].stageStates|
    ensures Offset(pipelineStates, i) + j < |Flatten(pipelineStates, format)|
    ensures Flatten(pipelineStates, format)[Offset(pipelineStates, i) + j] ==
      StageProject(pipelineStates[i], pipelineStates[i].stageStates[j], format)
  {
    FlattenSlice(pipelineStates, i, format);
    var offset, n := Offset(pipelineStates, i), |pipelineStates[i].stageStates|;
    assert Flatten(pipelineStates, format)[offset + j] == Flatten(pipelineStates, format)[offset..offset + n][j];
  }

  /** Changing one stage changes only the project at that stage's position:
      every other position, and the length, stay as they were. */
  lemma StageChangeIsLocal(pipelineStates: seq<PipelineState>, i: nat, j: nat, stage: StageState, format: Time -> string)
    requires AllStagesNamed(pipelineStates)
    requires i < |pipelineStates| && j < |pipelineStates[i].stageStates|
    requires stage.stageName.Some?
    ensures
      var p := pipelineStates[i];
      var changed := pipelineStates[i := p.(stageStates := p.stageStates[j := stage])];
      var before := Flatten(pipelineStates, format);
      AllStagesNamed(changed) &&
      |Flatten(changed, format)| == |before| &&
      forall k :: 0 <= k < |before| ==>
        Flatten(changed, format)[k] ==
          if k == Offset(pipelineStates, i) + j then StageProject(p, stage, format) else before[k]
  {
    var p := pipelineStates[i];
    var q := p.(stageStates := p.stageStates[j := stage]);
    var changed := pipelineStates[i := q];
    assert AllStagesNamed(changed) by {
      forall x, y | 0 <= x < |changed| && 0 <= y < |changed[x].stageStates|
        ensures changed[x].stageStates[y].stageName.Some?
      {
        if x == i && y != j {
          assert changed[x].stageStates[y] == pipelineStates[i].stageStates[y];
        }
      }
    }
    FlattenAround(pipelineStates, i, format);
    assert changed[..i] == pipelineStates[..i];
    assert changed[i + 1..] == pipelineStates[i + 1..];
    FlattenAround(changed, i, format);
    assert PipelineProjects(q, format) == PipelineProjects(p, format)[j := StageProject(p, stage, format)];
  }

  /** Converts the pipeline states to projects, one per stage, in pipeline
      order and then stage order, by a nested loop appending to the result. */
  method Convert(pipelineStates: seq<PipelineState>, format: Time -> string) returns (projects: seq<Project>)
    requires AllStagesNamed(pipelineStates)
    ensures projects == Flatten(pipelineStates, format)
  {
    projects := [];
    for i := 0 to |pipelineStates|
      invariant AllStagesNamed(pipelineStates[..i])
      invariant projects == Flatten(pipelineStates[..i], format)
    {
      var pipeline := pipelineStates[i];
      assert pipelineStates[..i + 1][..i] == pipelineStates[..i];
      for j := 0 to |pipeline.stageStates|
        invariant projects == Flatten(pipelineStates[..i], format) + PipelineProjects(pipeline, format)[..j]
      {
        var stage := pipeline.stageStates[j];
        projects := projects + [Project(
          BuildName(pipeline.name, stage),
          BuildLastBuildStatus(stage),
          BuildActivity(stage),
          BuildLastBuildTime(pipeline.created, stage, format))];
      }
    }
    assert pipelineStates[..|pipelineStates|] == pipelineStates;
  }
}
