/** The dashboard-facing record produced by either converter. */
module Projects {

  datatype LastBuildStatus = Success | Failure | Unknown

  datatype Activity = Sleeping | Building

  /** `lastBuildTime` is already rendered as text (RFC 3339 date-time). */
  datatype Project = Project(
    name: string,
    lastBuildStatus: LastBuildStatus,
    activity: Activity,
    lastBuildTime: string)
}
