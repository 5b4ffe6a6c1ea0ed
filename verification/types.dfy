/** The record shapes of src/types.ts. Optional JavaScript properties are
    `Option`s; numbers that are durations are exact `real`s. */
module Types {

  import opened Wrappers

  /** `differences: boolean | "permanent"`. */
  datatype Differences = Off | On | Permanent

  /** The resolved options the watch loop runs with. */
  datatype WatchOptions = WatchOptions(
    command: seq<string>,
    interval: real,             // seconds
    differences: Differences,
    errexit: bool,
    chgexit: bool,
    color: bool,
    noColor: bool,
    noTitle: bool,
    noWrap: bool,
    exec: bool,
    precise: bool,
    beep: bool,
    email: Option<string>,
    from: Option<string>,
    cooldown: real,             // milliseconds
    subject: Option<string>,
    resendApiKey: Option<string>)

  /** The persisted configuration file's contents. */
  datatype Config = Config(
    resendApiKey: Option<string>,
    defaultTo: Option<string>,
    defaultFrom: Option<string>,
    defaultCooldown: Option<string>,
    defaultInterval: Option<real>)

  /** One run of the monitored command. */
  datatype ExecutionResult = ExecutionResult(
    stdout: string,
    stderr: string,
    exitCode: int,
    duration: real)             // milliseconds
}
