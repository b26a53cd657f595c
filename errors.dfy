/** The errors a test step reports: its verdicts and the failures that abort it. */
module Errors {

  /** The verdicts of a build step; `M` is the step's own message type. */
  datatype TestingError<M> =
    | CrateBuildFailed(stdout: string, stderr: string)
    | UnexpectedBuildSuccess
    | MessageExpectationsFailed(unexpected: seq<M>, missing: seq<M>)

  /**
   * Why a step did not complete: a verdict, or a line of Cargo's output that
   * does not decode as a diagnostic ("Unable to parse Cargo JSON output").
   */
  datatype StepError<M> =
    | Testing(verdict: TestingError<M>)
    | UnparsableOutput
}
