/** The records the synchronisation passes around (src/types.ts, plus the
    identifier and identified-commit shapes that src/infra-files.ts and
    src/app-save.ts use), and the errors the code throws. */
module Types {

  /** A JSON number field that may also be `null` or missing altogether. */
  datatype Nullable = Undefined | Null | Number(n: int)

  /** One graded entry of the judge's submission list. */
  datatype Submission = Submission(
    executionTime: Nullable,
    point: int,
    result: string,
    problemId: string,
    userId: string,
    epochSecond: int,
    contestId: string,
    id: int,
    language: string,
    length: int)

  /** A submission together with its fetched, EOL-normalised source text. */
  datatype SubmissionWithContent = SubmissionWithContent(submission: Submission, content: string)

  /** A commit as the app layer builds it: where the file goes, what it holds,
      the commit subject and the author date. */
  datatype Commit = Commit(filePath: string, content: string, subject: string, authorDate: string)

  /** The decomposed key from which a submission's storage path is derived. */
  datatype SubmissionIdentifier = SubmissionIdentifier(
    service: string,
    year: int, month: int, date: int, hours: int, minutes: int, seconds: int,
    problemId: string,
    result: string,
    ext: string)

  /** A commit keyed by its submission identifier, as the commit pipeline consumes it. */
  datatype IdentifiedCommit = IdentifiedCommit(
    submissionIdentifier: SubmissionIdentifier,
    content: string,
    subject: string,
    authorDate: string)

  /** The exceptions the code throws, one constructor per distinct `throw`. */
  datatype Error =
    | DuplicatedFilePaths                    // two commits of one batch share a path
    | FileAlreadyExists(path: string)        // a commit's file is already recorded
    | NotAGitRepo(workDir: string)
    | RepositoryNotClean
    | NoCurrentBranch
    | StepFailed(position: nat)              // the awaited step at this position of a save threw
    | CodeNotExtracted                       // the page held no submission code
    | UnexpectedData                         // the submission list failed validation
    | CannotDestructure                      // destructuring `null` or `undefined` threw a TypeError
    | FetchFailed(url: string)               // the HTTP request failed
    | DuplicatedCommit(path: string)         // the in-memory repository already held this path
}
