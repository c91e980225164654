/** `saveSubmissions` (src/app-save.ts): the commit pipeline of `GitSave` applied to
    commits keyed by their submission identifier. A commit's file is
    `commitToFilePath(commit)`; whether it is already recorded is the injected
    `isSubmissionCommitted` oracle; its content is written by `writeCommit`, which writes
    exactly that path. */
module AppSave {
  import opened Wrappers
  import opened Types
  import opened Utils
  import GitSave
  import InfraFiles
  import opened Strings

  /** The pipeline entry of one commit. */
  function EntryOf(c: IdentifiedCommit, workDir: string, isCommitted: SubmissionIdentifier -> bool): GitSave.Entry {
    var path := InfraFiles.CommitToFilePath(c, workDir);
    GitSave.Entry(path, path, c.content, c.subject, c.authorDate, isCommitted(c.submissionIdentifier))
  }

  /** The entries of a batch, one per commit and in the same order; each key is the
      commit's file path. */
  function EntriesOf(commits: seq<IdentifiedCommit>, workDir: string, isCommitted: SubmissionIdentifier -> bool)
    : (entries: seq<GitSave.Entry>)
    ensures |entries| == |commits|
    ensures forall i :: 0 <= i < |commits| ==> entries[i] == EntryOf(commits[i], workDir, isCommitted)
    ensures forall i :: 0 <= i < |commits| ==>
      && entries[i].path == InfraFiles.CommitToFilePath(commits[i], workDir)
      && entries[i].content == commits[i].content
      && entries[i].subject == commits[i].subject
      && entries[i].authorDate == commits[i].authorDate
    ensures GitSave.Keys(entries) == seq(|commits|, i requires 0 <= i < |commits| => InfraFiles.CommitToFilePath(commits[i], workDir))
  {
    seq(|commits|, i requires 0 <= i < |commits| => EntryOf(commits[i], workDir, isCommitted))
  }

  /** `saveSubmissions`. `uuid` stands for the random work-branch suffix and `repo` for
      what git answers; `gitEnvs` is not modelled. */
  method SaveSubmissions(commits: seq<IdentifiedCommit>, workDir: string, uuid: string,
                         isCommitted: SubmissionIdentifier -> bool, repo: GitSave.Repository)
    returns (r: Result<(), Error>, g: GitSave.GitClient)
    ensures fresh(g) && g.repo == repo
    ensures (r, g.trace) == GitSave.SaveOutcome(EntriesOf(commits, workDir, isCommitted), workDir, uuid, repo)
  {
    var entries := seq(|commits|, i requires 0 <= i < |commits| => EntryOf(commits[i], workDir, isCommitted));
    r, g := GitSave.Save(entries, workDir, uuid, repo);
  }

  /** Two commits of one batch bound for the same file stop the save before git is asked
      anything. */
  lemma DuplicatePathRefused(commits: seq<IdentifiedCommit>, workDir: string, uuid: string,
                             isCommitted: SubmissionIdentifier -> bool, repo: GitSave.Repository, i: nat, j: nat)
    requires i < j < |commits|
    requires InfraFiles.CommitToFilePath(commits[i], workDir) == InfraFiles.CommitToFilePath(commits[j], workDir)
    ensures GitSave.SaveOutcome(EntriesOf(commits, workDir, isCommitted), workDir, uuid, repo) == (Failure(DuplicatedFilePaths), [])
  {
    var entries := EntriesOf(commits, workDir, isCommitted);
    var keys := GitSave.Keys(entries);
    assert keys[i] == keys[j];
    GitSave.SaveRefusesBatch(entries, workDir, uuid, repo);
  }

  /** Two commits whose identifiers differ only in the letter case of their text fields
      land on one lower-cased path, so their batch is refused. */
  lemma CaseVariantsRefused(commits: seq<IdentifiedCommit>, workDir: string, uuid: string,
                            isCommitted: SubmissionIdentifier -> bool, repo: GitSave.Repository, i: nat, j: nat)
    requires i < j < |commits|
    requires var a, b := commits[i].submissionIdentifier, commits[j].submissionIdentifier;
      && ToLower(a.service) == ToLower(b.service) && ToLower(a.problemId) == ToLower(b.problemId)
      && ToLower(a.result) == ToLower(b.result) && ToLower(a.ext) == ToLower(b.ext)
      && a.year == b.year && a.month == b.month && a.date == b.date
      && a.hours == b.hours && a.minutes == b.minutes && a.seconds == b.seconds
    ensures GitSave.SaveOutcome(EntriesOf(commits, workDir, isCommitted), workDir, uuid, repo) == (Failure(DuplicatedFilePaths), [])
  {
    InfraFiles.SubmissionPathCaseInsensitive(commits[i].submissionIdentifier, commits[j].submissionIdentifier, workDir, workDir);
    DuplicatePathRefused(commits, workDir, uuid, isCommitted, repo, i, j);
  }

  /** An already committed submission stops the save before git is asked anything; the
      error names the first such commit's file. */
  lemma CommittedRefused(commits: seq<IdentifiedCommit>, workDir: string, uuid: string,
                         isCommitted: SubmissionIdentifier -> bool, repo: GitSave.Repository, i: nat)
    requires i < |commits| && isCommitted(commits[i].submissionIdentifier)
    ensures var (r, trace) := GitSave.SaveOutcome(EntriesOf(commits, workDir, isCommitted), workDir, uuid, repo);
      && trace == []
      && (r == Failure(DuplicatedFilePaths) ||
          exists k ::
            && 0 <= k <= i && isCommitted(commits[k].submissionIdentifier)
            && (forall j :: 0 <= j < k ==> !isCommitted(commits[j].submissionIdentifier))
            && r == Failure(FileAlreadyExists(InfraFiles.CommitToFilePath(commits[k], workDir))))
  {
    var entries := EntriesOf(commits, workDir, isCommitted);
    assert entries[i].recorded;
    GitSave.SaveRefusesBatch(entries, workDir, uuid, repo);
    var k := GitSave.FirstRecorded(entries);
    assert k <= i;
    assert forall j :: 0 <= j < k ==> !isCommitted(commits[j].submissionIdentifier) by {
      forall j | 0 <= j < k ensures !isCommitted(commits[j].submissionIdentifier) {
        assert !entries[j].recorded;
      }
    }
  }

  /** A successful save wrote each commit's content at its file path, staged that path,
      set its author date and committed with its subject, in input order. */
  lemma SavedInOrder(commits: seq<IdentifiedCommit>, workDir: string, uuid: string,
                     isCommitted: SubmissionIdentifier -> bool, repo: GitSave.Repository, i: nat)
    requires i < |commits|
    ensures var outcome := GitSave.SaveOutcome(EntriesOf(commits, workDir, isCommitted), workDir, uuid, repo);
      var c, path := commits[i], InfraFiles.CommitToFilePath(commits[i], workDir);
      outcome.0.Success? ==>
        && 8 + 4 * i <= |outcome.1|
        && outcome.1[4 + 4 * i] == GitSave.WriteFile(path, c.content)
        && outcome.1[5 + 4 * i] == GitSave.Add(path)
        && outcome.1[6 + 4 * i] == GitSave.SetAuthorDate(c.authorDate)
        && outcome.1[7 + 4 * i] == GitSave.CommitStaged(c.subject)
  {
    GitSave.SaveWritesEntry(EntriesOf(commits, workDir, isCommitted), workDir, uuid, repo, i);
  }
}
