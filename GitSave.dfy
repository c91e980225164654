/** The commit pipeline shared by `RealRepo.save` (src/infra.ts) and `saveSubmissions`
    (src/app-save.ts): the batch checks, the repository checks, the work branch that
    receives one commit per file, the merge back into the current branch, and the
    rollback and branch deletion that follow a failure.

    Each save opens its own git client (`SimpleGit(workDir)`); the client is a
    `GitClient` object whose `trace` lists every step in the order it is awaited.
    What git answers is a `Repository` value: whether the directory is a repository,
    the diff output, the current branch, and the positions of the trace at which an
    awaited step rejects. */
module GitSave {
  import opened Wrappers
  import opened Types
  import opened Utils

  /** One step of a save, as it reaches git or the file system. */
  datatype Step =
    | CheckIsRepo
    | Diff
    | BranchLocal
    | CheckoutBranch(branch: string, startPoint: string)
    | WriteFile(path: string, content: string)
    | Add(path: string)
    | SetAuthorDate(date: string)       // `g.env("GIT_AUTHOR_DATE", ...)`: synchronous, never rejects
    | CommitStaged(subject: string)
    | Checkout(branch: string)
    | MergeFromTo(from: string, to: string, options: seq<string>)
    | DeleteLocalBranch(branch: string)

  /** What git answers. `current` is empty when there is no current branch; `faults`
      holds the trace positions whose awaited step rejects. */
  datatype Repository = Repository(isRepo: bool, diff: string, current: string, faults: set<nat>)

  /** A commit as the pipeline consumes it. `key` is the path the duplicate check and
      the messages use, `path` the file that is written and staged, and `recorded`
      whether the commit's file already exists. */
  datatype Entry = Entry(key: string, path: string, content: string, subject: string, authorDate: string,
                         recorded: bool)

  const MergeOptions: seq<string> := ["-m", "Merge: Commit by AtCoder Submissions Sync"]

  /** The three queries that precede the work branch. */
  const Queries: seq<Step> := [CheckIsRepo, Diff, BranchLocal]

  /** `"w-" + uuid()`. */
  function WorkBranch(uuid: string): string {
    "w-" + uuid
  }

  /** The step at trace position `pos` rejects. */
  predicate Fails(repo: Repository, pos: nat, step: Step) {
    pos in repo.faults && !step.SetAuthorDate?
  }

  function Keys(entries: seq<Entry>): (keys: seq<string>)
    ensures |keys| == |entries|
  {
    seq(|entries|, i requires 0 <= i < |entries| => entries[i].key)
  }

  /** The index of the first entry whose file already exists, `|entries|` when none does. */
  function FirstRecorded(entries: seq<Entry>): (k: nat)
    ensures k <= |entries|
    ensures forall i :: 0 <= i < k ==> !entries[i].recorded
    ensures k < |entries| ==> entries[k].recorded
  {
    if entries == [] then 0
    else if entries[0].recorded then 0
    else 1 + FirstRecorded(entries[1..])
  }

  /** The four steps of one commit in the loop. */
  function EntrySteps(e: Entry): seq<Step> {
    [WriteFile(e.path, e.content), Add(e.path), SetAuthorDate(e.authorDate), CommitStaged(e.subject)]
  }

  function LoopSteps(entries: seq<Entry>): (steps: seq<Step>)
    ensures |steps| == 4 * |entries|
  {
    if entries == [] then [] else LoopSteps(entries[..|entries| - 1]) + EntrySteps(entries[|entries| - 1])
  }

  /** The body of the `try` block when nothing rejects. */
  function TrySteps(entries: seq<Entry>, wb: string, current: string): (steps: seq<Step>)
    ensures |steps| == 4 * |entries| + 3
  {
    [CheckoutBranch(wb, "HEAD")] + LoopSteps(entries) + [Checkout(current), MergeFromTo(wb, current, MergeOptions)]
  }

  /** The offset in `steps`, performed from trace position `base` on, of the first step
      that rejects; `|steps|` when none does. */
  function FirstFailure(repo: Repository, steps: seq<Step>, base: nat): (j: nat)
    ensures j <= |steps|
    decreases |steps|
  {
    if steps == [] then 0
    else if Fails(repo, base, steps[0]) then 0
    else 1 + FirstFailure(repo, steps[1..], base + 1)
  }

  /** No step before the first failure rejects, and the one at it does. */
  lemma {:induction false} FirstFailureFirst(repo: Repository, steps: seq<Step>, base: nat)
    ensures var j := FirstFailure(repo, steps, base);
      && (forall k :: 0 <= k < j ==> !Fails(repo, base + k, steps[k]))
      && (j < |steps| ==> Fails(repo, base + j, steps[j]))
    decreases |steps|
  {
    if steps != [] && !Fails(repo, base, steps[0]) {
      FirstFailureFirst(repo, steps[1..], base + 1);
      var j := FirstFailure(repo, steps, base);
      forall k | 0 < k < j ensures !Fails(repo, base + k, steps[k]) {
        assert steps[k] == steps[1..][k - 1];
      }
    }
  }

  /** Once the steps before `m` have passed, the one at `m` decides whether the first
      failure lies at `m` or beyond it. */
  lemma FirstFailureStep(repo: Repository, steps: seq<Step>, base: nat, m: nat)
    requires m < |steps| && FirstFailure(repo, steps, base) >= m
    ensures FirstFailure(repo, steps, base) > m <==> !Fails(repo, base + m, steps[m])
  {
    FirstFailureFirst(repo, steps, base);
  }

  /** The outcome of a save and the steps it performs. The checks on the batch come
      first and touch nothing; the three queries follow, then the `try`, `catch` and
      `finally` blocks. */
  function SaveOutcome(entries: seq<Entry>, workDir: string, uuid: string, repo: Repository): (Result<(), Error>, seq<Step>) {
    if |Unique(Keys(entries))| != |entries| then (Failure(DuplicatedFilePaths), [])
    else if FirstRecorded(entries) < |entries| then (Failure(FileAlreadyExists(entries[FirstRecorded(entries)].key)), [])
    else if Fails(repo, 0, CheckIsRepo) then (Failure(StepFailed(0)), [CheckIsRepo])
    else if !repo.isRepo then (Failure(NotAGitRepo(workDir)), [CheckIsRepo])
    else if Fails(repo, 1, Diff) then (Failure(StepFailed(1)), [CheckIsRepo, Diff])
    else if repo.diff != "" then (Failure(RepositoryNotClean), [CheckIsRepo, Diff])
    else if Fails(repo, 2, BranchLocal) then (Failure(StepFailed(2)), Queries)
    else if repo.current == "" then (Failure(NoCurrentBranch), Queries)
    else
      var attempt := Attempt(entries, WorkBranch(uuid), repo.current, repo, 3);
      (attempt.0, Queries + attempt.1)
  }

  /** The `try`, `catch` and `finally` blocks, performed from trace position `base` on:
      the `try` block runs up to its first rejected step, after which `catch` checks the
      current branch out again (its own rejection replacing the error), and `finally`
      deletes the work branch (its rejection replacing any outcome). */
  function Attempt(entries: seq<Entry>, wb: string, current: string, repo: Repository, base: nat)
    : (a: (Result<(), Error>, seq<Step>))
    ensures |a.1| >= 2 && a.1[0] == CheckoutBranch(wb, "HEAD") && a.1[|a.1| - 1] == DeleteLocalBranch(wb)
  {
    var steps := TrySteps(entries, wb, current);
    var j := FirstFailure(repo, steps, base);
    var caught: Result<(), Error> :=
      if j == |steps| then Success(())
      else if Fails(repo, base + j + 1, Checkout(current)) then Failure(StepFailed(base + j + 1))
      else Failure(StepFailed(base + j));
    var tried := if j == |steps| then steps else steps[..j + 1] + [Checkout(current)];
    var deletePos := base + |tried|;
    (if Fails(repo, deletePos, DeleteLocalBranch(wb)) then Failure(StepFailed(deletePos)) else caught,
     tried + [DeleteLocalBranch(wb)])
  }

  /** The git client of one save. */
  class GitClient {
    const repo: Repository
    var trace: seq<Step>

    constructor (repo: Repository)
      ensures this.repo == repo && trace == []
    {
      this.repo := repo;
      trace := [];
    }

    /** Performs one step; `ok` is false when it rejects. */
    method Await(step: Step) returns (ok: bool)
      modifies this
      ensures trace == old(trace) + [step]
      ensures ok <==> !Fails(repo, |old(trace)|, step)
    {
      ok := !Fails(repo, |trace|, step);
      trace := trace + [step];
    }
  }

  /** The commit steps of entry `i` sit at offsets `4 * i` to `4 * i + 3` of the loop. */
  lemma {:induction false} LoopStepsAt(entries: seq<Entry>, i: nat)
    requires i < |entries|
    ensures LoopSteps(entries)[4 * i..4 * i + 4] == EntrySteps(entries[i])
    decreases |entries|
  {
    var init := entries[..|entries| - 1];
    var head, tail := LoopSteps(init), EntrySteps(entries[|entries| - 1]);
    assert LoopSteps(entries) == head + tail;
    if i == |entries| - 1 {
      assert (head + tail)[|head|..|head| + 4] == tail;
    } else {
      LoopStepsAt(init, i);
      assert (head + tail)[4 * i..4 * i + 4] == head[4 * i..4 * i + 4];
      assert init[i] == entries[i];
    }
  }

  /** Where each step of the `try` block sits. */
  lemma TryStepsAt(entries: seq<Entry>, wb: string, current: string, i: nat)
    requires i < |entries|
    ensures var steps, e := TrySteps(entries, wb, current), entries[i];
      && steps[1 + 4 * i] == WriteFile(e.path, e.content)
      && steps[2 + 4 * i] == Add(e.path)
      && steps[3 + 4 * i] == SetAuthorDate(e.authorDate)
      && steps[4 + 4 * i] == CommitStaged(e.subject)
  {
    var loop := LoopSteps(entries);
    LoopStepsAt(entries, i);
    var steps := TrySteps(entries, wb, current);
    var head := [CheckoutBranch(wb, "HEAD")];
    var rest := [Checkout(current), MergeFromTo(wb, current, MergeOptions)];
    assert steps == head + loop + rest;
    assert steps[1 + 4 * i..5 + 4 * i] == loop[4 * i..4 * i + 4];
  }

  lemma TryStepsEnds(entries: seq<Entry>, wb: string, current: string)
    ensures var steps, n := TrySteps(entries, wb, current), |entries|;
      && steps[0] == CheckoutBranch(wb, "HEAD")
      && steps[4 * n + 1] == Checkout(current)
      && steps[4 * n + 2] == MergeFromTo(wb, current, MergeOptions)
  {
  }

  /** One awaited step of the `try` block: the `m`-th of `steps`, performed after
      `start`. */
  method AwaitNext(g: GitClient, step: Step, ghost start: seq<Step>, ghost steps: seq<Step>, ghost m: nat)
    returns (ok: bool)
    requires m < |steps| && step == steps[m]
    requires g.trace == start + steps[..m] && FirstFailure(g.repo, steps, |start|) >= m
    modifies g
    ensures g.trace == start + steps[..m + 1]
    ensures ok <==> !Fails(g.repo, |start| + m, step)
    ensures ok ==> FirstFailure(g.repo, steps, |start|) > m
    ensures !ok ==> FirstFailure(g.repo, steps, |start|) == m
  {
    ok := g.Await(step);
    FirstFailureStep(g.repo, steps, |start|, m);
    assert steps[..m + 1] == steps[..m] + [step];
  }

  /** The four steps of one commit, performed from offset `m` of `steps` on. */
  method CommitEntry(g: GitClient, e: Entry, ghost start: seq<Step>, ghost steps: seq<Step>, ghost m: nat)
    returns (ok: bool)
    requires m + 4 <= |steps|
    requires steps[m] == WriteFile(e.path, e.content) && steps[m + 1] == Add(e.path)
    requires steps[m + 2] == SetAuthorDate(e.authorDate) && steps[m + 3] == CommitStaged(e.subject)
    requires g.trace == start + steps[..m] && FirstFailure(g.repo, steps, |start|) >= m
    modifies g
    ensures ok ==> g.trace == start + steps[..m + 4] && FirstFailure(g.repo, steps, |start|) >= m + 4
    ensures !ok ==> var j := FirstFailure(g.repo, steps, |start|); m <= j < m + 4 && g.trace == start + steps[..j + 1]
  {
    ok := AwaitNext(g, WriteFile(e.path, e.content), start, steps, m);
    if !ok {
      return;
    }
    ok := AwaitNext(g, Add(e.path), start, steps, m + 1);
    if !ok {
      return;
    }
    ok := AwaitNext(g, SetAuthorDate(e.authorDate), start, steps, m + 2);
    ok := AwaitNext(g, CommitStaged(e.subject), start, steps, m + 3);
  }

  /** The loop of the `try` block: one commit per entry, stopping at the first rejected
      step. */
  method CommitAll(g: GitClient, entries: seq<Entry>, ghost wb: string, ghost current: string,
                   ghost start: seq<Step>, ghost steps: seq<Step>)
    returns (ok: bool)
    requires steps == TrySteps(entries, wb, current)
    requires g.trace == start + steps[..1] && FirstFailure(g.repo, steps, |start|) >= 1
    modifies g
    ensures var n, j := |entries|, FirstFailure(g.repo, steps, |start|);
      && (ok ==> g.trace == start + steps[..1 + 4 * n] && j >= 1 + 4 * n)
      && (!ok ==> j < 1 + 4 * n && g.trace == start + steps[..j + 1])
  {
    for i := 0 to |entries|
      invariant g.trace == start + steps[..1 + 4 * i]
      invariant FirstFailure(g.repo, steps, |start|) > 4 * i
    {
      TryStepsAt(entries, wb, current, i);
      ok := CommitEntry(g, entries[i], start, steps, 1 + 4 * i);
      if !ok {
        return;
      }
    }
    ok := true;
  }

  /** The `try` block: the work branch, one commit per entry, the checkout of the current
      branch and the merge, stopping at the first rejected step. */
  method TryBlock(g: GitClient, entries: seq<Entry>, wb: string, current: string) returns (r: Result<(), Error>)
    modifies g
    ensures var steps, base := TrySteps(entries, wb, current), |old(g.trace)|;
      var j := FirstFailure(g.repo, steps, base);
      && (j == |steps| ==> r == Success(()) && g.trace == old(g.trace) + steps)
      && (j < |steps| ==> r == Failure(StepFailed(base + j)) && g.trace == old(g.trace) + steps[..j + 1])
  {
    ghost var start, steps := g.trace, TrySteps(entries, wb, current);
    var n := |entries|;
    TryStepsEnds(entries, wb, current);
    var ok := AwaitNext(g, CheckoutBranch(wb, "HEAD"), start, steps, 0);
    if !ok {
      return Failure(StepFailed(|g.trace| - 1));
    }
    ok := CommitAll(g, entries, wb, current, start, steps);
    if !ok {
      return Failure(StepFailed(|g.trace| - 1));
    }
    ok := AwaitNext(g, Checkout(current), start, steps, 4 * n + 1);
    if !ok {
      return Failure(StepFailed(|g.trace| - 1));
    }
    ok := AwaitNext(g, MergeFromTo(wb, current, MergeOptions), start, steps, 4 * n + 2);
    if !ok {
      return Failure(StepFailed(|g.trace| - 1));
    }
    assert steps[..4 * n + 3] == steps;
    r := Success(());
  }

  /** One save: the checks, the queries, the `try` block, `catch` and `finally`.
      `uuid` stands for the random branch suffix. */
  method Save(entries: seq<Entry>, workDir: string, uuid: string, repo: Repository)
    returns (r: Result<(), Error>, g: GitClient)
    ensures fresh(g) && g.repo == repo
    ensures (r, g.trace) == SaveOutcome(entries, workDir, uuid, repo)
  {
    g := new GitClient(repo);
    if |Unique(Keys(entries))| != |entries| {
      return Failure(DuplicatedFilePaths), g;
    }
    for i := 0 to |entries|
      invariant forall k :: 0 <= k < i ==> !entries[k].recorded
    {
      if entries[i].recorded {
        assert FirstRecorded(entries) == i;
        return Failure(FileAlreadyExists(entries[i].key)), g;
      }
    }
    assert FirstRecorded(entries) == |entries|;
    var ok := g.Await(CheckIsRepo);
    assert g.trace == [CheckIsRepo];
    if !ok {
      return Failure(StepFailed(0)), g;
    }
    if !repo.isRepo {
      return Failure(NotAGitRepo(workDir)), g;
    }
    ok := g.Await(Diff);
    assert g.trace == [CheckIsRepo, Diff];
    if !ok {
      return Failure(StepFailed(1)), g;
    }
    if repo.diff != "" {
      return Failure(RepositoryNotClean), g;
    }
    ok := g.Await(BranchLocal);
    assert g.trace == Queries;
    if !ok {
      return Failure(StepFailed(2)), g;
    }
    var current := repo.current;
    if current == "" {
      return Failure(NoCurrentBranch), g;
    }
    assert |g.trace| == 3;
    r := TryAndClean(g, entries, WorkBranch(uuid), current);
  }

  /** The `try` block followed by `catch` and `finally`. */
  method TryAndClean(g: GitClient, entries: seq<Entry>, wb: string, current: string) returns (r: Result<(), Error>)
    modifies g
    ensures var attempt := Attempt(entries, wb, current, g.repo, |old(g.trace)|);
      r == attempt.0 && g.trace == old(g.trace) + attempt.1
  {
    ghost var start := g.trace;
    ghost var steps := TrySteps(entries, wb, current);
    ghost var j := FirstFailure(g.repo, steps, |start|);
    ghost var tried := if j == |steps| then steps else steps[..j + 1] + [Checkout(current)];
    r := TryBlock(g, entries, wb, current);
    if r.Failure? {
      var ok := g.Await(Checkout(current));
      if !ok {
        r := Failure(StepFailed(|g.trace| - 1));
      }
    }
    assert g.trace == start + tried;
    var ok := g.Await(DeleteLocalBranch(wb));
    if !ok {
      r := Failure(StepFailed(|g.trace| - 1));
    }
    assert g.trace == start + (tried + [DeleteLocalBranch(wb)]);
  }

  // ---------------------------------------------------------------------------------
  // What a save promises

  /** Every step of the loop is one of the four commit steps of its entry. */
  lemma LoopStepIsCommitStep(entries: seq<Entry>, k: nat)
    requires k < 4 * |entries|
    ensures LoopSteps(entries)[k] == EntrySteps(entries[k / 4])[k % 4]
  {
    LoopStepsAt(entries, k / 4);
    assert LoopSteps(entries)[k] == LoopSteps(entries)[4 * (k / 4)..4 * (k / 4) + 4][k % 4];
  }

  /** When no trace position rejects, no step of a list does. */
  lemma {:induction false} FirstFailureNone(repo: Repository, steps: seq<Step>, base: nat)
    requires repo.faults == {}
    ensures FirstFailure(repo, steps, base) == |steps|
    decreases |steps|
  {
    if steps != [] {
      FirstFailureNone(repo, steps[1..], base + 1);
    }
  }

  /** Once the batch is accepted, the save asks git whether the directory is a
      repository. */
  lemma SaveAsksGit(entries: seq<Entry>, workDir: string, uuid: string, repo: Repository)
    requires |Unique(Keys(entries))| == |entries| && FirstRecorded(entries) == |entries|
    ensures var trace := SaveOutcome(entries, workDir, uuid, repo).1; trace != [] && trace[0] == CheckIsRepo
  {
  }

  /** A directory that is not a repository, a dirty work tree or a detached HEAD stops
      an accepted batch during the three queries: the save fails, and the work branch
      is never created, let alone merged or deleted. */
  lemma SaveChecksRepoFirst(entries: seq<Entry>, workDir: string, uuid: string, repo: Repository)
    requires |Unique(Keys(entries))| == |entries| && FirstRecorded(entries) == |entries|
    requires !repo.isRepo || repo.diff != "" || repo.current == ""
    ensures var (r, trace) := SaveOutcome(entries, workDir, uuid, repo);
      && r.Failure? && |trace| <= 3 && trace <= Queries
      && CheckoutBranch(WorkBranch(uuid), "HEAD") !in trace
      && DeleteLocalBranch(WorkBranch(uuid)) !in trace
      && (!repo.isRepo && !Fails(repo, 0, CheckIsRepo) ==> r == Failure(NotAGitRepo(workDir)))
  {
  }

  /** A save touches nothing exactly when the batch is refused: a key occurs twice, or
      some entry's file already exists. A repeated key is reported first; otherwise
      the first entry whose file exists is named. */
  lemma SaveRefusesBatch(entries: seq<Entry>, workDir: string, uuid: string, repo: Repository)
    ensures var outcome := SaveOutcome(entries, workDir, uuid, repo);
      && (outcome.1 == [] <==> !NoDuplicates(Keys(entries)) || exists i :: 0 <= i < |entries| && entries[i].recorded)
      && (!NoDuplicates(Keys(entries)) ==> outcome.0 == Failure(DuplicatedFilePaths))
      && (NoDuplicates(Keys(entries)) && outcome.1 == [] ==>
            var k := FirstRecorded(entries);
            k < |entries| && outcome.0 == Failure(FileAlreadyExists(entries[k].key)))
  {
    UniqueLength(Keys(entries));
    if |Unique(Keys(entries))| == |entries| && FirstRecorded(entries) == |entries| {
      SaveAsksGit(entries, workDir, uuid, repo);
    }
  }

  /** Where the steps of an attempt come from: the whole `try` block when nothing in it
      rejects, otherwise its steps up to the rejected one and the checkout of `catch`. */
  lemma AttemptTrace(entries: seq<Entry>, wb: string, current: string, repo: Repository, base: nat)
    ensures var steps := TrySteps(entries, wb, current);
      var j, trace := FirstFailure(repo, steps, base), Attempt(entries, wb, current, repo, base).1;
      && (j == |steps| ==> trace == steps + [DeleteLocalBranch(wb)])
      && (j < |steps| ==> trace == steps[..j + 1] + [Checkout(current), DeleteLocalBranch(wb)])
  {
  }

  /** Only the last step of the `try` block is a merge. */
  lemma TryStepNotMerge(entries: seq<Entry>, wb: string, current: string, k: nat)
    requires k < 4 * |entries| + 2
    ensures !TrySteps(entries, wb, current)[k].MergeFromTo?
  {
    var steps := TrySteps(entries, wb, current);
    if 1 <= k <= 4 * |entries| {
      LoopStepIsCommitStep(entries, k - 1);
      assert steps[k] == LoopSteps(entries)[k - 1];
    }
  }

  /** A failed attempt reports the position of a performed step that rejected. */
  lemma AttemptReportsRejectedStep(entries: seq<Entry>, wb: string, current: string, repo: Repository, base: nat)
    ensures var (r, trace) := Attempt(entries, wb, current, repo, base);
      r.Failure? ==>
        && r.error.StepFailed? && base <= r.error.position < base + |trace|
        && Fails(repo, r.error.position, trace[r.error.position - base])
  {
    var steps := TrySteps(entries, wb, current);
    var j := FirstFailure(repo, steps, base);
    FirstFailureFirst(repo, steps, base);
    AttemptTrace(entries, wb, current, repo, base);
    var trace := Attempt(entries, wb, current, repo, base).1;
    if j < |steps| {
      assert trace[j] == steps[j];
      assert trace[j + 1] == Checkout(current);
    }
  }

  /** A merge in an attempt's steps means the whole `try` block ran first. */
  lemma AttemptMergesLast(entries: seq<Entry>, wb: string, current: string, repo: Repository, base: nat, k: nat)
    ensures var trace, steps := Attempt(entries, wb, current, repo, base).1, TrySteps(entries, wb, current);
      k < |trace| && trace[k].MergeFromTo? ==> |steps| <= |trace| && trace[..|steps|] == steps
  {
    var trace, steps := Attempt(entries, wb, current, repo, base).1, TrySteps(entries, wb, current);
    var j := FirstFailure(repo, steps, base);
    AttemptTrace(entries, wb, current, repo, base);
    if k < |trace| && trace[k].MergeFromTo? && j < |steps| {
      if j < |steps| - 1 {
        assert k <= j && trace[k] == steps[k];
        TryStepNotMerge(entries, wb, current, k);
        assert false;
      }
      assert steps[..j + 1] == steps;
    }
  }

  /** A reported step failure names a performed step that rejected. */
  lemma SaveReportsRejectedStep(entries: seq<Entry>, workDir: string, uuid: string, repo: Repository)
    ensures var (r, trace) := SaveOutcome(entries, workDir, uuid, repo);
      r.Failure? && r.error.StepFailed? ==>
        r.error.position < |trace| && Fails(repo, r.error.position, trace[r.error.position])
  {
    var (r, trace) := SaveOutcome(entries, workDir, uuid, repo);
    if |trace| > 3 {
      var attempt := Attempt(entries, WorkBranch(uuid), repo.current, repo, 3);
      AttemptReportsRejectedStep(entries, WorkBranch(uuid), repo.current, repo, 3);
      if r.Failure? {
        assert trace[r.error.position] == attempt.1[r.error.position - 3];
      }
    }
  }

  /** A successful attempt performed the whole `try` block. */
  lemma AttemptSucceeds(entries: seq<Entry>, wb: string, current: string, repo: Repository, base: nat)
    ensures var (r, trace) := Attempt(entries, wb, current, repo, base);
      r.Success? ==> trace == TrySteps(entries, wb, current) + [DeleteLocalBranch(wb)]
  {
    AttemptTrace(entries, wb, current, repo, base);
  }

  /** The commit steps of entry `i` sit at offsets `1 + 4 * i` to `4 + 4 * i` of the
      `try` block. */
  lemma TryStepsSlice(entries: seq<Entry>, wb: string, current: string, i: nat)
    requires i < |entries|
    ensures TrySteps(entries, wb, current)[1 + 4 * i..5 + 4 * i] == EntrySteps(entries[i])
  {
    var loop := LoopSteps(entries);
    LoopStepsAt(entries, i);
    var head := [CheckoutBranch(wb, "HEAD")];
    var rest := [Checkout(current), MergeFromTo(wb, current, MergeOptions)];
    assert TrySteps(entries, wb, current) == head + loop + rest;
    assert (head + loop + rest)[1 + 4 * i..5 + 4 * i] == loop[4 * i..4 * i + 4];
  }

  /** The four steps of one commit, read off one by one. */
  lemma EntryStepsAt(trace: seq<Step>, m: nat, e: Entry)
    requires m + 4 <= |trace| && trace[m..m + 4] == EntrySteps(e)
    ensures trace[m] == WriteFile(e.path, e.content) && trace[m + 1] == Add(e.path)
    ensures trace[m + 2] == SetAuthorDate(e.authorDate) && trace[m + 3] == CommitStaged(e.subject)
  {
    assert trace[m] == trace[m..m + 4][0] && trace[m + 1] == trace[m..m + 4][1];
    assert trace[m + 2] == trace[m..m + 4][2] && trace[m + 3] == trace[m..m + 4][3];
  }

  /** A successful save passed every check and performed the whole `try` block, then
      deleted the work branch. */
  lemma SaveSucceeds(entries: seq<Entry>, workDir: string, uuid: string, repo: Repository)
    ensures var (r, trace) := SaveOutcome(entries, workDir, uuid, repo);
      var wb := WorkBranch(uuid);
      r.Success? ==>
        && NoDuplicates(Keys(entries))
        && (forall i :: 0 <= i < |entries| ==> !entries[i].recorded)
        && repo.isRepo && repo.diff == "" && repo.current != ""
        && trace == Queries + TrySteps(entries, wb, repo.current) + [DeleteLocalBranch(wb)]
  {
    UniqueLength(Keys(entries));
    AttemptSucceeds(entries, WorkBranch(uuid), repo.current, repo, 3);
  }

  /** A successful save wrote, staged, dated and committed every entry, in order, each
      right after the one before it. */
  lemma SaveCommitsEveryEntry(entries: seq<Entry>, workDir: string, uuid: string, repo: Repository, i: nat)
    requires i < |entries|
    ensures var (r, trace) := SaveOutcome(entries, workDir, uuid, repo);
      r.Success? ==> 8 + 4 * i <= |trace| && trace[4 + 4 * i..8 + 4 * i] == EntrySteps(entries[i])
  {
    var (r, trace) := SaveOutcome(entries, workDir, uuid, repo);
    if r.Success? {
      SaveSucceeds(entries, workDir, uuid, repo);
      var wb := WorkBranch(uuid);
      var steps := TrySteps(entries, wb, repo.current);
      TryStepsSlice(entries, wb, repo.current, i);
      var tail := steps + [DeleteLocalBranch(wb)];
      assert trace == Queries + tail;
      assert trace[4 + 4 * i..8 + 4 * i] == tail[1 + 4 * i..5 + 4 * i];
      assert tail[1 + 4 * i..5 + 4 * i] == steps[1 + 4 * i..5 + 4 * i];
    }
  }

  /** The same, step by step: a successful save's steps `4 + 4 * i` to `7 + 4 * i` write
      entry `i`'s content at its path, stage that path, set its author date and commit
      with its subject. */
  lemma SaveWritesEntry(entries: seq<Entry>, workDir: string, uuid: string, repo: Repository, i: nat)
    requires i < |entries|
    ensures var outcome, e := SaveOutcome(entries, workDir, uuid, repo), entries[i];
      outcome.0.Success? ==>
        && 8 + 4 * i <= |outcome.1|
        && outcome.1[4 + 4 * i] == WriteFile(e.path, e.content)
        && outcome.1[5 + 4 * i] == Add(e.path)
        && outcome.1[6 + 4 * i] == SetAuthorDate(e.authorDate)
        && outcome.1[7 + 4 * i] == CommitStaged(e.subject)
  {
    var outcome := SaveOutcome(entries, workDir, uuid, repo);
    SaveCommitsEveryEntry(entries, workDir, uuid, repo, i);
    if outcome.0.Success? {
      EntryStepsAt(outcome.1, 4 + 4 * i, entries[i]);
    }
  }

  /** A valid batch saved into a clean repository with a current branch, where no step
      rejects, succeeds. */
  lemma SaveWithoutFaults(entries: seq<Entry>, workDir: string, uuid: string, repo: Repository)
    requires NoDuplicates(Keys(entries)) && forall i :: 0 <= i < |entries| ==> !entries[i].recorded
    requires repo.isRepo && repo.diff == "" && repo.current != "" && repo.faults == {}
    ensures SaveOutcome(entries, workDir, uuid, repo).0 == Success(())
  {
    UniqueLength(Keys(entries));
    FirstFailureNone(repo, TrySteps(entries, WorkBranch(uuid), repo.current), 3);
  }

  /** Once the queries have passed, the save starts the work branch from `HEAD` and, 
      whatever happens, its last step deletes that branch. */
  lemma SaveAlwaysDeletesWorkBranch(entries: seq<Entry>, workDir: string, uuid: string, repo: Repository)
    ensures var (r, trace) := SaveOutcome(entries, workDir, uuid, repo);
      var wb := WorkBranch(uuid);
      |trace| > 3 ==>
        && trace[..4] == Queries + [CheckoutBranch(wb, "HEAD")]
        && trace[|trace| - 1] == DeleteLocalBranch(wb)
  {
  }

  /** When the `try` block stops early, the current branch is checked out again before
      the work branch is deleted. */
  lemma SaveRollsBack(entries: seq<Entry>, workDir: string, uuid: string, repo: Repository)
    ensures var (r, trace) := SaveOutcome(entries, workDir, uuid, repo);
      var wb := WorkBranch(uuid);
      |trace| > 3 && trace != Queries + TrySteps(entries, wb, repo.current) + [DeleteLocalBranch(wb)] ==>
        trace[|trace| - 2..] == [Checkout(repo.current), DeleteLocalBranch(wb)]
  {
  }

  /** The merge is reached only after every entry has been committed: a save whose trace
      holds a merge performed the whole `try` block right after the queries. */
  lemma SaveMergesAfterCommits(entries: seq<Entry>, workDir: string, uuid: string, repo: Repository, k: nat)
    ensures var (r, trace) := SaveOutcome(entries, workDir, uuid, repo);
      var steps := TrySteps(entries, WorkBranch(uuid), repo.current);
      k < |trace| && trace[k].MergeFromTo? ==>
        3 + |steps| <= |trace| && trace[3..3 + |steps|] == steps
  {
    var (r, trace) := SaveOutcome(entries, workDir, uuid, repo);
    if k < |trace| && trace[k].MergeFromTo? && |trace| > 3 {
      var attempt := Attempt(entries, WorkBranch(uuid), repo.current, repo, 3);
      assert trace[k] == attempt.1[k - 3];
      AttemptMergesLast(entries, WorkBranch(uuid), repo.current, repo, 3, k - 3);
      assert trace[3..] == attempt.1;
    }
  }
}
