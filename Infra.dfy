/** The repositories of src/infra.ts: `cacheOrRetrieve`, the file-backed `RealRepo`
    (cached fetches, existence checks and the commit pipeline of `GitSave`) and the
    in-memory `LocalRepo`.

    The file system is a map from path to text; reading a file fails exactly when the
    path is absent, and writing one (parent directories included) sets its entry. The
    pauses and HTTP requests a fetch performs are recorded as `Io` effects; what the
    server answers is the oracle `respond`, `None` when the request throws. */
module Infra {
  import opened Wrappers
  import opened Types
  import opened Utils
  import opened Strings
  import GitSave
  import InfraFiles

  /** `apiResults`: the judge-statistics endpoint listing one user's submissions. */
  function ApiResults(userId: string): string {
    "https://kenkoooo.com/atcoder/atcoder-api/results?user=" + userId + "&rivals="
  }

  /** Distinct users are asked for at distinct URLs. */
  lemma ApiResultsInjective(u: string, v: string)
    requires ApiResults(u) == ApiResults(v)
    ensures u == v
  {
    var n := |"https://kenkoooo.com/atcoder/atcoder-api/results?user="|;
    assert |u| == |v|;
    assert u == ApiResults(u)[n..n + |u|];
    assert v == ApiResults(v)[n..n + |v|];
  }

  /** An effect besides the file system: a pause of `ms` milliseconds, or an HTTP GET. */
  datatype Io = Pause(ms: int) | Get(url: string)

  /** What `cacheOrRetrieve` returns: the content and whether it was just created. */
  datatype Retrieved = Retrieved(content: string, isNew: bool)

  /** `cacheOrRetrieve` over the file map `files`. A readable file is returned
      EOL-normalised and marked old, and the creator is not called. Otherwise the creator
      runs once, performing `creatorIo` and yielding `created`; its normalised content is
      written to `filePath` and returned marked new. A creator that throws writes
      nothing. The result is the outcome, the new file map and the effects performed. */
  function CacheOrRetrieveOutcome(files: map<string, string>, filePath: string, creatorIo: seq<Io>,
                                  created: Result<string, Error>, eol: string)
    : (Result<Retrieved, Error>, map<string, string>, seq<Io>)
  {
    if filePath in files then (Success(Retrieved(NormalizeEOL(files[filePath], eol), false)), files, [])
    else match created
      case Success(text) =>
        var content := NormalizeEOL(text, eol);
        (Success(Retrieved(content, true)), files[filePath := content], creatorIo)
      case Failure(e) => (Failure(e), files, creatorIo)
  }

  /** The larger of two delays. */
  function Max(a: int, b: int): (m: int)
    ensures m >= a && m >= b && (m == a || m == b)
  {
    if a >= b then a else b
  }

  /** A file retrieved once is found the second time: no effect is performed, nothing is
      written, and the content is the stored one read back through `normalizeEOL`. */
  lemma RetrieveThenHit(files: map<string, string>, filePath: string, creatorIo: seq<Io>,
                        created: Result<string, Error>, creatorIo2: seq<Io>, created2: Result<string, Error>, eol: string)
    ensures var (r, files1, io) := CacheOrRetrieveOutcome(files, filePath, creatorIo, created, eol);
      r.Success? ==>
        && filePath in files1
        && CacheOrRetrieveOutcome(files1, filePath, creatorIo2, created2, eol)
           == (Success(Retrieved(NormalizeEOL(files1[filePath], eol), false)), files1, [])
  {
  }

  /** A retrieval touches no other file, and it writes only when it reports new content,
      which it then stores exactly. */
  lemma RetrieveWritesOnlyItsFile(files: map<string, string>, filePath: string, creatorIo: seq<Io>,
                                  created: Result<string, Error>, eol: string)
    ensures var (r, files1, io) := CacheOrRetrieveOutcome(files, filePath, creatorIo, created, eol);
      && (forall p :: p != filePath ==> (p in files1 <==> p in files) && (p in files ==> files1[p] == files[p]))
      && (files1 != files <==> r.Success? && r.value.isNew)
      && (r.Success? && r.value.isNew ==> files1[filePath] == r.value.content && io == creatorIo)
  {
    var (r, files1, io) := CacheOrRetrieveOutcome(files, filePath, creatorIo, created, eol);
    if r.Success? && r.value.isNew {
      assert filePath !in files && filePath in files1;
    }
  }

  /** `RealRepo`: a repository kept in `workDir`, with its cache in `workDir/~cache`.
      `eol` is the platform's line ending; `files` is the file system and `io` the
      pauses and requests performed so far. */
  class RealRepo {
    const workDir: string
    const delayMs: int
    const eol: string
    var files: map<string, string>
    var io: seq<Io>

    constructor (workDir: string, delayMs: int, eol: string, files: map<string, string>)
      ensures this.workDir == workDir && this.delayMs == delayMs && this.eol == eol
      ensures this.files == files && io == []
    {
      this.workDir := workDir;
      this.delayMs := delayMs;
      this.eol := eol;
      this.files := files;
      io := [];
    }

    /** `resolvePath`: a path relative to the work tree. */
    function ResolvePath(filePath: string): string {
      workDir + "/" + filePath
    }

    /** The cache file of `key`: `cacheDir` joined with the key, the same file that
        `cachePath` of src/infra-files.ts names. */
    function CacheFile(key: string): (p: string)
      ensures p == InfraFiles.CachePath(key, workDir)
    {
      (workDir + "/~cache") + "/" + key
    }

    /** How long a fetch pauses before its request: never less than 100 ms. */
    function PauseMs(): (ms: int)
      ensures ms >= 100 && ms >= delayMs && (ms == 100 || ms == delayMs)
    {
      Max(100, delayMs)
    }

    /** `cacheOrRetrieve`, with the creator's effects and result as parameters. */
    method CacheOrRetrieve(filePath: string, creatorIo: seq<Io>, created: Result<string, Error>)
      returns (r: Result<Retrieved, Error>)
      modifies this
      ensures var (res, files1, effects) := CacheOrRetrieveOutcome(old(files), filePath, creatorIo, created, eol);
        r == res && files == files1 && io == old(io) + effects
    {
      if filePath in files {
        return Success(Retrieved(NormalizeEOL(files[filePath], eol), false));
      }
      io := io + creatorIo;
      if created.Failure? {
        return Failure(created.error);
      }
      var content := NormalizeEOL(created.value, eol);
      files := files[filePath := content];
      r := Success(Retrieved(content, true));
    }

    /** `fetch`: the cache file of `key`, or else a pause of at least 100 ms and the
        configured delay followed by a request to `url`, whose answer is cached. */
    method Fetch(key: string, url: string, respond: string -> Option<string>) returns (r: Result<string, Error>)
      modifies this
      ensures var path := CacheFile(key);
        && (path in old(files) ==>
              r == Success(NormalizeEOL(old(files)[path], eol)) && files == old(files) && io == old(io))
        && (path !in old(files) ==>
              && io == old(io) + [Pause(PauseMs()), Get(url)]
              && match respond(url)
                 case Some(text) =>
                   r == Success(NormalizeEOL(text, eol)) && files == old(files)[path := NormalizeEOL(text, eol)]
                 case None => r == Failure(FetchFailed(url)) && files == old(files))
    {
      var answer := respond(url);
      var created := if answer.Some? then Success(answer.value) else Failure(FetchFailed(url));
      var retrieved := CacheOrRetrieve(CacheFile(key), [Pause(PauseMs()), Get(url)], created);
      r := if retrieved.Success? then Success(retrieved.value.content) else Failure(retrieved.error);
    }

    /** `allSubs`: the text of the user's submission list, cached under
        `results_<user>.json`. Parsing the JSON is not modelled. */
    method AllSubs(userId: string, respond: string -> Option<string>) returns (r: Result<string, Error>)
      modifies this
      ensures var path, url := InfraFiles.CachePath("results_" + userId + ".json", workDir), ApiResults(userId);
        && (path in old(files) ==>
              r == Success(NormalizeEOL(old(files)[path], eol)) && files == old(files) && io == old(io))
        && (path !in old(files) ==>
              && io == old(io) + [Pause(PauseMs()), Get(url)]
              && match respond(url)
                 case Some(text) =>
                   r == Success(NormalizeEOL(text, eol)) && files == old(files)[path := NormalizeEOL(text, eol)]
                 case None => r == Failure(FetchFailed(url)) && files == old(files))
    {
      r := Fetch("results_" + userId + ".json", ApiResults(userId), respond);
    }

    /** `fetchSubmissionHtml`: the page at `url`, cached under the submission's id. */
    method FetchSubmissionHtml(s: Submission, url: string, respond: string -> Option<string>)
      returns (r: Result<string, Error>)
      modifies this
      ensures var path := InfraFiles.CachePath(IntToString(s.id), workDir);
        && (path in old(files) ==>
              r == Success(NormalizeEOL(old(files)[path], eol)) && files == old(files) && io == old(io))
        && (path !in old(files) ==>
              && io == old(io) + [Pause(PauseMs()), Get(url)]
              && match respond(url)
                 case Some(text) =>
                   r == Success(NormalizeEOL(text, eol)) && files == old(files)[path := NormalizeEOL(text, eol)]
                 case None => r == Failure(FetchFailed(url)) && files == old(files))
    {
      r := Fetch(IntToString(s.id), url, respond);
    }

    /** `exists`: whether the file is present in the work tree. */
    method Exists(filePath: string) returns (b: bool)
      ensures b <==> ResolvePath(filePath) in files
    {
      b := ResolvePath(filePath) in files;
    }

    /** The pipeline entries of `save`: keyed by the commit's relative path, written at
        the resolved path, recorded when that file exists. */
    function Entries(commits: seq<Commit>): (entries: seq<GitSave.Entry>)
      reads this
      ensures |entries| == |commits|
      ensures forall i :: 0 <= i < |commits| ==>
        entries[i].key == commits[i].filePath && entries[i].path == ResolvePath(commits[i].filePath) &&
        (entries[i].recorded <==> ResolvePath(commits[i].filePath) in files)
    {
      var present := files;
      seq(|commits|, i requires 0 <= i < |commits| =>
        var c := commits[i];
        GitSave.Entry(c.filePath, ResolvePath(c.filePath), c.content, c.subject, c.authorDate,
                      ResolvePath(c.filePath) in present))
    }

    /** `save`: the commit pipeline with this repository's paths. `uuid` stands for the
        random work-branch suffix and `repo` for what git answers. */
    method Save(commits: seq<Commit>, uuid: string, repo: GitSave.Repository)
      returns (r: Result<(), Error>, g: GitSave.GitClient)
      ensures fresh(g) && g.repo == repo
      ensures (r, g.trace) == GitSave.SaveOutcome(Entries(commits), workDir, uuid, repo)
    {
      var present := files;
      var entries := seq(|commits|, i requires 0 <= i < |commits| =>
        var c := commits[i];
        GitSave.Entry(c.filePath, ResolvePath(c.filePath), c.content, c.subject, c.authorDate,
                      ResolvePath(c.filePath) in present));
      r, g := GitSave.Save(entries, workDir, uuid, repo);
    }

    /** A batch with a repeated path, or one whose file already exists, is refused before
        any git command: a repeated path is reported as such, otherwise the first commit
        whose file exists is named. */
    lemma SaveChecksFirst(commits: seq<Commit>, uuid: string, repo: GitSave.Repository, i: nat, j: nat)
      requires i < |commits| && j < |commits|
      requires (i != j && commits[i].filePath == commits[j].filePath) || ResolvePath(commits[i].filePath) in files
      ensures var (r, trace) := GitSave.SaveOutcome(Entries(commits), workDir, uuid, repo);
        && trace == []
        && (!NoDuplicates(Paths(commits)) ==> r == Failure(DuplicatedFilePaths))
        && (NoDuplicates(Paths(commits)) ==>
              exists k ::
                && 0 <= k <= i && ResolvePath(commits[k].filePath) in files
                && (forall m :: 0 <= m < k ==> ResolvePath(commits[m].filePath) !in files)
                && r == Failure(FileAlreadyExists(commits[k].filePath)))
    {
      var entries := Entries(commits);
      var keys := GitSave.Keys(entries);
      assert keys == Paths(commits);
      if i != j && commits[i].filePath == commits[j].filePath {
        assert keys[i] == keys[j];
      } else {
        assert entries[i].recorded;
      }
      GitSave.SaveRefusesBatch(entries, workDir, uuid, repo);
      if NoDuplicates(Paths(commits)) {
        assert entries[i].recorded;
        var k := GitSave.FirstRecorded(entries);
        assert k <= i;
        assert forall m :: 0 <= m < k ==> ResolvePath(commits[m].filePath) !in files by {
          forall m | 0 <= m < k ensures ResolvePath(commits[m].filePath) !in files {
            assert !entries[m].recorded;
          }
        }
      }
    }
  }

  /** Two fetches of one key make at most one request. After a miss that succeeded, the
      second fetch reads back the cached answer, normalised once more; after a hit, it
      returns what the first returned. */
  method FetchTwice(repo: RealRepo, key: string, url: string, respond: string -> Option<string>)
    returns (first: Result<string, Error>, second: Result<string, Error>)
    modifies repo
    ensures var hit := repo.CacheFile(key) in old(repo.files);
      && (first.Success? ==> repo.io == old(repo.io) + (if hit then [] else [Pause(repo.PauseMs()), Get(url)]))
      && (first.Success? && !hit ==> second == Success(NormalizeEOL(first.value, repo.eol)))
      && (hit ==> second == first)
  {
    first := repo.Fetch(key, url, respond);
    second := repo.Fetch(key, url, respond);
  }

  // ---------------------------------------------------------------------------------
  // LocalRepo

  /** The relative paths of a batch. */
  function Paths(commits: seq<Commit>): (paths: seq<string>)
    ensures |paths| == |commits| && forall i :: 0 <= i < |commits| ==> paths[i] == commits[i].filePath
  {
    seq(|commits|, i requires 0 <= i < |commits| => commits[i].filePath)
  }

  /** `LocalRepo.save` over the map `files`: the commits are inserted one by one, in
      order, and the first whose path is already present stops the batch, leaving the
      earlier insertions in place. */
  function LocalSave(files: map<string, Commit>, commits: seq<Commit>): (Result<(), Error>, map<string, Commit>)
    decreases |commits|
  {
    if commits == [] then (Success(()), files)
    else
      var c := commits[0];
      if c.filePath in files then (Failure(DuplicatedCommit(c.filePath)), files)
      else LocalSave(files[c.filePath := c], commits[1..])
  }

  lemma NoDuplicatesCons(paths: seq<string>)
    requires paths != []
    ensures NoDuplicates(paths) <==> paths[0] !in paths[1..] && NoDuplicates(paths[1..])
  {
    if paths[0] !in paths[1..] && NoDuplicates(paths[1..]) {
      forall i, j | 0 <= i < j < |paths| ensures paths[i] != paths[j] {
        if i == 0 {
          assert paths[j] == paths[1..][j - 1];
        } else {
          assert paths[i] == paths[1..][i - 1] && paths[j] == paths[1..][j - 1];
        }
      }
    }
    if NoDuplicates(paths) {
      forall k | 0 <= k < |paths| - 1 ensures paths[1..][k] != paths[0] {
        assert paths[1..][k] == paths[k + 1];
      }
    }
  }

  /** A save succeeds exactly when the batch's paths are distinct and none is present. */
  lemma {:induction false} LocalSaveSucceeds(files: map<string, Commit>, commits: seq<Commit>)
    ensures LocalSave(files, commits).0.Success? <==>
      NoDuplicates(Paths(commits)) && forall i :: 0 <= i < |commits| ==> commits[i].filePath !in files
    decreases |commits|
  {
    if commits != [] {
      var c, rest := commits[0], commits[1..];
      var files1 := files[c.filePath := c];
      LocalSaveSucceeds(files1, rest);
      NoDuplicatesCons(Paths(commits));
      assert Paths(commits)[1..] == Paths(rest);
      if c.filePath !in files {
        var allOut := forall i :: 0 <= i < |commits| ==> commits[i].filePath !in files;
        var restOut := forall i :: 0 <= i < |rest| ==> rest[i].filePath !in files1;
        if allOut && NoDuplicates(Paths(commits)) {
          forall i | 0 <= i < |rest| ensures rest[i].filePath !in files1 {
            assert rest[i] == commits[i + 1];
            assert Paths(rest)[i] == rest[i].filePath;
          }
        }
        if restOut && NoDuplicates(Paths(rest)) {
          forall i | 0 <= i < |commits| ensures commits[i].filePath !in files {
            if i > 0 {
              assert commits[i] == rest[i - 1];
            }
          }
        }
      }
    }
  }

  /** After a successful save every commit is stored under its path, every earlier
      entry is kept, and nothing else is added. */
  lemma {:induction false} LocalSaveStores(files: map<string, Commit>, commits: seq<Commit>)
    requires LocalSave(files, commits).0.Success?
    ensures var files1 := LocalSave(files, commits).1;
      && (forall i :: 0 <= i < |commits| ==> commits[i].filePath in files1 && files1[commits[i].filePath] == commits[i])
      && (forall p :: p in files ==> p in files1 && files1[p] == files[p])
      && (forall p :: p in files1 ==> p in files || p in Paths(commits))
    decreases |commits|
  {
    if commits != [] {
      var c, rest := commits[0], commits[1..];
      var files1 := files[c.filePath := c];
      LocalSaveStores(files1, rest);
      LocalSaveSucceeds(files1, rest);
      var result := LocalSave(files, commits).1;
      assert result == LocalSave(files1, rest).1;
      forall i | 0 <= i < |commits| ensures commits[i].filePath in result && result[commits[i].filePath] == commits[i] {
        if i > 0 {
          assert commits[i] == rest[i - 1];
        }
      }
      forall p | p in result ensures p in files || p in Paths(commits) {
        if p !in files1 {
          var k :| 0 <= k < |rest| && Paths(rest)[k] == p;
          assert Paths(commits)[k + 1] == p;
        } else if p == c.filePath {
          assert Paths(commits)[0] == p;
        }
      }
    }
  }

  /** A failed save is not rolled back: the commits before the first clashing one stay
      inserted, and the error names the clashing path. */
  lemma {:induction false} LocalSaveNotAtomic(files: map<string, Commit>, commits: seq<Commit>)
    requires LocalSave(files, commits).0.Failure?
    ensures var (r, files1) := LocalSave(files, commits);
      exists k :: 0 <= k < |commits|
        && LocalSave(files, commits[..k]) == (Success(()), files1)
        && commits[k].filePath in files1
        && r == Failure(DuplicatedCommit(commits[k].filePath))
    decreases |commits|
  {
    var (r, files1) := LocalSave(files, commits);
    var c := commits[0];
    if c.filePath in files {
      assert commits[..0] == [];
    } else {
      var rest := commits[1..];
      var filesC := files[c.filePath := c];
      LocalSaveNotAtomic(filesC, rest);
      var k :| 0 <= k < |rest| && LocalSave(filesC, rest[..k]) == (Success(()), files1)
        && rest[k].filePath in files1 && r == Failure(DuplicatedCommit(rest[k].filePath));
      assert commits[..k + 1][1..] == rest[..k];
      assert commits[k + 1] == rest[k];
    }
  }

  /** `LocalRepo`: the in-memory repository of the repository's own test runs. */
  class LocalRepo {
    /** The fixed page every submission fetch returns. */
    const DummyHtml: string := "\n    <html><body><pre id=\"submission-code\">// OK.</pre></body></html>\n  "
    var files: map<string, Commit>

    constructor ()
      ensures files == map[]
    {
      files := map[];
    }

    /** `fetchSubmissionHtml`: the fixed page, whatever the submission. */
    method FetchSubmissionHtml(s: Submission, url: string) returns (html: string)
      ensures html == DummyHtml
    {
      html := DummyHtml;
    }

    /** `exists`: whether a commit was saved at this path. */
    method Exists(path: string) returns (b: bool)
      ensures b <==> path in files
    {
      b := path in files;
    }

    /** `save`: inserts the commits in order, throwing at the first present path. */
    method Save(commits: seq<Commit>) returns (r: Result<(), Error>)
      modifies this
      ensures (r, files) == LocalSave(old(files), commits)
    {
      for i := 0 to |commits|
        invariant LocalSave(old(files), commits) == LocalSave(files, commits[i..])
      {
        var c := commits[i];
        assert commits[i..][1..] == commits[i + 1..];
        if c.filePath in files {
          return Failure(DuplicatedCommit(c.filePath));
        }
        files := files[c.filePath := c];
      }
      r := Success(());
    }
  }

  /** Saved commits can be found: after a successful save each commit's path exists and
      holds that commit. */
  method SaveThenExists(repo: LocalRepo, commits: seq<Commit>, i: nat) returns (r: Result<(), Error>, b: bool)
    requires i < |commits|
    modifies repo
    ensures r.Success? ==> commits[i].filePath in repo.files && repo.files[commits[i].filePath] == commits[i] && b
  {
    ghost var before := repo.files;
    r := repo.Save(commits);
    b := repo.Exists(commits[i].filePath);
    if r.Success? {
      LocalSaveStores(before, commits);
    }
  }
}
