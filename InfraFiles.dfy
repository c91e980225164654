/** src/infra-files.ts: the storage paths of submissions and cache entries, and the
    file operations on them. The file system is a map from path to content held by a
    `FileStore` object. */
module InfraFiles {
  import opened Wrappers
  import opened Strings
  import opened Types

  /** `submissionPath`: `<workDir>/<service>/<year>-<MM>/<dd>-<hh>-<mm>-<ss>-<problemId>-<result><ext>`,
      lower-cased as a whole. */
  function SubmissionPath(id: SubmissionIdentifier, workDir: string): string {
    var name := Join([Pad2(id.date), Pad2(id.hours), Pad2(id.minutes), Pad2(id.seconds), id.problemId, id.result], "-");
    ToLower(Join([workDir, id.service, IntToString(id.year) + "-" + Pad2(id.month), name + id.ext], "/"))
  }

  /** The path holds no upper-case letter. */
  lemma SubmissionPathLower(id: SubmissionIdentifier, workDir: string)
    ensures var p := SubmissionPath(id, workDir);
      forall i :: 0 <= i < |p| ==> !IsUpper(p[i])
  {
    var name := Join([Pad2(id.date), Pad2(id.hours), Pad2(id.minutes), Pad2(id.seconds), id.problemId, id.result], "-");
    ToLowerNoUpper(Join([workDir, id.service, IntToString(id.year) + "-" + Pad2(id.month), name + id.ext], "/"));
  }

  /** Lists whose items agree up to letter case join to strings that agree up to letter case. */
  lemma {:induction false} JoinLowerInvariant(xs: seq<string>, ys: seq<string>, sep: string)
    requires |xs| == |ys|
    requires forall i :: 0 <= i < |xs| ==> ToLower(xs[i]) == ToLower(ys[i])
    ensures ToLower(Join(xs, sep)) == ToLower(Join(ys, sep))
  {
    if |xs| > 1 {
      JoinLowerInvariant(xs[1..], ys[1..], sep);
      ToLowerAppend(xs[0] + sep, Join(xs[1..], sep));
      ToLowerAppend(ys[0] + sep, Join(ys[1..], sep));
      ToLowerAppend(xs[0], sep);
      ToLowerAppend(ys[0], sep);
    }
  }

  /** Identifiers that differ only in the letter case of their text fields, under work
      directories that differ only in letter case, share one path. */
  lemma SubmissionPathCaseInsensitive(a: SubmissionIdentifier, b: SubmissionIdentifier, workDirA: string, workDirB: string)
    requires ToLower(workDirA) == ToLower(workDirB)
    requires ToLower(a.service) == ToLower(b.service) && ToLower(a.problemId) == ToLower(b.problemId)
    requires ToLower(a.result) == ToLower(b.result) && ToLower(a.ext) == ToLower(b.ext)
    requires a.year == b.year && a.month == b.month && a.date == b.date
    requires a.hours == b.hours && a.minutes == b.minutes && a.seconds == b.seconds
    ensures SubmissionPath(a, workDirA) == SubmissionPath(b, workDirB)
  {
    var nameA := Join([Pad2(a.date), Pad2(a.hours), Pad2(a.minutes), Pad2(a.seconds), a.problemId, a.result], "-");
    var nameB := Join([Pad2(b.date), Pad2(b.hours), Pad2(b.minutes), Pad2(b.seconds), b.problemId, b.result], "-");
    JoinLowerInvariant([Pad2(a.date), Pad2(a.hours), Pad2(a.minutes), Pad2(a.seconds), a.problemId, a.result],
                       [Pad2(b.date), Pad2(b.hours), Pad2(b.minutes), Pad2(b.seconds), b.problemId, b.result], "-");
    ToLowerAppend(nameA, a.ext);
    ToLowerAppend(nameB, b.ext);
    var ym := IntToString(a.year) + "-" + Pad2(a.month);
    JoinLowerInvariant([workDirA, a.service, ym, nameA + a.ext], [workDirB, b.service, ym, nameB + b.ext], "/");
  }

  /** Every submission file lies under the lower-cased work directory. */
  lemma SubmissionPathUnderWorkDir(id: SubmissionIdentifier, workDir: string)
    ensures var p := SubmissionPath(id, workDir);
      |workDir| < |p| && p[..|workDir|] == ToLower(workDir) && p[|workDir|] == '/'
  {
    var ym := IntToString(id.year) + "-" + Pad2(id.month);
    var name := Join([Pad2(id.date), Pad2(id.hours), Pad2(id.minutes), Pad2(id.seconds), id.problemId, id.result], "-");
    var xs := [workDir, id.service, ym, name + id.ext];
    var tail := Join(xs[1..], "/");
    assert Join(xs, "/") == workDir + ("/" + tail);
    ToLowerAppend(workDir, "/" + tail);
    ToLowerAt("/" + tail, 0);
  }

  /** The repository's own example, `~/submissions/atcoder/2018-09/08-21-32-42-abc109_d-ac.rs`
      (written in four pieces). */
  lemma SubmissionPathExample()
    ensures SubmissionPath(SubmissionIdentifier("atcoder", 2018, 9, 8, 21, 32, 42, "abc109_d", "ac", ".rs"), "~/submissions")
         == "~/submissions/atcoder/" + "2018-09/" + "08-21-32-42-abc109_d-ac" + ".rs"
  {
    ExamplePads();
    ExampleJoin();
    ExampleLower();
  }

  lemma ExamplePads()
    ensures IntToString(2018) + "-" + Pad2(9) == "2018-09"
    ensures Pad2(8) == "08" && Pad2(21) == "21" && Pad2(32) == "32" && Pad2(42) == "42"
  {
    PrintedYearExample();
    Pad2TwoDigits(9);
    Pad2TwoDigits(8);
    Pad2TwoDigits(21);
    Pad2TwoDigits(32);
    Pad2TwoDigits(42);
  }

  lemma ExampleJoin()
    ensures var name := Join(["08", "21", "32", "42", "abc109_d", "ac"], "-");
      Join(["~/submissions", "atcoder", "2018-09", name + ".rs"], "/")
        == "~/submissions/atcoder/" + "2018-09/" + "08-21-32-42-abc109_d-ac" + ".rs"
  {
    var xs := ["08", "21", "32", "42", "abc109_d", "ac"];
    assert xs[1..][1..][1..][1..][1..] == ["ac"];
    var name := Join(xs, "-");
    assert name == "08-21-32-42-abc109_d-ac";
    var ys := ["~/submissions", "atcoder", "2018-09", name + ".rs"];
    assert ys[1..][1..][1..] == [name + ".rs"];
    assert Join(ys[1..][1..], "/") == "2018-09" + "/" + (name + ".rs");
    assert Join(ys[1..], "/") == "atcoder" + "/" + ("2018-09" + "/" + (name + ".rs"));
    assert Join(ys, "/") == "~/submissions" + "/" + ("atcoder" + "/" + ("2018-09" + "/" + (name + ".rs")));
    assert "~/submissions" + "/" + "atcoder" + "/" == "~/submissions/atcoder/";
  }

  lemma ExampleLower()
    ensures var p := "~/submissions/atcoder/" + "2018-09/" + "08-21-32-42-abc109_d-ac" + ".rs";
      ToLower(p) == p
  {
    var p := "~/submissions/atcoder/" + "2018-09/" + "08-21-32-42-abc109_d-ac" + ".rs";
    ToLowerUnchanged(p);
  }

  /** `cachePath`: the entry `<key>` of the `~cache` directory of the work directory. */
  function CachePath(cacheKey: string, workDir: string): string {
    workDir + "/~cache/" + cacheKey
  }

  /** Distinct keys never share a cache file, and each lives under `<workDir>/~cache/`. */
  lemma CachePathInjective(k1: string, k2: string, workDir: string)
    requires CachePath(k1, workDir) == CachePath(k2, workDir)
    ensures k1 == k2
  {
    var n := |workDir| + 8;
    assert k1 == CachePath(k1, workDir)[n..];
    assert k2 == CachePath(k2, workDir)[n..];
  }

  /** `commitToFilePath`: where a commit's file goes. */
  function CommitToFilePath(commit: IdentifiedCommit, workDir: string): string {
    SubmissionPath(commit.submissionIdentifier, workDir)
  }

  /** The file system below one work directory. */
  class FileStore {
    const workDir: string
    var files: map<string, string>

    constructor (workDir: string, files: map<string, string>)
      ensures this.workDir == workDir && this.files == files
    {
      this.workDir := workDir;
      this.files := files;
    }

    /** `findCache`: the cache file's content, or `null` when it cannot be read. */
    method FindCache(cacheKey: string) returns (r: Option<string>)
      ensures CachePath(cacheKey, workDir) in files ==> r == Some(files[CachePath(cacheKey, workDir)])
      ensures CachePath(cacheKey, workDir) !in files ==> r == None
    {
      var path := CachePath(cacheKey, workDir);
      r := if path in files then Some(files[path]) else None;
    }

    /** `storeCache`: writes the content to the key's cache file, touching no other key. */
    method StoreCache(cacheKey: string, content: string)
      modifies this`files
      ensures files == old(files)[CachePath(cacheKey, workDir) := content]
      ensures forall k {:trigger CachePath(k, workDir)} :: k != cacheKey ==>
        (CachePath(k, workDir) in files <==> CachePath(k, workDir) in old(files))
    {
      files := files[CachePath(cacheKey, workDir) := content];
      forall k | k != cacheKey
        ensures CachePath(k, workDir) in files <==> CachePath(k, workDir) in old(files)
      {
        if CachePath(k, workDir) == CachePath(cacheKey, workDir) {
          CachePathInjective(k, cacheKey, workDir);
        }
      }
    }

    /** `submissionExists`: whether the submission's file exists. */
    method SubmissionExists(id: SubmissionIdentifier) returns (b: bool)
      ensures b <==> SubmissionPath(id, workDir) in files
    {
      b := SubmissionPath(id, workDir) in files;
    }

    /** `writeCommit`: writes the commit's content at its path. */
    method WriteCommit(commit: IdentifiedCommit)
      modifies this`files
      ensures files == old(files)[CommitToFilePath(commit, workDir) := commit.content]
    {
      files := files[CommitToFilePath(commit, workDir) := commit.content];
    }
  }

  /** A stored cache entry reads back as stored. */
  method StoreThenFind(store: FileStore, cacheKey: string, content: string) returns (r: Option<string>)
    modifies store
    ensures r == Some(content)
  {
    store.StoreCache(cacheKey, content);
    r := store.FindCache(cacheKey);
  }

  /** After `writeCommit`, `submissionExists` reports the commit's submission. */
  method WriteThenExists(store: FileStore, commit: IdentifiedCommit) returns (b: bool)
    modifies store
    ensures b
  {
    store.WriteCommit(commit);
    b := store.SubmissionExists(commit.submissionIdentifier);
  }
}
