/** src/app.ts: the language-to-extension lookup, the binary search for the first
    submission not yet recorded, the path, URL and commit shaping of a submission,
    and the pipeline that turns a user's submission list into a batch of commits. */
module App {
  import opened Wrappers
  import opened Strings
  import opened Types
  import opened Utils

  // ---------------------------------------------------------------------------
  // removeVer: `s.replace(/\(.*\)/, "").trim()`
  // ---------------------------------------------------------------------------

  /** The characters a regular-expression `.` does not match. */
  predicate IsLineTerminator(c: char) {
    c == '\n' || c == '\r' || c == '\U{2028}' || c == '\U{2029}'
  }

  /** The white space and line terminators that `trim` removes. */
  predicate IsJsSpace(c: char) {
    || c == '\t' || c == '\U{B}' || c == '\U{C}' || c == ' ' || c == '\U{A0}' || c == '\U{1680}'
    || ('\U{2000}' <= c <= '\U{200A}') || c == '\U{202F}' || c == '\U{205F}' || c == '\U{3000}'
    || c == '\U{FEFF}' || IsLineTerminator(c)
  }

  /** The index of the first character at or after `i` that is not white space. */
  function SkipSpaces(s: string, i: nat): (k: nat)
    requires i <= |s|
    ensures i <= k <= |s| && (k == |s| || !IsJsSpace(s[k]))
    ensures forall j :: i <= j < k ==> IsJsSpace(s[j])
    decreases |s| - i
  {
    if i == |s| || !IsJsSpace(s[i]) then i else SkipSpaces(s, i + 1)
  }

  /** The length of `s[..n]` once its trailing white space is dropped. */
  function ContentEnd(s: string, n: nat): (e: nat)
    requires n <= |s|
    ensures e <= n && (e == 0 || !IsJsSpace(s[e - 1]))
    ensures forall j :: e <= j < n ==> IsJsSpace(s[j])
  {
    if n == 0 || !IsJsSpace(s[n - 1]) then n else ContentEnd(s, n - 1)
  }

  /** `s.trim()`. */
  function Trim(s: string): (t: string)
    ensures t == [] || (!IsJsSpace(t[0]) && !IsJsSpace(t[|t| - 1]))
    ensures exists a, b ::
      && 0 <= a <= b <= |s| && t == s[a..b]
      && (forall j :: 0 <= j < a ==> IsJsSpace(s[j]))
      && (forall j :: b <= j < |s| ==> IsJsSpace(s[j]))
  {
    var a := SkipSpaces(s, 0);
    var u := s[a..];
    var e := ContentEnd(u, |u|);
    assert u[..e] == s[a..a + e];
    assert forall j :: a + e <= j < |s| ==> s[j] == u[j - a];
    u[..e]
  }

  /** A string that neither starts nor ends with white space is its own trim. */
  lemma TrimUnchanged(s: string)
    requires s == [] || (!IsJsSpace(s[0]) && !IsJsSpace(s[|s| - 1]))
    ensures Trim(s) == s
  {
  }

  /** `/\(.*\)/` matches `s[a..b]`: an opening parenthesis, then characters other than
      line terminators, then a closing parenthesis. */
  predicate ParenMatch(s: string, a: nat, b: nat) {
    && a + 2 <= b <= |s|
    && s[a] == '(' && s[b - 1] == ')'
    && forall k :: a < k < b - 1 ==> !IsLineTerminator(s[k])
  }

  /** The first line terminator at or after `i`, or the end of `s`. */
  function LineEnd(s: string, i: nat): (e: nat)
    requires i <= |s|
    ensures i <= e <= |s| && (e == |s| || IsLineTerminator(s[e]))
    ensures forall k :: i <= k < e ==> !IsLineTerminator(s[k])
    decreases |s| - i
  {
    if i == |s| || IsLineTerminator(s[i]) then i else LineEnd(s, i + 1)
  }

  /** The last closing parenthesis in `s[lo..hi]`. */
  function LastClose(s: string, lo: nat, hi: nat): (r: Option<nat>)
    requires lo <= hi <= |s|
    ensures r.Some? ==> lo <= r.value < hi && s[r.value] == ')' && forall j :: r.value < j < hi ==> s[j] != ')'
    ensures r.None? ==> forall j :: lo <= j < hi ==> s[j] != ')'
    decreases hi - lo
  {
    if lo == hi then None else if s[hi - 1] == ')' then Some(hi - 1) else LastClose(s, lo, hi - 1)
  }

  /** The regular-expression engine's answer: the leftmost start from `i` at which the
      pattern matches, taken as long as possible. */
  function FindParenGroup(s: string, i: nat): (r: Option<(nat, nat)>)
    requires i <= |s|
    ensures r.Some? ==>
      && i <= r.value.0
      && ParenMatch(s, r.value.0, r.value.1)
      && (forall a, b :: i <= a < r.value.0 ==> !ParenMatch(s, a, b))
      && (forall b :: r.value.1 < b ==> !ParenMatch(s, r.value.0, b))
    ensures r.None? ==> forall a, b :: i <= a ==> !ParenMatch(s, a, b)
    decreases |s| - i
  {
    if i == |s| then None
    else
      var close := if s[i] == '(' then LastClose(s, i + 1, LineEnd(s, i + 1)) else None;
      MatchesFromClose(s, i, close);
      if close.Some? then Some((i, close.value + 1)) else FindParenGroup(s, i + 1)
  }

  /** At an opening parenthesis the match ends at the last closing parenthesis before the
      end of the line; there is no match at `i` when that line has none. */
  lemma MatchesFromClose(s: string, i: nat, close: Option<nat>)
    requires i < |s|
    requires close == if s[i] == '(' then LastClose(s, i + 1, LineEnd(s, i + 1)) else None
    ensures close.Some? ==> ParenMatch(s, i, close.value + 1) && forall b :: close.value + 1 < b ==> !ParenMatch(s, i, b)
    ensures close.None? ==> forall b :: !ParenMatch(s, i, b)
  {
    if s[i] == '(' {
      var e := LineEnd(s, i + 1);
      forall b: nat | ParenMatch(s, i, b)
        ensures b - 1 < e && close.Some? && b <= close.value + 1
      {
      }
    }
  }

  /** `removeVer`: the first parenthesised group on one line is cut out, then the rest is
      trimmed. */
  function RemoveVer(s: string): string {
    match FindParenGroup(s, 0)
    case None => Trim(s)
    case Some((a, b)) => Trim(s[..a] + s[b..])
  }

  /** Without a parenthesised group only the trim applies. */
  lemma RemoveVerNoGroup(s: string)
    requires forall k :: 0 <= k < |s| ==> s[k] != '('
    ensures RemoveVer(s) == Trim(s)
  {
    forall a: nat, b: nat ensures !ParenMatch(s, a, b) {
      if a < |s| {
        assert s[a] != '(';
      }
    }
  }

  /** A language name followed by ` (<version>)` loses the version. */
  lemma RemoveVerVersioned(name: string, version: string)
    requires name != [] && !IsJsSpace(name[0]) && !IsJsSpace(name[|name| - 1])
    requires forall k :: 0 <= k < |name| ==> name[k] != '('
    requires forall k :: 0 <= k < |version| ==> !IsLineTerminator(version[k])
    ensures RemoveVer(name + " (" + version + ")") == name
  {
    var s := name + " (" + version + ")";
    var a := |name| + 1;
    assert ParenMatch(s, a, |s|) by {
      forall k | a < k < |s| - 1 ensures !IsLineTerminator(s[k]) {
        assert s[k] == version[k - a - 1];
      }
    }
    forall a', b | 0 <= a' < a ensures !ParenMatch(s, a', b) {
      if a' < |name| {
        assert s[a'] == name[a'];
      }
    }
    var r := FindParenGroup(s, 0);
    assert r == Some((a, |s|));
    var u := s[..a] + s[|s|..];
    assert u == name + " ";
    assert SkipSpaces(u, 0) == 0;
    assert u[0..] == u;
    assert ContentEnd(u, |u|) == ContentEnd(u, |name|) == |name|;
    assert u[..|name|] == name;
  }

  // ---------------------------------------------------------------------------
  // extFromLang
  // ---------------------------------------------------------------------------

  /** One row of the language table of src/exts.ts. */
  datatype LangExt = LangExt(lang: string, ext: string)

  /** The rows as `(removeVer(lang), ext)` pairs. */
  function Stripped(table: seq<LangExt>): (rows: seq<(string, string)>)
    ensures |rows| == |table|
    ensures forall i :: 0 <= i < |table| ==> rows[i] == (RemoveVer(table[i].lang), table[i].ext)
  {
    seq(|table|, i requires 0 <= i < |table| => (RemoveVer(table[i].lang), table[i].ext))
  }

  /** A `Map` after `map.set(key, value)` for every pair, in order. */
  function MapOfPairs(rows: seq<(string, string)>): map<string, string> {
    if rows == [] then map[]
    else MapOfPairs(rows[..|rows| - 1])[rows[|rows| - 1].0 := rows[|rows| - 1].1]
  }

  /** The finished `Map` of `extFromLang`: every row set in table order, then the `C++11`
      edge case. */
  function ExtMapOf(table: seq<LangExt>): map<string, string> {
    MapOfPairs(Stripped(table))["C++11" := ".cpp"]
  }

  /** The keys are exactly the keys of the pairs. */
  lemma {:induction false} MapOfPairsKeys(rows: seq<(string, string)>, key: string)
    ensures key in MapOfPairs(rows) <==> exists i :: 0 <= i < |rows| && rows[i].0 == key
  {
    if rows != [] {
      var init := rows[..|rows| - 1];
      MapOfPairsKeys(init, key);
      if key in MapOfPairs(init) {
        var i :| 0 <= i < |init| && init[i].0 == key;
        assert rows[i] == init[i];
      }
      if exists i :: 0 <= i < |rows| && rows[i].0 == key {
        var i :| 0 <= i < |rows| && rows[i].0 == key;
        if i < |init| {
          assert init[i] == rows[i];
        }
      }
    }
  }

  /** A later pair with the same key overwrites an earlier one. */
  lemma {:induction false} MapOfPairsLastWins(rows: seq<(string, string)>, i: nat)
    requires i < |rows|
    requires forall j :: i < j < |rows| ==> rows[j].0 != rows[i].0
    ensures rows[i].0 in MapOfPairs(rows) && MapOfPairs(rows)[rows[i].0] == rows[i].1
  {
    if i < |rows| - 1 {
      var init := rows[..|rows| - 1];
      assert init[i] == rows[i];
      forall j | i < j < |init| ensures init[j].0 != init[i].0 {
        assert init[j] == rows[j];
      }
      MapOfPairsLastWins(init, i);
    }
  }

  /** The stripped names of the table, and `C++11`, are exactly the languages the map knows. */
  lemma ExtMapKeys(table: seq<LangExt>, key: string)
    ensures key in ExtMapOf(table) <==> key == "C++11" || exists i :: 0 <= i < |table| && RemoveVer(table[i].lang) == key
  {
    var rows := Stripped(table);
    MapOfPairsKeys(rows, key);
    if exists i :: 0 <= i < |rows| && rows[i].0 == key {
      var i :| 0 <= i < |rows| && rows[i].0 == key;
      assert RemoveVer(table[i].lang) == key;
    }
    if exists i :: 0 <= i < |table| && RemoveVer(table[i].lang) == key {
      var i :| 0 <= i < |table| && RemoveVer(table[i].lang) == key;
      assert rows[i].0 == key;
    }
  }

  /** A later row with the same stripped name overwrites an earlier one: a name other than
      `C++11` holds the extension of the last row that strips to it. */
  lemma ExtMapLastRowWins(table: seq<LangExt>, i: nat)
    requires i < |table| && RemoveVer(table[i].lang) != "C++11"
    requires forall j :: i < j < |table| ==> RemoveVer(table[j].lang) != RemoveVer(table[i].lang)
    ensures RemoveVer(table[i].lang) in ExtMapOf(table)
    ensures ExtMapOf(table)[RemoveVer(table[i].lang)] == table[i].ext
  {
    var rows := Stripped(table);
    forall j | i < j < |rows| ensures rows[j].0 != rows[i].0 {
      assert rows[j].0 == RemoveVer(table[j].lang);
    }
    MapOfPairsLastWins(rows, i);
  }

  /** The construction of the `Map`: a loop over the table, then the edge case. */
  method BuildExtMap(table: seq<LangExt>) returns (m: map<string, string>)
    ensures m == ExtMapOf(table)
  {
    m := map[];
    var i := 0;
    while i < |table|
      invariant i <= |table|
      invariant m == MapOfPairs(Stripped(table)[..i])
    {
      assert Stripped(table)[..i + 1][..i] == Stripped(table)[..i];
      m := m[RemoveVer(table[i].lang) := table[i].ext];
      i := i + 1;
    }
    assert Stripped(table)[..|table|] == Stripped(table);
    m := m["C++11" := ".cpp"];
  }

  /** `extFromLang`: the extension for the stripped language name; `undefined` (here
      `None`) when there is none or when it is the empty string. */
  function ExtFromLang(table: seq<LangExt>, lang: string): (r: Option<string>)
    ensures r.Some? ==> r.value != "" && RemoveVer(lang) in ExtMapOf(table) && r.value == ExtMapOf(table)[RemoveVer(lang)]
    ensures r.None? <==> RemoveVer(lang) !in ExtMapOf(table) || ExtMapOf(table)[RemoveVer(lang)] == ""
  {
    var m := ExtMapOf(table);
    var key := RemoveVer(lang);
    if key in m && m[key] != "" then Some(m[key]) else None
  }

  /** `C++11` with any version maps to `.cpp`, whatever the table says. */
  lemma ExtFromLangCpp11(table: seq<LangExt>, version: string)
    requires forall k :: 0 <= k < |version| ==> !IsLineTerminator(version[k])
    ensures ExtFromLang(table, "C++11 (" + version + ")") == Some(".cpp")
  {
    assert "C++11 (" + version + ")" == "C++11" + " (" + version + ")";
    RemoveVerVersioned("C++11", version);
  }

  /** A versioned language name finds the extension of the last table row for it. */
  lemma ExtFromLangRow(table: seq<LangExt>, i: nat, name: string, version: string)
    requires i < |table| && RemoveVer(table[i].lang) == name && name != "C++11" && table[i].ext != ""
    requires forall j :: i < j < |table| ==> RemoveVer(table[j].lang) != name
    requires name != [] && !IsJsSpace(name[0]) && !IsJsSpace(name[|name| - 1])
    requires forall k :: 0 <= k < |name| ==> name[k] != '('
    requires forall k :: 0 <= k < |version| ==> !IsLineTerminator(version[k])
    ensures ExtFromLang(table, name + " (" + version + ")") == Some(table[i].ext)
  {
    RemoveVerVersioned(name, version);
    ExtMapLastRowWins(table, i);
  }

  // ---------------------------------------------------------------------------
  // unexistingItems
  // ---------------------------------------------------------------------------

  /** ⌈log2 g⌉ for g ≥ 1, by repeated halving rounded up. */
  function CeilLog2(g: nat): nat {
    if g <= 1 then 0 else 1 + CeilLog2((g + 1) / 2)
  }

  function Pow2(k: nat): nat {
    if k == 0 then 1 else 2 * Pow2(k - 1)
  }

  /** CeilLog2 is the ceiling of the base-2 logarithm: the least k with 2^k ≥ g. */
  lemma {:induction false} CeilLog2Bounds(g: nat)
    requires g >= 1
    ensures Pow2(CeilLog2(g)) >= g
    ensures g > 1 ==> Pow2(CeilLog2(g) - 1) < g
  {
    if g > 1 {
      CeilLog2Bounds((g + 1) / 2);
      if (g + 1) / 2 > 1 {
        assert Pow2(CeilLog2(g) - 1) == 2 * Pow2(CeilLog2((g + 1) / 2) - 1);
      }
    }
  }

  lemma {:induction false} CeilLog2Monotone(a: nat, b: nat)
    requires a <= b
    ensures CeilLog2(a) <= CeilLog2(b)
    decreases b
  {
    if a > 1 {
      CeilLog2Monotone((a + 1) / 2, (b + 1) / 2);
    }
  }

  /** The "already recorded" predicate holds on a prefix of the items and nowhere after. */
  ghost predicate RecordedPrefix<T>(items: seq<T>, recorded: T -> bool) {
    exists k :: 0 <= k <= |items| && PrefixSplitAt(items, recorded, k)
  }

  ghost predicate PrefixSplitAt<T>(items: seq<T>, recorded: T -> bool, k: nat) {
    k <= |items| && forall i :: 0 <= i < |items| ==> (recorded(items[i]) <==> i < k)
  }

  /** The items the predicate rejects, in order. */
  function Unrecorded<T>(items: seq<T>, recorded: T -> bool): (r: seq<T>)
    ensures |r| <= |items|
  {
    if items == [] then []
    else (if recorded(items[0]) then [] else [items[0]]) + Unrecorded(items[1..], recorded)
  }

  /** When the recorded items form a prefix, the unrecorded ones are the rest. */
  lemma {:induction false} UnrecordedOfSplit<T>(items: seq<T>, recorded: T -> bool, k: nat)
    requires PrefixSplitAt(items, recorded, k)
    ensures Unrecorded(items, recorded) == items[k..]
  {
    if items != [] {
      assert PrefixSplitAt(items[1..], recorded, if k == 0 then 0 else k - 1) by {
        forall i | 0 <= i < |items[1..]| ensures recorded(items[1..][i]) <==> i < (if k == 0 then 0 else k - 1) {
          assert items[1..][i] == items[i + 1];
        }
      }
      UnrecordedOfSplit(items[1..], recorded, if k == 0 then 0 else k - 1);
      if k == 0 {
        assert !recorded(items[0]);
        assert items[0..] == [items[0]] + items[1..];
      } else {
        assert recorded(items[0]);
        assert items[k..] == items[1..][k - 1..];
      }
    }
  }

  /** `result` is a suffix of `items` cut between an accepted item and a rejected one;
      when the accepted items form a prefix it is exactly the rejected ones. */
  ghost predicate SuffixCut<T>(items: seq<T>, result: seq<T>, recorded: T -> bool) {
    && |result| <= |items| && result == items[|items| - |result|..]
    && (|result| < |items| ==> recorded(items[|items| - |result| - 1]))
    && (|result| > 0 ==> !recorded(result[0]))
    && (RecordedPrefix(items, recorded) ==> result == Unrecorded(items, recorded))
  }

  /** `unexistingItems`: a binary search for the first item the predicate rejects, with
      `l` the last item known to be accepted and `r` the first known to be rejected;
      `calls` counts the awaited predicate calls. The result is always a suffix, cut
      between an accepted and a rejected item; when the accepted items are a prefix it is
      exactly the rejected ones, and the predicate is called at most ⌈log2(n+1)⌉ times. */
  method UnexistingItems<T>(items: seq<T>, recorded: T -> bool) returns (result: seq<T>, calls: nat)
    ensures SuffixCut(items, result, recorded)
    ensures calls <= CeilLog2(|items| + 1)
  {
    var l, r := -1, |items|;
    calls := 0;
    while r - l > 1
      invariant -1 <= l < r <= |items|
      invariant l >= 0 ==> recorded(items[l])
      invariant r < |items| ==> !recorded(items[r])
      invariant calls + CeilLog2(r - l) <= CeilLog2(|items| + 1)
      decreases r - l
    {
      var m := (l + r) / 2;
      ghost var gap := r - l;
      if recorded(items[m]) {
        l := m;
      } else {
        r := m;
      }
      calls := calls + 1;
      CeilLog2Monotone(r - l, (gap + 1) / 2);
    }
    result := items[r..];
    if RecordedPrefix(items, recorded) {
      var k :| 0 <= k <= |items| && PrefixSplitAt(items, recorded, k);
      UnrecordedOfSplit(items, recorded, k);
      assert k == r;
    }
  }

  /** The repository's test: with 0, 1, 2, 3 and 5 recorded, 8 and 13 remain. */
  method UnexistingItemsExample() returns (result: seq<int>)
    ensures result == [8, 13]
  {
    var items := [0, 1, 2, 3, 5, 8, 13];
    var inRepo := (x: int) => x in {0, 1, 2, 3, 5};
    assert PrefixSplitAt(items, inRepo, 5);
    UnrecordedOfSplit(items, inRepo, 5);
    var calls;
    result, calls := UnexistingItems(items, inRepo);
  }

  /** With nothing recorded the whole list remains; with everything recorded, nothing. */
  method UnexistingItemsEdges(items: seq<int>) returns (none: seq<int>, all: seq<int>)
    ensures none == items && all == []
  {
    var calls;
    assert PrefixSplitAt(items, (x: int) => false, 0);
    UnrecordedOfSplit(items, (x: int) => false, 0);
    none, calls := UnexistingItems(items, (x: int) => false);
    assert PrefixSplitAt(items, (x: int) => true, |items|);
    UnrecordedOfSplit(items, (x: int) => true, |items|);
    all, calls := UnexistingItems(items, (x: int) => true);
  }

  // ---------------------------------------------------------------------------
  // submissionDetailsUrl, submissionPath, calculateCommits
  // ---------------------------------------------------------------------------

  /** `submissionDetailsUrl` (also `submissionSubject`): the submission's page on the
      judge's beta host. */
  function SubmissionDetailsUrl(s: Submission): string {
    "https://beta.atcoder.jp/contests/" + s.contestId + "/submissions/" + IntToString(s.id)
  }

  /** Contest ids free of '/' make the details URL name exactly one submission. */
  lemma SubmissionDetailsUrlInjective(s: Submission, t: Submission)
    requires forall k :: 0 <= k < |s.contestId| ==> s.contestId[k] != '/'
    requires forall k :: 0 <= k < |t.contestId| ==> t.contestId[k] != '/'
    requires SubmissionDetailsUrl(s) == SubmissionDetailsUrl(t)
    ensures s.contestId == t.contestId && s.id == t.id
  {
    PrefixedSeparatedInjective("https://beta.atcoder.jp/contests/", s.contestId, "/submissions/", IntToString(s.id),
                               t.contestId, IntToString(t.id));
    IntToStringInjective(s.id, t.id);
  }


  /** The extension text appended to the path: a missing extension is concatenated as
      the string "undefined". */
  function ExtText(ext: Option<string>): string {
    match ext
    case Some(e) => e
    case None => "undefined"
  }

  /** `submissionPath` of src/app.ts: `atcoder/<year>/<MM>-<dd>-<hh>-<mm>-<problem>-<result><ext>`,
      lower-cased, where `MM` is padded from `month + 1` on top of the already 1-based
      month of `decomposeEpochSecond`. `zone` stands for the process's time zone. */
  function AppSubmissionPath(s: Submission, table: seq<LangExt>, zone: int -> LocalDate): string {
    DatedPath(DecomposeEpochSecond(s.epochSecond, zone), s.problemId, s.result, ExtText(ExtFromLang(table, s.language)))
  }

  /** Every submission path is lower case. */
  lemma AppSubmissionPathLower(s: Submission, table: seq<LangExt>, zone: int -> LocalDate)
    ensures var p := AppSubmissionPath(s, table, zone);
      forall i :: 0 <= i < |p| ==> !IsUpper(p[i])
  {
    DatedPathLower(DecomposeEpochSecond(s.epochSecond, zone), s.problemId, s.result, ExtText(ExtFromLang(table, s.language)));
  }

  /** The body of `submissionPath` once the date is decomposed and the extension looked up. */
  function DatedPath(t: DateTime, problemId: string, result: string, ext: string): string {
    var name := Join([Pad2(t.month + 1), Pad2(t.date), Pad2(t.hours), Pad2(t.minutes), problemId, result], "-");
    ToLower(Join(["atcoder", IntToString(t.year), name + ext], "/"))
  }

  /** The path holds no upper-case letter. */
  lemma DatedPathLower(t: DateTime, problemId: string, result: string, ext: string)
    ensures var p := DatedPath(t, problemId, result, ext);
      forall i :: 0 <= i < |p| ==> !IsUpper(p[i])
  {
    var name := Join([Pad2(t.month + 1), Pad2(t.date), Pad2(t.hours), Pad2(t.minutes), problemId, result], "-");
    ToLowerNoUpper(Join(["atcoder", IntToString(t.year), name + ext], "/"));
  }

  /** `atcoder/<year>/<MM>-`, the start of every path. */
  function MonthHead(t: DateTime): string {
    "atcoder" + "/" + (IntToString(t.year) + "/" + Pad2(t.month + 1) + "-")
  }

  lemma MonthHeadLower(t: DateTime)
    ensures ToLower(MonthHead(t)) == MonthHead(t)
  {
    var year, mm := IntToString(t.year), Pad2(t.month + 1);
    IntToStringLower(t.year);
    IntToStringLower(t.month + 1);
    ToLowerUnchanged("atcoder" + "/");
    ToLowerUnchanged("/");
    ToLowerUnchanged("-");
    ToLowerAppend(year, "/");
    ToLowerAppend(year + "/", mm);
    ToLowerAppend(year + "/" + mm, "-");
    ToLowerAppend("atcoder" + "/", year + "/" + mm + "-");
  }

  /** The path is the month head followed by the lower-cased rest of the name. */
  lemma DatedPathSplit(t: DateTime, problemId: string, result: string, ext: string)
    ensures DatedPath(t, problemId, result, ext) ==
      MonthHead(t) + ToLower(Join([Pad2(t.date), Pad2(t.hours), Pad2(t.minutes), problemId, result], "-") + ext)
  {
    var rest := Join([Pad2(t.date), Pad2(t.hours), Pad2(t.minutes), problemId, result], "-");
    var mm := Pad2(t.month + 1);
    var year := IntToString(t.year);
    var name := Join([mm, Pad2(t.date), Pad2(t.hours), Pad2(t.minutes), problemId, result], "-");
    var a, y1 := "atcoder" + "/", year + "/";
    var tl := y1 + mm + "-";
    assert name == (mm + "-") + rest by {
      JoinCons(mm, [Pad2(t.date), Pad2(t.hours), Pad2(t.minutes), problemId, result], "-");
      assert [mm] + [Pad2(t.date), Pad2(t.hours), Pad2(t.minutes), problemId, result]
        == [mm, Pad2(t.date), Pad2(t.hours), Pad2(t.minutes), problemId, result];
    }
    JoinThree("atcoder", year, name, ext, "/");
    AppendAssoc(a, year, "/");
    AppendAssoc(a, y1, name);
    AppendAssoc(y1, mm + "-", rest);
    AppendAssoc(y1, mm, "-");
    assert y1 + name == tl + rest;
    AppendAssoc(a, tl + rest, ext);
    AppendAssoc(tl, rest, ext);
    AppendAssoc(a, tl, rest + ext);
    assert MonthHead(t) == a + tl;
    assert Join(["atcoder", year, name + ext], "/") == MonthHead(t) + (rest + ext);
    ToLowerAppend(MonthHead(t), rest + ext);
    MonthHeadLower(t);
  }

  /** The layout of `<a><year>/<mm>-` for an eight-character `a`, a four-character year
      and a two-character month. */
  lemma HeadLayout(a: string, year: string, mm: string)
    requires |a| == 8 && |year| == 4 && |mm| == 2
    ensures var h := a + (year + "/" + mm + "-");
      |h| == 16 && h[..8] == a && h[12] == '/' && h[13..15] == mm && h[15] == '-'
  {
    var t1 := year + "/";
    var t2 := t1 + mm;
    var tail := t2 + "-";
    var h := a + tail;
    SliceOfAppend(a, tail, 0, 8);
    assert a[0..8] == a;
    AppendedSlice(year, "/");
    SliceOfAppend(t1, mm, 4, 5);
    SliceOfAppend(t2, "-", 4, 5);
    SliceOfAppendRight(a, tail, 4, 5);
    AppendedSlice(t1, mm);
    SliceOfAppend(t2, "-", 5, 7);
    SliceOfAppendRight(a, tail, 5, 7);
    AppendedSlice(t2, "-");
    SliceOfAppendRight(a, tail, 7, 8);
    assert h[12] == h[12..13][0] && h[15] == h[15..16][0];
  }

  lemma MonthHeadLayout(t: DateTime)
    requires |IntToString(t.year)| == 4 && |Pad2(t.month + 1)| == 2
    ensures var h := MonthHead(t);
      |h| == 16 && h[..8] == "atcoder/" && h[12] == '/' && h[13..15] == Pad2(t.month + 1) && h[15] == '-'
  {
    var year, mm := IntToString(t.year), Pad2(t.month + 1);
    var a := "atcoder" + "/";
    assert a == "atcoder/";
    HeadLayout(a, year, mm);
    assert MonthHead(t) == a + (year + "/" + mm + "-");
  }

  /** The month slot holds `month + 1`: for a four-digit year the path starts
      `atcoder/<year>/` and the two digits after it read `month + 1`. */
  lemma DatedPathMonthSlot(t: DateTime, problemId: string, result: string, ext: string)
    requires ValidDateTime(t) && FourDigitYear(t)
    ensures var p := DatedPath(t, problemId, result, ext);
      |p| >= 16 && p[..8] == "atcoder/" && p[12] == '/' && p[15] == '-' &&
      AllDigits(p[13..15]) && DigitsValue(p[13..15]) == t.month + 1
  {
    assert |IntToString(t.year)| == 4 by {
      FourDigitLength(t.year);
    }
    Pad2TwoDigits(t.month + 1);
    MonthHeadLayout(t);
    var head := MonthHead(t);
    var rest := ToLower(Join([Pad2(t.date), Pad2(t.hours), Pad2(t.minutes), problemId, result], "-") + ext);
    var p := DatedPath(t, problemId, result, ext);
    assert p == head + rest by {
      DatedPathSplit(t, problemId, result, ext);
    }
    SliceOfAppend(head, rest, 0, 8);
    SliceOfAppend(head, rest, 13, 15);
    assert p[12] == head[12] && p[15] == head[15];
  }

  /** Lower-casing keeps a suffix that has no upper-case letter at the end. */
  lemma LowerEndsWith(front: string, sfx: string)
    requires ToLower(sfx) == sfx
    ensures |ToLower(front + sfx)| >= |sfx| && ToLower(front + sfx)[|front|..] == sfx
  {
    ToLowerAppend(front, sfx);
    AppendedSlice(ToLower(front), sfx);
  }

  /** A lower-cased three-part join ends with the last part's lower-case suffix. */
  lemma LowerJoinEndsWith(a: string, b: string, c: string, ext: string, sep: string)
    requires ToLower(ext) == ext
    ensures var p := ToLower(Join([a, b, c + ext], sep));
      |p| >= |ext| && p[|p| - |ext|..] == ext
  {
    JoinThree(a, b, c, ext, sep);
    LowerEndsWith(a + sep + b + sep + c, ext);
  }

  /** A path ends with its extension when the extension is already lower-case. */
  lemma DatedPathEndsWith(t: DateTime, problemId: string, result: string, ext: string)
    requires ToLower(ext) == ext
    ensures var p := DatedPath(t, problemId, result, ext);
      |p| >= |ext| && p[|p| - |ext|..] == ext
  {
    var name := Join([Pad2(t.month + 1), Pad2(t.date), Pad2(t.hours), Pad2(t.minutes), problemId, result], "-");
    LowerJoinEndsWith("atcoder", IntToString(t.year), name, ext, "/");
  }

  /** An unknown language ends the path in `undefined`. */
  lemma DatedPathUndefined(t: DateTime, problemId: string, result: string)
    ensures var p := DatedPath(t, problemId, result, "undefined");
      |p| >= 9 && p[|p| - 9..] == "undefined"
  {
    ToLowerUnchanged("undefined");
    DatedPathEndsWith(t, problemId, result, "undefined");
  }

  /** The path of a submission shows `getMonth() + 2` in its month slot: September
      (`getMonth()` 8) is written `10`. */
  lemma AppSubmissionPathMonthSlot(s: Submission, table: seq<LangExt>, zone: int -> LocalDate)
    requires ValidLocalDate(zone(s.epochSecond * 1000)) && 1000 <= zone(s.epochSecond * 1000).fullYear <= 9999
    ensures var p := AppSubmissionPath(s, table, zone);
      |p| >= 16 && p[..8] == "atcoder/" && p[12] == '/' && p[15] == '-' &&
      AllDigits(p[13..15]) && DigitsValue(p[13..15]) == zone(s.epochSecond * 1000).month0 + 2
  {
    var t := DecomposeEpochSecond(s.epochSecond, zone);
    DatedPathMonthSlot(t, s.problemId, s.result, ExtText(ExtFromLang(table, s.language)));
  }

  /** A language the table does not know ends the path in `undefined`. */
  lemma AppSubmissionPathUnknownLanguage(s: Submission, table: seq<LangExt>, zone: int -> LocalDate)
    requires ExtFromLang(table, s.language).None?
    ensures var p := AppSubmissionPath(s, table, zone);
      |p| >= 9 && p[|p| - 9..] == "undefined"
  {
    DatedPathUndefined(DecomposeEpochSecond(s.epochSecond, zone), s.problemId, s.result);
  }

  /** One commit of `calculateCommits`: the path, the content, the details URL as the
      subject and the author date, each derived from the submission. */
  function CommitOf(sw: SubmissionWithContent, table: seq<LangExt>, zone: int -> LocalDate): Commit {
    Commit(
      AppSubmissionPath(sw.submission, table, zone),
      sw.content,
      SubmissionDetailsUrl(sw.submission),
      DateStringFromEpochSecond(sw.submission.epochSecond, zone))
  }

  /** `xs.map(f)`, element by element from the front. */
  function Mapped<A, B>(xs: seq<A>, f: A -> B): seq<B> {
    if xs == [] then [] else Mapped(xs[..|xs| - 1], f) + [f(xs[|xs| - 1])]
  }

  lemma {:induction false} MappedAt<A, B>(xs: seq<A>, f: A -> B)
    ensures |Mapped(xs, f)| == |xs|
    ensures forall i :: 0 <= i < |xs| ==> Mapped(xs, f)[i] == f(xs[i])
  {
    if xs != [] {
      var init := xs[..|xs| - 1];
      MappedAt(init, f);
      forall i | 0 <= i < |xs| ensures Mapped(xs, f)[i] == f(xs[i]) {
        if i < |init| {
          assert xs[i] == init[i];
        }
      }
    }
  }

  lemma MappedSnoc<A, B>(xs: seq<A>, x: A, f: A -> B)
    ensures Mapped(xs + [x], f) == Mapped(xs, f) + [f(x)]
  {
    assert (xs + [x])[..|xs|] == xs;
  }

  /** `submission => commit` as a value. */
  function CommitFn(table: seq<LangExt>, zone: int -> LocalDate): SubmissionWithContent -> Commit {
    sw => CommitOf(sw, table, zone)
  }

  /** The commit of each submission, in order. */
  function CommitsOf(subs: seq<SubmissionWithContent>, table: seq<LangExt>, zone: int -> LocalDate): seq<Commit> {
    Mapped(subs, CommitFn(table, zone))
  }

  /** One commit per submission, each the commit of the submission at the same place. */
  lemma CommitsOfAt(subs: seq<SubmissionWithContent>, table: seq<LangExt>, zone: int -> LocalDate)
    ensures |CommitsOf(subs, table, zone)| == |subs|
    ensures forall i :: 0 <= i < |subs| ==> CommitsOf(subs, table, zone)[i] == CommitOf(subs[i], table, zone)
  {
    MappedAt(subs, CommitFn(table, zone));
  }

  /** The `for ... of` loop that pushes `f(x)` for each element, in order. */
  method MapEach<A, B>(xs: seq<A>, f: A -> B) returns (ys: seq<B>)
    ensures ys == Mapped(xs, f)
  {
    ys := [];
    for i := 0 to |xs|
      invariant ys == Mapped(xs[..i], f)
    {
      assert xs[..i + 1] == xs[..i] + [xs[i]];
      MappedSnoc(xs[..i], xs[i], f);
      ys := ys + [f(xs[i])];
    }
    assert xs[..|xs|] == xs;
  }

  /** `calculateCommits`: the loop pushes, for each submission in order, the commit built
      from its path, details URL, content and author date. */
  method CalculateCommits(subs: seq<SubmissionWithContent>, table: seq<LangExt>, zone: int -> LocalDate)
    returns (commits: seq<Commit>)
    ensures commits == CommitsOf(subs, table, zone)
  {
    commits := MapEach(subs, CommitFn(table, zone));
  }

  /** Commits of distinct submissions (contest ids free of '/') carry distinct subjects. */
  lemma CommitOfFields(a: SubmissionWithContent, b: SubmissionWithContent, table: seq<LangExt>, zone: int -> LocalDate)
    requires forall k :: 0 <= k < |a.submission.contestId| ==> a.submission.contestId[k] != '/'
    requires forall k :: 0 <= k < |b.submission.contestId| ==> b.submission.contestId[k] != '/'
    requires (a.submission.contestId, a.submission.id) != (b.submission.contestId, b.submission.id)
    ensures CommitOf(a, table, zone).subject != CommitOf(b, table, zone).subject
  {
    if CommitOf(a, table, zone).subject == CommitOf(b, table, zone).subject {
      SubmissionDetailsUrlInjective(a.submission, b.submission);
    }
  }

  // ---------------------------------------------------------------------------
  // recentSubmissions: a stable sort by epoch second, then the binary search
  // ---------------------------------------------------------------------------

  predicate SortedByEpoch(s: seq<Submission>) {
    forall i, j :: 0 <= i < j < |s| ==> s[i].epochSecond <= s[j].epochSecond
  }

  predicate AllAtMost(s: seq<Submission>, bound: int) {
    forall i :: 0 <= i < |s| ==> s[i].epochSecond <= bound
  }

  /** Places `x` after every element of the sorted `t` whose epoch second is not larger. */
  function Insert(x: Submission, t: seq<Submission>): (r: seq<Submission>)
    ensures |r| == |t| + 1
    ensures multiset(r) == multiset(t) + multiset{x}
  {
    if t == [] then [x]
    else if t[|t| - 1].epochSecond <= x.epochSecond then t + [x]
    else
      assert t == t[..|t| - 1] + [t[|t| - 1]];
      Insert(x, t[..|t| - 1]) + [t[|t| - 1]]
  }

  /** `[...submissions].sort((l, r) => l.epoch_second - r.epoch_second)`: the stable sort
      by ascending epoch second, written as an insertion sort. */
  function SortByEpoch(s: seq<Submission>): (r: seq<Submission>)
    ensures |r| == |s| && multiset(r) == multiset(s)
  {
    if s == [] then []
    else
      assert s == s[..|s| - 1] + [s[|s| - 1]];
      Insert(s[|s| - 1], SortByEpoch(s[..|s| - 1]))
  }

  lemma {:induction false} InsertAtMost(x: Submission, t: seq<Submission>, bound: int)
    requires AllAtMost(t, bound) && x.epochSecond <= bound
    ensures AllAtMost(Insert(x, t), bound)
  {
    if t != [] && t[|t| - 1].epochSecond > x.epochSecond {
      InsertAtMost(x, t[..|t| - 1], bound);
    }
  }

  lemma {:induction false} InsertSorted(x: Submission, t: seq<Submission>)
    requires SortedByEpoch(t)
    ensures SortedByEpoch(Insert(x, t))
  {
    if t != [] && t[|t| - 1].epochSecond > x.epochSecond {
      var init, last := t[..|t| - 1], t[|t| - 1];
      InsertSorted(x, init);
      InsertAtMost(x, init, last.epochSecond);
    }
  }

  /** The result is ordered by epoch second. */
  lemma {:induction false} SortByEpochSorted(s: seq<Submission>)
    ensures SortedByEpoch(SortByEpoch(s))
  {
    if s != [] {
      SortByEpochSorted(s[..|s| - 1]);
      InsertSorted(s[|s| - 1], SortByEpoch(s[..|s| - 1]));
    }
  }

  /** The elements with epoch second `e`, in order. */
  function WithEpoch(s: seq<Submission>, e: int): seq<Submission> {
    if s == [] then []
    else WithEpoch(s[..|s| - 1], e) + if s[|s| - 1].epochSecond == e then [s[|s| - 1]] else []
  }

  lemma WithEpochAppend(s: seq<Submission>, x: Submission, e: int)
    ensures WithEpoch(s + [x], e) == WithEpoch(s, e) + if x.epochSecond == e then [x] else []
  {
    assert (s + [x])[..|s|] == s;
  }

  /** `Insert` before the last element of `t`. */
  lemma InsertBeforeLast(x: Submission, t: seq<Submission>)
    requires t != [] && t[|t| - 1].epochSecond > x.epochSecond
    ensures Insert(x, t) == Insert(x, t[..|t| - 1]) + [t[|t| - 1]]
  {
  }

  lemma {:induction false} InsertWithEpoch(x: Submission, t: seq<Submission>, e: int)
    ensures WithEpoch(Insert(x, t), e) == WithEpoch(t, e) + if x.epochSecond == e then [x] else []
  {
    if t == [] {
      assert Insert(x, t) == [] + [x];
      WithEpochAppend([], x, e);
    } else if t[|t| - 1].epochSecond <= x.epochSecond {
      WithEpochAppend(t, x, e);
    } else {
      var init, last := t[..|t| - 1], t[|t| - 1];
      InsertBeforeLast(x, t);
      InsertWithEpoch(x, init, e);
      WithEpochAppend(Insert(x, init), last, e);
      assert t == init + [last];
      WithEpochAppend(init, last, e);
      InsertWithEpochSwap(x, last, e, WithEpoch(init, e));
    }
  }

  /** Moving an element after one with a larger epoch second leaves each epoch's
      subsequence as it was. */
  lemma InsertWithEpochSwap(x: Submission, last: Submission, e: int, w: seq<Submission>)
    requires last.epochSecond > x.epochSecond
    ensures w + (if x.epochSecond == e then [x] else []) + (if last.epochSecond == e then [last] else [])
         == w + (if last.epochSecond == e then [last] else []) + (if x.epochSecond == e then [x] else [])
  {
  }

  /** The sort is stable: elements with equal epoch seconds keep their input order. */
  lemma {:induction false} SortByEpochStable(s: seq<Submission>, e: int)
    ensures WithEpoch(SortByEpoch(s), e) == WithEpoch(s, e)
  {
    if s != [] {
      var init, last := s[..|s| - 1], s[|s| - 1];
      SortByEpochStable(init, e);
      InsertWithEpoch(last, SortByEpoch(init), e);
    }
  }

  /** The `exists` callback of `recentSubmissions`: whether the repository already holds
      the submission's path. */
  function IsRecordedPath(table: seq<LangExt>, zone: int -> LocalDate, inRepo: string -> bool): Submission -> bool {
    (s: Submission) => inRepo(AppSubmissionPath(s, table, zone))
  }

  /** `recentSubmissions`: the sorted submissions from the first one the repository does
      not hold. `recorded` is its callback `sub => repo.exists(submissionPath(sub))`,
      which `PickIncoming` builds with `IsRecordedPath`. */
  method RecentSubmissions(subs: seq<Submission>, recorded: Submission -> bool)
    returns (recent: seq<Submission>)
    ensures SuffixCut(SortByEpoch(subs), recent, recorded)
  {
    var sorted := SortByEpoch(subs);
    var calls;
    recent, calls := UnexistingItems(sorted, recorded);
  }

  // ---------------------------------------------------------------------------
  // fetchSubmissionCode, fetchContents, incomingCommits
  // ---------------------------------------------------------------------------

  /** `fetchSubmissionCode`: the page through `repo.fetch(String(id), url)`, the code
      extracted from it (`extract` stands for the HTML scraping), an error when that is
      empty, otherwise the code with normalised line ends. */
  function FetchSubmissionCode(s: Submission, fetch: (string, string) -> Result<string, Error>,
                               extract: string -> string, eol: string): (r: Result<string, Error>)
    ensures fetch(IntToString(s.id), SubmissionDetailsUrl(s)).Failure? ==> r == Failure(fetch(IntToString(s.id), SubmissionDetailsUrl(s)).error)
    ensures fetch(IntToString(s.id), SubmissionDetailsUrl(s)).Success? ==>
      var code := extract(fetch(IntToString(s.id), SubmissionDetailsUrl(s)).value);
      (code == "" <==> r == Failure(CodeNotExtracted)) && (code != "" ==> r == Success(NormalizeEOL(code, eol)))
  {
    var html :- fetch(IntToString(s.id), SubmissionDetailsUrl(s));
    var code := extract(html);
    if code == "" then Failure(CodeNotExtracted) else Success(NormalizeEOL(code, eol))
  }

  /** Code without carriage returns arrives with each line feed replaced by the EOL. */
  lemma FetchSubmissionCodeWithoutCR(s: Submission, fetch: (string, string) -> Result<string, Error>,
                                     extract: string -> string, eol: string)
    requires fetch(IntToString(s.id), SubmissionDetailsUrl(s)).Success?
    requires var code := extract(fetch(IntToString(s.id), SubmissionDetailsUrl(s)).value); code != "" && '\r' !in code
    ensures FetchSubmissionCode(s, fetch, extract, eol) ==
      Success(ReplaceAll(extract(fetch(IntToString(s.id), SubmissionDetailsUrl(s)).value), "\n", eol))
  {
    NormalizeEOLWithoutCR(extract(fetch(IntToString(s.id), SubmissionDetailsUrl(s)).value), eol);
  }

  /** `fetchContents`: the code of each submission, fetched one after another; the first
      failure ends the loop and is the result. `fetchCode` stands for
      `fetchSubmissionCode` against the repository. */
  method FetchContents(subs: seq<Submission>, fetchCode: Submission -> Result<string, Error>)
    returns (r: Result<seq<SubmissionWithContent>, Error>)
    ensures r.Success? ==>
      && |r.value| == |subs|
      && forall i :: 0 <= i < |subs| ==>
           fetchCode(subs[i]).Success? && r.value[i] == SubmissionWithContent(subs[i], fetchCode(subs[i]).value)
    ensures r.Failure? ==>
      exists k :: 0 <= k < |subs| && fetchCode(subs[k]) == Failure(r.error) &&
        forall i :: 0 <= i < k ==> fetchCode(subs[i]).Success?
  {
    var out: seq<SubmissionWithContent> := [];
    for i := 0 to |subs|
      invariant |out| == i
      invariant forall j :: 0 <= j < i ==>
        fetchCode(subs[j]).Success? && out[j] == SubmissionWithContent(subs[j], fetchCode(subs[j]).value)
    {
      var content := fetchCode(subs[i]);
      if content.Failure? {
        return Failure(content.error);
      }
      out := out + [SubmissionWithContent(subs[i], content.value)];
    }
    r := Success(out);
  }

  /** `allSubs.filter(s => s.user_id === user_id)`: only the user's submissions, and every
      one of them (multiplicities: OwnSubmissionsCount; order: OwnSubmissionsAppend). */
  function OwnSubmissions(subs: seq<Submission>, userId: string): (r: seq<Submission>)
    ensures forall i :: 0 <= i < |r| ==> r[i].userId == userId
    ensures forall i :: 0 <= i < |subs| && subs[i].userId == userId ==> subs[i] in r
  {
    if subs == [] then []
    else
      (if subs[0].userId == userId then [subs[0]] else []) + OwnSubmissions(subs[1..], userId)
  }

  /** The filter keeps each of the user's submissions as often as the input holds it, and
      nothing else. */
  lemma {:induction false} OwnSubmissionsCount(subs: seq<Submission>, userId: string)
    ensures forall x ::
      multiset(OwnSubmissions(subs, userId))[x] == (if x.userId == userId then multiset(subs)[x] else 0)
  {
    if subs != [] {
      assert subs == [subs[0]] + subs[1..];
      OwnSubmissionsCount(subs[1..], userId);
    }
  }

  /** The filter keeps the input order: filtering a concatenation concatenates the
      filtered parts. */
  lemma {:induction false} OwnSubmissionsAppend(a: seq<Submission>, b: seq<Submission>, userId: string)
    ensures OwnSubmissions(a + b, userId) == OwnSubmissions(a, userId) + OwnSubmissions(b, userId)
  {
    if a == [] {
      assert a + b == b;
    } else {
      assert (a + b)[0] == a[0] && (a + b)[1..] == a[1..] + b;
      OwnSubmissionsAppend(a[1..], b, userId);
    }
  }

  /** `xs.slice(0, limit)`: a negative limit counts from the end. */
  function SliceTo<T>(xs: seq<T>, limit: int): (r: seq<T>)
    ensures |r| <= |xs| && r == xs[..|r|]
    ensures limit >= 0 ==> |r| == if limit < |xs| then limit else |xs|
    ensures limit < 0 ==> |r| == if |xs| + limit > 0 then |xs| + limit else 0
  {
    if limit >= 0 then (if limit < |xs| then xs[..limit] else xs)
    else if |xs| + limit > 0 then xs[..|xs| + limit] else []
  }

  /** The user's own submissions in time order are the user's and in time order. */
  lemma OwnSorted(allSubs: seq<Submission>, userId: string)
    ensures var sorted := SortByEpoch(OwnSubmissions(allSubs, userId));
      && SortedByEpoch(sorted)
      && forall i :: 0 <= i < |sorted| ==> sorted[i].userId == userId
  {
    var own := OwnSubmissions(allSubs, userId);
    var sorted := SortByEpoch(own);
    SortByEpochSorted(own);
    forall i | 0 <= i < |sorted| ensures sorted[i].userId == userId {
      assert sorted[i] in multiset(own);
    }
  }

  /** A window cut from a suffix of `sorted` keeps the user and the time order. */
  lemma SuffixWindow(sorted: seq<Submission>, recent: seq<Submission>, userId: string, limit: int)
    requires SortedByEpoch(sorted) && forall i :: 0 <= i < |sorted| ==> sorted[i].userId == userId
    requires |recent| <= |sorted| && recent == sorted[|sorted| - |recent|..]
    ensures var w := SliceTo(recent, limit);
      && (exists k :: 0 <= k <= |sorted| && w == SliceTo(sorted[k..], limit))
      && (forall i :: 0 <= i < |w| ==> w[i].userId == userId)
      && SortedByEpoch(w)
  {
    var k := |sorted| - |recent|;
    var w := SliceTo(recent, limit);
    assert w == SliceTo(sorted[k..], limit);
    forall i | 0 <= i < |w| ensures w[i] == sorted[k + i] {
      assert w[i] == recent[i];
    }
  }

  /** The selection half of `incomingCommits`: the user's own submissions, sorted by
      time, from the first one the repository does not hold, at most `limit` of them
      (a negative `limit` counts from the end). */
  method PickIncoming(userId: string, limit: int, allSubs: seq<Submission>, table: seq<LangExt>,
                      zone: int -> LocalDate, inRepo: string -> bool)
    returns (picked: seq<Submission>)
    ensures limit >= 0 ==> |picked| <= limit
    ensures forall i :: 0 <= i < |picked| ==> picked[i].userId == userId
    ensures SortedByEpoch(picked)
    ensures var sorted := SortByEpoch(OwnSubmissions(allSubs, userId));
      && (exists k :: 0 <= k <= |sorted| && picked == SliceTo(sorted[k..], limit))
      && (RecordedPrefix(sorted, IsRecordedPath(table, zone, inRepo)) ==>
            picked == SliceTo(Unrecorded(sorted, IsRecordedPath(table, zone, inRepo)), limit))
  {
    var yourSubs := OwnSubmissions(allSubs, userId);
    var recentSubs := RecentSubmissions(yourSubs, IsRecordedPath(table, zone, inRepo));
    OwnSorted(allSubs, userId);
    SuffixWindow(SortByEpoch(yourSubs), recentSubs, userId, limit);
    picked := SliceTo(recentSubs, limit);
  }

  /** `incomingCommits`: the submissions `PickIncoming` selects, each fetched in turn and
      turned into a commit; the first failed fetch is the result. `picked` names the
      submissions the commits are made for. */
  method IncomingCommits(userId: string, limit: int, allSubs: seq<Submission>, table: seq<LangExt>,
                         zone: int -> LocalDate, inRepo: string -> bool,
                         fetchCode: Submission -> Result<string, Error>)
    returns (r: Result<seq<Commit>, Error>, picked: seq<Submission>)
    ensures limit >= 0 ==> |picked| <= limit
    ensures forall i :: 0 <= i < |picked| ==> picked[i].userId == userId
    ensures SortedByEpoch(picked)
    ensures var sorted := SortByEpoch(OwnSubmissions(allSubs, userId));
      RecordedPrefix(sorted, IsRecordedPath(table, zone, inRepo)) ==>
        picked == SliceTo(Unrecorded(sorted, IsRecordedPath(table, zone, inRepo)), limit)
    ensures r.Success? ==>
      && |r.value| == |picked|
      && forall i :: 0 <= i < |picked| ==>
           fetchCode(picked[i]).Success? &&
           r.value[i] == CommitOf(SubmissionWithContent(picked[i], fetchCode(picked[i]).value), table, zone)
    ensures r.Failure? ==>
      exists k :: 0 <= k < |picked| && fetchCode(picked[k]) == Failure(r.error) &&
        forall j :: 0 <= j < k ==> fetchCode(picked[j]).Success?
  {
    picked := PickIncoming(userId, limit, allSubs, table, zone, inRepo);
    var withContents := FetchContents(picked, fetchCode);
    if withContents.Failure? {
      return Failure(withContents.error), picked;
    }
    var commits := CalculateCommits(withContents.value, table, zone);
    CommitsOfAt(withContents.value, table, zone);
    r := Success(commits);
  }
}
