/** src/infra-atcoder.ts: the AtCoder contest service. The submission list arrives as
    parsed JSON and every record is validated field by field; the details page URL and
    the code fetch are built from the submission. JSON text parsing and the HTML
    scraping are outside the model: the parsed value and the scraper are inputs. */
module InfraAtcoder {
  import opened Wrappers
  import opened Types
  import opened Strings
  import opened Utils

  /** The name under which this service files its submissions. */
  const ServiceName: string := "atcoder"

  /** A parsed JSON value. Numbers are integers in this model. */
  datatype Json =
    | JNull
    | JBool(b: bool)
    | JNumber(n: int)
    | JString(s: string)
    | JArray(items: seq<Json>)
    | JObject(fields: map<string, Json>)

  /** What destructuring reads for a property of a non-null value: an object's own
      field, the `length` of an array or a string, and `undefined` (`None`) otherwise. */
  function Field(item: Json, name: string): (r: Option<Json>)
    ensures item.JObject? ==> (r.Some? <==> name in item.fields)
    ensures (item.JNumber? || item.JBool? || item.JNull?) ==> r == None
  {
    match item
    case JObject(fields) => if name in fields then Some(fields[name]) else None
    case JArray(items) => if name == "length" then Some(JNumber(|items|)) else None
    case JString(s) => if name == "length" then Some(JNumber(|s|)) else None
    case _ => None
  }

  /** `typeof x === "number"`. */
  function NumberField(item: Json, name: string): Option<int> {
    match Field(item, name)
    case Some(JNumber(n)) => Some(n)
    case _ => None
  }

  /** `typeof x === "string"`. */
  function StringField(item: Json, name: string): Option<string> {
    match Field(item, name)
    case Some(JString(s)) => Some(s)
    case _ => None
  }

  /** `execution_time == null || typeof execution_time === "number"`, as the value kept. */
  function ExecutionTime(item: Json): Option<Nullable> {
    match Field(item, "execution_time")
    case None => Some(Undefined)
    case Some(JNull) => Some(Null)
    case Some(JNumber(n)) => Some(Number(n))
    case _ => None
  }

  /** The ten fields a submission record carries. */
  const SubmissionFields: set<string> := {
    "execution_time", "point", "result", "problem_id", "user_id",
    "epoch_second", "contest_id", "id", "language", "length"
  }

  /** `verifySubmission`: a record whose ten fields have the expected types, with the
      requested user, becomes a submission holding exactly those values; any other
      record is rejected, and `null` fails already at the destructuring. */
  function VerifySubmission(item: Json, userId: string): (r: Result<Submission, Error>)
    ensures r == Failure(CannotDestructure) <==> item.JNull?
    ensures r.Success? <==>
      && !item.JNull?
      && ExecutionTime(item).Some?
      && NumberField(item, "point").Some?
      && StringField(item, "result").Some?
      && StringField(item, "problem_id").Some?
      && StringField(item, "user_id") == Some(userId)
      && NumberField(item, "epoch_second").Some?
      && StringField(item, "contest_id").Some?
      && NumberField(item, "id").Some?
      && StringField(item, "language").Some?
      && NumberField(item, "length").Some?
    ensures r.Failure? ==> r.error == CannotDestructure || r.error == UnexpectedData
    ensures r.Success? ==>
      && r.value.userId == userId
      && Some(r.value.executionTime) == ExecutionTime(item)
      && Some(r.value.point) == NumberField(item, "point")
      && Some(r.value.result) == StringField(item, "result")
      && Some(r.value.problemId) == StringField(item, "problem_id")
      && Some(r.value.epochSecond) == NumberField(item, "epoch_second")
      && Some(r.value.contestId) == StringField(item, "contest_id")
      && Some(r.value.id) == NumberField(item, "id")
      && Some(r.value.language) == StringField(item, "language")
      && Some(r.value.length) == NumberField(item, "length")
  {
    if item.JNull? then Failure(CannotDestructure)
    else
      var executionTime, point, result, problemId := ExecutionTime(item), NumberField(item, "point"),
        StringField(item, "result"), StringField(item, "problem_id");
      var user, epochSecond, contestId, id := StringField(item, "user_id"), NumberField(item, "epoch_second"),
        StringField(item, "contest_id"), NumberField(item, "id");
      var language, length := StringField(item, "language"), NumberField(item, "length");
      if executionTime.Some? && point.Some? && result.Some? && problemId.Some? && user == Some(userId)
         && epochSecond.Some? && contestId.Some? && id.Some? && language.Some? && length.Some?
      then Success(Submission(executionTime.value, point.value, result.value, problemId.value, userId,
                              epochSecond.value, contestId.value, id.value, language.value, length.value))
      else Failure(UnexpectedData)
  }

  /** The JSON record of a submission as the results API serves it; an undefined
      execution time is an absent field. */
  function ToJson(s: Submission): Json {
    var fields := map[
      "point" := JNumber(s.point), "result" := JString(s.result), "problem_id" := JString(s.problemId),
      "user_id" := JString(s.userId), "epoch_second" := JNumber(s.epochSecond),
      "contest_id" := JString(s.contestId), "id" := JNumber(s.id), "language" := JString(s.language),
      "length" := JNumber(s.length)];
    match s.executionTime
    case Undefined => JObject(fields)
    case Null => JObject(fields["execution_time" := JNull])
    case Number(n) => JObject(fields["execution_time" := JNumber(n)])
  }

  /** The record serves the execution time and the submission's own fields. */
  lemma ToJsonOwnFields(s: Submission)
    ensures ExecutionTime(ToJson(s)) == Some(s.executionTime)
    ensures StringField(ToJson(s), "user_id") == Some(s.userId)
    ensures NumberField(ToJson(s), "id") == Some(s.id)
    ensures StringField(ToJson(s), "contest_id") == Some(s.contestId)
  {
  }

  /** The record serves the judging fields. */
  lemma ToJsonJudgeFields(s: Submission)
    ensures NumberField(ToJson(s), "point") == Some(s.point)
    ensures StringField(ToJson(s), "result") == Some(s.result)
    ensures NumberField(ToJson(s), "length") == Some(s.length)
  {
  }

  /** The record serves the problem, the time and the language. */
  lemma ToJsonProblemFields(s: Submission)
    ensures StringField(ToJson(s), "problem_id") == Some(s.problemId)
    ensures NumberField(ToJson(s), "epoch_second") == Some(s.epochSecond)
    ensures StringField(ToJson(s), "language") == Some(s.language)
  {
  }

  /** Validation recovers every submission from its record. */
  lemma VerifySubmissionRoundTrip(s: Submission)
    ensures VerifySubmission(ToJson(s), s.userId) == Success(s)
  {
    ToJsonOwnFields(s);
    ToJsonJudgeFields(s);
    ToJsonProblemFields(s);
  }

  /** A record of another user is rejected, not skipped. */
  lemma VerifySubmissionForeignUser(s: Submission, userId: string)
    requires s.userId != userId
    ensures VerifySubmission(ToJson(s), userId) == Failure(UnexpectedData)
  {
    ToJsonOwnFields(s);
  }

  /** Fields beyond the ten are dropped: they change nothing in the outcome. */
  lemma VerifySubmissionIgnoresExtraFields(fields: map<string, Json>, name: string, v: Json, userId: string)
    requires name !in SubmissionFields
    ensures VerifySubmission(JObject(fields[name := v]), userId) == VerifySubmission(JObject(fields), userId)
  {
    var a, b := JObject(fields[name := v]), JObject(fields);
    forall f | f in SubmissionFields ensures Field(a, f) == Field(b, f) {
    }
    assert ExecutionTime(a) == ExecutionTime(b) by {
      assert Field(a, "execution_time") == Field(b, "execution_time");
    }
  }

  /** Arrays, strings, numbers and booleans are not records: all of them are rejected. */
  lemma VerifySubmissionNonRecord(item: Json, userId: string)
    requires item.JArray? || item.JString? || item.JNumber? || item.JBool?
    ensures VerifySubmission(item, userId) == Failure(UnexpectedData)
  {
    assert NumberField(item, "point").None?;
  }

  /** `items.map(item => verifySubmission(item, userId))`: every record validated in
      order, the first rejection thrown. */
  function VerifyAll(items: seq<Json>, userId: string): (r: Result<seq<Submission>, Error>)
    ensures r.Success? ==>
      && |r.value| == |items|
      && forall i :: 0 <= i < |items| ==> VerifySubmission(items[i], userId) == Success(r.value[i])
    ensures r.Failure? ==>
      exists k :: 0 <= k < |items| && VerifySubmission(items[k], userId) == Failure(r.error) &&
        forall j :: 0 <= j < k ==> VerifySubmission(items[j], userId).Success?
  {
    if items == [] then Success([])
    else
      var head :- VerifySubmission(items[0], userId);
      var tail := VerifyAll(items[1..], userId);
      if tail.Failure? then
        ghost var k :| 0 <= k < |items[1..]| && VerifySubmission(items[1..][k], userId) == Failure(tail.error) &&
          forall j :: 0 <= j < k ==> VerifySubmission(items[1..][j], userId).Success?;
        assert VerifySubmission(items[k + 1], userId) == Failure(tail.error);
        assert forall j :: 0 <= j < k + 1 ==> VerifySubmission(items[j], userId).Success? by {
          forall j | 0 <= j < k + 1 ensures VerifySubmission(items[j], userId).Success? {
            if j > 0 {
              assert items[j] == items[1..][j - 1];
            }
          }
        }
        Failure(tail.error)
      else
        Success([head] + tail.value)
  }

  /** One rejected record makes the whole validation fail. */
  lemma {:induction false} VerifyAllFailsAt(items: seq<Json>, userId: string, k: nat)
    requires k < |items| && VerifySubmission(items[k], userId).Failure?
    ensures VerifyAll(items, userId).Failure?
  {
    if k > 0 && VerifySubmission(items[0], userId).Success? {
      assert items[1..][k - 1] == items[k];
      VerifyAllFailsAt(items[1..], userId, k - 1);
    }
  }

  /** The results API address for a user. */
  function ApiResultsUrl(userId: string): string {
    "https://kenkoooo.com/atcoder/atcoder-api/results?user=" + userId + "&rivals="
  }

  /** `atcoderFetchSubmissions`: the user's results, parsed (`fetchJson` stands for the
      request and `JSON.parse`); anything but an array is rejected, an array is validated
      element by element. */
  function AtcoderFetchSubmissions(userId: string, fetchJson: string -> Result<Json, Error>): (r: Result<seq<Submission>, Error>)
    ensures fetchJson(ApiResultsUrl(userId)).Failure? ==> r == Failure(fetchJson(ApiResultsUrl(userId)).error)
    ensures fetchJson(ApiResultsUrl(userId)).Success? && !fetchJson(ApiResultsUrl(userId)).value.JArray? ==>
      r == Failure(UnexpectedData)
    ensures r.Success? ==>
      && fetchJson(ApiResultsUrl(userId)).Success? && fetchJson(ApiResultsUrl(userId)).value.JArray?
      && var items := fetchJson(ApiResultsUrl(userId)).value.items;
      && |r.value| == |items|
      && (forall i :: 0 <= i < |items| ==> VerifySubmission(items[i], userId) == Success(r.value[i]))
      && forall i :: 0 <= i < |items| ==> r.value[i].userId == userId
    ensures fetchJson(ApiResultsUrl(userId)).Success? && fetchJson(ApiResultsUrl(userId)).value.JArray? && r.Failure? ==>
      var items := fetchJson(ApiResultsUrl(userId)).value.items;
      exists k ::
        && 0 <= k < |items| && VerifySubmission(items[k], userId) == Failure(r.error)
        && forall j :: 0 <= j < k ==> VerifySubmission(items[j], userId).Success?
  {
    var parsed :- fetchJson(ApiResultsUrl(userId));
    if !parsed.JArray? then Failure(UnexpectedData) else VerifyAll(parsed.items, userId)
  }

  /** The records of a list of submissions. */
  function ToJsonAll(subs: seq<Submission>): (items: seq<Json>)
    ensures |items| == |subs| && forall i :: 0 <= i < |subs| ==> items[i] == ToJson(subs[i])
  {
    if subs == [] then [] else [ToJson(subs[0])] + ToJsonAll(subs[1..])
  }

  /** One step of the validation: a good first record followed by a good rest. */
  lemma VerifyAllCons(items: seq<Json>, userId: string, head: Submission, rest: seq<Submission>)
    requires items != [] && VerifySubmission(items[0], userId) == Success(head)
    requires VerifyAll(items[1..], userId) == Success(rest)
    ensures VerifyAll(items, userId) == Success([head] + rest)
  {
  }

  /** The user's own submissions, served as records, come back as they were, in order. */
  lemma {:induction false} VerifyAllRoundTrip(subs: seq<Submission>, userId: string)
    requires forall i :: 0 <= i < |subs| ==> subs[i].userId == userId
    ensures VerifyAll(ToJsonAll(subs), userId) == Success(subs)
  {
    if subs != [] {
      var items := ToJsonAll(subs);
      assert items[0] == ToJson(subs[0]);
      VerifySubmissionRoundTrip(subs[0]);
      assert items[1..] == ToJsonAll(subs[1..]);
      VerifyAllRoundTrip(subs[1..], userId);
      VerifyAllCons(items, userId, subs[0], subs[1..]);
      assert [subs[0]] + subs[1..] == subs;
    }
  }

  /** Fetching a list of the user's own submissions yields that list. */
  lemma AtcoderFetchSubmissionsRoundTrip(subs: seq<Submission>, userId: string, fetchJson: string -> Result<Json, Error>)
    requires forall i :: 0 <= i < |subs| ==> subs[i].userId == userId
    requires fetchJson(ApiResultsUrl(userId)) == Success(JArray(ToJsonAll(subs)))
    ensures AtcoderFetchSubmissions(userId, fetchJson) == Success(subs)
  {
    VerifyAllRoundTrip(subs, userId);
  }

  /** One record of another user makes the whole fetch fail. */
  lemma AtcoderFetchSubmissionsForeign(subs: seq<Submission>, userId: string, k: nat,
                                       fetchJson: string -> Result<Json, Error>)
    requires k < |subs| && subs[k].userId != userId
    requires fetchJson(ApiResultsUrl(userId)) == Success(JArray(ToJsonAll(subs)))
    ensures AtcoderFetchSubmissions(userId, fetchJson).Failure?
  {
    VerifySubmissionForeignUser(subs[k], userId);
    VerifyAllFailsAt(ToJsonAll(subs), userId, k);
  }

  /** `atcoderSubmissionDetailsUrl`. */
  function AtcoderSubmissionDetailsUrl(s: Submission): string {
    "https://atcoder.jp/contests/" + s.contestId + "/submissions/" + IntToString(s.id)
  }

  /** Contest ids free of '/' make the details URL name exactly one submission. */
  lemma AtcoderSubmissionDetailsUrlInjective(s: Submission, t: Submission)
    requires forall k :: 0 <= k < |s.contestId| ==> s.contestId[k] != '/'
    requires forall k :: 0 <= k < |t.contestId| ==> t.contestId[k] != '/'
    requires AtcoderSubmissionDetailsUrl(s) == AtcoderSubmissionDetailsUrl(t)
    ensures s.contestId == t.contestId && s.id == t.id
  {
    PrefixedSeparatedInjective("https://atcoder.jp/contests/", s.contestId, "/submissions/", IntToString(s.id),
                               t.contestId, IntToString(t.id));
    IntToStringInjective(s.id, t.id);
  }


  /** `atcoderFetchCode`: the details page through `fetchHtml`, the code scraped from it
      (`extract`), an error when that is empty, otherwise the code with normalised
      line ends. */
  function AtcoderFetchCode(s: Submission, fetchHtml: string -> Result<string, Error>,
                            extract: string -> string, eol: string): (r: Result<string, Error>)
    ensures fetchHtml(AtcoderSubmissionDetailsUrl(s)).Failure? ==>
      r == Failure(fetchHtml(AtcoderSubmissionDetailsUrl(s)).error)
    ensures fetchHtml(AtcoderSubmissionDetailsUrl(s)).Success? ==>
      var code := extract(fetchHtml(AtcoderSubmissionDetailsUrl(s)).value);
      (code == "" <==> r == Failure(CodeNotExtracted)) && (code != "" ==> r == Success(NormalizeEOL(code, eol)))
  {
    var html :- fetchHtml(AtcoderSubmissionDetailsUrl(s));
    var code := extract(html);
    if code == "" then Failure(CodeNotExtracted) else Success(NormalizeEOL(code, eol))
  }

  /** Scraped code without carriage returns comes back with each line feed replaced by
      the EOL and nothing else changed. */
  lemma AtcoderFetchCodeWithoutCR(s: Submission, fetchHtml: string -> Result<string, Error>,
                                  extract: string -> string, eol: string)
    requires fetchHtml(AtcoderSubmissionDetailsUrl(s)).Success?
    requires var code := extract(fetchHtml(AtcoderSubmissionDetailsUrl(s)).value); code != "" && '\r' !in code
    ensures AtcoderFetchCode(s, fetchHtml, extract, eol) ==
      Success(ReplaceAll(extract(fetchHtml(AtcoderSubmissionDetailsUrl(s)).value), "\n", eol))
  {
    NormalizeEOLWithoutCR(extract(fetchHtml(AtcoderSubmissionDetailsUrl(s)).value), eol);
  }
}
