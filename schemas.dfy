/**
 * The request validators of src/lib/schemas.ts: zod object schemas that
 * check a parsed JSON body field by field, collect every issue in field
 * order, and on success hand back the trimmed, defaulted data. `FormatIssues`
 * is `formatZodError`.
 *
 * A JSON string's length is its number of characters here; JavaScript counts
 * UTF-16 code units.
 */
module Schemas {
  import opened Wrappers
  import opened Text

  /** A parsed JSON value. */
  datatype Json =
    | JNull
    | JBool(b: bool)
    | JNum(n: real)
    | JStr(s: string)
    | JArr(items: seq<Json>)
    | JObj(fields: map<string, Json>)

  /** One step of an issue's path: an object key or an array index. */
  datatype PathPart = Key(name: string) | Index(i: nat)

  /** A zod issue: where it is and what it says. */
  datatype Issue = Issue(path: seq<PathPart>, message: string)

  /** What zod calls the type of a value it did not expect. */
  function TypeName(v: Json): string {
    match v
    case JNull => "null"
    case JBool(_) => "boolean"
    case JNum(_) => "number"
    case JStr(_) => "string"
    case JArr(_) => "array"
    case JObj(_) => "object"
  }

  /** A body field, `None` when the key is absent (`undefined`). */
  function Field(body: Json, key: string): Option<Json> {
    if body.JObj? && key in body.fields then Some(body.fields[key]) else None
  }

  /** The issue for a missing value or one of the wrong type. */
  function TypeIssue(path: seq<PathPart>, expected: string, v: Option<Json>): Issue {
    Issue(path, if v.None? then "Required" else "Expected " + expected + ", received " + TypeName(v.value))
  }

  predicate IsString(v: Option<Json>) {
    v.Some? && v.value.JStr?
  }

  /** The string in a field already known to be one ("" otherwise). */
  function StringOf(v: Option<Json>): string {
    if IsString(v) then v.value.s else ""
  }

  // ---------------------------------------------------------------- field checks

  /** `z.string().min(lo, loMessage).max(hi, hiMessage)` on a required field. */
  function StringIssues(key: string, v: Option<Json>, lo: nat, loMessage: string, hi: nat, hiMessage: string): seq<Issue> {
    if !IsString(v) then [TypeIssue([Key(key)], "string", v)]
    else
      (if |v.value.s| < lo then [Issue([Key(key)], loMessage)] else [])
      + (if |v.value.s| > hi then [Issue([Key(key)], hiMessage)] else [])
  }

  /** `z.string().min(1, message)` with no upper bound. */
  function NonEmptyStringIssues(key: string, v: Option<Json>, message: string): seq<Issue> {
    if !IsString(v) then [TypeIssue([Key(key)], "string", v)]
    else if |v.value.s| < 1 then [Issue([Key(key)], message)]
    else []
  }

  /** `z.string().max(hi, message).optional()`: absence is fine. */
  function OptionalStringIssues(key: string, v: Option<Json>, hi: nat, message: string): seq<Issue> {
    if v.None? then []
    else if !v.value.JStr? then [TypeIssue([Key(key)], "string", v)]
    else if |v.value.s| > hi then [Issue([Key(key)], message)]
    else []
  }

  const MaxTagLength := 50
  const TagTooLong := "Tag name must be at most 50 characters"

  /** `tagSchema` on the element at `path`. */
  function TagIssues(path: seq<PathPart>, v: Json): seq<Issue> {
    if !v.JStr? then [TypeIssue(path, "string", Some(v))]
    else if |v.s| > MaxTagLength then [Issue(path, TagTooLong)]
    else []
  }

  /** The issues of every element of a tags array, in index order. */
  function ElementIssues(items: seq<Json>): seq<Issue> {
    if items == [] then []
    else ElementIssues(items[..|items| - 1]) + TagIssues([Key("tags"), Index(|items| - 1)], items[|items| - 1])
  }

  /** `z.array(tagSchema).optional()`. */
  function TagsIssues(v: Option<Json>): seq<Issue> {
    if v.None? then []
    else if !v.value.JArr? then [TypeIssue([Key("tags")], "array", v)]
    else ElementIssues(v.value.items)
  }

  /** The tag names of an array already known to hold only strings; `[]` when
      absent (`.default([])`). */
  function TagNames(v: Option<Json>): seq<string> {
    if v.Some? && v.value.JArr? then
      seq(|v.value.items|, i requires 0 <= i < |v.value.items| => if v.value.items[i].JStr? then v.value.items[i].s else "")
    else []
  }

  /** `.transform((val) => val?.trim() || undefined)`: trimmed, and gone when blank. */
  function TrimmedOrNone(v: Option<Json>): Option<string> {
    if IsString(v) && Trim(v.value.s) != [] then Some(Trim(v.value.s)) else None
  }

  function ObjectIssues(body: Json): seq<Issue> {
    [Issue([], "Expected object, received " + TypeName(body))]
  }

  // ---------------------------------------------------------------- schemas

  const MaxNameLength := 200
  const MaxDescriptionLength := 5000
  const MaxNotesLength := 500

  /** The data `createIdeaSchema` and `updateIdeaSchema` (the same schema)
      hand back. */
  datatype IdeaInput = IdeaInput(topicId: string, name: string, description: Option<string>, tags: seq<string>)

  /** The data `topicSchema` hands back. */
  datatype TopicInput = TopicInput(name: string, description: Option<string>, tags: seq<string>)

  /** The data `feedbackSchema` hands back. */
  datatype FeedbackInput = FeedbackInput(rating: int, notes: Option<string>)

  function NameIssues(body: Json): seq<Issue> {
    StringIssues("name", Field(body, "name"), 1, "Name is required", MaxNameLength, "Name must be at most 200 characters")
  }

  function DescriptionIssues(body: Json): seq<Issue> {
    OptionalStringIssues("description", Field(body, "description"), MaxDescriptionLength, "Description must be at most 5000 characters")
  }

  function IdeaIssues(body: Json): seq<Issue> {
    if !body.JObj? then ObjectIssues(body)
    else
      NonEmptyStringIssues("topicId", Field(body, "topicId"), "Topic ID is required")
      + NameIssues(body) + DescriptionIssues(body) + TagsIssues(Field(body, "tags"))
  }

  /** `updateIdeaSchema.safeParse(body)` (and `createIdeaSchema`'s). */
  function ParseIdea(body: Json): Result<IdeaInput, seq<Issue>> {
    var issues := IdeaIssues(body);
    if issues != [] then Failure(issues)
    else Success(IdeaInput(
      StringOf(Field(body, "topicId")),
      Trim(StringOf(Field(body, "name"))),
      TrimmedOrNone(Field(body, "description")),
      TagNames(Field(body, "tags"))))
  }

  function TopicIssues(body: Json): seq<Issue> {
    if !body.JObj? then ObjectIssues(body)
    else NameIssues(body) + DescriptionIssues(body) + TagsIssues(Field(body, "tags"))
  }

  /** `topicSchema.safeParse(body)`. */
  function ParseTopic(body: Json): Result<TopicInput, seq<Issue>> {
    var issues := TopicIssues(body);
    if issues != [] then Failure(issues)
    else Success(TopicInput(
      Trim(StringOf(Field(body, "name"))),
      TrimmedOrNone(Field(body, "description")),
      TagNames(Field(body, "tags"))))
  }

  predicate IsWhole(n: real) {
    n == n.Floor as real
  }

  /** `z.number().int().min(1, ...).max(5, ...)`: every failed check reports. */
  function RatingIssues(v: Option<Json>): seq<Issue> {
    if v.None? || !v.value.JNum? then [TypeIssue([Key("rating")], "number", v)]
    else
      (if !IsWhole(v.value.n) then [Issue([Key("rating")], "Expected integer, received float")] else [])
      + (if v.value.n < 1.0 then [Issue([Key("rating")], "Rating must be at least 1")] else [])
      + (if v.value.n > 5.0 then [Issue([Key("rating")], "Rating must be at most 5")] else [])
  }

  function FeedbackIssues(body: Json): seq<Issue> {
    if !body.JObj? then ObjectIssues(body)
    else
      RatingIssues(Field(body, "rating"))
      + OptionalStringIssues("notes", Field(body, "notes"), MaxNotesLength, "Notes must be at most 500 characters")
  }

  /** `feedbackSchema.safeParse(body)`. */
  function ParseFeedback(body: Json): Result<FeedbackInput, seq<Issue>> {
    var issues := FeedbackIssues(body);
    if issues != [] then Failure(issues)
    else Success(FeedbackInput(
      var v := Field(body, "rating"); if v.Some? && v.value.JNum? then v.value.n.Floor else 0,
      TrimmedOrNone(Field(body, "notes"))))
  }

  // ---------------------------------------------------------------- formatZodError

  function PartText(p: PathPart): string {
    match p
    case Key(k) => k
    case Index(i) => NatToString(i)
  }

  /** `e.path.join(".")`. */
  function PathText(path: seq<PathPart>): string {
    Join(seq(|path|, i requires 0 <= i < |path| => PartText(path[i])), ".")
  }

  function IssueText(e: Issue): string {
    PathText(e.path) + ": " + e.message
  }

  /** `formatZodError`. */
  function FormatIssues(issues: seq<Issue>): string {
    Join(seq(|issues|, i requires 0 <= i < |issues| => IssueText(issues[i])), ", ")
  }

  // ---------------------------------------------------------------- what the schemas accept

  predicate StringWithin(v: Option<Json>, lo: nat, hi: nat) {
    IsString(v) && lo <= |v.value.s| <= hi
  }

  predicate OptionalStringWithin(v: Option<Json>, hi: nat) {
    v.None? || (v.value.JStr? && |v.value.s| <= hi)
  }

  /** Absent, or an array of strings of at most 50 characters each. */
  predicate ValidTags(v: Option<Json>) {
    v.None? || (v.value.JArr? && forall i :: 0 <= i < |v.value.items| ==> v.value.items[i].JStr? && |v.value.items[i].s| <= MaxTagLength)
  }

  /** The bodies the idea schemas accept, stated field by field. */
  predicate ValidIdeaBody(body: Json) {
    && body.JObj?
    && IsString(Field(body, "topicId")) && |Field(body, "topicId").value.s| >= 1
    && StringWithin(Field(body, "name"), 1, MaxNameLength)
    && OptionalStringWithin(Field(body, "description"), MaxDescriptionLength)
    && ValidTags(Field(body, "tags"))
  }

  /** The bodies `topicSchema` accepts. */
  predicate ValidTopicBody(body: Json) {
    && body.JObj?
    && StringWithin(Field(body, "name"), 1, MaxNameLength)
    && OptionalStringWithin(Field(body, "description"), MaxDescriptionLength)
    && ValidTags(Field(body, "tags"))
  }

  /** The bodies `feedbackSchema` accepts. */
  predicate ValidFeedbackBody(body: Json) {
    && body.JObj?
    && Field(body, "rating").Some? && Field(body, "rating").value.JNum?
    && IsWhole(Field(body, "rating").value.n) && 1.0 <= Field(body, "rating").value.n <= 5.0
    && OptionalStringWithin(Field(body, "notes"), MaxNotesLength)
  }

  /** A tags array reports nothing exactly when every element is a string of
      at most 50 characters; otherwise every issue is about one element. */
  lemma {:induction false} ElementIssuesSpec(items: seq<Json>)
    ensures ElementIssues(items) == [] <==> forall i :: 0 <= i < |items| ==> items[i].JStr? && |items[i].s| <= MaxTagLength
    ensures forall e :: e in ElementIssues(items) ==> |e.path| == 2 && e.path[0] == Key("tags") && e.path[1].Index? && e.path[1].i < |items|
  {
    if items != [] {
      var init := items[..|items| - 1];
      ElementIssuesSpec(init);
      assert forall i :: 0 <= i < |init| ==> init[i] == items[i];
    }
  }

  lemma TagsIssuesSpec(v: Option<Json>)
    ensures TagsIssues(v) == [] <==> ValidTags(v)
    ensures forall e :: e in TagsIssues(v) ==> |e.path| >= 1 && e.path[0] == Key("tags")
  {
    if v.Some? && v.value.JArr? {
      ElementIssuesSpec(v.value.items);
    }
  }

  /** The idea schemas accept exactly the valid bodies. */
  lemma ParseIdeaAccepts(body: Json)
    ensures ParseIdea(body).Success? <==> ValidIdeaBody(body)
  {
    TagsIssuesSpec(Field(body, "tags"));
  }

  /** What an accepted idea body becomes: the topic id as sent, the name
      trimmed (its 1..200 characters were counted before trimming), a blank or
      absent description `None`, a missing tags list `[]`, the tag names as
      sent (they are trimmed later, by the tag resolution). */
  lemma ParseIdeaData(body: Json)
    requires ValidIdeaBody(body)
    ensures ParseIdea(body).Success?
    ensures var d := ParseIdea(body).value;
      && d.topicId == Field(body, "topicId").value.s
      && d.name == Trim(Field(body, "name").value.s)
      && (d.description.Some? <==> Field(body, "description").Some? && Trim(Field(body, "description").value.s) != [])
      && (d.description.Some? ==> d.description.value == Trim(Field(body, "description").value.s))
      && (Field(body, "tags").None? ==> d.tags == [])
      && (Field(body, "tags").Some? ==>
            && |d.tags| == |Field(body, "tags").value.items|
            && forall i :: 0 <= i < |d.tags| ==> d.tags[i] == Field(body, "tags").value.items[i].s)
  {
    ParseIdeaAccepts(body);
  }

  /** Every issue of a rejected idea body is about the body itself or about
      one of the four keys of the schema. */
  lemma ParseIdeaIssuePaths(body: Json)
    requires ParseIdea(body).Failure?
    ensures forall e :: e in ParseIdea(body).error ==>
      e.path == [] || e.path[0] in {Key("topicId"), Key("name"), Key("description"), Key("tags")}
  {
    if body.JObj? {
      var topicId := NonEmptyStringIssues("topicId", Field(body, "topicId"), "Topic ID is required");
      assert forall e :: e in topicId ==> e.path == [Key("topicId")];
      assert forall e :: e in NameIssues(body) ==> e.path == [Key("name")];
      assert forall e :: e in DescriptionIssues(body) ==> e.path == [Key("description")];
      TagsIssuesSpec(Field(body, "tags"));
      assert IdeaIssues(body) == topicId + NameIssues(body) + DescriptionIssues(body) + TagsIssues(Field(body, "tags"));
    }
  }

  /** A name of 1..200 white space characters passes the length check and
      comes back empty, in both schemas: the minimum applies before trimming.
      With a topic id and no other field the idea schema accepts it. */
  lemma BlankNameAccepted(body: Json)
    requires body.JObj? && StringWithin(Field(body, "name"), 1, MaxNameLength)
    requires Trim(Field(body, "name").value.s) == []
    ensures NameIssues(body) == []
    ensures ParseIdea(body).Success? ==> ParseIdea(body).value.name == []
    ensures ParseTopic(body).Success? ==> ParseTopic(body).value.name == []
    ensures var topicId := Field(body, "topicId");
      (IsString(topicId) && topicId.value.s != [] && Field(body, "description").None? && Field(body, "tags").None?) ==>
        ParseIdea(body) == Success(IdeaInput(topicId.value.s, "", None, []))
  {
  }

  /** `topicSchema` accepts exactly the valid topic bodies and trims the same way. */
  lemma ParseTopicSpec(body: Json)
    ensures ParseTopic(body).Success? <==> ValidTopicBody(body)
    ensures ParseTopic(body).Success? ==>
      var d := ParseTopic(body).value;
      && d.name == Trim(Field(body, "name").value.s)
      && (d.description.Some? <==> Field(body, "description").Some? && Trim(Field(body, "description").value.s) != [])
      && (d.description.Some? ==> d.description.value == Trim(Field(body, "description").value.s))
      && (Field(body, "tags").None? ==> d.tags == [])
      && (Field(body, "tags").Some? ==>
            && |d.tags| == |Field(body, "tags").value.items|
            && forall i :: 0 <= i < |d.tags| ==> d.tags[i] == Field(body, "tags").value.items[i].s)
  {
    TagsIssuesSpec(Field(body, "tags"));
  }

  /** `feedbackSchema` accepts exactly a whole rating in 1..5 with notes of at
      most 500 characters, so an accepted rating meets the table's CHECK. */
  lemma ParseFeedbackSpec(body: Json)
    ensures ParseFeedback(body).Success? <==> ValidFeedbackBody(body)
    ensures ParseFeedback(body).Success? ==>
      var d := ParseFeedback(body).value;
      && 1 <= d.rating <= 5
      && d.rating as real == Field(body, "rating").value.n
      && (d.notes.Some? <==> Field(body, "notes").Some? && Trim(Field(body, "notes").value.s) != [])
      && (d.notes.Some? ==> d.notes.value == Trim(Field(body, "notes").value.s))
  {
  }

  /** zod runs every check of the rating, so a fractional rating out of range
      reports the integer issue and then the range issue; a whole rating in
      range reports nothing. */
  lemma RatingReportsEveryCheck(x: real)
    ensures !IsWhole(x) && x < 1.0 ==> RatingIssues(Some(JNum(x))) == [
      Issue([Key("rating")], "Expected integer, received float"),
      Issue([Key("rating")], "Rating must be at least 1")]
    ensures !IsWhole(x) && x > 5.0 ==> RatingIssues(Some(JNum(x))) == [
      Issue([Key("rating")], "Expected integer, received float"),
      Issue([Key("rating")], "Rating must be at most 5")]
    ensures RatingIssues(Some(JNum(x))) == [] <==> IsWhole(x) && 1.0 <= x <= 5.0
  {
  }

  /** One issue reads `path.joined: message`. */
  lemma {:induction false} FormatOne(e: Issue)
    ensures FormatIssues([e]) == PathText(e.path) + ": " + e.message
  {
  }

  /** The formatted issues of two lists are joined by one ", ". */
  lemma FormatAppend(a: seq<Issue>, b: seq<Issue>)
    requires a != [] && b != []
    ensures FormatIssues(a + b) == FormatIssues(a) + ", " + FormatIssues(b)
  {
    var ta := seq(|a|, i requires 0 <= i < |a| => IssueText(a[i]));
    var tb := seq(|b|, i requires 0 <= i < |b| => IssueText(b[i]));
    assert seq(|a + b|, i requires 0 <= i < |a + b| => IssueText((a + b)[i])) == ta + tb;
    JoinAppend(ta, tb, ", ");
  }

  /** The path of an array element reads `tags.3`. */
  lemma ElementPathText(i: nat)
    ensures PathText([Key("tags"), Index(i)]) == "tags." + NatToString(i)
  {
    var parts := seq(2, j requires 0 <= j < 2 => PartText([Key("tags"), Index(i)][j]));
    assert parts == ["tags", NatToString(i)];
    assert parts[1..] == [NatToString(i)];
    assert Join(parts[1..], ".") == NatToString(i);
  }
}
