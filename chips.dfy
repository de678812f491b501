/**
 * The tag chips and submit logic of the two edit forms
 * (src/components/EditIdea.tsx and src/components/EditTopic.tsx, which share
 * the chip handlers word for word): adding a chip, removing one, the
 * autocomplete suggestions, and the checks and request body of a submit.
 * React state is the parameters and results; `fetch` and navigation are not
 * part of this model.
 */
module Chips {
  import opened Wrappers
  import opened Text
  import opened Schema
  import opened Tags
  import opened Schemas
  import opened Lifecycle

  /** The form's chip list, its tag input and whether the suggestions show. */
  datatype Editor = Editor(chips: seq<string>, tagInput: string, showAutocomplete: bool)

  /** What the form keeps true of its chips: each trimmed and non-blank, no two
      equal ignoring case. */
  predicate ChipsOk(chips: seq<string>) {
    && (forall i :: 0 <= i < |chips| ==> chips[i] != [] && Trim(chips[i]) == chips[i])
    && DistinctLower(chips)
  }

  /** `tags.some((t) => t.toLowerCase() === normalizedTag)` */
  predicate HasChip(chips: seq<string>, normalized: string) {
    exists i :: 0 <= i < |chips| && Lower(chips[i]) == normalized
  }

  /** `handleAddTag`: append the trimmed tag unless it is blank or a chip
      already has it in some casing; always clear the input and hide the
      suggestions. */
  function AddTag(chips: seq<string>, tag: string): Editor {
    var normalized := Lower(Trim(tag));
    var next := if !HasChip(chips, normalized) && normalized != [] then chips + [Trim(tag)] else chips;
    Editor(next, [], false)
  }

  /** A tag is appended, trimmed, exactly when it is not blank and no chip
      equals it ignoring case; otherwise the chips stay. The input is cleared
      and the suggestions hidden either way. */
  lemma AddTagSpec(chips: seq<string>, tag: string)
    ensures var e := AddTag(chips, tag);
      && e.tagInput == [] && !e.showAutocomplete
      && (e.chips == chips + [Trim(tag)] <==>
            Trim(tag) != [] && forall i :: 0 <= i < |chips| ==> Lower(chips[i]) != Lower(Trim(tag)))
      && (e.chips != chips + [Trim(tag)] ==> e.chips == chips)
  {
    LowerTrimCommute(tag);
  }

  /** Adding keeps the chips trimmed, non-blank and free of case-insensitive
      duplicates; adding the same tag again changes nothing. */
  lemma AddTagKeepsChipsOk(chips: seq<string>, tag: string)
    requires ChipsOk(chips)
    ensures ChipsOk(AddTag(chips, tag).chips)
    ensures AddTag(AddTag(chips, tag).chips, tag).chips == AddTag(chips, tag).chips
  {
    var next := AddTag(chips, tag).chips;
    var n := Trim(tag);
    LowerTrimCommute(tag);
    TrimIdempotent(tag);
    if next != chips {
      assert next == chips + [n];
      assert HasChip(next, Lower(n)) by {
        assert Lower(next[|chips|]) == Lower(n);
      }
    }
  }

  /** `handleRemoveTag`: drop the chips equal to the argument, keep the rest
      in order. */
  function RemoveTag(chips: seq<string>, tag: string): seq<string> {
    Without(chips, tag)
  }

  lemma {:induction false} WithoutConcat(a: seq<string>, b: seq<string>, tag: string)
    ensures Without(a + b, tag) == Without(a, tag) + Without(b, tag)
  {
    if a == [] {
      assert a + b == b;
    } else {
      var ab := a + b;
      assert ab[0] == a[0] && ab[1..] == a[1..] + b;
      WithoutConcat(a[1..], b, tag);
      var head := if a[0] == tag then [] else [a[0]];
      assert Without(ab, tag) == head + Without(a[1..] + b, tag);
      assert Without(a, tag) == head + Without(a[1..], tag);
    }
  }

  lemma {:induction false} WithoutKeepsDistinct(s: seq<string>, tag: string)
    requires DistinctLower(s)
    ensures DistinctLower(Without(s, tag))
  {
    if s != [] {
      WithoutKeepsDistinct(s[1..], tag);
      var rest := Without(s[1..], tag);
      if s[0] != tag {
        var r := [s[0]] + rest;
        forall i, j | 0 <= i < j < |r| ensures Lower(r[i]) != Lower(r[j]) {
          if i == 0 {
            assert r[j] in s[1..];
            var k :| 0 <= k < |s[1..]| && s[1..][k] == r[j];
            assert s[k + 1] == r[j];
          } else {
            assert r[i] == rest[i - 1] && r[j] == rest[j - 1];
          }
        }
      }
    }
  }

  /** Removing keeps every other chip, in order (it distributes over any split
      of the list), drops the tag entirely, and keeps the chips well formed. */
  lemma RemoveTagSpec(chips: seq<string>, tag: string, k: nat)
    requires k <= |chips|
    ensures tag !in RemoveTag(chips, tag)
    ensures forall n :: n != tag ==> (n in RemoveTag(chips, tag) <==> n in chips)
    ensures RemoveTag(chips, tag) == RemoveTag(chips[..k], tag) + RemoveTag(chips[k..], tag)
    ensures tag !in chips ==> RemoveTag(chips, tag) == chips
    ensures ChipsOk(chips) ==> ChipsOk(RemoveTag(chips, tag))
  {
    assert chips == chips[..k] + chips[k..];
    WithoutConcat(chips[..k], chips[k..], tag);
    if tag !in chips {
      WithoutAbsent(chips, tag);
    }
    if ChipsOk(chips) {
      WithoutKeepsDistinct(chips, tag);
      var r := RemoveTag(chips, tag);
      forall i | 0 <= i < |r| ensures r[i] != [] && Trim(r[i]) == r[i] {
        assert r[i] in chips;
      }
    }
  }

  /** The existing tags that contain the typed text ignoring case and are not
      already a chip (exact comparison), in the order they were fetched. */
  function Matching(existing: seq<string>, chips: seq<string>, value: string): (r: seq<string>)
    ensures forall n :: n in r <==> n in existing && Contains(Lower(n), Lower(value)) && n !in chips
  {
    if existing == [] then []
    else
      var n := existing[0];
      (if Contains(Lower(n), Lower(value)) && n !in chips then [n] else []) + Matching(existing[1..], chips, value)
  }

  /** `handleTagInputChange`: with non-blank input the suggestions are the
      matching tags and are shown; with blank input they are hidden and the
      previous list is kept (`None` here). */
  function Suggestions(existing: seq<string>, chips: seq<string>, value: string): (r: Option<seq<string>>)
    ensures r.None? <==> Trim(value) == []
    ensures r.Some? ==> forall n :: n in r.value ==> n in existing && n !in chips
  {
    if Trim(value) != [] then Some(Matching(existing, chips, value)) else None
  }

  // ---------------------------------------------------------------- submit

  function StringItems(chips: seq<string>): seq<Json> {
    seq(|chips|, i requires 0 <= i < |chips| => JStr(chips[i]))
  }

  /** `description.trim() || null` */
  function BlankToNull(description: string): Json {
    if Trim(description) == [] then JNull else JStr(Trim(description))
  }

  /** EditTopic's `handleSubmit`: a blank name stops it; otherwise the PUT body
      carries the trimmed name, `null` for a blank description, and the chips. */
  function TopicSubmit(name: string, description: string, chips: seq<string>): Result<Json, string> {
    if Trim(name) == [] then Failure("Name is required")
    else Success(JObj(map["name" := JStr(Trim(name)), "description" := BlankToNull(description),
                          "tags" := JArr(StringItems(chips))]))
  }

  /** A body the topic form sends passes every check of PUT /api/topics/:id
      and is read back as the form's values: the trimmed name, no description
      when it was blank, and the chips as the tag list. */
  lemma TopicSubmitAccepted(name: string, description: string, chips: seq<string>)
    ensures TopicSubmit(name, description, chips).Failure? <==> Trim(name) == []
    ensures TopicSubmit(name, description, chips).Success? ==>
      var body := TopicSubmit(name, description, chips).value;
      && NameGiven(body) && Trim(Field(body, "name").value.s) == Trim(name)
      && DescriptionOrNull(body) == (if Trim(description) == [] then None else Some(Trim(description)))
      && TagsIsArray(body) && TagList(body) == chips && TagItemsAreStrings(body)
  {
    TrimIdempotent(name);
    TrimIdempotent(description);
    if Trim(name) != [] {
      var body := TopicSubmit(name, description, chips).value;
      assert Field(body, "tags") == Some(JArr(StringItems(chips)));
      assert TagList(body) == chips;
    }
  }

  /** EditIdea's `handleSubmit` as written: a missing topic or a blank name
      stops it; otherwise the PUT body carries the topic id, the trimmed name,
      `null` for a blank description, and the chips. */
  function IdeaSubmit(topicId: string, name: string, description: string, chips: seq<string>): Result<Json, string> {
    if topicId == [] then Failure("Topic is required")
    else if Trim(name) == [] then Failure("Name is required")
    else Success(JObj(map["topicId" := JStr(topicId), "name" := JStr(Trim(name)),
                          "description" := BlankToNull(description), "tags" := JArr(StringItems(chips))]))
  }

  /** The form's values are within the limits of `updateIdeaSchema`. */
  predicate WithinIdeaLimits(topicId: string, name: string, description: string, chips: seq<string>) {
    && topicId != [] && Trim(name) != []
    && |Trim(name)| <= MaxNameLength && |Trim(description)| <= MaxDescriptionLength
    && forall i :: 0 <= i < |chips| ==> |chips[i]| <= MaxTagLength
  }

  /** The submit checks come in order: topic, then name. */
  lemma IdeaSubmitGuards(topicId: string, name: string, description: string, chips: seq<string>)
    ensures IdeaSubmit(topicId, name, description, chips) == Failure("Topic is required") <==> topicId == []
    ensures IdeaSubmit(topicId, name, description, chips) == Failure("Name is required") <==>
      topicId != [] && Trim(name) == []
    ensures IdeaSubmit(topicId, name, description, chips).Success? <==> topicId != [] && Trim(name) != []
  {
  }

  /** As written, an edit that leaves the description blank sends `null`,
      which `updateIdeaSchema` refuses: the request fails with 400
      "description: Expected string, received null" however valid the rest is. */
  lemma BlankDescriptionRejected(topicId: string, name: string, description: string, chips: seq<string>)
    requires WithinIdeaLimits(topicId, name, description, chips) && Trim(description) == []
    ensures IdeaSubmit(topicId, name, description, chips).Success?
    ensures var body := IdeaSubmit(topicId, name, description, chips).value;
      && ParseIdea(body).Failure?
      && Issue([Key("description")], "Expected string, received null") in ParseIdea(body).error
  {
    var body := IdeaSubmit(topicId, name, description, chips).value;
    assert Field(body, "description") == Some(JNull);
    assert "Expected " + "string" + ", received " + TypeName(JNull) == "Expected string, received null";
    assert DescriptionIssues(body) == [Issue([Key("description")], "Expected string, received null")];
    ParseIdeaAccepts(body);
    assert IdeaIssues(body) != [];
  }

  /** The submit with the blank description left out of the body (the schema
      then reads it as absent, and the update stores `null`). */
  function IdeaSubmitFixed(topicId: string, name: string, description: string, chips: seq<string>): Result<Json, string> {
    if topicId == [] then Failure("Topic is required")
    else if Trim(name) == [] then Failure("Name is required")
    else
      var fields := map["topicId" := JStr(topicId), "name" := JStr(Trim(name)), "tags" := JArr(StringItems(chips))];
      Success(JObj(if Trim(description) == [] then fields else fields["description" := JStr(Trim(description))]))
  }

  /** Within the schema's limits the corrected body is accepted and parsed back
      to the form's values: the topic, the trimmed name, no description when
      blank and the trimmed one otherwise, and the chips as the tag list. */
  lemma IdeaSubmitFixedAccepted(topicId: string, name: string, description: string, chips: seq<string>)
    requires WithinIdeaLimits(topicId, name, description, chips)
    ensures IdeaSubmitFixed(topicId, name, description, chips).Success?
    ensures var body := IdeaSubmitFixed(topicId, name, description, chips).value;
      && ParseIdea(body).Success?
      && ParseIdea(body).value == IdeaInput(topicId, Trim(name),
           if Trim(description) == [] then None else Some(Trim(description)), chips)
  {
    var body := IdeaSubmitFixed(topicId, name, description, chips).value;
    TrimIdempotent(name);
    TrimIdempotent(description);
    assert Field(body, "tags") == Some(JArr(StringItems(chips)));
    assert ValidIdeaBody(body);
    ParseIdeaData(body);
    assert ParseIdea(body).value.tags == chips;
  }

  // ---------------------------------------------------------------- chips on the server

  lemma {:induction false} KeptAll(names: seq<string>)
    requires forall i :: 0 <= i < |names| ==> names[i] != [] && Trim(names[i]) == names[i]
    ensures Kept(names) == names
  {
    if names != [] {
      var n := |names| - 1;
      var init := names[..n];
      assert forall i :: 0 <= i < |init| ==> init[i] == names[i];
      KeptAll(init);
      assert names[n] != [] && Trim(names[n]) == names[n];
      assert Kept(names) == Kept(init) + [names[n]];
      assert names == init + [names[n]];
    }
  }

  /** Well-formed chips each become a tag of their own on the server: the
      resolved ids are pairwise distinct, so the edited row ends up with as
      many tag links as the form showed chips. */
  lemma ChipsResolveApart(tags: map<Id, string>, chips: seq<string>, newIds: seq<Id>)
    requires ChipsOk(chips) && UniqueTagNames(tags)
    requires |newIds| == |chips| && NewIdsFree(tags, newIds)
    ensures var ids := Resolve(tags, chips, newIds).ids;
      && |ids| == |chips|
      && (forall i, j :: 0 <= i < j < |ids| ==> ids[i] != ids[j])
      && |Elems(ids)| == |chips|
  {
    KeptAll(chips);
    ResolveIds(tags, chips, newIds);
    var ids := Resolve(tags, chips, newIds).ids;
    var rt := Resolve(tags, chips, newIds).tags;
    forall i, j | 0 <= i < j < |ids| ensures ids[i] != ids[j] {
      assert Lower(rt[ids[i]]) == Lower(chips[i]) && Lower(rt[ids[j]]) == Lower(chips[j]);
    }
    ElemsCard(ids);
  }
}
