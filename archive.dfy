/**
 * The list logic of the archive page (src/components/Archive.tsx): the tag
 * counts of the sidebar, the filtered list of archived topics and ideas, the
 * tag toggle, the active-filter test, the `type` URL parameter, the
 * confirmation guard of a permanent delete, the requests the dialogs send,
 * the local removal after a success, and the text shown when a restore is
 * refused. React state, effects, the debounce timer and toasts are not part
 * of this model; the values they hold are parameters.
 */
module Archive {
  import opened Wrappers
  import opened Text
  import opened Schema
  import opened Lifecycle

  /** An archived topic or idea as the page receives it. */
  datatype Entry = Entry(id: Id, name: string, description: Option<string>, tags: seq<string>)

  datatype Kind = TopicKind | IdeaKind

  /** `{ ...t, type: "topic" }` / `{ ...i, type: "idea" }` */
  datatype Item = Item(kind: Kind, entry: Entry)

  /** The `ArchiveItemType` filter. */
  datatype TypeFilter = AllTypes | TopicsOnly | IdeasOnly

  // ---------------------------------------------------------------- allTags

  /** Every tag name of the entries, entry after entry. */
  function AllTagNames(es: seq<Entry>): seq<string> {
    if es == [] then [] else AllTagNames(es[..|es| - 1]) + es[|es| - 1].tags
  }

  /** `counts` holds exactly the names of `m`, each with its multiplicity. */
  ghost predicate Tallies(counts: map<string, nat>, m: multiset<string>) {
    forall n :: (n in counts <==> m[n] > 0) && (n in counts ==> counts[n] == m[n])
  }

  /** `tags.forEach((tag) => tagMap.set(tag, (tagMap.get(tag) || 0) + 1))` */
  method CountNames(counts: map<string, nat>, names: seq<string>, ghost m: multiset<string>)
    returns (r: map<string, nat>)
    requires Tallies(counts, m)
    ensures Tallies(r, m + multiset(names))
  {
    r := counts;
    for j := 0 to |names|
      invariant Tallies(r, m + multiset(names[..j]))
    {
      var tag := names[j];
      r := r[tag := (if tag in r then r[tag] else 0) + 1];
      assert names[..j + 1] == names[..j] + [tag];
    }
    assert names[..|names|] == names;
  }

  /** `allTags` before its sort: each tag name with the number of times the
      archived topics and ideas carry it. */
  method CountTags(topics: seq<Entry>, ideas: seq<Entry>) returns (counts: map<string, nat>)
    ensures Tallies(counts, multiset(AllTagNames(topics)) + multiset(AllTagNames(ideas)))
  {
    counts := map[];
    for i := 0 to |topics|
      invariant Tallies(counts, multiset(AllTagNames(topics[..i])))
    {
      assert topics[..i + 1][..i] == topics[..i];
      counts := CountNames(counts, topics[i].tags, multiset(AllTagNames(topics[..i])));
    }
    assert topics[..|topics|] == topics;
    ghost var m := multiset(AllTagNames(topics));
    for i := 0 to |ideas|
      invariant Tallies(counts, m + multiset(AllTagNames(ideas[..i])))
    {
      assert ideas[..i + 1][..i] == ideas[..i];
      counts := CountNames(counts, ideas[i].tags, m + multiset(AllTagNames(ideas[..i])));
    }
    assert ideas[..|ideas|] == ideas;
  }

  /** How many entries carry the tag. */
  function Carrying(es: seq<Entry>, n: string): nat {
    if es == [] then 0 else Carrying(es[..|es| - 1], n) + if n in es[|es| - 1].tags then 1 else 0
  }

  predicate NoRepeats(names: seq<string>) {
    forall i, j :: 0 <= i < j < |names| ==> names[i] != names[j]
  }

  lemma {:induction false} NoRepeatsMultiplicity(names: seq<string>, n: string)
    requires NoRepeats(names)
    ensures multiset(names)[n] == if n in names then 1 else 0
  {
    if names != [] {
      var k := |names| - 1;
      assert names == names[..k] + [names[k]];
      NoRepeatsMultiplicity(names[..k], n);
      if n == names[k] {
        assert n !in names[..k];
      }
    }
  }

  /** When no entry repeats a tag (the server lists each linked tag once), a
      tag's count is the number of archived topics and ideas carrying it. */
  lemma {:induction false} CountIsCarriers(es: seq<Entry>, n: string)
    requires forall i :: 0 <= i < |es| ==> NoRepeats(es[i].tags)
    ensures multiset(AllTagNames(es))[n] == Carrying(es, n)
  {
    if es != [] {
      var k := |es| - 1;
      CountIsCarriers(es[..k], n);
      NoRepeatsMultiplicity(es[k].tags, n);
    }
  }

  // ---------------------------------------------------------------- filteredItems

  function Tagged(kind: Kind, es: seq<Entry>): (r: seq<Item>)
    ensures |r| == |es|
  {
    seq(|es|, i requires 0 <= i < |es| => Item(kind, es[i]))
  }

  /** `s.filter(p)` */
  function Filter(s: seq<Item>, p: Item -> bool): seq<Item> {
    if s == [] then [] else (if p(s[0]) then [s[0]] else []) + Filter(s[1..], p)
  }

  /** `a` is `b` with some elements removed, the rest in order. */
  predicate Subseq(a: seq<Item>, b: seq<Item>)
    decreases |b|
  {
    a == [] || (b != [] && ((a[0] == b[0] && Subseq(a[1..], b[1..])) || Subseq(a, b[1..])))
  }

  predicate Shown(kind: Kind, filter: TypeFilter) {
    filter == AllTypes || (filter == TopicsOnly && kind == TopicKind) || (filter == IdeasOnly && kind == IdeaKind)
  }

  /** The search test: an empty query keeps everything; otherwise the lower-cased
      query must occur in the lower-cased name or description. */
  predicate MatchesSearch(e: Entry, query: string) {
    query == [] || Contains(Lower(e.name), Lower(query))
    || (e.description.Some? && e.description.value != [] && Contains(Lower(e.description.value), Lower(query)))
  }

  /** `selectedTags.every((tag) => item.tags.includes(tag))` */
  predicate HasAllTags(e: Entry, selected: seq<string>) {
    forall k :: 0 <= k < |selected| ==> selected[k] in e.tags
  }

  predicate Passes(x: Item, filter: TypeFilter, query: string, selected: seq<string>) {
    Shown(x.kind, filter) && MatchesSearch(x.entry, query) && HasAllTags(x.entry, selected)
  }

  /** `hasActiveFilters` */
  predicate HasActiveFilters(query: string, selected: seq<string>, filter: TypeFilter) {
    query != [] || |selected| > 0 || filter != AllTypes
  }

  lemma {:induction false} FilterMembers(s: seq<Item>, p: Item -> bool)
    ensures forall x :: x in Filter(s, p) <==> x in s && p(x)
  {
    if s != [] {
      FilterMembers(s[1..], p);
      assert s == [s[0]] + s[1..];
    }
  }

  lemma {:induction false} FilterAll(s: seq<Item>, p: Item -> bool)
    requires forall x :: x in s ==> p(x)
    ensures Filter(s, p) == s
  {
    if s != [] {
      FilterAll(s[1..], p);
      assert s == [s[0]] + s[1..];
    }
  }

  lemma {:induction false} FilterSubseq(s: seq<Item>, p: Item -> bool)
    ensures Subseq(Filter(s, p), s)
  {
    if s != [] {
      FilterSubseq(s[1..], p);
      var f := Filter(s, p);
      if p(s[0]) {
        assert f[0] == s[0] && f[1..] == Filter(s[1..], p);
      } else {
        assert f == Filter(s[1..], p);
      }
    }
  }

  /** The items of `s` that pass every filter, in their order: what the
      chain of `filter` calls in `filteredItems` is meant to compute. */
  function Passing(s: seq<Item>, filter: TypeFilter, query: string, selected: seq<string>): seq<Item> {
    if s == [] then []
    else (if Passes(s[0], filter, query, selected) then [s[0]] else []) + Passing(s[1..], filter, query, selected)
  }

  lemma {:induction false} PassingIsFilter(s: seq<Item>, filter: TypeFilter, query: string, selected: seq<string>)
    ensures Passing(s, filter, query, selected) == Filter(s, x => Passes(x, filter, query, selected))
  {
    if s != [] {
      PassingIsFilter(s[1..], filter, query, selected);
    }
  }

  /** The passing items are an ordered selection of `s` holding exactly the
      items that pass; with no filter active they are all of `s`. */
  lemma PassingSpec(s: seq<Item>, filter: TypeFilter, query: string, selected: seq<string>)
    ensures Subseq(Passing(s, filter, query, selected), s)
    ensures forall x :: x in Passing(s, filter, query, selected) <==> x in s && Passes(x, filter, query, selected)
    ensures !HasActiveFilters(query, selected, filter) ==> Passing(s, filter, query, selected) == s
  {
    var p := x => Passes(x, filter, query, selected);
    PassingIsFilter(s, filter, query, selected);
    FilterMembers(s, p);
    FilterSubseq(s, p);
    if !HasActiveFilters(query, selected, filter) {
      FilterAll(s, p);
    }
  }

  lemma {:induction false} FilterAppend(a: seq<Item>, b: seq<Item>, p: Item -> bool)
    ensures Filter(a + b, p) == Filter(a, p) + Filter(b, p)
  {
    if a == [] {
      assert a + b == b;
    } else {
      var ab := a + b;
      assert ab[0] == a[0] && ab[1..] == a[1..] + b;
      var head := if p(a[0]) then [a[0]] else [];
      assert Filter(ab, p) == head + Filter(a[1..] + b, p);
      FilterAppend(a[1..], b, p);
      assert Filter(a, p) == head + Filter(a[1..], p);
    }
  }

  lemma PassingAppend(a: seq<Item>, b: seq<Item>, filter: TypeFilter, query: string, selected: seq<string>)
    ensures Passing(a + b, filter, query, selected) == Passing(a, filter, query, selected) + Passing(b, filter, query, selected)
  {
    PassingIsFilter(a + b, filter, query, selected);
    PassingIsFilter(a, filter, query, selected);
    PassingIsFilter(b, filter, query, selected);
    FilterAppend(a, b, x => Passes(x, filter, query, selected));
  }

  /** With no search and no tag, only the type filter decides, and it takes
      all entries of a kind or none. */
  lemma {:induction false} PassingOfKind(kind: Kind, es: seq<Entry>, filter: TypeFilter)
    ensures Passing(Tagged(kind, es), filter, [], []) == if Shown(kind, filter) then Tagged(kind, es) else []
  {
    if es != [] {
      PassingOfKind(kind, es[1..], filter);
      var s := Tagged(kind, es);
      assert s[0] == Item(kind, es[0]) && s[1..] == Tagged(kind, es[1..]);
    }
  }

  /** The type step: topics when shown, then ideas when shown, is the listing
      with the type filter alone. */
  lemma TypeStep(topics: seq<Entry>, ideas: seq<Entry>, filter: TypeFilter, items: seq<Item>)
    requires items == (if filter == AllTypes || filter == TopicsOnly then Tagged(TopicKind, topics) else [])
                    + (if filter == AllTypes || filter == IdeasOnly then Tagged(IdeaKind, ideas) else [])
    ensures items == Passing(Tagged(TopicKind, topics) + Tagged(IdeaKind, ideas), filter, [], [])
  {
    PassingAppend(Tagged(TopicKind, topics), Tagged(IdeaKind, ideas), filter, [], []);
    PassingOfKind(TopicKind, topics, filter);
    PassingOfKind(IdeaKind, ideas, filter);
  }

  /** A `filter` whose test adds one condition narrows the listing by it. */
  lemma {:induction false} NarrowStep(all: seq<Item>, p: Item -> bool, filter: TypeFilter,
                   query: string, selected: seq<string>, query': string, selected': seq<string>)
    requires forall x :: x in all ==> (Passes(x, filter, query', selected') <==> Passes(x, filter, query, selected) && p(x))
    ensures Filter(Passing(all, filter, query, selected), p) == Passing(all, filter, query', selected')
  {
    if all != [] {
      assert forall x :: x in all[1..] ==> x in all;
      NarrowStep(all[1..], p, filter, query, selected, query', selected');
      var h, rest := all[0], Passing(all[1..], filter, query, selected);
      if Passes(h, filter, query, selected) {
        var l := [h] + rest;
        assert l[0] == h && l[1..] == rest;
      } else {
        assert Passing(all, filter, query, selected) == rest;
      }
    }
  }

  /** `filteredItems`: the archived topics, then the archived ideas, kept when
      the type filter shows their kind, then narrowed by the search and by the
      selected tags. The result is the passing items in their original order
      (an ordered selection holding exactly them); with no filter active it is
      every item. */
  method FilteredItems(topics: seq<Entry>, ideas: seq<Entry>, filter: TypeFilter,
                       query: string, selected: seq<string>) returns (items: seq<Item>)
    ensures items == Passing(Tagged(TopicKind, topics) + Tagged(IdeaKind, ideas), filter, query, selected)
    ensures Subseq(items, Tagged(TopicKind, topics) + Tagged(IdeaKind, ideas))
    ensures forall x :: x in items <==>
      x in Tagged(TopicKind, topics) + Tagged(IdeaKind, ideas) && Passes(x, filter, query, selected)
    ensures !HasActiveFilters(query, selected, filter) ==> items == Tagged(TopicKind, topics) + Tagged(IdeaKind, ideas)
  {
    ghost var all := Tagged(TopicKind, topics) + Tagged(IdeaKind, ideas);
    items := [];
    if filter == AllTypes || filter == TopicsOnly {
      items := items + Tagged(TopicKind, topics);
    }
    if filter == AllTypes || filter == IdeasOnly {
      items := items + Tagged(IdeaKind, ideas);
    }
    TypeStep(topics, ideas, filter, items);
    if query != [] {
      var p := (x: Item) => MatchesSearch(x.entry, query);
      NarrowStep(all, p, filter, [], [], query, []);
      items := Filter(items, p);
    }
    assert items == Passing(all, filter, query, []);
    if |selected| > 0 {
      var p := (x: Item) => HasAllTags(x.entry, selected);
      NarrowStep(all, p, filter, query, [], query, selected);
      items := Filter(items, p);
    }
    PassingSpec(all, filter, query, selected);
  }

  // ---------------------------------------------------------------- toggleTag, filters, URL

  /** `toggleTag`: drop a selected tag, append an unselected one. */
  function ToggleTag(selected: seq<string>, tag: string): seq<string> {
    if tag in selected then Without(selected, tag) else selected + [tag]
  }

  /** The toggled tag flips between selected and not; every other selection
      stays as it was; toggling an unselected tag twice gives back the list. */
  lemma ToggleTagSpec(selected: seq<string>, tag: string)
    ensures tag in ToggleTag(selected, tag) <==> tag !in selected
    ensures forall n :: n != tag ==> (n in ToggleTag(selected, tag) <==> n in selected)
    ensures tag !in selected ==> ToggleTag(ToggleTag(selected, tag), tag) == selected
  {
    if tag !in selected {
      WithoutAppend(selected, tag);
    }
  }

  /** `handleClearFilters`: the cleared state has no active filter. */
  function ClearFilters(): (r: (string, seq<string>, TypeFilter))
    ensures !HasActiveFilters(r.0, r.1, r.2)
  {
    ([], [], AllTypes)
  }

  /** The `type` parameter written to the URL (absent for "all"). */
  function TypeToUrl(filter: TypeFilter): Option<string> {
    match filter
    case AllTypes => None
    case TopicsOnly => Some("topics")
    case IdeasOnly => Some("ideas")
  }

  /** The `type` parameter read on mount: only "topics", "ideas" and "all" are
      accepted; anything else keeps the initial "all". */
  function TypeFromUrl(param: Option<string>): TypeFilter {
    if param == Some("topics") then TopicsOnly
    else if param == Some("ideas") then IdeasOnly
    else AllTypes
  }

  /** Reading back the parameter written for a filter gives that filter; a
      filter other than "all" comes only from one of the two accepted words. */
  lemma TypeUrlSpec(filter: TypeFilter, param: Option<string>)
    ensures TypeFromUrl(TypeToUrl(filter)) == filter
    ensures TypeFromUrl(param) != AllTypes <==> param == Some("topics") || param == Some("ideas")
  {
  }

  // ---------------------------------------------------------------- dialogs

  datatype Request = Post(path: string) | Delete(path: string)

  /** `handleDeleteConfirm`: nothing is sent unless an item is chosen and the
      typed text equals its name exactly; then the permanent-delete endpoint
      of its kind. */
  function DeleteRequest(item: Option<Item>, confirmText: string): (r: Option<Request>)
    ensures r.Some? <==> item.Some? && confirmText == item.value.entry.name
    ensures r.Some? ==> r.value.Delete?
  {
    if item.None? || confirmText != item.value.entry.name then None
    else if item.value.kind == TopicKind then Some(Delete("/api/archive/topics/" + item.value.entry.id + "/permanent-delete"))
    else Some(Delete("/api/archive/ideas/" + item.value.entry.id + "/permanent-delete"))
  }

  /** `handleRestoreConfirm`: the restore endpoint of the chosen item's kind. */
  function RestoreRequest(item: Option<Item>): (r: Option<Request>)
    ensures r.Some? <==> item.Some?
    ensures r.Some? ==> r.value.Post?
  {
    if item.None? then None
    else if item.value.kind == TopicKind then Some(Post("/api/archive/topics/" + item.value.entry.id + "/restore"))
    else Some(Post("/api/archive/ideas/" + item.value.entry.id + "/restore"))
  }

  /** `prev.filter((x) => x.id !== id)` */
  function DropId(es: seq<Entry>, id: Id): (r: seq<Entry>)
    ensures forall e :: e in r <==> e in es && e.id != id
  {
    if es == [] then [] else (if es[0].id == id then [] else [es[0]]) + DropId(es[1..], id)
  }

  /** After a successful restore or delete the item leaves the local list of
      its kind; the other list and every other entry stay. */
  function RemoveLocal(topics: seq<Entry>, ideas: seq<Entry>, item: Item): (r: (seq<Entry>, seq<Entry>))
    ensures item.kind == TopicKind ==> r.1 == ideas && forall e :: e in r.0 <==> e in topics && e.id != item.entry.id
    ensures item.kind == IdeaKind ==> r.0 == topics && forall e :: e in r.1 <==> e in ideas && e.id != item.entry.id
  {
    if item.kind == TopicKind then (DropId(topics, item.entry.id), ideas) else (topics, DropId(ideas, item.entry.id))
  }

  // ---------------------------------------------------------------- restore errors

  /** The words the page looks for in a refused restore's error text. */
  const ParentTopicArchived := "parent topic is archived"
  const ParentArchivedError := "Cannot restore idea because its " + ParentTopicArchived

  /** The JSON error body of a refused restore: the `error` text and, for a
      parent topic that is archived, the topic's name. */
  function ErrorBody(outcome: Outcome): (string, Option<string>) {
    match outcome
    case Ok => ([], None)
    case NotFound(m) => (m, None)
    case BadRequest(m) => (m, None)
    case ParentArchived(_, name) => (ParentArchivedError, Some(name))
    case Unauthorized(m) => (m, None)
    case Failed(m) => (m, None)
  }

  /** The dialog's text for a refused restore. */
  function RestoreErrorText(error: string, topicName: Option<string>): string {
    if Contains(error, ParentTopicArchived) then
      var name := if topicName.Some? && topicName.value != [] then topicName.value else "Unknown";
      "Cannot restore this idea because its parent topic \"" + name + "\" is also archived. Please restore the topic first."
    else if error != [] then error
    else "Failed to restore item"
  }

  lemma {:induction false} ShortNoContains(s: string, sub: string)
    requires |s| < |sub|
    ensures !Contains(s, sub)
    decreases |s|
  {
    if |s| > 0 {
      ShortNoContains(s[1..], sub);
    }
  }

  lemma {:induction false} ContainsSuffix(pre: string, sub: string)
    ensures Contains(pre + sub, sub)
    decreases |pre|
  {
    if pre == [] {
      assert pre + sub == sub;
    } else {
      ContainsSuffix(pre[1..], sub);
      assert (pre + sub)[1..] == pre[1..] + sub;
    }
  }

  /** A short error text is shown as it is. */
  lemma ShownVerbatim(m: string)
    requires m != [] && |m| < |ParentTopicArchived|
    ensures RestoreErrorText(m, None) == m
  {
    ShortNoContains(m, ParentTopicArchived);
  }

  /** The text shown for the parent-archived refusal names the parent topic. */
  lemma ParentArchivedText(name: string)
    requires name != []
    ensures RestoreErrorText(ParentArchivedError, Some(name)) ==
      "Cannot restore this idea because its parent topic \"" + name + "\" is also archived. Please restore the topic first."
  {
    ContainsSuffix("Cannot restore idea because its ", ParentTopicArchived);
  }

  /** A restore of an idea refused because its parent topic is archived tells
      the user the parent's name and to restore the topic first; its other
      refusals are shown as the server words them. */
  lemma RestoreIdeaErrorText(t: Tables, id: Id, now: Timestamp)
    ensures var s := RestoreIdea(t, id, now);
      var e := ErrorBody(s.outcome);
      && (s.outcome.ParentArchived? && s.outcome.topicName != [] ==>
            RestoreErrorText(e.0, e.1) == "Cannot restore this idea because its parent topic \""
              + s.outcome.topicName + "\" is also archived. Please restore the topic first.")
      && (s.outcome.NotFound? || s.outcome.BadRequest? ==> RestoreErrorText(e.0, e.1) == e.0)
  {
    var s := RestoreIdea(t, id, now);
    if s.outcome.ParentArchived? {
      if s.outcome.topicName != [] {
        ParentArchivedText(s.outcome.topicName);
      }
    } else if s.outcome.NotFound? || s.outcome.BadRequest? {
      ShownVerbatim(s.outcome.message);
    }
  }

  /** Every refusal of a topic restore is shown as the server words it. */
  lemma RestoreTopicErrorText(t: Tables, id: Id, now: Timestamp)
    ensures var s := RestoreTopic(t, id, now);
      var e := ErrorBody(s.outcome);
      s.outcome != Ok ==> RestoreErrorText(e.0, e.1) == e.0
  {
    var s := RestoreTopic(t, id, now);
    if s.outcome != Ok {
      ShownVerbatim(s.outcome.message);
    }
  }
}
