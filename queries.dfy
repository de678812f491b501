/**
 * The read handlers of src/index.ts as functions of the tables: the active
 * topic listing, the two archive listings, one idea, one topic with its
 * ideas, and the tag listing. Listings are keyed by id: the `ORDER BY`
 * on timestamps is not modelled, and tag names are a set (the
 * `GROUP_CONCAT` string and its split on commas are not modelled either).
 * The lemmas tie what the read side shows to the lifecycle handlers.
 */
module Queries {
  import opened Wrappers
  import opened Text
  import opened Schema
  import opened Tags
  import opened Lifecycle

  /** A topic as the listings return it. */
  datatype TopicView = TopicView(
    name: string,
    description: Option<string>,
    archived: bool,
    ideaCount: nat,
    tags: set<string>,
    createdAt: Timestamp,
    updatedAt: Timestamp)

  /** An idea as every read handler returns it. */
  datatype IdeaView = IdeaView(
    topicId: Id,
    name: string,
    description: Option<string>,
    archived: bool,
    tags: set<string>,
    createdAt: Timestamp,
    updatedAt: Timestamp)

  /** An idea with the `topicName` of its LEFT JOIN on topics (`null` when the
      topic row is missing). */
  datatype IdeaWithTopic = IdeaWithTopic(idea: IdeaView, topicName: Option<string>)

  /** GET /api/topics/:id: the topic and its active ideas. */
  datatype TopicDetail = TopicDetail(
    name: string,
    description: Option<string>,
    tags: set<string>,
    ideas: map<Id, IdeaView>,
    createdAt: Timestamp,
    updatedAt: Timestamp)

  /** The names the tag projection joins for one owner (an inner join on tags). */
  function TagNamesOf(t: Tables, o: Owner): set<string> {
    set k | k in LinksOf(t, o) && k in t.tags :: t.tags[k]
  }

  /** The ideas a topic listing counts: `LEFT JOIN ideas i ON i.topicId = t.id
      AND i.isArchived = 0`. */
  function ActiveIdeasOf(ideas: map<Id, Idea>, topicId: Id): set<Id> {
    set i | i in ideas && ideas[i].topicId == topicId && !ideas[i].archived
  }

  function ViewTopic(t: Tables, id: Id, count: nat): TopicView
    requires id in t.topics
  {
    var row := t.topics[id];
    TopicView(row.name, row.description, row.archived, count, TagNamesOf(t, TopicOwner(id)), row.createdAt, row.updatedAt)
  }

  function ViewIdea(t: Tables, id: Id): IdeaView
    requires id in t.ideas
  {
    var row := t.ideas[id];
    IdeaView(row.topicId, row.name, row.description, row.archived, TagNamesOf(t, IdeaOwner(id)), row.createdAt, row.updatedAt)
  }

  function TopicNameOf(t: Tables, topicId: Id): Option<string> {
    if topicId in t.topics then Some(t.topics[topicId].name) else None
  }

  /** GET /api/topics: the active topics, each counting its active ideas. */
  function ListTopics(t: Tables): map<Id, TopicView> {
    map k | k in t.topics && !t.topics[k].archived :: ViewTopic(t, k, |ActiveIdeasOf(t.ideas, k)|)
  }

  /** GET /api/archive/topics: the archived topics, each counting all of its
      ideas (the join has no archive condition). */
  function ListArchivedTopics(t: Tables): map<Id, TopicView> {
    map k | k in t.topics && t.topics[k].archived :: ViewTopic(t, k, |IdeasOf(t.ideas, k)|)
  }

  /** GET /api/archive/ideas: every archived idea, whatever its topic's state. */
  function ListArchivedIdeas(t: Tables): map<Id, IdeaWithTopic> {
    map i | i in t.ideas && t.ideas[i].archived :: IdeaWithTopic(ViewIdea(t, i), TopicNameOf(t, t.ideas[i].topicId))
  }

  /** GET /api/ideas/:id: `None` is the 404 "Idea not found", given when the
      idea is missing or archived or its topic row is archived. */
  function GetIdea(t: Tables, id: Id): Option<IdeaWithTopic> {
    if id !in t.ideas || t.ideas[id].archived then None
    else
      var p := t.ideas[id].topicId;
      if p in t.topics && t.topics[p].archived then None
      else Some(IdeaWithTopic(ViewIdea(t, id), TopicNameOf(t, p)))
  }

  /** GET /api/topics/:id: `None` is the 404 "Topic not found" for a missing or
      archived topic. */
  function GetTopic(t: Tables, id: Id): Option<TopicDetail> {
    if id !in t.topics || t.topics[id].archived then None
    else
      var row := t.topics[id];
      var ideas := map i | i in ActiveIdeasOf(t.ideas, id) :: ViewIdea(t, i);
      Some(TopicDetail(row.name, row.description, TagNamesOf(t, TopicOwner(id)), ideas, row.createdAt, row.updatedAt))
  }

  // ---------------------------------------------------------------- visibility

  /** In a consistent store an idea is readable exactly when it and its topic
      are both active, and a topic shows exactly its readable ideas. */
  lemma Visibility(t: Tables, id: Id)
    requires Consistent(t)
    ensures GetIdea(t, id).Some? <==> ActiveIdea(t, id) && ActiveTopic(t, t.ideas[id].topicId)
    ensures GetIdea(t, id).Some? ==> GetIdea(t, id).value.topicName == Some(t.topics[t.ideas[id].topicId].name)
    ensures GetTopic(t, id).Some? <==> ActiveTopic(t, id)
    ensures GetTopic(t, id).Some? ==>
      forall i :: i in GetTopic(t, id).value.ideas <==> i in t.ideas && t.ideas[i].topicId == id && GetIdea(t, i).Some?
  {
  }

  /** Every topic is in exactly one of the two topic listings, and a topic's
      active count never exceeds the archive listing's count of all its ideas. */
  lemma TopicListingsPartition(t: Tables, k: Id)
    ensures k in t.topics <==> (k in ListTopics(t) || k in ListArchivedTopics(t))
    ensures !(k in ListTopics(t) && k in ListArchivedTopics(t))
    ensures k in ListTopics(t) ==> ListTopics(t)[k].ideaCount <= |IdeasOf(t.ideas, k)|
  {
    if k in ListTopics(t) {
      assert ActiveIdeasOf(t.ideas, k) <= IdeasOf(t.ideas, k);
      SubsetCard(ActiveIdeasOf(t.ideas, k), IdeasOf(t.ideas, k));
    }
  }

  lemma {:induction false} SubsetCard(a: set<Id>, b: set<Id>)
    requires a <= b
    ensures |a| <= |b|
    decreases b
  {
    if a != {} {
      var x :| x in a;
      SubsetCard(a - {x}, b - {x});
    }
  }

  // ---------------------------------------------------------------- lifecycle seen from the read side

  /** The ideas of a topic are the same ids after a statement that keeps the
      ideas' keys and topic ids. */
  lemma SameIdeasOf(t: Tables, r: Tables, id: Id)
    requires r.ideas.Keys == t.ideas.Keys
    requires forall i :: i in t.ideas ==> r.ideas[i].topicId == t.ideas[i].topicId
    ensures IdeasOf(r.ideas, id) == IdeasOf(t.ideas, id)
  {
  }

  /** After archiving a topic it leaves the active listing and enters the
      archive listing counting every idea it had; none of its ideas is
      readable any more and each is in the archived-ideas listing. */
  lemma ArchiveTopicReadSide(t: Tables, id: Id, now: Timestamp)
    requires Consistent(t) && ActiveTopic(t, id)
    ensures var r := ArchiveTopic(t, id, now).tables;
      && id !in ListTopics(r) && GetTopic(r, id).None?
      && id in ListArchivedTopics(r) && ListArchivedTopics(r)[id].ideaCount == |IdeasOf(t.ideas, id)|
      && (forall i :: i in t.ideas && t.ideas[i].topicId == id ==> GetIdea(r, i).None? && i in ListArchivedIdeas(r))
  {
    ArchiveTopicEffect(t, id, now);
    var r := ArchiveTopic(t, id, now).tables;
    SameIdeasOf(t, r, id);
  }

  /** After restoring a topic it is back in the active listing counting all
      of its ideas, and none of its ideas is in the archived-ideas listing:
      each is readable again. */
  lemma RestoreTopicReadSide(t: Tables, id: Id, now: Timestamp)
    requires Consistent(t) && id in t.topics && t.topics[id].archived
    ensures var r := RestoreTopic(t, id, now).tables;
      && id in ListTopics(r) && id !in ListArchivedTopics(r)
      && ListTopics(r)[id].ideaCount == |IdeasOf(t.ideas, id)|
      && (forall i :: i in r.ideas && r.ideas[i].topicId == id ==> i !in ListArchivedIdeas(r) && GetIdea(r, i).Some?)
  {
    RestoreTopicEffect(t, id, now);
    var r := RestoreTopic(t, id, now).tables;
    assert ActiveIdeasOf(r.ideas, id) == IdeasOf(t.ideas, id);
  }

  /** An archived idea is no longer readable and is in the archived-ideas
      listing; its topic's active count drops by one. */
  lemma ArchiveIdeaReadSide(t: Tables, id: Id, now: Timestamp)
    requires Consistent(t) && ActiveIdea(t, id)
    ensures var r := ArchiveIdea(t, id, now).tables;
      && GetIdea(r, id).None? && id in ListArchivedIdeas(r)
      && ActiveIdeasOf(r.ideas, t.ideas[id].topicId) == ActiveIdeasOf(t.ideas, t.ideas[id].topicId) - {id}
  {
    ArchiveIdeaEffect(t, id, now);
  }

  /** A restored idea is readable and has left the archived-ideas listing. */
  lemma RestoreIdeaReadSide(t: Tables, id: Id, now: Timestamp)
    requires Consistent(t) && RestoreIdea(t, id, now).outcome == Ok
    ensures var r := RestoreIdea(t, id, now).tables;
      && GetIdea(r, id).Some? && id !in ListArchivedIdeas(r)
  {
    RestoreIdeaGuard(t, id, now);
    RestoreIdeaEffect(t, id, now);
  }

  /** After a purge the topic, or the idea, is in no listing. */
  lemma PurgeReadSide(t: Tables, id: Id)
    requires Consistent(t)
    ensures id in t.topics && t.topics[id].archived ==>
      var r := PurgeTopic(t, id).tables;
      id !in ListArchivedTopics(r) && id !in ListTopics(r)
      && forall i :: i in t.ideas && t.ideas[i].topicId == id ==> i !in ListArchivedIdeas(r) && GetIdea(r, i).None?
    ensures id in t.ideas && t.ideas[id].archived ==>
      var r := PurgeIdea(t, id).tables;
      id !in ListArchivedIdeas(r) && GetIdea(r, id).None?
  {
    if id in t.topics && t.topics[id].archived {
      PurgeTopicEffect(t, id);
    }
    if id in t.ideas && t.ideas[id].archived {
      PurgeIdeaEffect(t, id);
    }
  }

  // ---------------------------------------------------------------- GET /api/tags

  /** Ordered by lower-cased name (ties in any order). */
  predicate SortedByLower(s: seq<string>) {
    forall i, j :: 0 <= i < j < |s| ==> LexLe(Lower(s[i]), Lower(s[j]))
  }

  function InsertByLower(x: string, s: seq<string>): seq<string> {
    if s == [] then [x]
    else if LexLe(Lower(x), Lower(s[0])) then [x] + s
    else [s[0]] + InsertByLower(x, s[1..])
  }

  /** The engine's sort for `ORDER BY LOWER(name)`. */
  function SortByLower(s: seq<string>): seq<string> {
    if s == [] then [] else InsertByLower(s[0], SortByLower(s[1..]))
  }

  lemma {:induction false} InsertByLowerElems(x: string, s: seq<string>)
    ensures multiset(InsertByLower(x, s)) == multiset(s) + multiset{x}
  {
    if s != [] && !LexLe(Lower(x), Lower(s[0])) {
      InsertByLowerElems(x, s[1..]);
      assert s == [s[0]] + s[1..];
    }
  }

  lemma {:induction false} InsertByLowerSorted(x: string, s: seq<string>)
    requires SortedByLower(s)
    ensures SortedByLower(InsertByLower(x, s))
  {
    if s == [] {
    } else if LexLe(Lower(x), Lower(s[0])) {
      var r := [x] + s;
      forall i, j | 0 <= i < j < |r| ensures LexLe(Lower(r[i]), Lower(r[j])) {
        if i == 0 && j > 1 {
          LexLeTransitive(Lower(x), Lower(s[0]), Lower(s[j - 1]));
        }
      }
    } else {
      LexLeTotal(Lower(x), Lower(s[0]));
      var tail := InsertByLower(x, s[1..]);
      InsertByLowerSorted(x, s[1..]);
      InsertByLowerElems(x, s[1..]);
      var r := [s[0]] + tail;
      forall j | 0 < j < |r| ensures LexLe(Lower(s[0]), Lower(r[j])) {
        assert r[j] in multiset(tail);
        if r[j] != x {
          assert r[j] in multiset(s[1..]);
          var k :| 0 <= k < |s[1..]| && s[1..][k] == r[j];
          assert s[k + 1] == r[j];
        }
      }
    }
  }

  lemma {:induction false} InsertByLowerDistinct(x: string, s: seq<string>)
    requires DistinctLower(s)
    requires forall i :: 0 <= i < |s| ==> Lower(s[i]) != Lower(x)
    ensures DistinctLower(InsertByLower(x, s))
  {
    if s != [] && !LexLe(Lower(x), Lower(s[0])) {
      var tail := InsertByLower(x, s[1..]);
      assert DistinctLower(tail) by {
        InsertByLowerDistinct(x, s[1..]);
      }
      assert forall j :: 0 <= j < |tail| ==> Lower(s[0]) != Lower(tail[j]) by {
        InsertByLowerElems(x, s[1..]);
        forall j | 0 <= j < |tail| ensures Lower(s[0]) != Lower(tail[j]) {
          FromRest(x, s, tail[j]);
        }
      }
      var r := [s[0]] + tail;
      forall i, j | 0 <= i < j < |r| ensures Lower(r[i]) != Lower(r[j]) {
        if i > 0 {
          assert r[i] == tail[i - 1] && r[j] == tail[j - 1];
        }
      }
    }
  }

  /** An element of the insert into `s[1..]` is `x` or one of `s[1..]`. */
  lemma FromRest(x: string, s: seq<string>, y: string)
    requires s != [] && y in multiset(s[1..]) + multiset{x}
    ensures y == x || exists k :: 1 <= k < |s| && s[k] == y
  {
    if y != x {
      assert y in s[1..];
      var k :| 0 <= k < |s[1..]| && s[1..][k] == y;
      assert s[k + 1] == y;
    }
  }

  lemma {:induction false} SortByLowerSpec(s: seq<string>)
    ensures SortedByLower(SortByLower(s))
    ensures multiset(SortByLower(s)) == multiset(s)
    ensures DistinctLower(s) ==> DistinctLower(SortByLower(s))
  {
    if s != [] {
      var rest := SortByLower(s[1..]);
      SortByLowerSpec(s[1..]);
      assert SortedByLower(SortByLower(s)) by {
        InsertByLowerSorted(s[0], rest);
      }
      assert multiset(SortByLower(s)) == multiset(s) by {
        InsertByLowerElems(s[0], rest);
        assert s == [s[0]] + s[1..];
      }
      if DistinctLower(s) {
        HeadApart(s, rest);
        InsertByLowerDistinct(s[0], rest);
      }
    }
  }

  /** With distinct folded names, the head's folded name is not that of any
      rearrangement of the rest. */
  lemma HeadApart(s: seq<string>, rest: seq<string>)
    requires s != [] && DistinctLower(s) && multiset(rest) == multiset(s[1..])
    ensures DistinctLower(s[1..])
    ensures forall i :: 0 <= i < |rest| ==> Lower(rest[i]) != Lower(s[0])
  {
    forall i | 0 <= i < |rest| ensures Lower(rest[i]) != Lower(s[0]) {
      assert rest[i] in multiset(s[1..]);
      var k :| 0 <= k < |s[1..]| && s[1..][k] == rest[i];
      assert s[k + 1] == rest[i];
    }
  }

  /** The names of the tag rows in the order the table is scanned. */
  function ScanNames(tags: map<Id, string>, rows: seq<Id>): seq<string>
    requires forall i :: 0 <= i < |rows| ==> rows[i] in tags
  {
    seq(|rows|, i requires 0 <= i < |rows| => tags[rows[i]])
  }

  /** The table scan visits every tag row once. */
  predicate ScansTable(tags: map<Id, string>, rows: seq<Id>) {
    && (forall i :: 0 <= i < |rows| ==> rows[i] in tags)
    && (forall k :: k in tags ==> k in rows)
    && (forall i, j :: 0 <= i < j < |rows| ==> rows[i] != rows[j])
  }

  /** GET /api/tags: `SELECT name FROM tags ORDER BY LOWER(name)`; `rows` is
      the order the engine reads the table in. */
  function ListTags(t: Tables, rows: seq<Id>): seq<string>
    requires ScansTable(t.tags, rows)
  {
    SortByLower(ScanNames(t.tags, rows))
  }

  /** The tag listing holds every tag name once per row, ordered by lower-cased
      name; with the table's case-insensitive uniqueness no two entries are
      equal ignoring case, so the order is strict. */
  lemma ListTagsSpec(t: Tables, rows: seq<Id>)
    requires ScansTable(t.tags, rows)
    ensures var r := ListTags(t, rows);
      && SortedByLower(r)
      && |r| == |t.tags|
      && (forall n :: n in r <==> n in t.tags.Values)
      && (UniqueTagNames(t.tags) ==> DistinctLower(r))
  {
    var names := ScanNames(t.tags, rows);
    SortByLowerSpec(names);
    var r := ListTags(t, rows);
    assert |r| == |names| by {
      assert |multiset(r)| == |multiset(names)|;
    }
    assert |rows| == |t.tags| by {
      RowsCard(t.tags, rows);
    }
    forall n ensures n in r <==> n in t.tags.Values {
      assert n in r <==> n in multiset(names);
      if n in t.tags.Values {
        var k :| k in t.tags && t.tags[k] == n;
        var i :| 0 <= i < |rows| && rows[i] == k;
        assert names[i] == n;
      }
    }
    if UniqueTagNames(t.tags) {
      assert DistinctLower(names);
    }
  }

  /** A duplicate-free scan of all the rows has one entry per row. */
  lemma {:induction false} RowsCard(tags: map<Id, string>, rows: seq<Id>)
    requires ScansTable(tags, rows)
    ensures |rows| == |tags|
  {
    assert Elems(rows) == tags.Keys;
    ElemsCard(rows);
  }
}
