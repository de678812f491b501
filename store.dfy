/**
 * The open SQLite database: the six tables held as fields and changed in
 * place by the statements the handlers run, one method per statement. Each
 * method's new state is the corresponding function of the `Schema` module
 * applied to the old one; a statement that violates a constraint raises, and
 * then nothing changes.
 */
module Store {
  import opened Wrappers
  import opened Text
  import opened Schema

  class Database {
    var topics: map<Id, Topic>
    var ideas: map<Id, Idea>
    var tags: map<Id, string>
    var topicTags: set<Link>
    var ideaTags: set<Link>
    var feedback: map<Id, Feedback>

    function State(): Tables
      reads this
    {
      Tables(topics, ideas, tags, topicTags, ideaTags, feedback)
    }

    predicate Valid()
      reads this
    {
      Consistent(State())
    }

    /** initDatabase on a fresh file: every table empty. */
    constructor ()
      ensures State() == Empty && Valid()
    {
      topics, ideas, tags := map[], map[], map[];
      topicTags, ideaTags, feedback := {}, {}, map[];
    }

    /** SELECT id FROM tags WHERE LOWER(name) = LOWER(?): a scan of the tags
        table that stops at the first match. */
    method FindTagId(name: string) returns (r: Option<Id>)
      ensures r.Some? ==> r.value in tags && Lower(tags[r.value]) == Lower(name)
      ensures r.None? ==> TagNameFree(tags, name)
    {
      var todo := tags.Keys;
      while todo != {}
        invariant todo <= tags.Keys
        invariant forall k :: k in tags && k !in todo ==> Lower(tags[k]) != Lower(name)
        decreases |todo|
      {
        var k :| k in todo;
        if Lower(tags[k]) == Lower(name) {
          return Some(k);
        }
        todo := todo - {k};
      }
      return None;
    }

    /** SELECT tagId FROM topic_tags / idea_tags WHERE owner = ?: the owner's
        linked tag ids, one row each, in no particular order. */
    method SelectLinks(o: Owner) returns (rows: seq<Id>)
      ensures forall k :: k in rows <==> k in LinksOf(State(), o)
      ensures forall i, j :: 0 <= i < j < |rows| ==> rows[i] != rows[j]
    {
      var todo := LinksOf(State(), o);
      rows := [];
      while todo != {}
        invariant todo <= LinksOf(State(), o)
        invariant forall k :: k in rows <==> k in LinksOf(State(), o) && k !in todo
        invariant forall i, j :: 0 <= i < j < |rows| ==> rows[i] != rows[j]
        decreases |todo|
      {
        var k :| k in todo;
        rows := rows + [k];
        todo := todo - {k};
      }
    }

    /** INSERT INTO topics with a fresh id; it raises when the name is taken. */
    method InsertTopic(id: Id, row: Topic) returns (ok: bool)
      requires id !in topics
      modifies this
      ensures ok == TopicNameFree(old(topics), row.name, None)
      ensures State() == if ok then Schema.InsertTopic(old(State()), id, row) else old(State())
    {
      ok := forall k :: k in topics ==> topics[k].name != row.name;
      if ok {
        topics := topics[id := row];
      }
    }

    /** INSERT INTO ideas with a fresh id under an existing topic. */
    method InsertIdea(id: Id, row: Idea)
      requires id !in ideas && row.topicId in topics
      modifies this
      ensures State() == Schema.InsertIdea(old(State()), id, row)
    {
      ideas := ideas[id := row];
    }

    /** INSERT OR IGNORE INTO tags (id, name) VALUES (?, ?) */
    method InsertOrIgnoreTag(id: Id, name: string)
      modifies this
      ensures State() == Schema.InsertOrIgnoreTag(old(State()), id, name)
    {
      if id !in tags && forall k :: k in tags ==> Lower(tags[k]) != Lower(name) {
        tags := tags[id := name];
      }
    }

    /** INSERT OR IGNORE INTO topic_tags / idea_tags (owner, tagId) VALUES (?, ?);
        both foreign keys hold. */
    method AddLink(o: Owner, tagId: Id)
      requires OwnerExists(State(), o) && tagId in tags
      modifies this
      ensures State() == Linked(old(State()), o, {tagId})
    {
      match o
      case TopicOwner(x) =>
        assert Pairs(x, {tagId}) == {(x, tagId)};
        topicTags := topicTags + {(x, tagId)};
      case IdeaOwner(x) =>
        assert Pairs(x, {tagId}) == {(x, tagId)};
        ideaTags := ideaTags + {(x, tagId)};
    }

    /** DELETE FROM topic_tags / idea_tags WHERE owner = ? AND tagId = ? */
    method RemoveLink(o: Owner, tagId: Id)
      modifies this
      ensures State() == Unlinked(old(State()), o, {tagId})
    {
      match o
      case TopicOwner(x) =>
        assert Pairs(x, {tagId}) == {(x, tagId)};
        topicTags := topicTags - {(x, tagId)};
      case IdeaOwner(x) =>
        assert Pairs(x, {tagId}) == {(x, tagId)};
        ideaTags := ideaTags - {(x, tagId)};
    }

    /** UPDATE topics SET isArchived = ?, updatedAt = ? WHERE id = ? */
    method SetTopicArchived(id: Id, archived: bool, now: Timestamp)
      modifies this
      ensures State() == Schema.SetTopicArchived(old(State()), id, archived, now)
    {
      if id in topics {
        topics := topics[id := topics[id].(archived := archived, updatedAt := now)];
      }
    }

    /** UPDATE ideas SET isArchived = ?, updatedAt = ? WHERE topicId = ? */
    method SetIdeasArchived(topicId: Id, archived: bool, now: Timestamp)
      modifies this
      ensures State() == Schema.SetIdeasArchived(old(State()), topicId, archived, now)
    {
      ideas := map i | i in ideas ::
        if ideas[i].topicId == topicId then ideas[i].(archived := archived, updatedAt := now) else ideas[i];
    }

    /** UPDATE ideas SET isArchived = ?, updatedAt = ? WHERE id = ? */
    method SetIdeaArchived(id: Id, archived: bool, now: Timestamp)
      modifies this
      ensures State() == Schema.SetIdeaArchived(old(State()), id, archived, now)
    {
      if id in ideas {
        ideas := ideas[id := ideas[id].(archived := archived, updatedAt := now)];
      }
    }

    /** UPDATE topics SET name = ?, description = ?, updatedAt = ? WHERE id = ?;
        it raises when another topic holds the name. */
    method UpdateTopicRow(id: Id, name: string, description: Option<string>, now: Timestamp) returns (ok: bool)
      requires id in topics
      modifies this
      ensures ok == TopicNameFree(old(topics), name, Some(id))
      ensures State() == if ok then Schema.UpdateTopicRow(old(State()), id, name, description, now) else old(State())
    {
      ok := forall k :: k in topics && k != id ==> topics[k].name != name;
      if ok {
        topics := topics[id := topics[id].(name := name, description := description, updatedAt := now)];
      }
    }

    /** UPDATE ideas SET name = ?, description = ?, topicId = ?, updatedAt = ? WHERE id = ? */
    method UpdateIdeaRow(id: Id, name: string, description: Option<string>, topicId: Id, now: Timestamp)
      requires id in ideas && topicId in topics
      modifies this
      ensures State() == Schema.UpdateIdeaRow(old(State()), id, name, description, topicId, now)
    {
      ideas := ideas[id := ideas[id].(name := name, description := description, topicId := topicId, updatedAt := now)];
    }

    /** DELETE FROM topics WHERE id = ?, cascades included. */
    method DeleteTopic(id: Id)
      modifies this
      ensures State() == Schema.DeleteTopic(old(State()), id)
    {
      var gone := set i | i in ideas && ideas[i].topicId == id;
      ideaTags := set l | l in ideaTags && l.0 !in gone;
      feedback := map f | f in feedback && feedback[f].ideaId !in gone :: feedback[f];
      ideas := ideas - gone;
      topicTags := set l | l in topicTags && l.0 != id;
      topics := topics - {id};
    }

    /** DELETE FROM ideas WHERE id = ?, cascades included. */
    method DeleteIdea(id: Id)
      modifies this
      ensures State() == Schema.DeleteIdea(old(State()), id)
    {
      ideaTags := set l | l in ideaTags && l.0 !in {id};
      feedback := map f | f in feedback && feedback[f].ideaId !in {id} :: feedback[f];
      ideas := ideas - {id};
    }

    /** DELETE FROM tags WHERE the id is in neither join table. */
    method DeleteOrphanTags()
      modifies this
      ensures State() == Schema.DeleteOrphanTags(old(State()))
    {
      var used := (set l | l in topicTags :: l.1) + (set l | l in ideaTags :: l.1);
      tags := map k | k in tags && k in used :: tags[k];
    }
  }
}
