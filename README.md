# More Good Ideas — a verified model of its data-consistency core

More Good Ideas is a small idea-tracking application: **topics** group
**ideas**, both carry case-insensitive **tags**, ideas collect **feedback**
ratings, and nothing is deleted outright at first. Archiving a topic archives
its ideas. Restoring is refused for an idea whose topic is still archived.
Permanent deletion is allowed only from the archive, cascades through the
foreign keys and then sweeps tags that nothing references any more. The
server is a Bun HTTP handler set over SQLite; the client is React.

This project models that core in Dafny and proves its properties:

- `Schema` (schema.dfy): the six tables of `src/lib/db.ts` as one value.
  It holds the constraints the schema declares (unique topic names, tag names
  unique ignoring case, foreign keys, the rating CHECK), one function per SQL
  statement the handlers run, the `ON DELETE CASCADE` chains and the orphan-tag
  sweep, each proved to keep the constraints.
- `Store` (store.dfy): the open database as a class `Database` whose fields
  are the tables. It has one method per SQL statement, each proved equal to
  its `Schema` function.
- `Tags` (tags.dfy): `syncIdeaTags`, `createIdeaTags` and `linkIdeaTags` of
  `src/lib/tags.ts`, and the copies of their loops in `src/index.ts`. Each is a
  loop method proved against one value-level resolution, `Resolve`, whose
  properties are lemmas.
- `Schemas` (schemas.dfy): the zod schemas of `src/lib/schemas.ts`, issue by
  issue, and `formatZodError`. `Auth` (auth.dfy) is `validateApiKey`.
- `Lifecycle` (lifecycle.dfy): each write endpoint as a function from tables
  to an outcome and new tables, with guard lemmas (which answer, in which
  order) and effect lemmas (exactly what changes, and that the constraints
  still hold).
- `Handlers` (handlers.dfy): the endpoints as methods on `Database`, in the
  source's statement order. Each is proved to produce exactly its `Lifecycle`
  step.
- `Queries` (queries.dfy): the read endpoints (listings, the archive, one
  idea, one topic, the tag list). It proves who sees what after each archive,
  restore or purge.
- `Archive` (archive.dfy): the archive page. That covers tag counts,
  filtering, the type filter in the URL, the confirmation dialogs, local
  removal and the restore error text.
- `Chips` (chips.dfy): the tag chips and the submit of the two edit forms.
- `StarRating` (star_rating.dfy): the star-rating widget.
- `Wrappers` and `Text`: `Option`/`Result`, and the string operations the
  source relies on. These are JavaScript `trim`, SQLite `LOWER`,
  `includes`, `join` and byte-wise ordering.

Identifiers from `crypto.randomUUID()` and timestamps from
`new Date().toISOString()` are parameters. `newIds` supplies one fresh
identifier per submitted tag name.

## Model

| member | source | states |
|---|---|---|
| Text.TrimSpec | src/lib/tags.ts:47 | `trim` never lengthens a string and leaves no white space at either end |
| Text.TrimStartSpec | src/lib/tags.ts:47 | the start-trimmed string is a suffix of the input, and what was cut is all white space |
| Text.TrimEndSpec | src/lib/tags.ts:47 | the end-trimmed string is a prefix of the input, and what was cut is all white space |
| Text.TrimIdempotent | src/components/EditIdea.tsx:96-100 | trimming twice is trimming once, so a chip added trimmed is unchanged by the server's `tag.trim()` |
| Text.BlankIffAllSpace | src/lib/tags.ts:48 | `!tag.trim()` holds exactly when the name is all white space |
| Text.Lower | src/lib/tags.ts:38 | `LOWER` keeps the length of the name |
| Text.LowerIdempotent | src/lib/db.ts:40 | folding case twice is folding once, so NOCASE comparison of folded names is folding comparison |
| Text.LowerTrimCommute | src/components/EditIdea.tsx:96-99 | `tag.trim().toLowerCase()` equals the trimmed fold of the lowered tag, and is empty exactly when `tag.trim()` is |
| Text.ContainsIffOccurs | src/components/EditIdea.tsx:86 | `includes` holds exactly when the text occurs at some position |
| Text.JoinAppend | src/lib/schemas.ts:30-32 | joining two non-empty lists is joining each and putting one separator between |
| Text.NatToString | src/lib/schemas.ts:31 | an array index in an issue path prints as decimal digits that denote the index, with no leading zero unless it is 0 |
| Text.LexLeTotal | src/index.ts:161 | the order `ORDER BY LOWER(name)` applies to the folded names compares every two of them |
| Text.LexLeTransitive | src/index.ts:161 | that order is transitive |
| Text.LexLeAntisymmetric | src/index.ts:161 | that order only ties equal names |
| Text.Without | src/components/Archive.tsx:294 | `filter((t) => t !== tag)` keeps exactly the elements other than the tag |
| Text.WithoutAbsent | src/components/EditIdea.tsx:106-108 | removing a chip that is not there changes nothing |
| Text.WithoutAppend | src/components/Archive.tsx:294 | removing a tag just appended, and absent before, restores the list |
| Schema.PutTagSpec | src/lib/tags.ts:37 | `INSERT OR IGNORE INTO tags` adds the row only when no tag has the name ignoring case; otherwise nothing changes; NOCASE uniqueness is kept |
| Schema.InsertTopicPreservesConsistent | src/lib/db.ts:16-23 | inserting a topic under a new id and a free name keeps every constraint |
| Schema.InsertIdeaPreservesConsistent | src/lib/db.ts:26-35 | inserting an idea whose topic exists keeps every constraint |
| Schema.SetTopicArchivedPreservesConsistent | src/index.ts:894-898 | the topic archive flag update keeps every constraint |
| Schema.SetIdeasArchivedPreservesConsistent | src/index.ts:900-904 | the archive flag update of all a topic's ideas keeps every constraint |
| Schema.SetIdeaArchivedPreservesConsistent | src/index.ts:591-597 | the idea archive flag update keeps every constraint |
| Schema.UpdateTopicRowPreservesConsistent | src/index.ts:805-809 | renaming a topic to a name no other topic has keeps every constraint |
| Schema.UpdateIdeaRowPreservesConsistent | src/update-idea.test.ts:110-114 | updating an idea to point at an existing topic keeps every constraint |
| Schema.LinkedLinks | src/lib/tags.ts:39-41 | `INSERT OR IGNORE` into a join table adds exactly the given links of one owner and touches nothing else |
| Schema.UnlinkedLinks | src/lib/tags.ts:42 | `DELETE FROM idea_tags WHERE ideaId = ? AND tagId = ?` removes exactly those links of one owner |
| Schema.LinkedPreservesConsistent | src/lib/db.ts:44-59 | linking an existing owner to existing tags keeps the foreign keys |
| Schema.UnlinkedPreservesConsistent | src/lib/db.ts:44-59 | unlinking keeps every constraint |
| Schema.LinkedIdempotent | src/lib/tags.ts:39-41 | linking the same tags again changes nothing (the primary key makes the insert a no-op) |
| Schema.DeleteIdeasCascade | src/lib/db.ts:57 | deleting ideas deletes exactly their tag links and feedback, and nothing else |
| Schema.DeleteIdeaCascade | src/archive-api.test.ts:465 | deleting one idea removes it, its tag links and its feedback, and keeps the constraints |
| Schema.DeleteTopicCascade | src/archive-api.test.ts:419 | deleting a topic removes it, its tag links, its ideas and, through them, their links and feedback |
| Schema.DeleteOrphanTagsKeepsReferenced | src/archive-api.test.ts:422-426 | the sweep keeps exactly the tags some topic or idea still links, with their names |
| Schema.DeleteOrphanTagsPreservesConsistent | src/archive-api.test.ts:422-426 | the sweep keeps every constraint |
| Store.Database.constructor | src/lib/db.ts:14-70 | a new database has empty tables, which satisfy every constraint |
| Store.Database.FindTagId | src/lib/tags.ts:50 | the lookup returns a tag whose name equals the given one ignoring case, or reports that no tag has it |
| Store.Database.SelectLinks | src/lib/tags.ts:32-35 | the rows are exactly the owner's linked tag ids, each once |
| Store.Database.InsertTopic | src/index.ts:100-103 | the insert succeeds exactly when the name is free (UNIQUE), and then adds the row; otherwise nothing changes |
| Store.Database.InsertIdea | src/index.ts:206-209 | the insert adds exactly the idea row |
| Store.Database.InsertOrIgnoreTag | src/lib/tags.ts:57 | the tables become the `INSERT OR IGNORE` function's result |
| Store.Database.AddLink | src/lib/tags.ts:54 | one link is added, as `Linked` says |
| Store.Database.RemoveLink | src/lib/tags.ts:66 | one link is removed, as `Unlinked` says |
| Store.Database.SetTopicArchived | src/index.ts:894-898 | the topic's flag and time change, as the statement function says |
| Store.Database.SetIdeasArchived | src/index.ts:900-904 | the flag and time of every idea of the topic change |
| Store.Database.SetIdeaArchived | src/index.ts:591-597 | the idea's flag and time change |
| Store.Database.UpdateTopicRow | src/index.ts:805-809 | the update fails exactly when another topic has the new name, and otherwise sets name, description and time |
| Store.Database.UpdateIdeaRow | src/update-idea.test.ts:110-114 | name, description, topic and time are set |
| Store.Database.DeleteTopic | src/archive-api.test.ts:419 | the topic is deleted with its cascades |
| Store.Database.DeleteIdea | src/archive-api.test.ts:465 | the idea is deleted with its cascades |
| Store.Database.DeleteOrphanTags | src/archive-api.test.ts:422-426 | the unreferenced tags are deleted |
| Tags.Kept | src/lib/tags.ts:46-48 | the names the loop acts on, trimmed, with blank ones skipped, are no more than the input |
| Tags.KeptTrimmed | src/lib/tags.ts:47-48 | every name acted on is non-blank and trimmed |
| Tags.Match | src/lib/tags.ts:50 | the case-insensitive lookup finds a tag with the name, or there is none |
| Tags.MatchUnique | src/lib/db.ts:40 | with NOCASE uniqueness the lookup finds the one tag that has the name |
| Tags.Resolve | src/lib/tags.ts:46-61 | the loop yields one tag id per non-blank name |
| Tags.ResolveTags | src/lib/tags.ts:55-59 | resolving keeps NOCASE uniqueness and every existing tag, and adds only new-id tags that are also returned |
| Tags.ResolveIds | src/lib/tags.ts:50-59 | the j-th returned id is a tag whose name equals the j-th kept name ignoring case |
| Tags.ResolveNewNames | src/lib/tags.ts:55-58 | every created tag is stored under the trimmed name it was created for |
| Tags.ResolveReusesExisting | src/lib/tags.ts:52-54 | a name an existing tag has in any casing resolves to that tag |
| Tags.ResolveRepeatsSameId | src/lib/tags.ts:46-61 | names equal ignoring case resolve to the same id, so a repeat creates nothing |
| Tags.ResolveCreatesOne | src/lib/tags.ts:55-58 | a name no tag has is created once, under its fresh id, and is then the only tag with that name |
| Tags.ResolveBlank | src/lib/tags.ts:48 | a list of blank names resolves to nothing and changes no tag |
| Tags.ResolvePreservesConsistent | src/lib/tags.ts:57 | the tags the loop creates keep every constraint |
| Tags.ResolveAndLinkConsistent | src/lib/tags.ts:46-61 | resolving and linking to an existing owner keeps every constraint |
| Tags.SyncSpec | src/lib/tags.ts:27-71 | after a sync the owner is linked to exactly the resolved ids, no other owner's links change, rows and feedback stay, and constraints hold |
| Tags.ResolveName | src/lib/tags.ts:47-59 | one turn of the loop: a blank name changes nothing, otherwise the id found or created is the resolution's next id |
| Tags.CreateTags | src/lib/tags.ts:84-113 | `createIdeaTags` leaves the tags and ids of `Resolve` and changes no other table |
| Tags.LinkTags | src/lib/tags.ts:122-131 | `linkIdeaTags` links the owner to exactly the given ids |
| Tags.ResolveAndLinkName | src/lib/tags.ts:47-60 | one turn of `syncIdeaTags`'s first loop advances the linked prefix by one name |
| Tags.ResolveAndLinkTags | src/lib/tags.ts:46-61 | the first loop ends in the state `ResolveAndLink` describes and returns its ids |
| Tags.UnlinkStale | src/lib/tags.ts:63-68 | the second loop unlinks exactly the previously linked ids the new list does not contain |
| Tags.SyncTags | src/lib/tags.ts:27-71 | `syncIdeaTags` (and the topic copy at src/index.ts:811-848) ends in `Sync`'s state and returns its ids |
| Schemas.ElementIssuesSpec | src/lib/schemas.ts:12 | a tags array reports no issue exactly when each element is a string of at most 50 characters; each issue names its index |
| Schemas.TagsIssuesSpec | src/lib/schemas.ts:21 | the tags field is accepted exactly when absent or such an array; its issues are under `tags` |
| Schemas.ParseIdeaAccepts | src/lib/schemas.ts:17-22 | `updateIdeaSchema` accepts exactly the bodies with a non-empty topic id, a 1–200 character name, an optional string description of at most 5000 characters, and valid tags |
| Schemas.ParseIdeaData | src/lib/schemas.ts:17-22 | an accepted body reads back as its topic id, trimmed name, trimmed description or none when blank or absent, and its tags (`[]` when absent) |
| Schemas.ParseIdeaIssuePaths | src/lib/schemas.ts:17-22 | every issue is about the body itself or one of its four fields |
| Schemas.BlankNameAccepted | src/lib/schemas.ts:19 | the minimum length is checked before trimming, so every name of 1..200 white space characters passes the name checks of both schemas and comes back `""`; with only a topic id beside it the idea schema accepts it |
| Schemas.ParseTopicSpec | src/lib/schemas.ts:50-54 | `topicSchema` accepts exactly valid name, description and tags; it hands back the trimmed name, the trimmed description or none when blank or absent, and the tag names as sent (`[]` when absent) |
| Schemas.ParseFeedbackSpec | src/lib/schemas.ts:61-64 | `feedbackSchema` accepts exactly a whole rating in 1..5 and notes of at most 500 characters; the rating read back is the number sent and meets the table's CHECK (src/lib/db.ts:65); the notes come back trimmed, and absent exactly when missing or blank |
| Schemas.RatingReportsEveryCheck | src/lib/schemas.ts:62 | every fractional rating below 1 reports the integer issue, then the minimum issue; above 5, the integer issue, then the maximum issue; a number reports nothing exactly when it is whole and in 1..5 |
| Schemas.FormatOne | src/lib/schemas.ts:31 | one issue formats as `path: message` |
| Schemas.FormatAppend | src/lib/schemas.ts:30-32 | the issues of two lists are joined by `, ` |
| Schemas.ElementPathText | src/lib/schemas.ts:31 | a tag element's path prints as `tags.<index>` |
| Auth.ValidateApiKeySpec | src/lib/auth.ts:8-39 | a request passes exactly when no key is configured or the header equals it; a missing or empty header gets the "required" error, any other wrong one "invalid" |
| Lifecycle.ArchiveTopicGuard | src/index.ts:888-890 | archiving succeeds exactly for an active topic; otherwise 404 and no change |
| Lifecycle.ArchiveTopicEffect | src/index.ts:892-904 | archiving sets the topic and all its ideas archived with one timestamp, changes nothing else, and keeps the constraints |
| Lifecycle.ArchiveIdeaGuard | src/delete-idea.test.ts:62-68 | an unknown idea is 404, an archived one 400 "Idea is already archived", an active one succeeds |
| Lifecycle.ArchiveIdeaEffect | src/delete-idea.test.ts:72-76 | archiving an idea changes only its flag and time, and keeps the constraints |
| Lifecycle.RestoreTopicGuard | src/index.ts:469-475 | restoring succeeds exactly for an archived topic; unknown is 404, active is 400 |
| Lifecycle.RestoreTopicEffect | src/index.ts:477-489 | restoring un-archives the topic and all its ideas with one timestamp; each idea keeps its name, description, topic and creation time, and nothing else changes |
| Lifecycle.RestoreIdeaGuard | src/index.ts:563-589 | restoring an idea is refused, in this order, for an unknown idea, an active one, or one whose topic is archived; otherwise it succeeds; a refusal changes nothing |
| Lifecycle.RestoreIdeaEffect | src/index.ts:591-597 | restoring an idea changes only its flag and time, and keeps the constraints |
| Lifecycle.PurgeTopicGuard | src/archive-api.test.ts:410-416 | permanent deletion of a topic succeeds exactly when it is archived; unknown is 404, active is 400 |
| Lifecycle.PurgeTopicEffect | src/archive-api.test.ts:419-426 | the topic, its ideas, their links and feedback are gone; every surviving idea and feedback row keeps its values; the tags left are exactly the still-referenced ones, with their names |
| Lifecycle.PurgeIdeaGuard | src/archive-api.test.ts:456-462 | permanent deletion of an idea succeeds exactly when it is archived |
| Lifecycle.PurgeIdeaEffect | src/archive-api.test.ts:465-472 | the idea, its links and feedback are gone; topics and topic links stay; every surviving feedback row keeps its values; the tags left are exactly the still-referenced ones, with their names |
| Lifecycle.PurgeIdeaSweepsItsTags | src/archive-api.test.ts:916-942 | a tag used only by the purged idea disappears; a tag some other topic or idea uses survives |
| Lifecycle.PurgeTopicSweepsItsTags | src/archive-api.test.ts:419-426 | a tag used only by the topic and its ideas disappears; one used elsewhere survives |
| Lifecycle.TagNewOwnerSpec | src/index.ts:213-238 | a new row ends up linked to exactly the resolved ids, other rows' links unchanged, constraints kept |
| Lifecycle.CreateTopicGuard | src/index.ts:93-103 | creating a topic succeeds exactly when a name is given and no topic has it; a missing name is 400; a failure changes nothing |
| Lifecycle.CreateTopicEffect | src/index.ts:100-131 | the new topic row holds the trimmed name, and its tags are exactly the resolved ones |
| Lifecycle.CreateIdeaGuard | src/index.ts:178-201 | creating an idea checks topic id, then name, then that the topic is active (404) |
| Lifecycle.CreateIdeaEffect | src/index.ts:206-238 | the new idea row holds the topic, the trimmed name and `description \|\| null`, and its tags are exactly the resolved ones |
| Lifecycle.ApplyTopicEditSpec | src/index.ts:805-848 | a topic edit sets name, description and time; with a tag array the links become exactly the resolved ids; without one the tags stay |
| Lifecycle.UpdateTopicGuard | src/index.ts:784-809 | an edit succeeds exactly with a name, an active topic and a name no other topic has; missing name 400; unknown or archived 404 |
| Lifecycle.ApplyIdeaEditSpec | src/update-idea.test.ts:110-117 | an idea edit sets name, description, topic and time, keeps it active, and links it to exactly the resolved tags |
| Lifecycle.UpdateIdeaGuards | src/update-idea.test.ts:61-144 | the checks run in order: API key (401), a body that is not JSON (500 "Failed to update idea"), the schema (400, a literal `null` included), idea active (404), new topic active (400); any failure changes nothing; success is the edit |
| Handlers.HandleArchiveTopic | src/index.ts:873-911 | the handler answers and leaves the tables as `ArchiveTopic` says, and keeps the constraints |
| Handlers.HandleArchiveIdea | src/delete-idea.test.ts:46-83 | the handler matches `ArchiveIdea` |
| Handlers.HandleRestoreTopic | src/index.ts:453-538 | the handler matches `RestoreTopic` |
| Handlers.HandleRestoreIdea | src/index.ts:540-648 | the handler matches `RestoreIdea` |
| Handlers.HandlePurgeTopic | src/archive-api.test.ts:394-437 | the handler matches `PurgeTopic` |
| Handlers.HandlePurgeIdea | src/archive-api.test.ts:439-483 | the handler matches `PurgeIdea` |
| Handlers.TagNewRow | src/index.ts:213-238 | the create handlers' tag block ends in `TagNewOwner`'s state |
| Handlers.HandleCreateTopic | src/index.ts:88-155 | the handler matches `CreateTopic` |
| Handlers.HandleCreateIdea | src/index.ts:173-263 | the handler matches `CreateIdea` |
| Handlers.HandleUpdateTopic | src/index.ts:778-871 | the handler matches `UpdateTopic` |
| Handlers.HandleUpdateIdea | src/update-idea.test.ts:61-145 | the handler matches `UpdateIdea` |
| Queries.Visibility | src/index.ts:313 | one idea is shown exactly when it and its topic are active, with the topic's name; one topic exactly when active, with exactly its visible ideas |
| Queries.TopicListingsPartition | src/index.ts:35-86 | every topic is in exactly one of the active and archived listings, and a count never exceeds the topic's ideas |
| Queries.ArchiveTopicReadSide | src/index.ts:873-904 | after the archive route's two updates, the topic leaves the main listing (src/index.ts:54-57) for the archive listing (src/index.ts:341-364), with all its ideas counted, and its ideas move to the archive |
| Queries.RestoreTopicReadSide | src/index.ts:477-489 | after restoring a topic it and all its ideas are visible again and out of the archive |
| Queries.ArchiveIdeaReadSide | src/delete-idea.test.ts:72-76 | an archived idea is hidden, is in the archive and leaves its topic's active ideas |
| Queries.RestoreIdeaReadSide | src/index.ts:591-597 | a restored idea is visible and out of the archive |
| Queries.PurgeReadSide | src/archive-api.test.ts:419-472 | a purged topic or idea, and a purged topic's ideas, appear in no listing |
| Queries.InsertByLowerElems | src/index.ts:161 | inserting a name into the sorted list adds exactly that name |
| Queries.InsertByLowerSorted | src/index.ts:161 | inserting keeps the list ordered |
| Queries.InsertByLowerDistinct | src/index.ts:161 | inserting a name whose folded form is new keeps folded names distinct |
| Queries.SortByLowerSpec | src/index.ts:161 | sorting yields an ordered permutation, distinct ignoring case if the input was |
| Queries.ListTagsSpec | src/index.ts:159-169 | GET /api/tags returns every tag name once, ordered, and no two names equal ignoring case |
| Archive.CountNames | src/components/Archive.tsx:233 | the counting loop adds each name's occurrences to the map |
| Archive.CountTags | src/components/Archive.tsx:231-234 | each tag's count is the number of times it occurs on the archived topics and ideas |
| Archive.CountIsCarriers | src/components/Archive.tsx:231-234 | when no item repeats a tag, a tag's count is the number of items carrying it |
| Archive.Tagged | src/components/Archive.tsx:244 | tagging entries with their kind keeps their number |
| Archive.FilterMembers | src/components/Archive.tsx:253-261 | `filter` keeps exactly the items meeting its test |
| Archive.FilterAll | src/components/Archive.tsx:253-261 | a filter every item meets keeps the list as it is |
| Archive.FilterSubseq | src/components/Archive.tsx:253-261 | a filter keeps the items' order |
| Archive.FilterAppend | src/components/Archive.tsx:253-261 | filtering a concatenation filters each part |
| Archive.PassingSpec | src/components/Archive.tsx:240-265 | the passing items are an ordered selection of the list holding exactly the items of a shown kind that match the search and carry every selected tag; with no filter active, the whole list |
| Archive.TypeStep | src/components/Archive.tsx:243-249 | pushing the topics and then the ideas of the shown kinds gives the list narrowed by the type filter alone |
| Archive.NarrowStep | src/components/Archive.tsx:251-261 | a `filter` call with one more condition turns the list passing the earlier filters into the list passing them and it |
| Archive.FilteredItems | src/components/Archive.tsx:240-265 | the shown items are exactly `Passing` of the topics followed by the ideas: in order, those of the chosen kinds matching the search and carrying every selected tag, each entry as often as it occurs; with no filter, all |
| Archive.ToggleTagSpec | src/components/Archive.tsx:293-295 | toggling selects the tag exactly when it was not selected, leaves the others, and toggling twice restores the selection |
| Archive.ClearFilters | src/components/Archive.tsx:282-291 | clearing leaves no active filter |
| Archive.TypeUrlSpec | src/components/Archive.tsx:169-180 | the type filter survives a round trip through the URL, and only `topics` and `ideas` narrow it |
| Archive.DeleteRequest | src/components/Archive.tsx:381-393 | a permanent delete is sent exactly when the typed text equals the item's name, and is a DELETE |
| Archive.RestoreRequest | src/components/Archive.tsx:314-326 | a restore is sent for a chosen item, as a POST |
| Archive.DropId | src/components/Archive.tsx:344 | removing by id keeps exactly the other entries |
| Archive.RemoveLocal | src/components/Archive.tsx:343-347 | after success only the list of the item's kind loses the item |
| Archive.ShownVerbatim | src/components/Archive.tsx:336 | a short error is shown as sent |
| Archive.ParentArchivedText | src/components/Archive.tsx:331-334 | the parent-archived error is rewritten to name the topic |
| Archive.RestoreIdeaErrorText | src/components/Archive.tsx:328-337 | for each refusal of an idea restore the dialog shows the server's text, or the parent message with the topic's name |
| Archive.RestoreTopicErrorText | src/components/Archive.tsx:328-337 | for each refusal of a topic restore the dialog shows the server's text |
| Chips.AddTagSpec | src/components/EditIdea.tsx:95-104 | a tag is appended trimmed exactly when non-blank and no chip equals it ignoring case; otherwise the chips stay; the input clears |
| Chips.AddTagKeepsChipsOk | src/components/EditTopic.tsx:75-84 | adding keeps chips trimmed, non-blank and distinct ignoring case, and adding the same tag again changes nothing |
| Chips.RemoveTagSpec | src/components/EditIdea.tsx:106-108 | removing drops every copy of the tag, keeps the other chips in order, and keeps them well formed |
| Chips.Matching | src/components/EditIdea.tsx:85-87 | suggestions are exactly the existing tags containing the input ignoring case and not already chosen |
| Chips.Suggestions | src/components/EditTopic.tsx:62-73 | suggestions are produced exactly for non-blank input, and are never chosen tags |
| Chips.TopicSubmitAccepted | src/components/EditTopic.tsx:90-112 | the topic form blocks a blank name, and its body passes PUT /api/topics/:id's checks with the chips as tags |
| Chips.IdeaSubmitGuards | src/components/EditIdea.tsx:114-122 | the idea form checks the topic first, then the name |
| Chips.BlankDescriptionRejected | src/components/EditIdea.tsx:132-137 | as written, a blank description is sent as `null`, which the schema refuses |
| Chips.IdeaSubmitFixedAccepted | src/lib/schemas.ts:17-22 | a body that leaves a blank description out is accepted and reads back as the form's values |
| Chips.ChipsResolveApart | src/lib/tags.ts:46-61 | well-formed chips resolve to pairwise distinct tags, as many as there are chips |
| StarRating.FillsSpec | src/components/ui/star-rating.tsx:28 | the filled stars are a prefix, as long as the hover value when set, else the rating |
| StarRating.HoverSpec | src/components/ui/star-rating.tsx:31-41 | hovering a star fills up to it; leaving shows the rating again; read-only ignores both |
| StarRating.KeyDownSpec | src/components/ui/star-rating.tsx:49-75 | arrow keys step by one within 1..5; Enter and Space emit the star; other keys nothing |
| StarRating.ReadonlyInert | src/components/ui/star-rating.tsx:31-50 | a read-only widget never emits and never previews |
| StarRating.EmittedRatingAccepted | src/components/ui/star-rating.tsx:43-75 | from no rating or one in 1..5, every emitted rating is in 1..5 and passes `feedbackSchema` unchanged |
| StarRating.RatingRoundTrip | src/lib/schemas.ts:62 | a whole rating in 1..5 passes `feedbackSchema` and reads back as itself |

## Left out

- HTTP routing, request parsing and response bodies are left out. The model keeps the status and error text of each outcome. For the create handlers and PUT /api/topics/:id, a body that is not JSON is modelled as `null`: both make the handler throw, and it answers 500. PUT /api/ideas/:id validates with zod instead, so there a literal `null` is a 400 and a body that is not JSON (`None`) is a 500.
- JSON truthiness is modelled only in part. The hand-written checks in src/index.ts treat a non-empty string `description` as present and every other value as `null`. Non-string truthy values (numbers, objects), which the source would store as is, are left out.
- Handlers.HandleCreateTopic: requires every `tags` element to be a string. A non-string element makes `tag.trim()` throw after the row is inserted, and that partial write is not modelled.
- Handlers.HandleCreateIdea: requires every `tags` element to be a string, for the same reason.
- Handlers.HandleUpdateTopic: requires every `tags` element to be a string, for the same reason.
- String lengths count characters, not UTF-16 code units. Case folding is ASCII `LOWER` (SQLite without ICU). JavaScript's Unicode `toLowerCase` on the client is the same fold here.
- Only the zod messages the schemas name are modelled. Type errors use zod's "Expected …, received …" wording for the JSON types.
- The `GROUP_CONCAT` tag columns of the listings become sets of tag names. Duplicate handling and comma joining are left out.
- The feedback projection of GET /api/ideas/:id and GET /api/topics/:id is left out. Feedback is modelled only as rows that cascade with their idea.
- `ORDER BY createdAt`/`updatedAt` in the listings is left out; the listings are maps. `ORDER BY LOWER(name)` of the tag list is modelled as byte-wise order of the folded names.
- The archive page sorts its tag counts with `localeCompare`. That sort is left out, and the counts are a map.
- The `tags` URL parameter (`join(",")`/`split(",")`) is left out. Only the type filter's round trip is modelled.
- The tag block runs `INSERT OR IGNORE` and does not look the name up again after losing a concurrent race. Concurrency is left out, so that case is not modelled.
- The tags foreign keys' `ON DELETE CASCADE` (src/lib/db.ts:49, 58) is not modelled on its own: no handler deletes a single tag, and the orphan sweep deletes only tags no link points at.
- Concurrency, transactions and the test-only `/api/test/cleanup` and `/api/hello` routes are left out.
- The React runtime, the 300 ms search debounce, toasts, navigation and loading states are left out. Component state is passed in and returned.
- Chips.Suggestions: with blank input the source hides the list and keeps the previous suggestions in state. The model returns `None` and does not track the hidden list.

## Findings

| source | as written | input that shows it | evidently intended | confidence | as-written member | corrected member |
|---|---|---|---|---|---|---|
| src/components/EditIdea.tsx:135 | the edit form sends its PUT to /api/ideas/:id, whose handler exists only in src/update-idea.test.ts (src/index.ts has no such route); it sends `description: description.trim() \|\| null`, and `updateIdeaSchema` (src/lib/schemas.ts:20) accepts a string or no field, not `null` | an idea edited with an empty description: the PUT is refused with 400 "description: Expected string, received null" | leave the description out when blank, so the schema reads it as absent and the handler stores `null` | not executed | Chips.BlankDescriptionRejected | Chips.IdeaSubmitFixedAccepted |
