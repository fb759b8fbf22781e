# posts-ms engagement core, modelled in Dafny

posts-ms is a backend service that keeps social-network posts together with their likes and comments. This project models its core. The core has three parts:

- The **like service** upserts a user's like on a post (at most one like per user and post). It recomputes the post's `totalLikes`/`totalUnlikes` counters from the post's likes, notifies the post owner, and on removal of a like decrements the matching counter.
- The **post service** looks posts up and converts them to responses. It creates a post after uploading its image to the media service. On deletion it cascades: it publishes a request to delete the image, and deletes the post's likes, its comments and the post, in that order.
- The **comment service** stores comments, notifies the post owner, deletes comments and lists a post's comments.

The model has these modules:

- `Rows`: tables as sequences of rows in persistence order. It provides the SQL `WHERE` filter, lookup by primary key and the ORM's `Save` (an upsert by primary key).
- `Entities`: the records, requests, responses and the counting rule. Type 1 counts as a like; every other type counts as a dislike.
- `Repository`: the class `Store`, which holds the three tables and the next generated id of each. Each repository write is a method of `Store`. A ghost journal records the order of the writes. The repository queries are functions of the tables.
- `Outbox`: the class `Bus`, which records the messages published to the message broker.
- `Counters`: how changes to the like table move the per-post counts.
- `PostService`, `LikeService`, `CommentService`: the service operations. They are methods over a `Store` and a `Bus`, with the lemmas that tie them to the two invariants the services maintain:
  - every post's counters equal the number of its likes of each polarity;
  - there is at most one like per (user, post) pair.

Behaviour that follows the code, as modelled:

- `LikeService.Create` saves the like before it looks the post up. For an unknown post it fails with `NotFound` and the like stays stored.
- `LikeService.Delete` decrements without clamping. Counters are plain integers and may go negative when they were already out of step.
- `CommentService.Create` discards the post lookup's error. For an unknown post the comment is still saved, and a notification is still sent, to user 0.
- `PostService.Delete` does nothing for an unknown post id, even when likes or comments still refer to that id.

## Model

| member | source | states |
|---|---|---|
| Rows.Save | src/repository/PostRepository.go:66 | the ORM upsert: the row replaces the row with its key, or is appended when no row has that key; the row is then in the table, other rows are kept, and key uniqueness is preserved |
| Rows.DeleteByKeyFacts | src/repository/LikeRepository.go:60-66 | deleting by primary key removes exactly the rows with that key: one row when it exists (length drops by one), none otherwise |
| Entities.WhereKeepsOneLikePerPair | src/repository/LikeRepository.go:60-74 | deleting likes, by id or by post, keeps at most one like per (user, post) pair |
| Entities.CountsPartition | src/service/LikeService.go:70-76 | every like is counted exactly once, as positive or as negative |
| Entities.LikeToDto | src/service/LikeService.go:122 | a like response carries every field of the row (it converts back to the same row) |
| Entities.PostToDto | src/service/PostService.go:50 | a post response carries every field of the row except its creation time |
| Entities.CommentToDto | src/service/CommentService.go:76 | a comment response carries every field of the row |
| Repository.InsertByDate | src/repository/PostRepository.go:44 | inserting into a newest-first list keeps it newest first and adds exactly the one post |
| Repository.NewestFirst | src/repository/PostRepository.go:44 | `ORDER BY created_at DESC`: the result is ordered newest first and is a permutation of the input |
| Repository.Store.SavePost | src/repository/PostRepository.go:61-69 | id 0 inserts under the next generated id; any other id upserts by id; key uniqueness and bounds hold; the other tables are unchanged |
| Repository.Store.DeletePost | src/repository/PostRepository.go:71-77 | removes the post row with that id, if any; the likes and comments tables are unchanged, since the associations are resolved through the zero post value passed to the delete |
| Repository.Store.SaveLike | src/repository/LikeRepository.go:35-43 | the upsert of a like by id, generating an id for id 0 |
| Repository.Store.DeleteLike | src/repository/LikeRepository.go:60-66 | removes the like with that id, if any; nothing else changes |
| Repository.Store.DeleteLikesOfPost | src/repository/LikeRepository.go:68-74 | removes exactly the likes of the post |
| Repository.Store.SaveComment | src/repository/CommentRepository.go:34-42 | the upsert of a comment by id, generating an id for id 0 |
| Repository.Store.DeleteComment | src/repository/CommentRepository.go:44-52 | removes the comment with that id, if any |
| Repository.Store.DeleteCommentsOfPost | src/repository/CommentRepository.go:54-62 | removes exactly the comments of the post |
| Repository.PostById | src/repository/PostRepository.go:25-35 | found if and only if a post has that id; the result is that post (the only one, under unique keys) with exactly its likes preloaded; otherwise NotFound |
| Repository.PostsOfUser | src/repository/PostRepository.go:37-47 | exactly the user's posts, each as often as in the table, newest first |
| Repository.PostsOfUsers | src/repository/PostRepository.go:49-59 | exactly the posts owned by any of the users, with multiplicity, newest first |
| Repository.LikesOfPost | src/repository/LikeRepository.go:23-33 | exactly the likes whose post id matches |
| Repository.LikeByUserAndPost | src/repository/LikeRepository.go:45-58 | found if and only if the user has a like on the post; the result is such a like; otherwise NotFound |
| Repository.CommentsOfPost | src/repository/CommentRepository.go:22-32 | exactly the comments whose post id matches |
| Outbox.Bus.Publish | src/service/LikeService.go:146 | a published message is appended to what was sent, in order |
| Counters.AppendElsewhere | src/service/LikeService.go:59 | inserting a like of another post leaves a post's likes unchanged |
| Counters.ReplaceElsewhere | src/service/LikeService.go:59 | rewriting a like in place on another post leaves a post's likes unchanged |
| Counters.RemoveElsewhere | src/service/LikeService.go:101 | deleting a like of another post leaves a post's likes unchanged |
| Counters.RemoveCounts | src/service/LikeService.go:101-113 | deleting a like takes exactly one off the count of its polarity on its post |
| Counters.CascadeElsewhere | src/service/PostService.go:139 | deleting a post's likes leaves every other post's likes unchanged |
| Counters.MatchElsewhere | src/service/LikeService.go:59-81 | posts whose likes did not change keep matching counters |
| Counters.SaveKeepsMatches | src/service/LikeService.go:81 | saving a post with matching counters over otherwise matching posts leaves all counters matching |
| PostService.GetById | src/service/PostService.go:37-51 | found if and only if a post has that id, as the response of a stored post with that id; otherwise NotFound |
| PostService.PostsToDtos | src/service/PostService.go:147-157 | one response per row, in order, each carrying its row |
| PostService.GetAllByUserId | src/service/PostService.go:63-73 | one response per post of the user, in the query's order, each from a stored post of that user |
| PostService.GetAllByUserIds | src/service/PostService.go:75-85 | one response per post of any of the users, each from a stored post of one of them |
| PostService.Create | src/service/PostService.go:87-110 | upload failure gives UpstreamError and stores nothing; otherwise a post with zero counters, the uploaded image id and a fresh id is appended and returned, and only the post id counter advances; counters stay consistent |
| PostService.CreatePost | src/service/PostService.go:112-120 | the post row is upserted as given, the post id counter moves as the save dictates; nothing else changes |
| PostService.Delete | src/service/PostService.go:122-145 | unknown id: nothing changes; otherwise the image deletion is published, and the likes, the comments and the post are deleted in that order, leaving none of them; the id counters are unchanged; counters stay consistent and one like per pair is kept |
| PostService.CascadeMembers | src/service/PostService.go:138-144 | after the cascade, a row remains if and only if it was there and does not belong to the deleted post |
| PostService.CascadeKeepsCounters | src/service/PostService.go:138-144 | the cascade keeps every remaining post's counters matching its likes |
| LikeService.LikeNotification | src/service/LikeService.go:130-147 | a like notification to the owner's auth id whose message is the liker's username followed by " liked your post." if and only if the type is 1, and by " disliked your post." otherwise |
| LikeService.TallyLikes | src/service/LikeService.go:67-76 | the loop counts the positive and negative likes, which together are all of them |
| LikeService.RecountMatches | src/service/LikeService.go:67-79 | a post given the two tallies of its likes has matching counters |
| LikeService.Unliked | src/service/LikeService.go:109-113 | exactly the counter of the like's polarity drops by one; every other field is kept |
| LikeService.UnlikeKeepsCountersMatch | src/service/LikeService.go:101-115 | decrementing after deleting one of the post's likes keeps its counters matching |
| LikeService.ReplaceKeepsOneLike | src/service/LikeService.go:51-59 | rewriting the user's existing like keeps one like per pair, and it is the pair's only like |
| LikeService.AppendKeepsOneLike | src/service/LikeService.go:51-59 | inserting a like for a pair with none keeps one like per pair |
| LikeService.UpsertRow | src/service/LikeService.go:51-57 | the row written carries the requested user, post and type |
| LikeService.UpsertFacts | src/service/LikeService.go:51-59 | an existing like is rewritten in place under its id; otherwise a new like is appended under the next id; no other like changes; other posts' likes are unchanged; one like per pair is kept and the next lookup finds the new row |
| LikeService.Upsert | src/service/LikeService.go:51-59 | stores the upsert row; the like id counter advances only when a new like was inserted; nothing else changes |
| LikeService.RecountFacts | src/service/LikeService.go:61-81 | only the recounted post changes; its counters then match its likes and its other fields are kept; an unknown post changes nothing |
| LikeService.RecountRestores | src/service/LikeService.go:59-81 | a like change confined to one post followed by the recount restores consistent counters everywhere |
| LikeService.LikeScenario | src/service/LikeService.go:44-116 | a like and a dislike give counters 1 and 1; re-liking as a dislike rewrites the row and gives 0 and 2; removing the other dislike gives 0 and 1 |
| LikeService.ScenarioStart | src/service/LikeService.go:67-79 | a like and a dislike match counters 1 and 1 |
| LikeService.ScenarioRelike | src/service/LikeService.go:51-59 | the user's existing like is found and rewritten in place with the new type |
| LikeService.ScenarioRecount | src/service/LikeService.go:61-81 | two dislikes are recounted to counters 0 and 2 |
| LikeService.RecountSingle | src/service/LikeService.go:61-81 | recounting a post sets its counters to the positive and negative tallies of its likes |
| LikeService.ScenarioUnlike | src/service/LikeService.go:95-101 | the user's dislike is found and deleted by its id |
| LikeService.ScenarioDecrement | src/service/LikeService.go:103-115 | deleting a dislike decrements the post's dislike counter |
| LikeService.PairCounts | src/service/LikeService.go:70-76 | two likes count by their polarities |
| LikeService.UnlikeRestores | src/service/LikeService.go:95-115 | deleting a like and decrementing its post keeps every post's counters matching |
| LikeService.DecrementFacts | src/service/LikeService.go:103-115 | only the post concerned changes, and only its counter for the like's polarity; an unknown post changes nothing |
| LikeService.Create | src/service/LikeService.go:44-86 | the like is upserted; for an unknown post NotFound is returned, the like stays, and nothing is published; otherwise the post is recounted and saved, the owner is notified and the like is returned; the like id counter advances only for a new like, the others are unchanged; one like per pair and consistent counters are kept |
| LikeService.RecountPost | src/service/LikeService.go:61-81 | returns the post lookup; when found, saves the post with its recounted counters, leaving every id counter unchanged; otherwise changes nothing |
| LikeService.LikeCreateRestores | src/service/LikeService.go:44-86 | the upsert followed by the recount keeps one like per pair and consistent counters |
| LikeService.Delete | src/service/LikeService.go:88-116 | no like of the user on the post: nothing changes; otherwise that like is deleted and, when the post exists, its counter for the like's polarity is decremented; the id counters are unchanged; counters stay consistent and one like per pair is kept |
| LikeService.LikeDeleteRestores | src/service/LikeService.go:95-115 | deleting the like and decrementing its post keeps one like per pair and consistent counters |
| LikeService.LikesToDtos | src/service/LikeService.go:118-128 | one response per row, in order, each carrying its row |
| LikeService.GetAllByPostId | src/service/LikeService.go:32-42 | exactly the post's likes as responses |
| CommentService.CommentNotification | src/service/CommentService.go:83-95 | a comment notification to the owner's auth id whose message is the commenter's username followed by " commented on your post." |
| CommentService.PostOwner | src/service/CommentService.go:53-57 | the owner of the post, or 0 when no post has that id |
| CommentService.AddedComment | src/service/CommentService.go:55 | a new comment is appended to its post's comments and no other post's comments change |
| CommentService.Create | src/service/CommentService.go:44-60 | the comment is stored under a fresh id even for an unknown post, the owner (user 0 for a missing post) is notified, and the stored comment is returned; only the comment id counter advances |
| CommentService.Delete | src/service/CommentService.go:62-70 | removes exactly the comment with that id; an unknown id changes nothing; the id counters are unchanged |
| CommentService.CommentsToDtos | src/service/CommentService.go:72-81 | one response per row, in order, each carrying its row |
| CommentService.GetAllByPostId | src/service/CommentService.go:32-42 | exactly the post's comments as responses |

## Left out

- Tracing spans, logging and request contexts carry no behaviour of the core and are not modelled.
- Storage errors are not modelled. The store is an in-memory table that always succeeds, so the error returns of the repository writes are absent.
- The HTTP calls to the user directory and the media service are parameters:
  - The directory is a total function from user id to profile, so it models successful lookups only. In the code a transport error or a non-200 answer makes the lookup return nil (src/client/UserRESTClient.go:36-38, 41-43). The notification code then dereferences it and panics, after the like, the counters or the comment are already written, and no notification is sent. Only a 200 answer with an undecodable body gives an empty profile.
  - The upload's answer is an `Upload` value given to `PostService.Create`.
  - The contents of the uploaded file are not modelled; only the first image is used.
- PostService.Create: requires a non-empty image list. The code indexes the first image without a check, and the controller passes the form files as they come, so an empty list panics; the model does not capture that panic.
- CommentService.Create: the notification to user 0 for an unknown post happens in the code only when the user service answers 200 for id 0. Otherwise the lookup fails as above.
- Publishing to the message broker is the append to `Bus.sent`. Broker failures and delivery are not modelled.
- The order between a message published on the bus and the store writes of the same call is not stated. `Bus.sent` and the store journal are separate logs, each ordered on its own.
- Concurrency between requests is not modelled. Each operation runs alone, so the read-then-write races on the like upsert and the recount are out of scope.
- `src/entity` is not part of this model. Its constructors and `CreateDto` conversions are modelled as field-for-field copies.
  - The like-type enumeration is kept as the integer the client sent.
  - The update timestamp is not modelled.
  - The creation time is a parameter of `PostService.Create`.
- The ORM's soft-delete columns are not modelled, since every delete in the core is unscoped, that is, physical.
- The saving of preloaded associations is not modelled. `Save` of a post writes the row alone.
- Repository.PostsOfUser, Repository.PostsOfUsers: the preloading of each post's likes and comments is dropped. The results carry the post rows alone.
- Repository.Store.SavePost, Repository.Store.SaveLike, Repository.Store.SaveComment: an insert under an explicit id raises the next generated id past it. A database sequence does not advance on such an insert, so a later generated id could collide with it and that insert would fail. The model keeps generated ids fresh instead and does not capture the collision.
- Repository.LikeByUserAndPost: the query takes the matching like with the smallest id, while the model takes the first match in table order. These are the same like whenever each (user, post) pair has at most one like, which the services preserve.
- PostService.Create: the post's counters stay consistent only when no like already refers to the fresh id. The code does not check for such orphan likes.
- The post lookup in the repository always returns a post, the empty one when the id is unknown, and the model follows that (owner 0). A collaborator that returned no post on error, as the test doubles do, would make the owner read in CommentService.Create panic; that path is not modelled.
