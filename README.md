# 2cat imageboard: a verified model of its post store and thread assembler

2cat is a client-side imageboard. Posts live in the browser's IndexedDB
(db.js). The page script (script.js) shows the posts of one board as reply
threads, and it writes back link classifications from a remote endpoint.
This project models the sequential core of those two files in Dafny and
proves what they promise.

- `wrappers.dfy`, module `Wrappers`: `Option`, which stands for
  JavaScript's `null`/`undefined`.
- `sorting.dfy`, module `Sorting`: `Array.prototype.sort` with a
  `key(a) - key(b)` comparator. It is modelled as a stable insertion sort
  and proved to be a permutation and ordered. Stability is proved for
  inputs in ascending id order, which is what the index scan of `loadPosts`
  yields.
- `posts.dfy`, module `Posts`: the post record and the two orders the page
  uses. `SortNewestFirst` is used by `loadPosts` and for thread roots;
  `SortOldestFirst` is used for replies.
- `store.dfy`, module `PostStore`: class `Database` holds the object store
  names, the `posts` records keyed by id, the key generator and the
  `posts` indexes.
  - `InitDB` runs the upgrade callback step by step. It covers the
    version-4 step that drops and recreates `posts`, and the abort
    (rollback) of the versionchange transaction when a step throws.
  - `AddPost`, `LoadPosts`, `GetPost`, `DeletePost` and `UpdatePost` each
    act on the posts map.
  - The IndexedDB key-generator rule is modelled: a `put` with an explicit
    key at or above the generator moves the generator past it, so later
    ids stay fresh.
- `threads.dfy`, module `Threads`: `renderBoardPosts` and its recursive
  `appendPostAndChildren`, written as imperative methods.
  - The `Map` of copies and the `children` arrays follow the JavaScript
    semantics: a key keeps its first insertion position and its last value.
  - The DOM the walk builds is a forest of `Thread` values.
  - `Rendered` lists the post elements in document order, each with its
    nesting depth.
  - The walk terminates because the set of posts not on the current parent
    chain shrinks with each step down.
  - Lemmas cover the partition, orphans, ordering, uniqueness of the
    result, and "each post reachable from a root is rendered exactly once".
    Posts in a `parentId` cycle are never rendered.
- `controller.dfy`, module `Controller`:
  - the classification normalisation and its write-back into a post that
    still exists;
  - `String.prototype.trim` and the "file, link or comment" rule;
  - the board lookup of `selectNormalBoard`;
  - class `Page`, the script's global state (the database handle and
    `currentNormalBoardName`), and the board-select and submit handlers;
  - what deleting a parent does to its replies: they stay stored and become roots on the next load;
  - an end-to-end scenario on a fresh `Database`: `initDB`, a post, a reply to it, the listing and
    forest of the board, deleting the parent, then the listing and forest again.

Inputs that come from the browser are parameters:
- `Date.now()` is the `now` argument of `AddPost`;
- the selected file and the text of the inputs are arguments of
  `SubmitPost`;
- the endpoint's answer is the `LinkCheckResponse` given to
  `ApplyLinkCheck`.

An observation from the code: when an older database still has a `posts`
store, the `oldVersion < 3` step throws. That applies to databases at
version 1 or 2. `createObjectStore` refuses an existing name, so the upgrade
aborts and `initDB` fails (`InitDB` returns `Failed(UpgradeAborted)`).
Whether such databases ever existed cannot be told from the code, so this is
modelled as written.

## Model

| member | source | states |
|---|---|---|
| Sorting.Sort | db.js:99 | the sorted list is a permutation of its input and ordered by the key |
| Sorting.SortLex | db.js:99 | stability: when the input is in ascending id order, elements with equal keys stay in ascending id order |
| Sorting.SortInjective | script.js:146 | sorting never makes two elements share an id |
| Posts.SortNewestFirst | db.js:99 | same posts, same multiset, timestamps non-increasing, ids stay distinct |
| Posts.SortOldestFirst | script.js:154 | same posts, same multiset, timestamps non-decreasing, ids stay distinct |
| Posts.NewestFirstStable | db.js:99 | posts given in id order come out in descending timestamp order, with equal timestamps in ascending id order |
| Posts.IdDeterminesPost | db.js:15 | among records with the `id` key path, equal ids mean the same record |
| PostStore.FileTypeOf | db.js:59-68 | `Video` exactly for a `video/` prefix, `Image` exactly for an `image/` prefix that is not `video/`, none otherwise |
| PostStore.FileTypeExamples | db.js:63-67 | `video/mp4` gives video, `image/png` gives image, `application/pdf` gives none |
| PostStore.BoardScanExact | db.js:96-97 | the index scan yields exactly the stored records of the board, in strictly ascending key order |
| PostStore.LoadSpecExact | db.js:93-100 | `loadPosts(b)` holds exactly the stored posts of board b, each once, newest first, equal timestamps in the order they were added |
| PostStore.LoadAfterAdd | db.js:88-99 | after adding a post under the next key, its board's listing contains it and the other boards' listings are unchanged |
| PostStore.LoadAfterDelete | db.js:102-109 | after deleting id, a board's listing loses exactly the post with that id |
| PostStore.BoardScanUnchangedBelow | db.js:97 | the scan depends only on the records below the scanned key bound |
| PostStore.Database.constructor | db.js:8 | a database never opened: version 0, no object stores |
| PostStore.Database.DeleteObjectStore | db.js:11-13 | removing the `posts` store drops its records, key generator and indexes; removing another store leaves them alone |
| PostStore.Database.CreatePostsStore | db.js:14-17 | a new empty `posts` store with a fresh key generator |
| PostStore.Database.CreateBoardNameIndex | db.js:18 | adds the non-unique `boardName` index and nothing else |
| PostStore.Database.InitDB | db.js:7-52 | a newer stored version fails with VersionError and changes nothing; version 5 opens unchanged; otherwise the upgrade steps run. A posts store already present below version 3 aborts and rolls back. On success the posts store exists with only the non-unique `boardName` index. Below version 4 every post is wiped; an upgrade from version 4 keeps the posts |
| PostStore.Database.AddPost | db.js:54-91 | one record inserted under the key generator's next key, which no existing record has. fileType follows the MIME prefix, with the file kept even when the type is unknown. linkStatus is pending exactly when linkUrl is non-empty; linkReason is null; username defaults to Anonymous; parentId and the timestamp are as given; no other key changes |
| PostStore.Database.LoadPosts | db.js:93-100 | the index scan in key order, then the newest-first sort, returns the reference listing: exactly the board's posts, distinct, newest first |
| PostStore.Database.GetPost | db.js:111-117 | the record under id, or none when absent; nothing changes |
| PostStore.Database.DeletePost | db.js:102-109 | returns the record previously under id or none; afterwards id is absent and every other record is unchanged |
| PostStore.Database.UpdatePost | db.js:119-124 | `put`: the record is stored under its own id, every other record is unchanged, the key generator moves past an explicit key |
| Threads.MapEntries | script.js:126-131 | the values of the id map: distinct ids, the same set of ids as the input, each value taken from the input |
| Threads.MapEntriesOfDistinct | script.js:126-131 | for posts with distinct ids (what `loadPosts` returns) the map holds the list unchanged and in order |
| Threads.TopLevelInMembers | script.js:134-143 | a post is put among the roots exactly when it has no truthy `parentId` naming a loaded post |
| Threads.ChildrenInMembers | script.js:132-135 | a post is pushed onto the children of id exactly when its truthy `parentId` is that id and names a loaded post |
| Threads.PartitionExact | script.js:134-143 | every loaded post lands in exactly one place, among the roots or in the children of its one parent; no list repeats a post |
| Threads.OrphanIsRoot | script.js:136-141 | a post with a falsy `parentId`, or one naming no loaded post (a deleted parent), is a root and nobody's child |
| Threads.ChildrenExact | script.js:132-135 | the children of a loaded post are exactly the loaded posts whose `parentId` is its id |
| Threads.AssemblyUnique | script.js:122-168 | the assembled forest is determined by the loaded posts, so assembling twice gives the same forest |
| Threads.AssemblyOrdered | script.js:146-154 | roots are newest first and the replies of every node, at every depth, oldest first |
| Threads.ChainExtend | script.js:158-160 | stepping from a node to one of its children extends the parent chain and never revisits a post on it |
| Threads.ChainUnique | script.js:132-135 | two different parent chains from a root end at different posts |
| Threads.ChainAvoidsCycle | script.js:132-141 | no parent chain from a root enters a `parentId` cycle |
| Threads.CycleUnreachable | script.js:149-167 | a post caught in a `parentId` cycle is not reachable from any root |
| Threads.ForestSound | script.js:156-160 | every post element below a chain is of a post whose parent chain extends it, at the depth of its number of ancestors |
| Threads.ForestDistinct | script.js:156-160 | the walk below a list of sibling threads renders no post twice |
| Threads.RenderedExactlyReachable | script.js:149-167 | the walk renders each post reachable from a root exactly once, at the depth of its number of ancestors, and nothing else |
| Threads.CycleNeverRendered | script.js:149-167 | posts caught in a `parentId` cycle are never rendered |
| Threads.AppendPostAndChildren | script.js:149-162 | the subtree built for a post holds its children sorted oldest first, each assembled recursively; it terminates on any input, cycles included |
| Threads.IndexById | script.js:126-131 | builds the id map's iteration order and contents, equal to the map model |
| Threads.LinkChildren | script.js:134-143 | the hierarchy loop produces exactly the reference roots and children lists |
| Threads.AppendRoots | script.js:164-167 | the final loop builds one well-formed thread per root, in the roots' order: the forest's top posts are exactly the given roots |
| Threads.RenderBoardPosts | script.js:122-168 | the forest rendered for any list of posts is the assembly of its id map |
| Controller.AllowedType | script.js:211-212 | a type is accepted exactly when it is `safe`, `malware` or `porn`, and the accepted status has that name |
| Controller.AllowedTypeRoundTrip | script.js:211-212 | the statuses the endpoint may name are exactly safe, malware and porn |
| Controller.Normalise | script.js:207-240 | never pending; an allowed type is kept with its reason; any other answer is `error` with "Invalid AI response type or format."; a failed call is `error` with "AI check failed or backend unavailable." |
| Controller.Classified | script.js:219-221 | only `linkStatus` and `linkReason` of the record change |
| Controller.ClassificationExamples | script.js:207-221 | a `malware`/`flagged` answer is stored as malware with reason flagged; type `bogus` is stored as error |
| Controller.TrimStartExact | script.js:456-457 | removes exactly the leading white space, leaving a suffix that does not start with white space |
| Controller.TrimEndExact | script.js:456-457 | removes exactly the trailing white space, leaving a prefix that does not end with white space |
| Controller.TrimEmpty | script.js:456-457 | a trimmed input is empty exactly when it is all white space |
| Controller.TrimSlice | script.js:456-457 | the trimmed text is a slice of the input with no white space at either end |
| Controller.CanSubmitExact | script.js:461-464 | a submission is refused exactly when there is no file and the link and comment are only white space |
| Controller.FirstNamed | script.js:315 | `find`: the first entry with that name, or none exactly when no entry has it |
| Controller.FirstNamedAppend | script.js:309-322 | searching a concatenation finds a match in the first part before looking at the second |
| Controller.LookupStep | script.js:309-322 | once earlier boards have not matched, a board's own name is checked before its sub-boards, and a match there is the answer |
| Controller.SearchOrderSplit | script.js:309-322 | the search order of a board list is the search order of its prefix followed by that of its suffix |
| Controller.LookupBoardExact | script.js:308-322 | a found board has the requested name; none is found exactly when no board or sub-board has it |
| Controller.BoardTitle | script.js:322-326 | `name - topic` when the board is found, the raw name otherwise |
| Controller.FindSelectedBoard | script.js:308-322 | the loop with `break` returns the first board or sub-board in search order with that name, or none when there is no such board |
| Controller.Page.constructor | script.js:529 | the page after `initDB` has resolved, with no board selected |
| Controller.Page.SelectNormalBoard | script.js:304-335 | remembers the board, returns its title and the assembly of exactly its stored posts |
| Controller.Page.SubmitPost | script.js:534-574 | refuses an empty submission and a submission with no board, changing nothing; otherwise adds exactly one post under the next key on the current board, with the chosen file, the file type from its MIME prefix, the trimmed link and comment, `pending` exactly when the trimmed link is non-empty, no reason, the trimmed username or Anonymous, the given parent and time; the key generator advances by one and no store, index or version changes |
| Controller.Page.ApplyLinkCheck | script.js:217-249 | writes the normalised classification into the post if it still exists; otherwise nothing changes |
| Controller.ScenarioLoads | db.js:93-109 | post a, reply b: the board lists `[a]`, then `[b, a]`, then `[b]` once `a` is deleted |
| Controller.ScenarioReplyThread | script.js:122-168 | with a and b loaded, the board shows `a` with `b` below it |
| Controller.ScenarioOrphanThread | script.js:136-141 | once `a` is deleted, `b` is shown as a thread of its own |
| Controller.DeletedParentOrphansReplies | db.js:102-109 | after `deletePost(pid)`, every other stored reply to `pid` is still listed for its board, is a root of the assembled forest and is nobody's child |
| Controller.ScenarioStore | db.js:7-109 | on a never-opened database: `initDB`, post `a`, reply `b`, delete `a`; the board lists `[a]`, then `[b, a]`, then `[b]` |
| Controller.ScenarioEndToEnd | script.js:122-168 | the same steps with rendering: `a` shown with `b` below it, then `b` alone as a thread once `a` is deleted |

## Left out

- `PostStore.Database.InitDB`: a database written by an earlier version is assumed to be what the `oldVersion < 3` and `oldVersion < 4` steps build. A version-3 or version-4 `posts` store is taken to carry exactly the non-unique `boardName` index. The upgrade from version 4 touches no index, so the index after that upgrade comes from this assumption, not from the upgrade code.
- The stability of the roots sort and the children sort in `renderBoardPosts` is not stated as a lemma. `Sorting.SortLex` covers only inputs in ascending id order.

- IndexedDB and `idb` mechanics are modelled as in-memory state:
  - transactions, `IDBKeyRange`, the `openDB` request and its events, and `async`/`await`;
  - a transaction that commits is one method call;
  - failures of the storage layer itself (quota, a blocked upgrade, a closed connection) are not modelled.
- The key generator is unbounded: the model does not stop at IndexedDB's 2^53 limit, where `add` fails.
- `id` and `parentId` are natural numbers. Non-integer, negative or `NaN` values, such as `parseInt` of a missing attribute in the reply form, are not modelled.
- The DOM is left out. This covers:
  - `createPostElement` and the board lists;
  - `backToBoardList`;
  - the reply form's construction;
  - the in-place insertion of a new reply;
  - the re-render after a new top-level post. That re-render is `LoadPosts` followed by `RenderBoardPosts`, which `SelectNormalBoard` already composes.
  - the delegated click listener and the alerts.
- `Threads.AppendPostAndChildren`: the in-place `post.children.sort` is not modelled as a mutation of the shared map entries. The sorted list is computed as a value from the entry's children.
- Object URLs are left out: their creation and revocation are browser resources.
- The `fetch` to `/api/check-link` and the JSON decoding of its answer are left out. Their outcome is the `LinkCheckResponse` argument. A `type` or `reason` that is not a string is folded into `None`.
- The re-render branch of `checkLinkWithAI` at script.js:223-230 and 242-247 is left out. It calls `displayPost`, which is not defined. When the post is shown on the current board, that branch throws, and the catch block overwrites the classification with `error`. `ApplyLinkCheck` models only the normalisation and the update-if-present.
- `Controller.Page.ApplyLinkCheck` does not model the race with a deletion between the `getPost` and the `updatePost`. That race needs two interleaved handlers, and the model is sequential.
- Video-call logic is left out: `joinCall`, `leaveCall`, `getUserMedia` and the unused `peerConnection` are device I/O.
- Device detection, the Ctrl+C download handler and `toLocaleString` formatting are left out as I/O and presentation.
- `handleDeletePost` is left out beyond `DeletePost`: the rest of it is DOM removal and object-URL revocation.
