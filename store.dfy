/**
 * The local post store of db.js: one IndexedDB database holding the
 * `posts` object store (key path `id`, auto-increment) with a non-unique
 * `boardName` index, opened at schema version 5.
 *
 * IndexedDB mechanics are modelled in memory: the set of object store
 * names, the records of `posts` as a map from key to record, the store's
 * key generator and its indexes. A transaction that completes is one
 * method call; the upgrade transaction that aborts leaves the database as
 * it was.
 */
module PostStore {
  import opened Wrappers
  import opened Posts

  const DB_VERSION: nat := 5
  const POSTS_STORE := "posts"
  const VIDEOS_STORE := "videos"
  const BOARD_INDEX := "boardName"
  const ANONYMOUS := "Anonymous"

  /** An index of an object store: the record field it reads and whether keys must be unique. */
  datatype IndexDef = IndexDef(keyPath: string, unique: bool)

  /** The one index the `posts` store has from schema version 3 on. */
  function BoardIndexOnly(): map<string, IndexDef> {
    map[BOARD_INDEX := IndexDef("boardName", false)]
  }

  datatype OpenError =
    | VersionError    // the stored database is newer than DB_VERSION
    | UpgradeAborted  // the upgrade callback threw, so the versionchange transaction aborted

  datatype OpenOutcome = Opened | Failed(error: OpenError)

  predicate StartsWith(s: string, prefix: string) {
    |prefix| <= |s| && s[..|prefix|] == prefix
  }

  /** The `fileType` db.js derives from a file's MIME type. */
  function FileTypeOf(mimeType: string): (r: Option<FileType>)
    ensures r == Some(Video) <==> StartsWith(mimeType, "video/")
    ensures r == Some(Image) <==> !StartsWith(mimeType, "video/") && StartsWith(mimeType, "image/")
    ensures r == None <==> !StartsWith(mimeType, "video/") && !StartsWith(mimeType, "image/")
  {
    if StartsWith(mimeType, "video/") then Some(Video)
    else if StartsWith(mimeType, "image/") then Some(Image)
    else None
  }

  lemma FileTypeExamples()
    ensures FileTypeOf("video/mp4") == Some(Video)
    ensures FileTypeOf("image/png") == Some(Image)
    ensures FileTypeOf("application/pdf") == None
  {
    assert "video/mp4"[..6] == "video/";
    assert "image/png"[..6] == "image/";
    assert "application/pdf"[0] == 'a';
  }

  /** Every record sits under its own id, and the key generator is past every key. */
  predicate KeyedById(m: map<nat, Post>, nextKey: nat) {
    forall k | k in m :: m[k].id == k && k < nextKey
  }

  /**
   * What `index.getAll(IDBKeyRange.only(b))` yields: the records with
   * `boardName == b` among the keys below `n`, in ascending key order.
   */
  function BoardScan(m: map<nat, Post>, b: string, n: nat): seq<Post> {
    if n == 0 then []
    else BoardScan(m, b, n - 1) + (if n - 1 in m && m[n - 1].boardName == b then [m[n - 1]] else [])
  }

  /** The result of `loadPosts(b)`: the board's records, newest first. */
  function LoadSpec(m: map<nat, Post>, b: string, n: nat): seq<Post> {
    SortNewestFirst(BoardScan(m, b, n))
  }

  lemma {:induction false} BoardScanExact(m: map<nat, Post>, b: string, n: nat)
    requires forall k | k in m :: m[k].id == k
    ensures forall p :: p in BoardScan(m, b, n) <==> p in m.Values && p.boardName == b && p.id < n
    ensures forall i, j | 0 <= i < j < |BoardScan(m, b, n)| :: BoardScan(m, b, n)[i].id < BoardScan(m, b, n)[j].id
  {
    if n > 0 {
      BoardScanExact(m, b, n - 1);
      var prev := BoardScan(m, b, n - 1);
      forall p ensures p in BoardScan(m, b, n) <==> p in m.Values && p.boardName == b && p.id < n {
        if p in m.Values && p.boardName == b && p.id == n - 1 {
          var k :| k in m && m[k] == p;
          assert k == n - 1;
        }
      }
    }
  }

  /**
   * `loadPosts(b)` returns exactly the stored posts of board `b`, each once,
   * newest first, and posts with equal timestamps in the order they were added.
   */
  lemma LoadSpecExact(m: map<nat, Post>, b: string, n: nat)
    requires KeyedById(m, n)
    ensures forall p :: p in LoadSpec(m, b, n) <==> p in m.Values && p.boardName == b
    ensures DistinctIds(LoadSpec(m, b, n))
    ensures NewestFirst(LoadSpec(m, b, n))
    ensures forall i, j | 0 <= i < j < |LoadSpec(m, b, n)| ::
      LoadSpec(m, b, n)[i].timestamp > LoadSpec(m, b, n)[j].timestamp
      || (LoadSpec(m, b, n)[i].timestamp == LoadSpec(m, b, n)[j].timestamp && LoadSpec(m, b, n)[i].id < LoadSpec(m, b, n)[j].id)
  {
    BoardScanExact(m, b, n);
    NewestFirstStable(BoardScan(m, b, n));
    forall p | p in m.Values ensures p.id < n {
      var k :| k in m && m[k] == p;
    }
  }

  /** A post added under a fresh key shows up when its own board is loaded, and other boards are unaffected. */
  lemma LoadAfterAdd(m: map<nat, Post>, n: nat, p: Post, b: string)
    requires KeyedById(m, n) && p.id == n
    ensures KeyedById(m[n := p], n + 1)
    ensures BoardScan(m[n := p], b, n + 1) == BoardScan(m, b, n) + (if p.boardName == b then [p] else [])
    ensures p.boardName == b ==> p in LoadSpec(m[n := p], b, n + 1)
    ensures p.boardName != b ==> LoadSpec(m[n := p], b, n + 1) == LoadSpec(m, b, n)
  {
    var m' := m[n := p];
    BoardScanUnchangedBelow(m, m', b, n);
    assert BoardScan(m', b, n + 1) == BoardScan(m', b, n) + (if p.boardName == b then [p] else []);
    if p.boardName != b {
      assert BoardScan(m', b, n + 1) == BoardScan(m, b, n);
    }
  }

  lemma {:induction false} BoardScanUnchangedBelow(m: map<nat, Post>, m': map<nat, Post>, b: string, n: nat)
    requires forall k | k < n :: (k in m <==> k in m') && (k in m ==> m[k] == m'[k])
    ensures BoardScan(m, b, n) == BoardScan(m', b, n)
  {
    if n > 0 {
      BoardScanUnchangedBelow(m, m', b, n - 1);
    }
  }

  /** After deleting key `id`, a board loads as before minus the deleted record. */
  lemma LoadAfterDelete(m: map<nat, Post>, n: nat, id: nat, b: string)
    requires KeyedById(m, n)
    ensures KeyedById(m - {id}, n)
    ensures forall p :: p in LoadSpec(m - {id}, b, n) <==> p in LoadSpec(m, b, n) && p.id != id
  {
    LoadSpecExact(m, b, n);
    LoadSpecExact(m - {id}, b, n);
    forall p ensures p in (m - {id}).Values <==> p in m.Values && p.id != id {
      if p in m.Values && p.id != id {
        var k :| k in m && m[k] == p;
        assert k in m - {id};
      }
    }
  }

  class Database {
    var version: nat
    var storeNames: set<string>
    /** The records of the `posts` object store, by key. */
    var posts: map<nat, Post>
    /** The current number of the `posts` store's key generator. */
    var nextKey: nat
    /** The indexes of the `posts` object store, by index name. */
    var postsIndexes: map<string, IndexDef>

    ghost predicate Valid()
      reads this
    {
      && (version == 0 ==> storeNames == {})
      && (version == DB_VERSION ==> POSTS_STORE in storeNames)
      && (POSTS_STORE !in storeNames ==> posts == map[] && postsIndexes == map[])
      && nextKey >= 1
      && KeyedById(posts, nextKey)
      && (version >= 3 && POSTS_STORE in storeNames ==> postsIndexes == BoardIndexOnly())
    }

    /** The handle `initDB` resolves to: at the current version, with the `posts` store. */
    ghost predicate Ready()
      reads this
    {
      Valid() && version == DB_VERSION && POSTS_STORE in storeNames
    }

    /** A database this browser has never opened. */
    constructor ()
      ensures Valid()
      ensures version == 0 && storeNames == {} && posts == map[] && nextKey == 1 && postsIndexes == map[]
    {
      version := 0;
      storeNames := {};
      posts := map[];
      nextKey := 1;
      postsIndexes := map[];
    }

    /** `db.deleteObjectStore(name)`: the store and all its records and indexes go. */
    method DeleteObjectStore(name: string)
      requires name in storeNames
      modifies this
      ensures storeNames == old(storeNames) - {name} && version == old(version)
      ensures name == POSTS_STORE ==> posts == map[] && nextKey == 1 && postsIndexes == map[]
      ensures name != POSTS_STORE ==> posts == old(posts) && nextKey == old(nextKey) && postsIndexes == old(postsIndexes)
    {
      storeNames := storeNames - {name};
      if name == POSTS_STORE {
        posts := map[];
        nextKey := 1;
        postsIndexes := map[];
      }
    }

    /** `db.createObjectStore('posts', { keyPath: 'id', autoIncrement: true })`: empty, key generator at 1. */
    method CreatePostsStore()
      requires POSTS_STORE !in storeNames
      modifies this
      ensures storeNames == old(storeNames) + {POSTS_STORE} && version == old(version)
      ensures posts == map[] && nextKey == 1 && postsIndexes == map[]
    {
      storeNames := storeNames + {POSTS_STORE};
      posts := map[];
      nextKey := 1;
      postsIndexes := map[];
    }

    /** `store.createIndex('boardName', 'boardName', { unique: false })` */
    method CreateBoardNameIndex()
      requires POSTS_STORE in storeNames && BOARD_INDEX !in postsIndexes
      modifies this`postsIndexes
      ensures postsIndexes == old(postsIndexes)[BOARD_INDEX := IndexDef("boardName", false)]
    {
      postsIndexes := postsIndexes[BOARD_INDEX := IndexDef("boardName", false)];
    }

    /**
     * `initDB()`: `openDB('2catDB', 5, { upgrade })`. The upgrade callback
     * runs only when the stored version is below 5; every step whose guard
     * `oldVersion < v` holds runs, in order.
     */
    method InitDB() returns (outcome: OpenOutcome)
      requires Valid()
      modifies this
      ensures Valid()
      ensures old(version) > DB_VERSION ==> outcome == Failed(VersionError) && unchanged(this)
      ensures old(version) == DB_VERSION ==> outcome == Opened && unchanged(this)
      ensures old(version) < 3 && POSTS_STORE in old(storeNames) ==>
        (outcome == Failed(UpgradeAborted)
         && version == old(version) && storeNames == old(storeNames) && posts == old(posts)
         && nextKey == old(nextKey) && postsIndexes == old(postsIndexes))
      ensures outcome == Opened <==> old(version) <= DB_VERSION && !(old(version) < 3 && POSTS_STORE in old(storeNames))
      ensures outcome == Opened ==> Ready() && postsIndexes == BoardIndexOnly()
      ensures outcome == Opened && old(version) < 3 ==> storeNames == old(storeNames) - {VIDEOS_STORE} + {POSTS_STORE}
      ensures outcome == Opened && 3 <= old(version) ==> storeNames == old(storeNames) + {POSTS_STORE}
      // the version-4 step drops and recreates the store: every post is lost
      ensures outcome == Opened && old(version) < 4 ==> posts == map[] && nextKey == 1
      // only an upgrade from version 4 keeps the stored posts
      ensures old(version) == 4 && POSTS_STORE in old(storeNames) ==> posts == old(posts) && nextKey == old(nextKey)
      ensures old(version) == 4 && POSTS_STORE !in old(storeNames) ==> posts == map[] && nextKey == 1
    {
      if version > DB_VERSION {
        return Failed(VersionError);
      }
      if version == DB_VERSION {
        return Opened;
      }
      var oldVersion := version;
      // kept so that an aborted versionchange transaction can be rolled back
      var savedNames, savedPosts, savedNextKey, savedIndexes := storeNames, posts, nextKey, postsIndexes;

      if oldVersion < 3 {
        if VIDEOS_STORE in storeNames {
          DeleteObjectStore(VIDEOS_STORE);
        }
        if POSTS_STORE in storeNames {
          // createObjectStore throws a ConstraintError for an existing name;
          // the exception aborts the upgrade transaction
          storeNames, posts, nextKey, postsIndexes := savedNames, savedPosts, savedNextKey, savedIndexes;
          return Failed(UpgradeAborted);
        }
        CreatePostsStore();
        CreateBoardNameIndex();
      }
      if oldVersion < 4 {
        if POSTS_STORE in storeNames {
          DeleteObjectStore(POSTS_STORE);
        }
        CreatePostsStore();
        CreateBoardNameIndex();
      }
      if oldVersion < 5 {
        if POSTS_STORE !in storeNames {
          CreatePostsStore();
          CreateBoardNameIndex();
        }
      }
      version := DB_VERSION;
      outcome := Opened;
    }

    /**
     * `addPost(db, file, comment, linkUrl, boardName, username, parentId)`:
     * builds the record and `store.add`s it under the key generator's next key.
     * `now` is the value of `Date.now()`.
     */
    method AddPost(file: Option<File>, comment: string, linkUrl: string, boardName: string,
                   username: string, parentId: Option<nat>, now: int) returns (p: Post)
      requires Ready()
      modifies this
      ensures Ready()
      ensures p.id == old(nextKey) && p.id !in old(posts)
      ensures posts == old(posts)[p.id := p] && nextKey == old(nextKey) + 1
      ensures version == old(version) && storeNames == old(storeNames) && postsIndexes == old(postsIndexes)
      ensures p.file == file
      ensures p.fileType == (if file.Some? then FileTypeOf(file.value.mimeType) else None)
      ensures p.linkStatus == (if linkUrl != "" then Some(Pending) else None)
      ensures p.linkReason == None
      ensures p.username == (if username != "" then username else ANONYMOUS)
      ensures p.boardName == boardName && p.comment == comment && p.linkUrl == linkUrl
      ensures p.timestamp == now && p.parentId == parentId
    {
      var fileType: Option<FileType> := None;
      var fileBlob: Option<File> := None;
      if file.Some? {
        fileBlob := file;
        if StartsWith(file.value.mimeType, "video/") {
          fileType := Some(Video);
        } else if StartsWith(file.value.mimeType, "image/") {
          fileType := Some(Image);
        }
      }
      var linkStatus: Option<LinkStatus> := None;
      if linkUrl != "" {
        linkStatus := Some(Pending);
      }
      var storedName := if username != "" then username else ANONYMOUS;
      // store.add: the key generator supplies the key, which is written into `id`
      var id := nextKey;
      p := Post(id, boardName, fileBlob, fileType, comment, linkUrl, linkStatus, None, storedName, now, parentId);
      posts := posts[id := p];
      nextKey := nextKey + 1;
    }

    /** `loadPosts(db, boardName)`: the board's posts through the index, newest first. */
    method LoadPosts(boardName: string) returns (r: seq<Post>)
      requires Ready()
      ensures r == LoadSpec(posts, boardName, nextKey)
      ensures forall p :: p in r <==> p in posts.Values && p.boardName == boardName
      ensures DistinctIds(r) && NewestFirst(r)
    {
      // index.getAll(IDBKeyRange.only(boardName)): the board's records in key order
      var found := BoardScan(posts, boardName, nextKey);
      r := SortNewestFirst(found);
      assert (forall p :: p in r <==> p in posts.Values && p.boardName == boardName) && DistinctIds(r) by {
        LoadSpecExact(posts, boardName, nextKey);
      }
    }

    /** `getPost(db, id)`: reads one record and changes nothing. */
    method GetPost(id: nat) returns (r: Option<Post>)
      requires Ready()
      ensures r.Some? <==> id in posts
      ensures r.Some? ==> r.value == posts[id] && r.value.id == id
    {
      if id in posts {
        r := Some(posts[id]);
      } else {
        r := None;
      }
    }

    /**
     * `deletePost(db, id)`: returns the record that was under `id`, if any,
     * and deletes that key only; replies to it stay where they are.
     */
    method DeletePost(id: nat) returns (r: Option<Post>)
      requires Ready()
      modifies this`posts
      ensures Ready()
      ensures r == (if id in old(posts) then Some(old(posts)[id]) else None)
      ensures id !in posts
      ensures posts == old(posts) - {id}
      ensures forall k | k in old(posts) && k != id :: k in posts && posts[k] == old(posts)[k]
    {
      r := GetPost(id);
      posts := posts - {id};
    }

    /**
     * `updatePost(db, post)`: `store.put(post)` overwrites the record under
     * `post.id`. An explicit key at or past the key generator moves the
     * generator past it.
     */
    method UpdatePost(post: Post)
      requires Ready()
      modifies this`posts, this`nextKey
      ensures Ready()
      ensures posts == old(posts)[post.id := post]
      ensures post.id in posts && posts[post.id] == post
      ensures forall k | k in old(posts) && k != post.id :: k in posts && posts[k] == old(posts)[k]
      ensures nextKey == if post.id < old(nextKey) then old(nextKey) else post.id + 1
    {
      posts := posts[post.id := post];
      if post.id >= nextKey {
        nextKey := post.id + 1;
      }
    }
  }
}
