/**
 * The page script's rules around the store and the thread assembler:
 * normalising a link classification and writing it back, deciding whether
 * a post or reply form may be submitted, and finding the selected board.
 * The page's global state (the database handle and
 * `currentNormalBoardName`) is the class `Page`.
 */
module Controller {
  import opened Wrappers
  import opened Posts
  import opened PostStore
  import opened Threads

  /* ---------------- link classification ---------------- */

  /**
   * What `checkLinkWithAI` gets back from the classification endpoint:
   * the `type` and `reason` of the JSON body (`None` when absent or not a
   * string), or a failure: a network error, a non-ok status, an
   * unparsable body, or a body of `null`, whose `result.type` throws and
   * lands in the same `catch`.
   */
  datatype LinkCheckResponse = Answered(typeField: Option<string>, reason: Option<string>) | CheckFailed

  const INVALID_RESPONSE_REASON: string := "Invalid AI response type or format."
  const CHECK_FAILED_REASON: string := "AI check failed or backend unavailable."

  /** The string a status is stored and displayed as. */
  function StatusName(s: LinkStatus): string {
    match s
    case Pending => "pending"
    case Safe => "safe"
    case Malware => "malware"
    case Porn => "porn"
    case Error => "error"
  }

  /** `allowedTypes.includes(t)`, with the status it names. */
  function AllowedType(t: string): (r: Option<LinkStatus>)
    ensures r.Some? <==> t in ["safe", "malware", "porn"]
    ensures r.Some? ==> StatusName(r.value) == t
  {
    if t == "safe" then Some(Safe)
    else if t == "malware" then Some(Malware)
    else if t == "porn" then Some(Porn)
    else None
  }

  /** The classification verdicts are exactly the statuses the endpoint may name. */
  lemma AllowedTypeRoundTrip(s: LinkStatus)
    ensures AllowedType(StatusName(s)) == (if s in {Safe, Malware, Porn} then Some(s) else None)
  {
  }

  /**
   * The `(linkStatus, linkReason)` written back for a response: an allowed
   * type is kept with its reason, anything else becomes `error` with a
   * canned reason. A classification never leaves a link pending.
   */
  function Normalise(r: LinkCheckResponse): (res: (LinkStatus, Option<string>))
    ensures res.0 != Pending
    ensures res.0 != Error <==> r.Answered? && r.typeField.Some? && r.typeField.value in ["safe", "malware", "porn"]
    ensures res.0 != Error ==> StatusName(res.0) == r.typeField.value && res.1 == r.reason
    ensures res.0 == Error ==> res.1 == Some(if r.CheckFailed? then CHECK_FAILED_REASON else INVALID_RESPONSE_REASON)
  {
    match r
    case CheckFailed => (Error, Some(CHECK_FAILED_REASON))
    case Answered(t, reason) =>
      if t.Some? && AllowedType(t.value).Some? then (AllowedType(t.value).value, reason)
      else (Error, Some(INVALID_RESPONSE_REASON))
  }

  /** The record after the classification is written into it. */
  function Classified(p: Post, r: LinkCheckResponse): (q: Post)
    ensures q.id == p.id && q.linkUrl == p.linkUrl && q.boardName == p.boardName && q.parentId == p.parentId
    ensures (q.linkStatus, q.linkReason) == (Some(Normalise(r).0), Normalise(r).1)
    ensures q.(linkStatus := p.linkStatus, linkReason := p.linkReason) == p
  {
    p.(linkStatus := Some(Normalise(r).0), linkReason := Normalise(r).1)
  }

  /** A "malware" verdict is stored with its reason; an unknown type is stored as an error. */
  lemma ClassificationExamples(p: Post)
    ensures Classified(p, Answered(Some("malware"), Some("flagged"))).linkStatus == Some(Malware)
    ensures Classified(p, Answered(Some("malware"), Some("flagged"))).linkReason == Some("flagged")
    ensures Classified(p, Answered(Some("bogus"), None)).linkStatus == Some(Error)
  {
    assert AllowedType("malware") == Some(Malware);
  }

  /* ---------------- submit validation ---------------- */

  /** The characters `String.prototype.trim` removes: white space and line terminators. */
  predicate IsJsWhitespace(c: char) {
    c in {'\t', '\n', '\U{B}', '\U{C}', '\r', ' ', '\U{A0}', '\U{1680}',
          '\U{2000}', '\U{2001}', '\U{2002}', '\U{2003}', '\U{2004}', '\U{2005}', '\U{2006}', '\U{2007}',
          '\U{2008}', '\U{2009}', '\U{200A}', '\U{2028}', '\U{2029}', '\U{202F}', '\U{205F}', '\U{3000}',
          '\U{FEFF}'}
  }

  /** `s` without its leading white space. */
  function TrimStart(s: string): string {
    if s != [] && IsJsWhitespace(s[0]) then TrimStart(s[1..]) else s
  }

  /** `s` without its trailing white space. */
  function TrimEnd(s: string): string {
    if s != [] && IsJsWhitespace(s[|s| - 1]) then TrimEnd(s[..|s| - 1]) else s
  }

  /** `TrimStart` removes exactly the leading white space: what is left is a suffix not starting with white space. */
  lemma {:induction false} TrimStartExact(s: string)
    ensures |TrimStart(s)| <= |s| && TrimStart(s) == s[|s| - |TrimStart(s)|..]
    ensures forall i | 0 <= i < |s| - |TrimStart(s)| :: IsJsWhitespace(s[i])
    ensures TrimStart(s) == [] || !IsJsWhitespace(TrimStart(s)[0])
  {
    if s != [] && IsJsWhitespace(s[0]) {
      TrimStartExact(s[1..]);
      forall i | 1 <= i < |s| - |TrimStart(s)| ensures IsJsWhitespace(s[i]) {
        assert s[i] == s[1..][i - 1];
      }
    }
  }

  /** `TrimEnd` removes exactly the trailing white space: what is left is a prefix not ending with white space. */
  lemma {:induction false} TrimEndExact(s: string)
    ensures |TrimEnd(s)| <= |s| && TrimEnd(s) == s[..|TrimEnd(s)|]
    ensures forall i | |TrimEnd(s)| <= i < |s| :: IsJsWhitespace(s[i])
    ensures TrimEnd(s) == [] || !IsJsWhitespace(TrimEnd(s)[|TrimEnd(s)| - 1])
  {
    if s != [] && IsJsWhitespace(s[|s| - 1]) {
      TrimEndExact(s[..|s| - 1]);
      forall i | |TrimEnd(s)| <= i < |s| - 1 ensures IsJsWhitespace(s[i]) {
        assert s[i] == s[..|s| - 1][i];
      }
    }
  }

  /** `s.trim()`. */
  function Trim(s: string): string {
    TrimEnd(TrimStart(s))
  }

  /** A trimmed string is empty exactly when the input is all white space. */
  lemma TrimEmpty(s: string)
    ensures Trim(s) == [] <==> forall i | 0 <= i < |s| :: IsJsWhitespace(s[i])
  {
    var t := TrimStart(s);
    TrimStartExact(s);
    TrimEndExact(t);
    assert t != [] ==> t[0] == s[|s| - |t|];
  }

  /** Trimming keeps the inner text: the result is a slice of the input with no white space at its ends. */
  lemma TrimSlice(s: string)
    ensures exists a, b :: 0 <= a <= b <= |s| && Trim(s) == s[a..b]
    ensures Trim(s) == [] || (!IsJsWhitespace(Trim(s)[0]) && !IsJsWhitespace(Trim(s)[|Trim(s)| - 1]))
  {
    var t := TrimStart(s);
    var r := TrimEnd(t);
    TrimStartExact(s);
    TrimEndExact(t);
    var a := |s| - |t|;
    assert r == s[a..a + |r|];
    assert Trim(s) == s[a..a + |r|];
    if r != [] {
      assert r[0] == t[0];
    }
  }

  /**
   * The condition under which a post or reply form goes on to `addPost`:
   * a file is chosen, or the trimmed link or trimmed comment is non-empty.
   */
  predicate CanSubmit(file: Option<File>, link: string, comment: string) {
    file.Some? || Trim(link) != "" || Trim(comment) != ""
  }

  /** A submission is refused exactly when there is no file and the link and comment are only white space. */
  lemma CanSubmitExact(file: Option<File>, link: string, comment: string)
    ensures !CanSubmit(file, link, comment) <==>
      && file.None?
      && (forall i | 0 <= i < |link| :: IsJsWhitespace(link[i]))
      && (forall i | 0 <= i < |comment| :: IsJsWhitespace(comment[i]))
  {
    TrimEmpty(link);
    TrimEmpty(comment);
  }

  /* ---------------- board lookup ---------------- */

  datatype BoardInfo = BoardInfo(name: string, topic: string)

  /** An entry of `normalBoards`: a board and its (possibly empty) list of sub-boards. */
  datatype BoardEntry = BoardEntry(info: BoardInfo, subBoards: seq<BoardInfo>)

  const NormalBoards: seq<BoardEntry> := [
    BoardEntry(BoardInfo("/b/", "Random"), []),
    BoardEntry(BoardInfo("/g/", "Technology and Gadgets"), [
      BoardInfo("/g/linux/", "Linux Desktops and Servers"),
      BoardInfo("/g/hardware/", "Computer Hardware Discussions"),
      BoardInfo("/g/programming/", "Programming and Development")]),
    BoardEntry(BoardInfo("/v/", "Video Games"), [
      BoardInfo("/v/pc/", "PC Gaming"),
      BoardInfo("/v/console/", "Console Gaming"),
      BoardInfo("/v/retro/", "Retro Gaming")]),
    BoardEntry(BoardInfo("/pol/", "Politics"), []),
    BoardEntry(BoardInfo("/biz/", "Business and Finance"), []),
    BoardEntry(BoardInfo("/fit/", "Health and Fitness"), []),
    BoardEntry(BoardInfo("/k/", "Weapons"), [])
  ]

  /** The order in which the lookup examines names: each board, then its sub-boards. */
  function SearchOrder(boards: seq<BoardEntry>): seq<BoardInfo> {
    if boards == [] then []
    else
      var last := boards[|boards| - 1];
      SearchOrder(boards[..|boards| - 1]) + [last.info] + last.subBoards
  }

  /** The first entry of `s` named `name`. */
  function FirstNamed(s: seq<BoardInfo>, name: string): (r: Option<BoardInfo>)
    ensures r.None? <==> forall i | 0 <= i < |s| :: s[i].name != name
    ensures r.Some? ==> exists i :: (0 <= i < |s| && s[i] == r.value && r.value.name == name
      && forall j | 0 <= j < i :: s[j].name != name)
  {
    if s == [] then None
    else if s[0].name == name then Some(s[0])
    else
      var r := FirstNamed(s[1..], name);
      FirstNamedStep(s, name, r);
      r
  }

  lemma FirstNamedStep(s: seq<BoardInfo>, name: string, r: Option<BoardInfo>)
    requires s != [] && s[0].name != name
    requires r.Some? ==> exists i :: (0 <= i < |s[1..]| && s[1..][i] == r.value && r.value.name == name
      && forall j | 0 <= j < i :: s[1..][j].name != name)
    ensures r.Some? ==> exists i :: (0 <= i < |s| && s[i] == r.value && r.value.name == name
      && forall j | 0 <= j < i :: s[j].name != name)
  {
    if r.Some? {
      var i :| 0 <= i < |s[1..]| && s[1..][i] == r.value && r.value.name == name
        && forall j | 0 <= j < i :: s[1..][j].name != name;
      assert s[i + 1] == r.value;
      forall j | 0 < j < i + 1 ensures s[j].name != name {
        assert s[j] == s[1..][j - 1];
      }
    }
  }

  lemma {:induction false} FirstNamedAppend(a: seq<BoardInfo>, b: seq<BoardInfo>, name: string)
    ensures FirstNamed(a + b, name) == if FirstNamed(a, name).Some? then FirstNamed(a, name) else FirstNamed(b, name)
    decreases |a|
  {
    if a != [] {
      assert (a + b)[1..] == a[1..] + b;
      FirstNamedAppend(a[1..], b, name);
    } else {
      assert a + b == b;
    }
  }

  /** `normalBoards.find`-style lookup of the selected board, as `selectNormalBoard` does it. */
  function LookupBoard(boards: seq<BoardEntry>, name: string): Option<BoardInfo> {
    FirstNamed(SearchOrder(boards), name)
  }

  /** The title shown above the board: `name - topic` when the board is known, the raw name otherwise. */
  function BoardTitle(boards: seq<BoardEntry>, name: string): (title: string)
    ensures LookupBoard(boards, name).Some? ==>
      title == LookupBoard(boards, name).value.name + " - " + LookupBoard(boards, name).value.topic
    ensures LookupBoard(boards, name).None? ==> title == name
  {
    match LookupBoard(boards, name)
    case Some(b) => b.name + " - " + b.topic
    case None => name
  }

  /** The names one board contributes to the search: its own, then its sub-boards'. */
  function Entries(b: BoardEntry): seq<BoardInfo> {
    [b.info] + b.subBoards
  }

  /** A board's own name is checked before its sub-boards. */
  lemma EntriesFirstNamed(b: BoardEntry, name: string)
    ensures FirstNamed(Entries(b), name) == if b.info.name == name then Some(b.info) else FirstNamed(b.subBoards, name)
  {
    FirstNamedAppend([b.info], b.subBoards, name);
  }

  /** After boards below `i` found nothing, the search up to board `i` finds what board `i`'s entries find. */
  lemma SearchOrderStep(boards: seq<BoardEntry>, i: nat, name: string)
    requires i < |boards| && FirstNamed(SearchOrder(boards[..i]), name).None?
    ensures FirstNamed(SearchOrder(boards[..i + 1]), name) == FirstNamed(Entries(boards[i]), name)
  {
    assert boards[..i + 1][..i] == boards[..i];
    assert SearchOrder(boards[..i + 1]) == SearchOrder(boards[..i]) + Entries(boards[i]);
    FirstNamedAppend(SearchOrder(boards[..i]), Entries(boards[i]), name);
  }

  /** After boards below `i` found nothing, board `i` decides the lookup whenever it has a match. */
  lemma LookupStep(boards: seq<BoardEntry>, i: nat, name: string)
    requires i < |boards| && FirstNamed(SearchOrder(boards[..i]), name).None?
    ensures FirstNamed(Entries(boards[i]), name)
      == if boards[i].info.name == name then Some(boards[i].info) else FirstNamed(boards[i].subBoards, name)
    ensures FirstNamed(SearchOrder(boards[..i + 1]), name) == FirstNamed(Entries(boards[i]), name)
    ensures FirstNamed(Entries(boards[i]), name).Some? ==> LookupBoard(boards, name) == FirstNamed(Entries(boards[i]), name)
  {
    EntriesFirstNamed(boards[i], name);
    SearchOrderStep(boards, i, name);
    if FirstNamed(Entries(boards[i]), name).Some? {
      SearchOrderSplit(boards, i + 1);
      FirstNamedAppend(SearchOrder(boards[..i + 1]), SearchOrder(boards[i + 1..]), name);
    }
  }

  /**
   * The loop of `selectNormalBoard`: each board's own name is checked before
   * its sub-boards are searched, and the loop stops at the first match.
   */
  method FindSelectedBoard(boards: seq<BoardEntry>, name: string) returns (selected: Option<BoardInfo>)
    ensures selected == LookupBoard(boards, name)
    ensures selected.Some? ==> selected.value.name == name && selected.value in SearchOrder(boards)
    ensures selected.None? <==> forall b | b in SearchOrder(boards) :: b.name != name
  {
    selected := None;
    var i := 0;
    while i < |boards|
      invariant 0 <= i <= |boards|
      invariant selected.None? && FirstNamed(SearchOrder(boards[..i]), name).None?
    {
      var board := boards[i];
      LookupStep(boards, i, name);
      if board.info.name == name {
        selected := Some(board.info);
        break;
      }
      if |board.subBoards| > 0 {
        selected := FirstNamed(board.subBoards, name);
        if selected.Some? {
          break;
        }
      }
      i := i + 1;
    }
    if i == |boards| {
      assert boards[..i] == boards;
    }
    LookupBoardExact(boards, name);
  }

  lemma {:induction false} SearchOrderSplit(boards: seq<BoardEntry>, i: nat)
    requires i <= |boards|
    ensures SearchOrder(boards) == SearchOrder(boards[..i]) + SearchOrder(boards[i..])
    decreases |boards|
  {
    if i < |boards| {
      var init := boards[..|boards| - 1];
      SearchOrderSplit(init, i);
      assert init[..i] == boards[..i];
      assert init[i..] == boards[i..|boards| - 1];
      assert boards[i..][..|boards[i..]| - 1] == init[i..];
      assert boards[i..][|boards[i..]| - 1] == boards[|boards| - 1];
    } else {
      assert boards[..i] == boards;
      assert boards[i..] == [];
    }
  }

  /** The lookup finds a board of that name, or there is none in the search order. */
  lemma LookupBoardExact(boards: seq<BoardEntry>, name: string)
    ensures LookupBoard(boards, name).Some? ==>
      LookupBoard(boards, name).value.name == name && LookupBoard(boards, name).value in SearchOrder(boards)
    ensures LookupBoard(boards, name).None? <==> forall b | b in SearchOrder(boards) :: b.name != name
  {
    var s := SearchOrder(boards);
    if LookupBoard(boards, name).None? {
      forall b | b in s ensures b.name != name {
        var i :| 0 <= i < |s| && s[i] == b;
      }
    }
  }

  /* ---------------- the page ---------------- */

  /** The outcome of submitting the post form or a reply form. */
  datatype SubmitOutcome = NothingToPost | NoBoardSelected | Posted(post: Post)

  /** The page script's global state: the opened database and the board being viewed. */
  class Page {
    const db: Database
    /** `currentNormalBoardName`; `None` for `null`. */
    var currentBoard: Option<string>

    ghost predicate Valid()
      reads this, db
    {
      db.Ready()
    }

    /** The page once `initDB` has resolved to `db`, before any board is selected. */
    constructor (db: Database)
      requires db.Ready()
      ensures this.db == db && currentBoard == None && Valid()
    {
      this.db := db;
      currentBoard := None;
    }

    /**
     * `selectNormalBoard(boardName)`: remembers the board, computes its
     * title, and assembles the reply forest of its posts.
     */
    method SelectNormalBoard(boardName: string) returns (title: string, forest: seq<Thread>)
      requires Valid()
      modifies this
      ensures Valid() && currentBoard == Some(boardName)
      ensures title == BoardTitle(NormalBoards, boardName)
      ensures IsAssembly(LoadSpec(db.posts, boardName, db.nextKey), forest)
    {
      currentBoard := Some(boardName);
      var selected := FindSelectedBoard(NormalBoards, boardName);
      if selected.Some? {
        title := selected.value.name + " - " + selected.value.topic;
      } else {
        title := boardName;
      }
      var posts := db.LoadPosts(boardName);
      forest := RenderBoardPosts(posts);
      MapEntriesOfDistinct(posts);
    }

    /**
     * The submit handler of the post form (`parentId == None`) and of a
     * reply form (`parentId == Some(id)`): trims the inputs, refuses an
     * empty submission, and adds the post to the current board.
     */
    method SubmitPost(file: Option<File>, linkInput: string, commentInput: string, usernameInput: string,
                      parentId: Option<nat>, now: int) returns (outcome: SubmitOutcome)
      requires Valid()
      modifies db
      ensures Valid()
      ensures !CanSubmit(file, linkInput, commentInput) ==> outcome == NothingToPost && unchanged(db)
      ensures CanSubmit(file, linkInput, commentInput) && (currentBoard.None? || currentBoard.value == "") ==>
        outcome == NoBoardSelected && unchanged(db)
      ensures outcome.Posted? <==>
        CanSubmit(file, linkInput, commentInput) && currentBoard.Some? && currentBoard.value != ""
      ensures outcome.Posted? ==>
        && outcome.post.id == old(db.nextKey) && db.posts == old(db.posts)[outcome.post.id := outcome.post]
        && outcome.post.boardName == currentBoard.value
        && outcome.post.comment == Trim(commentInput) && outcome.post.linkUrl == Trim(linkInput)
        && outcome.post.username == (if Trim(usernameInput) != "" then Trim(usernameInput) else ANONYMOUS)
        && outcome.post.parentId == parentId && outcome.post.timestamp == now
        && outcome.post.file == file
        && outcome.post.fileType == (if file.Some? then FileTypeOf(file.value.mimeType) else None)
        && outcome.post.linkStatus == (if Trim(linkInput) != "" then Some(Pending) else None)
        && outcome.post.linkReason == None
      ensures outcome.Posted? ==>
        && db.nextKey == old(db.nextKey) + 1 && db.version == old(db.version)
        && db.storeNames == old(db.storeNames) && db.postsIndexes == old(db.postsIndexes)
    {
      var link := Trim(linkInput);
      var comment := Trim(commentInput);
      var username := Trim(usernameInput);
      assert CanSubmit(file, linkInput, commentInput) <==> !(file.None? && link == "" && comment == "");
      if file.None? && link == "" && comment == "" {
        return NothingToPost;
      }
      if currentBoard.None? || currentBoard.value == "" {
        return NoBoardSelected;
      }
      var board := currentBoard.value;
      var p := db.AddPost(file, comment, link, board, username, parentId, now);
      assert currentBoard == Some(board);
      outcome := Posted(p);
    }

    /**
     * The write-back of `checkLinkWithAI(url, postId, boardName)` once the
     * endpoint has answered: the classification is stored into the post if
     * it still exists, and nothing is written otherwise.
     */
    method ApplyLinkCheck(postId: nat, response: LinkCheckResponse)
      requires Valid()
      modifies db`posts, db`nextKey
      ensures Valid()
      ensures postId in old(db.posts) ==> db.posts == old(db.posts)[postId := Classified(old(db.posts)[postId], response)]
      ensures postId !in old(db.posts) ==> db.posts == old(db.posts)
      ensures db.nextKey == old(db.nextKey)
    {
      var status := Normalise(response);
      var post := db.GetPost(postId);
      if post.Some? {
        var updated := post.value.(linkStatus := Some(status.0), linkReason := status.1);
        assert updated == Classified(post.value, response);
        db.UpdatePost(updated);
      }
    }
  }

  /* ---------------- deleting a parent ---------------- */

  /**
   * `deletePost(pid)` leaves the replies of `pid` in storage: on the next
   * `loadPosts` of their board each of them is still listed, is a root of
   * the assembled forest, and is nobody's child.
   */
  lemma DeletedParentOrphansReplies(m: map<nat, Post>, n: nat, b: string, pid: nat, q: Post)
    requires KeyedById(m, n)
    requires q in m.Values && q.boardName == b && q.id != pid && q.parentId == Some(pid)
    ensures q in LoadSpec(m - {pid}, b, n)
    ensures q in TopLevel(LoadSpec(m - {pid}, b, n))
    ensures forall id :: q !in ChildrenOf(LoadSpec(m - {pid}, b, n), id)
  {
    DeleteKeepsOthers(m, n, pid, q);
    var vs := LoadSpec(m - {pid}, b, n);
    LoadSpecExact(m - {pid}, b, n);
    assert pid !in Ids(vs);
    OrphanIsRoot(vs, q);
  }

  /** After removing `pid`, the table is still keyed by id, keeps every other record, and no record has id `pid`. */
  lemma DeleteKeepsOthers(m: map<nat, Post>, n: nat, pid: nat, q: Post)
    requires KeyedById(m, n) && q in m.Values && q.id != pid
    ensures KeyedById(m - {pid}, n) && q in (m - {pid}).Values
    ensures forall p | p in (m - {pid}).Values :: p.id != pid
  {
    var k :| k in m && m[k] == q;
    assert (m - {pid})[k] == q;
    forall p | p in (m - {pid}).Values ensures p.id != pid {
      var j :| j in m - {pid} && (m - {pid})[j] == p;
    }
  }

  /* ---------------- end to end ---------------- */

  /** The records of the scenario below: a top-level post `a` on "/b/" and a newer reply `b` to it. */
  predicate ScenarioPosts(a: Post, b: Post) {
    && a.id == 1 && b.id == 2 && a.boardName == "/b/" && b.boardName == "/b/"
    && a.parentId == None && b.parentId == Some(1) && a.timestamp < b.timestamp
  }

  /** Sorting a single post, either way, gives it back. */
  lemma SortOne(p: Post)
    ensures SortNewestFirst([p]) == [p] && SortOldestFirst([p]) == [p]
  {
    var r, q := SortNewestFirst([p]), SortOldestFirst([p]);
    assert |r| == |q| == 1 && r[0] in multiset(r) && q[0] in multiset(q);
  }

  /** Two posts with different timestamps come out newest first. */
  lemma SortTwo(a: Post, b: Post)
    requires a.timestamp < b.timestamp
    ensures SortNewestFirst([a, b]) == [b, a]
  {
    var r := SortNewestFirst([a, b]);
    assert |r| == 2 && r[0] in multiset(r) && r[1] in multiset(r);
    assert r[0] in {a, b} && r[1] in {a, b};
    assert multiset(r) == multiset{r[0], r[1]} by { assert r == [r[0], r[1]]; }
  }

  /** The index scans behind the listings of the scenario, in ascending key order. */
  lemma ScenarioScans(a: Post, b: Post)
    requires ScenarioPosts(a, b)
    ensures BoardScan(map[1 := a], "/b/", 2) == [a]
    ensures BoardScan(map[1 := a, 2 := b], "/b/", 3) == [a, b]
    ensures BoardScan(map[2 := b], "/b/", 3) == [b]
  {
    var m := map[1 := a, 2 := b];
    assert BoardScan(m, "/b/", 1) == [];
    assert BoardScan(m, "/b/", 2) == [a];
    assert BoardScan(map[2 := b], "/b/", 1) == [];
    assert BoardScan(map[2 := b], "/b/", 2) == [];
    assert BoardScan(map[1 := a], "/b/", 1) == [];
  }

  /** What `loadPosts("/b/")` returns after adding `a`, after adding `b`, and after deleting `a`. */
  lemma ScenarioLoads(a: Post, b: Post)
    requires ScenarioPosts(a, b)
    ensures LoadSpec(map[1 := a], "/b/", 2) == [a]
    ensures LoadSpec(map[1 := a, 2 := b], "/b/", 3) == [b, a]
    ensures LoadSpec(map[2 := b], "/b/", 3) == [b]
  {
    ScenarioScans(a, b);
    SortOne(a);
    SortOne(b);
    SortTwo(a, b);
  }

  /** A board whose only root is `t.post` is shown as the one thread `t`, once `t` is well formed. */
  lemma OneThreadAssembly(vs: seq<Post>, t: Thread)
    requires TopLevel(vs) == [t.post] && WellFormed(vs, t)
    ensures IsAssembly(vs, [t])
  {
    assert SortNewestFirst(TopLevel(vs)) == [t.post] by {
      SortOne(t.post);
    }
    assert ThreadPosts([t]) == [t.post];
    assert forall i | 0 <= i < |[t]| :: [t][i] == t;
  }

  /** With `b` and `a` loaded, `a` is the only root. */
  lemma ScenarioRoots(a: Post, b: Post)
    requires ScenarioPosts(a, b)
    ensures TopLevel([b, a]) == [a]
  {
    var vs := [b, a];
    assert vs[..1] == [b] && [b][..0] == [];
    assert a in vs && 1 in Ids(vs) && FiledUnder(vs, b) && !FiledUnder(vs, a);
    assert TopLevelIn(vs, [b]) == [];
  }

  /** With `b` and `a` loaded, `b` is the one child of `a` and has no children itself. */
  lemma ScenarioChildren(a: Post, b: Post)
    requires ScenarioPosts(a, b)
    ensures ChildrenOf([b, a], a.id) == [b] && ChildrenOf([b, a], b.id) == []
  {
    var vs := [b, a];
    assert vs[..1] == [b] && [b][..0] == [];
    assert a in vs && 1 in Ids(vs) && FiledUnder(vs, b) && !FiledUnder(vs, a);
    assert ChildrenIn(vs, [b], a.id) == [b];
    assert ChildrenIn(vs, [b], b.id) == [];
  }

  /** The thread of `a` with its reply `b` is what the walk builds for `a`. */
  lemma ScenarioThreadOfA(a: Post, b: Post)
    requires ScenarioPosts(a, b)
    ensures WellFormed([b, a], Thread(a, [Thread(b, [])]))
  {
    var vs := [b, a];
    var leaf := Thread(b, []);
    ScenarioChildren(a, b);
    SortOne(b);
    assert ThreadPosts(leaf.replies) == [] == SortOldestFirst(ChildrenOf(vs, b.id));
    assert WellFormed(vs, leaf);
    assert ThreadPosts([leaf]) == [b] == SortOldestFirst(ChildrenOf(vs, a.id));
  }

  /** With both posts loaded, the board shows `a` with `b` below it. */
  lemma ScenarioReplyThread(a: Post, b: Post)
    requires ScenarioPosts(a, b)
    ensures IsAssembly([b, a], [Thread(a, [Thread(b, [])])])
  {
    ScenarioRoots(a, b);
    ScenarioThreadOfA(a, b);
    OneThreadAssembly([b, a], Thread(a, [Thread(b, [])]));
  }

  /** Once `a` is deleted, `b` is an orphan and is shown as a thread of its own. */
  lemma ScenarioOrphanThread(a: Post, b: Post)
    requires ScenarioPosts(a, b)
    ensures IsAssembly([b], [Thread(b, [])])
  {
    var w := [b];
    assert w[..0] == [];
    assert 1 !in Ids(w) && !FiledUnder(w, b);
    assert TopLevelIn(w, w) == TopLevelIn(w, []) + [b];
    assert ChildrenIn(w, w, b.id) == ChildrenIn(w, [], b.id);
    assert TopLevel(w) == [b];
    assert ChildrenOf(w, b.id) == [];
    OneThreadAssembly(w, Thread(b, []));
  }

  /** Deleting key 1 from the scenario's table leaves only `b`. */
  lemma ScenarioDeleteA(a: Post, b: Post)
    ensures map[1 := a, 2 := b] - {1} == map[2 := b]
  {
    var m := map[1 := a, 2 := b] - {1};
    assert m.Keys == {2};
  }

  /**
   * The store side of the scenario, on a database this browser has never
   * opened: `initDB`, a top-level post `a` ("hi", no file, no link) at time
   * `t1`, a reply `b` to it at the later time `t2`, and `deletePost(a.id)`,
   * with the listing of board "/b/" after each write.
   */
  method ScenarioStore(t1: int, t2: int) returns (a: Post, b: Post, first: seq<Post>, second: seq<Post>, third: seq<Post>)
    requires t1 < t2
    ensures ScenarioPosts(a, b) && a.comment == "hi" && a.timestamp == t1 && b.timestamp == t2
    ensures first == [a] && second == [b, a] && third == [b]
  {
    var db := new Database();
    var outcome := db.InitDB();
    assert outcome == Opened && db.posts == map[] && db.nextKey == 1;
    a := db.AddPost(None, "hi", "", "/b/", "", None, t1);
    assert db.posts == map[1 := a] && db.nextKey == 2;
    first := db.LoadPosts("/b/");
    b := db.AddPost(None, "", "", "/b/", "", Some(a.id), t2);
    assert db.posts == map[1 := a, 2 := b] && db.nextKey == 3;
    second := db.LoadPosts("/b/");
    var removed := db.DeletePost(a.id);
    ScenarioDeleteA(a, b);
    third := db.LoadPosts("/b/");
    ScenarioLoads(a, b);
  }

  /**
   * The scenario end to end: the store steps above, with the forest that
   * `renderBoardPosts` builds from the listing before and after the delete.
   */
  method ScenarioEndToEnd(t1: int, t2: int) returns (a: Post, b: Post, shown: seq<Thread>, shownAfter: seq<Thread>)
    requires t1 < t2
    ensures a.id == 1 && a.comment == "hi" && a.parentId == None && a.timestamp == t1
    ensures b.id == 2 && b.parentId == Some(a.id) && b.timestamp == t2
    ensures shown == [Thread(a, [Thread(b, [])])]
    ensures shownAfter == [Thread(b, [])]
  {
    var first, second, third;
    a, b, first, second, third := ScenarioStore(t1, t2);
    assert DistinctIds(second) && DistinctIds(third);
    shown := RenderBoardPosts(second);
    ScenarioReplyThread(a, b);
    ShownIs(second, shown, [Thread(a, [Thread(b, [])])]);
    shownAfter := RenderBoardPosts(third);
    ScenarioOrphanThread(a, b);
    ShownIs(third, shownAfter, [Thread(b, [])]);
  }

  /** For a listing with distinct ids, what `renderBoardPosts` builds is the assembly of the listing itself. */
  lemma ShownIs(vs: seq<Post>, shown: seq<Thread>, expected: seq<Thread>)
    requires DistinctIds(vs) && IsAssembly(MapEntries(vs), shown) && IsAssembly(vs, expected)
    ensures shown == expected
  {
    MapEntriesOfDistinct(vs);
    AssemblyUnique(vs, shown, expected);
  }
}
