/**
 * The thread assembler of script.js (`renderBoardPosts` and its inner
 * `appendPostAndChildren`): a flat list of a board's posts becomes a forest
 * of reply threads. The DOM containers are modelled by the `Thread`
 * values they would hold: a post element followed by the elements of its
 * replies, nested in its replies container.
 */
module Threads {
  import opened Wrappers
  import opened Posts

  /** A rendered post with its rendered replies, in display order. */
  datatype Thread = Thread(post: Post, replies: seq<Thread>)

  /** One post element in document order, with its nesting depth. */
  datatype Visit = Visit(post: Post, depth: nat)

  /* ---------------- the id map: `new Map(allPosts.map(p => [p.id, ...]))` ---------------- */

  /** `e` with the entry whose id is `x.id` overwritten by `x`, in place. */
  function Replace(e: seq<Post>, x: Post): seq<Post> {
    seq(|e|, i requires 0 <= i < |e| => if e[i].id == x.id then x else e[i])
  }

  /**
   * The values of a JavaScript `Map` filled from `s` keyed by id, in
   * iteration order: a key keeps the position of its first insertion and
   * the value of its last one.
   */
  function MapEntries(s: seq<Post>): (r: seq<Post>)
    ensures DistinctIds(r) && Ids(r) == Ids(s)
    ensures forall p | p in r :: p in s
    decreases |s|
  {
    if s == [] then []
    else
      var e := MapEntries(s[..|s| - 1]);
      var x := s[|s| - 1];
      assert s == s[..|s| - 1] + [x];
      IdsSnoc(s[..|s| - 1], x);
      if x.id in Ids(e) then
        var r := Replace(e, x);
        IdsPointwise(e, r);
        r
      else
        e + [x]
  }

  lemma IdsSnoc(s: seq<Post>, x: Post)
    ensures Ids(s + [x]) == Ids(s) + {x.id}
    ensures forall p | p in s :: p in s + [x]
  {
    assert forall p | p in s + [x] :: p in s || p == x;
  }

  lemma IdsPointwise(a: seq<Post>, b: seq<Post>)
    requires |a| == |b| && forall i | 0 <= i < |a| :: a[i].id == b[i].id
    ensures Ids(a) == Ids(b)
  {
    forall id | id in Ids(a) ensures id in Ids(b) {
      var i :| 0 <= i < |a| && a[i].id == id;
      assert b[i] in b;
    }
    forall id | id in Ids(b) ensures id in Ids(a) {
      var i :| 0 <= i < |b| && b[i].id == id;
      assert a[i] in a;
    }
  }

  /** With distinct ids (what `loadPosts` delivers) the map holds the list unchanged. */
  lemma {:induction false} MapEntriesOfDistinct(s: seq<Post>)
    requires DistinctIds(s)
    ensures MapEntries(s) == s
  {
    if s != [] {
      var init := s[..|s| - 1];
      assert DistinctIds(init);
      MapEntriesOfDistinct(init);
      var x := s[|s| - 1];
      DistinctInit(s);
      assert s == init + [x];
    }
  }

  /* ---------------- the partition into roots and children ---------------- */

  /** JavaScript truthiness of `post.parentId`: `null`, `undefined` and `0` are falsy. */
  predicate HasParentRef(p: Post) {
    p.parentId.Some? && p.parentId.value != 0
  }

  /** The post is pushed onto the `children` of an entry of the map built from `vs`. */
  predicate FiledUnder(vs: seq<Post>, p: Post) {
    HasParentRef(p) && p.parentId.value in Ids(vs)
  }

  /** The posts of `s`, in order, that `renderBoardPosts` pushes onto `topLevelPosts`. */
  function TopLevelIn(vs: seq<Post>, s: seq<Post>): seq<Post> {
    if s == [] then []
    else TopLevelIn(vs, s[..|s| - 1]) + (if FiledUnder(vs, s[|s| - 1]) then [] else [s[|s| - 1]])
  }

  /** The posts of `s`, in order, that are pushed onto the `children` of the entry with id `id`. */
  function ChildrenIn(vs: seq<Post>, s: seq<Post>, id: nat): seq<Post> {
    if s == [] then []
    else
      ChildrenIn(vs, s[..|s| - 1], id)
      + (if FiledUnder(vs, s[|s| - 1]) && s[|s| - 1].parentId.value == id then [s[|s| - 1]] else [])
  }

  function TopLevel(vs: seq<Post>): seq<Post> {
    TopLevelIn(vs, vs)
  }

  function ChildrenOf(vs: seq<Post>, id: nat): seq<Post> {
    ChildrenIn(vs, vs, id)
  }

  lemma DistinctSnoc(s: seq<Post>, x: Post)
    requires DistinctIds(s) && x.id !in Ids(s)
    ensures DistinctIds(s + [x])
  {
    var r := s + [x];
    forall i, j | 0 <= i < j < |r| ensures r[i].id != r[j].id {
      if j == |s| {
        assert r[i] in s;
      }
    }
  }

  lemma DistinctInit(s: seq<Post>)
    requires DistinctIds(s) && s != []
    ensures DistinctIds(s[..|s| - 1]) && s[|s| - 1].id !in Ids(s[..|s| - 1])
  {
    var init := s[..|s| - 1];
    forall i | 0 <= i < |init| ensures init[i].id != s[|s| - 1].id {
      assert init[i] == s[i];
    }
  }

  lemma {:induction false} TopLevelInMembers(vs: seq<Post>, s: seq<Post>)
    ensures forall p :: p in TopLevelIn(vs, s) <==> p in s && !FiledUnder(vs, p)
    ensures DistinctIds(s) ==> DistinctIds(TopLevelIn(vs, s))
  {
    if s != [] {
      var init := s[..|s| - 1];
      TopLevelInMembers(vs, init);
      assert s == init + [s[|s| - 1]];
      if DistinctIds(s) {
        DistinctInit(s);
        if !FiledUnder(vs, s[|s| - 1]) {
          DistinctSnoc(TopLevelIn(vs, init), s[|s| - 1]);
        }
      }
    }
  }

  lemma {:induction false} ChildrenInMembers(vs: seq<Post>, s: seq<Post>, id: nat)
    ensures forall p :: p in ChildrenIn(vs, s, id) <==> p in s && FiledUnder(vs, p) && p.parentId.value == id
    ensures DistinctIds(s) ==> DistinctIds(ChildrenIn(vs, s, id))
  {
    if s != [] {
      var init := s[..|s| - 1];
      ChildrenInMembers(vs, init, id);
      assert s == init + [s[|s| - 1]];
      if DistinctIds(s) {
        DistinctInit(s);
        if FiledUnder(vs, s[|s| - 1]) && s[|s| - 1].parentId.value == id {
          DistinctSnoc(ChildrenIn(vs, init, id), s[|s| - 1]);
        }
      }
    }
  }

  /** One step of the hierarchy pass: where the next post goes. */
  lemma PartitionStep(vs: seq<Post>, s: seq<Post>, x: Post)
    ensures TopLevelIn(vs, s + [x]) == TopLevelIn(vs, s) + (if FiledUnder(vs, x) then [] else [x])
    ensures forall id :: (ChildrenIn(vs, s + [x], id)
      == ChildrenIn(vs, s, id) + (if FiledUnder(vs, x) && x.parentId.value == id then [x] else []))
  {
    assert (s + [x])[..|s|] == s;
  }

  /**
   * Every loaded post lands in exactly one place: among the roots, or in the
   * children of the one entry its `parentId` names. No list repeats a post.
   */
  lemma PartitionExact(vs: seq<Post>, p: Post)
    requires DistinctIds(vs) && p in vs
    ensures p in TopLevel(vs) <==> !FiledUnder(vs, p)
    ensures p in TopLevel(vs) ==> forall id :: p !in ChildrenOf(vs, id)
    ensures p !in TopLevel(vs) ==> exists q :: q in vs && p in ChildrenOf(vs, q.id)
    ensures forall a, b :: p in ChildrenOf(vs, a) && p in ChildrenOf(vs, b) ==> a == b
    ensures DistinctIds(TopLevel(vs)) && forall id :: DistinctIds(ChildrenOf(vs, id))
  {
    TopLevelInMembers(vs, vs);
    forall id ensures (p in ChildrenOf(vs, id) <==> FiledUnder(vs, p) && p.parentId.value == id)
      && DistinctIds(ChildrenOf(vs, id))
    {
      ChildrenInMembers(vs, vs, id);
    }
    if p !in TopLevel(vs) {
      var q :| q in vs && q.id == p.parentId.value;
      assert p in ChildrenOf(vs, q.id);
    }
  }

  /** A post whose `parentId` is falsy or names no loaded post (its parent was deleted) is a root. */
  lemma OrphanIsRoot(vs: seq<Post>, p: Post)
    requires p in vs
    requires !HasParentRef(p) || p.parentId.value !in Ids(vs)
    ensures p in TopLevel(vs)
    ensures forall id :: p !in ChildrenOf(vs, id)
  {
    TopLevelInMembers(vs, vs);
    forall id ensures p !in ChildrenOf(vs, id) {
      ChildrenInMembers(vs, vs, id);
    }
  }

  /** The children of the entry `q` are exactly the loaded posts whose `parentId` is `q.id`. */
  lemma ChildrenExact(vs: seq<Post>, q: Post)
    requires q in vs && q.id != 0
    ensures forall p :: p in ChildrenOf(vs, q.id) <==> p in vs && p.parentId == Some(q.id)
  {
    ChildrenInMembers(vs, vs, q.id);
  }

  /* ---------------- the assembled forest ---------------- */

  function ThreadPosts(ts: seq<Thread>): (r: seq<Post>)
    ensures |r| == |ts| && forall i | 0 <= i < |ts| :: r[i] == ts[i].post
  {
    seq(|ts|, i requires 0 <= i < |ts| => ts[i].post)
  }

  /** Each node's replies are its children (script.js:133-135), oldest first, each assembled in turn. */
  predicate WellFormed(vs: seq<Post>, t: Thread)
    decreases t
  {
    && ThreadPosts(t.replies) == SortOldestFirst(ChildrenOf(vs, t.post.id))
    && forall i | 0 <= i < |t.replies| :: WellFormed(vs, t.replies[i])
  }

  /** `forest` is what `renderBoardPosts` renders for the map entries `vs`. */
  predicate IsAssembly(vs: seq<Post>, forest: seq<Thread>) {
    && ThreadPosts(forest) == SortNewestFirst(TopLevel(vs))
    && forall i | 0 <= i < |forest| :: WellFormed(vs, forest[i])
  }

  /** All replies, at every depth, are ordered oldest first. */
  predicate RepliesOldestFirst(t: Thread)
    decreases t
  {
    && OldestFirst(ThreadPosts(t.replies))
    && forall i | 0 <= i < |t.replies| :: RepliesOldestFirst(t.replies[i])
  }

  lemma {:induction false} WellFormedUnique(vs: seq<Post>, t1: Thread, t2: Thread)
    requires WellFormed(vs, t1) && WellFormed(vs, t2) && t1.post == t2.post
    ensures t1 == t2
    decreases t1
  {
    var r1, r2 := t1.replies, t2.replies;
    assert ThreadPosts(r1) == ThreadPosts(r2);
    forall i | 0 <= i < |r1| ensures r1[i] == r2[i] {
      assert r1[i].post == ThreadPosts(r1)[i] == ThreadPosts(r2)[i] == r2[i].post;
      WellFormedUnique(vs, r1[i], r2[i]);
    }
    assert r1 == r2;
  }

  /** The assembly is a function of the loaded posts: assembling twice yields the same forest. */
  lemma AssemblyUnique(vs: seq<Post>, f1: seq<Thread>, f2: seq<Thread>)
    requires IsAssembly(vs, f1) && IsAssembly(vs, f2)
    ensures f1 == f2
  {
    assert ThreadPosts(f1) == ThreadPosts(f2);
    forall i | 0 <= i < |f1| ensures f1[i] == f2[i] {
      assert f1[i].post == ThreadPosts(f1)[i] == ThreadPosts(f2)[i] == f2[i].post;
      WellFormedUnique(vs, f1[i], f2[i]);
    }
  }

  lemma {:induction false} WellFormedOrdered(vs: seq<Post>, t: Thread)
    requires WellFormed(vs, t)
    ensures RepliesOldestFirst(t)
    decreases t
  {
    forall i | 0 <= i < |t.replies| ensures RepliesOldestFirst(t.replies[i]) {
      WellFormedOrdered(vs, t.replies[i]);
    }
  }

  /** Roots come newest first; the replies of every node, at every depth, oldest first. */
  lemma AssemblyOrdered(vs: seq<Post>, forest: seq<Thread>)
    requires IsAssembly(vs, forest)
    ensures NewestFirst(ThreadPosts(forest))
    ensures forall i | 0 <= i < |forest| :: RepliesOldestFirst(forest[i])
  {
    forall i | 0 <= i < |forest| ensures RepliesOldestFirst(forest[i]) {
      WellFormedOrdered(vs, forest[i]);
    }
  }

  /* ---------------- parent chains ---------------- */

  function Last(path: seq<Post>): Post
    requires |path| > 0
  {
    path[|path| - 1]
  }

  /**
   * `path` starts at a root and each later post is filed under the one
   * before it: the ancestors of `Last(path)`, outermost first.
   */
  predicate Chain(vs: seq<Post>, path: seq<Post>) {
    && |path| > 0
    && (forall i | 0 <= i < |path| :: path[i] in vs)
    && !FiledUnder(vs, path[0])
    && (forall i | 0 < i < |path| :: FiledUnder(vs, path[i]) && path[i].parentId.value == path[i - 1].id)
  }

  /** A post is reachable when a parent chain leads to it from a root. */
  ghost predicate Reachable(vs: seq<Post>, p: Post) {
    exists path :: Chain(vs, path) && Last(path) == p
  }

  lemma {:induction false} ChainNoRepeat(vs: seq<Post>, path: seq<Post>, a: nat, b: nat)
    requires DistinctIds(vs) && Chain(vs, path) && a < b < |path|
    ensures path[a] != path[b]
    decreases a
  {
    if a > 0 {
      ChainNoRepeat(vs, path, a - 1, b - 1);
      if path[a] == path[b] {
        IdDeterminesPost(vs, path[a - 1], path[b - 1]);
      }
    }
  }

  /** Following a child down from the end of a chain gives a chain, and never revisits a post of it. */
  lemma ChainExtend(vs: seq<Post>, path: seq<Post>, c: Post)
    requires DistinctIds(vs) && Chain(vs, path) && c in ChildrenOf(vs, Last(path).id)
    ensures Chain(vs, path + [c]) && c in vs && c !in path
  {
    ChildrenInMembers(vs, vs, Last(path).id);
    var ext := path + [c];
    assert Chain(vs, ext);
    if c in path {
      var j :| 0 <= j < |path| && path[j] == c;
      ChainNoRepeat(vs, ext, j, |path|);
    }
  }

  /** The chain leading to a post is unique: different chains end at different posts. */
  lemma {:induction false} ChainUnique(vs: seq<Post>, q1: seq<Post>, q2: seq<Post>)
    requires DistinctIds(vs) && Chain(vs, q1) && Chain(vs, q2)
    ensures Last(q1) == Last(q2) ==> q1 == q2
    decreases |q1|
  {
    if Last(q1) == Last(q2) && |q1| > 1 {
      assert |q2| > 1;
      var i1, i2 := q1[..|q1| - 1], q2[..|q2| - 1];
      IdDeterminesPost(vs, Last(i1), Last(i2));
      assert Chain(vs, i1) && Chain(vs, i2);
      ChainUnique(vs, i1, i2);
      assert q1 == i1 + [Last(q1)] && q2 == i2 + [Last(q2)];
    }
  }

  /** The posts not yet on the current parent chain: what bounds the depth-first walk. */
  ghost function Unvisited(vs: seq<Post>, path: seq<Post>): set<Post> {
    (set p | p in vs) - (set p | p in path)
  }

  /* ---------------- parent cycles ---------------- */

  /** The successor of position `i` around the cycle. */
  function Next(cyc: seq<Post>, i: nat): Post
    requires i < |cyc|
  {
    if i + 1 < |cyc| then cyc[i + 1] else cyc[0]
  }

  /** Each post of `cyc` names the next one as its parent, the last names the first. */
  predicate ParentCycle(vs: seq<Post>, cyc: seq<Post>) {
    && |cyc| > 0
    && forall i | 0 <= i < |cyc| ::
         cyc[i] in vs && HasParentRef(cyc[i]) && cyc[i].parentId.value == Next(cyc, i).id
  }

  /** No chain from a root passes through a parent cycle. */
  lemma {:induction false} ChainAvoidsCycle(vs: seq<Post>, path: seq<Post>, cyc: seq<Post>, k: nat)
    requires DistinctIds(vs) && Chain(vs, path) && ParentCycle(vs, cyc) && k < |path|
    ensures path[k] !in cyc
    decreases k
  {
    if k > 0 {
      ChainAvoidsCycle(vs, path, cyc, k - 1);
    }
    forall c | 0 <= c < |cyc| ensures path[k] != cyc[c] {
      var next := Next(cyc, c);
      assert next in cyc && next in vs;
      if k == 0 {
        assert FiledUnder(vs, cyc[c]);
      } else if path[k] == cyc[c] {
        IdDeterminesPost(vs, path[k - 1], next);
      }
    }
  }

  /** A post caught in a parent cycle is never reachable from a root. */
  lemma CycleUnreachable(vs: seq<Post>, cyc: seq<Post>, p: Post)
    requires DistinctIds(vs) && ParentCycle(vs, cyc) && p in cyc
    ensures !Reachable(vs, p)
  {
    forall path | Chain(vs, path) ensures Last(path) != p {
      ChainAvoidsCycle(vs, path, cyc, |path| - 1);
    }
  }

  /* ---------------- the depth-first walk ---------------- */

  /** The post elements of a thread in document order: the post, then its replies' threads. */
  function WalkThread(t: Thread, depth: nat): seq<Visit>
    decreases t
  {
    [Visit(t.post, depth)] + WalkForest(t.replies, depth + 1)
  }

  function WalkForest(ts: seq<Thread>, depth: nat): seq<Visit>
    decreases ts
  {
    if ts == [] then [] else WalkThread(ts[0], depth) + WalkForest(ts[1..], depth)
  }

  /** The post elements of the posts container, in document order, with their nesting depth. */
  function Rendered(forest: seq<Thread>): seq<Visit> {
    WalkForest(forest, 0)
  }

  predicate VisitsDistinct(w: seq<Visit>) {
    forall i, j | 0 <= i < j < |w| :: w[i].post != w[j].post
  }

  /** Every thread of `ts` hangs below `path` and is assembled. */
  predicate HangBelow(vs: seq<Post>, path: seq<Post>, ts: seq<Thread>) {
    forall i | 0 <= i < |ts| :: Chain(vs, path + [ts[i].post]) && WellFormed(vs, ts[i])
  }

  /** The visit is of a post whose chain extends `path`, at the depth of its number of ancestors. */
  ghost predicate Below(vs: seq<Post>, path: seq<Post>, v: Visit) {
    exists q :: (Chain(vs, q) && Last(q) == v.post && |q| == v.depth + 1
                 && |q| >= |path| && q[..|path|] == path)
  }

  lemma HangBelowTail(vs: seq<Post>, path: seq<Post>, ts: seq<Thread>)
    requires HangBelow(vs, path, ts) && ts != []
    ensures HangBelow(vs, path, ts[1..])
  {
    forall i | 0 <= i < |ts| - 1 ensures Chain(vs, path + [ts[1..][i].post]) && WellFormed(vs, ts[1..][i]) {
      assert ts[1..][i] == ts[i + 1];
    }
  }

  lemma ReplyHangsBelow(vs: seq<Post>, path: seq<Post>, t: Thread)
    requires DistinctIds(vs) && Chain(vs, path) && Last(path) == t.post && WellFormed(vs, t)
    ensures HangBelow(vs, path, t.replies)
    ensures forall i, j | 0 <= i < j < |t.replies| :: t.replies[i].post != t.replies[j].post
  {
    ChildrenInMembers(vs, vs, t.post.id);
    var kids := SortOldestFirst(ChildrenOf(vs, t.post.id));
    forall i | 0 <= i < |t.replies| ensures Chain(vs, path + [t.replies[i].post]) {
      assert t.replies[i].post == kids[i];
      ChainExtend(vs, path, kids[i]);
    }
    forall i, j | 0 <= i < j < |t.replies| ensures t.replies[i].post != t.replies[j].post {
      assert kids[i].id != kids[j].id;
    }
  }

  lemma {:induction false} ThreadSound(vs: seq<Post>, t: Thread, path: seq<Post>)
    requires DistinctIds(vs) && Chain(vs, path) && Last(path) == t.post && WellFormed(vs, t)
    ensures forall v | v in WalkThread(t, |path| - 1) :: Below(vs, path, v)
    decreases t
  {
    ReplyHangsBelow(vs, path, t);
    ForestSound(vs, t.replies, path);
    forall v | v in WalkThread(t, |path| - 1) ensures Below(vs, path, v) {
      if v == Visit(t.post, |path| - 1) {
        assert path[..|path|] == path;
      } else {
        assert v in WalkForest(t.replies, |path|);
        var i :| 0 <= i < |t.replies| && Below(vs, path + [t.replies[i].post], v);
        BelowPrefix(vs, path, t.replies[i].post, v);
      }
    }
  }

  lemma BelowPrefix(vs: seq<Post>, path: seq<Post>, p: Post, v: Visit)
    requires Below(vs, path + [p], v)
    ensures Below(vs, path, v)
  {
    var q :| Chain(vs, q) && Last(q) == v.post && |q| == v.depth + 1 && |q| >= |path| + 1 && q[..|path| + 1] == path + [p];
    assert q[..|path|] == (path + [p])[..|path|] == path;
  }

  lemma {:induction false} ForestSound(vs: seq<Post>, ts: seq<Thread>, path: seq<Post>)
    requires DistinctIds(vs) && HangBelow(vs, path, ts)
    ensures forall v | v in WalkForest(ts, |path|) ::
      exists i :: 0 <= i < |ts| && Below(vs, path + [ts[i].post], v)
    decreases ts
  {
    if ts != [] {
      var head := path + [ts[0].post];
      assert |head| - 1 == |path|;
      ThreadSound(vs, ts[0], head);
      HangBelowTail(vs, path, ts);
      ForestSound(vs, ts[1..], path);
      forall v | v in WalkForest(ts, |path|) ensures exists i :: 0 <= i < |ts| && Below(vs, path + [ts[i].post], v) {
        if v in WalkThread(ts[0], |path|) {
          assert Below(vs, path + [ts[0].post], v);
        } else {
          assert v in WalkForest(ts[1..], |path|);
          var k :| 0 <= k < |ts[1..]| && Below(vs, path + [ts[1..][k].post], v);
          assert ts[1..][k] == ts[k + 1];
        }
      }
    }
  }

  lemma DistinctConcat(a: seq<Visit>, b: seq<Visit>)
    requires VisitsDistinct(a) && VisitsDistinct(b)
    requires forall x, y | x in a && y in b :: x.post != y.post
    ensures VisitsDistinct(a + b)
  {
    var r := a + b;
    forall i, j | 0 <= i < j < |r| ensures r[i].post != r[j].post {
      if i < |a| && |a| <= j {
        assert r[i] in a && r[j] in b;
      } else if |a| <= i {
        assert r[i] == b[i - |a|] && r[j] == b[j - |a|];
      }
    }
  }

  /** Visits below different children of the same chain are of different posts. */
  lemma BelowApart(vs: seq<Post>, path: seq<Post>, a: Post, b: Post, x: Visit, y: Visit)
    requires DistinctIds(vs) && a != b
    requires Below(vs, path + [a], x) && Below(vs, path + [b], y)
    ensures x.post != y.post
  {
    var q1 :| Chain(vs, q1) && Last(q1) == x.post && |q1| == x.depth + 1 && |q1| >= |path| + 1 && q1[..|path| + 1] == path + [a];
    var q2 :| Chain(vs, q2) && Last(q2) == y.post && |q2| == y.depth + 1 && |q2| >= |path| + 1 && q2[..|path| + 1] == path + [b];
    assert q1[|path|] == (path + [a])[|path|] == a;
    assert q2[|path|] == (path + [b])[|path|] == b;
    ChainUnique(vs, q1, q2);
  }

  /** No visit below a post's replies is of the post itself. */
  lemma RepliesAvoidRoot(vs: seq<Post>, t: Thread, path: seq<Post>)
    requires DistinctIds(vs) && Chain(vs, path) && Last(path) == t.post && HangBelow(vs, path, t.replies)
    ensures forall y | y in WalkForest(t.replies, |path|) :: y.post != t.post
  {
    ForestSound(vs, t.replies, path);
    forall y | y in WalkForest(t.replies, |path|) ensures y.post != t.post {
      var i :| 0 <= i < |t.replies| && Below(vs, path + [t.replies[i].post], y);
      var q :| Chain(vs, q) && Last(q) == y.post && |q| == y.depth + 1 && |q| >= |path| + 1;
      ChainUnique(vs, q, path);
    }
  }

  lemma {:induction false} ThreadDistinct(vs: seq<Post>, t: Thread, path: seq<Post>)
    requires DistinctIds(vs) && Chain(vs, path) && Last(path) == t.post && WellFormed(vs, t)
    ensures VisitsDistinct(WalkThread(t, |path| - 1))
    decreases t
  {
    ReplyHangsBelow(vs, path, t);
    ForestDistinct(vs, t.replies, path);
    RepliesAvoidRoot(vs, t, path);
    DistinctConcat([Visit(t.post, |path| - 1)], WalkForest(t.replies, |path|));
  }

  lemma {:induction false} ForestDistinct(vs: seq<Post>, ts: seq<Thread>, path: seq<Post>)
    requires DistinctIds(vs) && HangBelow(vs, path, ts)
    requires forall i, j | 0 <= i < j < |ts| :: ts[i].post != ts[j].post
    ensures VisitsDistinct(WalkForest(ts, |path|))
    decreases ts
  {
    if ts != [] {
      var head := path + [ts[0].post];
      var rest := ts[1..];
      HangBelowTail(vs, path, ts);
      assert forall i, j | 0 <= i < j < |rest| :: rest[i].post != rest[j].post by {
        forall i, j | 0 <= i < j < |rest| ensures rest[i].post != rest[j].post {
          assert rest[i] == ts[i + 1] && rest[j] == ts[j + 1];
        }
      }
      assert |head| - 1 == |path|;
      ThreadDistinct(vs, ts[0], head);
      ThreadSound(vs, ts[0], head);
      ForestDistinct(vs, rest, path);
      ForestSound(vs, rest, path);
      var first, others := WalkThread(ts[0], |path|), WalkForest(rest, |path|);
      forall x, y | x in first && y in others ensures x.post != y.post {
        var k :| 0 <= k < |rest| && Below(vs, path + [rest[k].post], y);
        assert rest[k] == ts[k + 1];
        BelowApart(vs, path, ts[0].post, rest[k].post, x, y);
      }
      DistinctConcat(first, others);
    }
  }

  lemma {:induction false} WalkForestContains(ts: seq<Thread>, i: nat, depth: nat)
    requires i < |ts|
    ensures forall v | v in WalkThread(ts[i], depth) :: v in WalkForest(ts, depth)
    decreases i
  {
    if i > 0 {
      WalkForestContains(ts[1..], i - 1, depth);
      assert ts[1..][i - 1] == ts[i];
    }
  }

  lemma {:induction false} ChainBelow(vs: seq<Post>, t: Thread, path: seq<Post>, k: nat, depth: nat)
    requires Chain(vs, path) && k < |path| && t.post == path[k] && WellFormed(vs, t)
    ensures exists v :: v in WalkThread(t, depth) && v.post == Last(path) && v.depth == depth + |path| - 1 - k
    decreases |path| - k
  {
    if k == |path| - 1 {
      assert WalkThread(t, depth)[0] == Visit(t.post, depth);
    } else {
      var c := path[k + 1];
      ChildrenInMembers(vs, vs, t.post.id);
      assert c in ChildrenOf(vs, t.post.id);
      assert c in ThreadPosts(t.replies);
      var i :| 0 <= i < |t.replies| && ThreadPosts(t.replies)[i] == c;
      ChainBelow(vs, t.replies[i], path, k + 1, depth + 1);
      WalkForestContains(t.replies, i, depth + 1);
    }
  }

  /** The roots of an assembly hang below the empty chain, each once. */
  lemma RootsHang(vs: seq<Post>, forest: seq<Thread>)
    requires DistinctIds(vs) && IsAssembly(vs, forest)
    ensures HangBelow(vs, [], forest)
    ensures forall i, j | 0 <= i < j < |forest| :: forest[i].post != forest[j].post
  {
    TopLevelInMembers(vs, vs);
    var roots := SortNewestFirst(TopLevel(vs));
    forall i | 0 <= i < |forest| ensures Chain(vs, [] + [forest[i].post]) {
      assert forest[i].post == roots[i];
      assert [] + [forest[i].post] == [forest[i].post];
    }
    forall i, j | 0 <= i < j < |forest| ensures forest[i].post != forest[j].post {
      assert forest[i].post == roots[i] && forest[j].post == roots[j];
    }
  }

  /** Every post element is of a loaded post, at the depth of its number of ancestors; none repeats. */
  lemma RenderedSound(vs: seq<Post>, forest: seq<Thread>)
    requires DistinctIds(vs) && IsAssembly(vs, forest)
    ensures VisitsDistinct(Rendered(forest))
    ensures forall v | v in Rendered(forest) ::
      v.post in vs && exists q :: Chain(vs, q) && Last(q) == v.post && v.depth == |q| - 1
  {
    RootsHang(vs, forest);
    ForestDistinct(vs, forest, []);
    ForestSound(vs, forest, []);
    forall v | v in Rendered(forest)
      ensures v.post in vs && exists q :: Chain(vs, q) && Last(q) == v.post && v.depth == |q| - 1
    {
      var i :| 0 <= i < |forest| && Below(vs, [] + [forest[i].post], v);
      var q :| Chain(vs, q) && Last(q) == v.post && |q| == v.depth + 1;
      assert Last(q) in vs;
    }
  }

  /** Every post reachable from a root gets a post element. */
  lemma RenderedComplete(vs: seq<Post>, forest: seq<Thread>, p: Post)
    requires DistinctIds(vs) && IsAssembly(vs, forest) && Reachable(vs, p)
    ensures exists v :: v in Rendered(forest) && v.post == p
  {
    TopLevelInMembers(vs, vs);
    var q :| Chain(vs, q) && Last(q) == p;
    assert q[0] in SortNewestFirst(TopLevel(vs));
    var i :| 0 <= i < |forest| && ThreadPosts(forest)[i] == q[0];
    ChainBelow(vs, forest[i], q, 0, 0);
    WalkForestContains(forest, i, 0);
  }

  /**
   * The depth-first walk renders each post reachable from a root exactly
   * once, at the depth of its number of ancestors, and nothing else.
   */
  lemma RenderedExactlyReachable(vs: seq<Post>, forest: seq<Thread>)
    requires DistinctIds(vs) && IsAssembly(vs, forest)
    ensures VisitsDistinct(Rendered(forest))
    ensures forall v | v in Rendered(forest) ::
      v.post in vs && exists q :: Chain(vs, q) && Last(q) == v.post && v.depth == |q| - 1
    ensures forall p :: Reachable(vs, p) <==> exists v :: v in Rendered(forest) && v.post == p
  {
    RenderedSound(vs, forest);
    forall p ensures Reachable(vs, p) ==> exists v :: v in Rendered(forest) && v.post == p {
      if Reachable(vs, p) {
        RenderedComplete(vs, forest, p);
      }
    }
  }

  /** Posts caught in a parent cycle are never rendered. */
  lemma CycleNeverRendered(vs: seq<Post>, forest: seq<Thread>, cyc: seq<Post>)
    requires DistinctIds(vs) && IsAssembly(vs, forest) && ParentCycle(vs, cyc)
    ensures forall v | v in Rendered(forest) :: v.post !in cyc
  {
    RenderedSound(vs, forest);
    forall v | v in Rendered(forest) ensures v.post !in cyc {
      var q :| Chain(vs, q) && Last(q) == v.post;
      ChainAvoidsCycle(vs, q, cyc, |q| - 1);
    }
  }

  /* ---------------- renderBoardPosts ---------------- */

  /** Stepping down to the `i`-th sorted child extends the chain and leaves fewer posts unvisited. */
  lemma KidDescend(vs: seq<Post>, children: map<nat, seq<Post>>, path: seq<Post>, kids: seq<Post>, i: nat)
    requires DistinctIds(vs) && Chain(vs, path)
    requires forall q | q in vs :: q.id in children && children[q.id] == ChildrenOf(vs, q.id)
    requires Last(path).id in children && kids == SortOldestFirst(children[Last(path).id]) && i < |kids|
    ensures Chain(vs, path + [kids[i]]) && Last(path + [kids[i]]) == kids[i]
    ensures Unvisited(vs, path + [kids[i]]) < Unvisited(vs, path)
  {
    var c := kids[i];
    assert Last(path) in vs;
    assert c in children[Last(path).id];
    ChainExtend(vs, path, c);
    assert c in Unvisited(vs, path) && c !in Unvisited(vs, path + [c]);
  }

  /**
   * The recursive `appendPostAndChildren(post, container)`: sorts the
   * post's children oldest first and renders each of them below it.
   * `path` is the chain of ancestors the recursion has come down.
   */
  method AppendPostAndChildren(post: Post, children: map<nat, seq<Post>>, ghost vs: seq<Post>, ghost path: seq<Post>)
    returns (t: Thread)
    requires DistinctIds(vs)
    requires forall q | q in vs :: q.id in children && children[q.id] == ChildrenOf(vs, q.id)
    requires Chain(vs, path) && Last(path) == post
    ensures t.post == post && WellFormed(vs, t)
    decreases Unvisited(vs, path)
  {
    assert post in vs;
    var kids := SortOldestFirst(children[post.id]);
    var replies: seq<Thread> := [];
    for i := 0 to |kids|
      invariant |replies| == i
      invariant forall j | 0 <= j < i :: replies[j].post == kids[j] && WellFormed(vs, replies[j])
    {
      var kid := kids[i];
      KidDescend(vs, children, path, kids, i);
      var sub := AppendPostAndChildren(kid, children, vs, path + [kid]);
      RepliesSnoc(vs, replies, sub, kids, i);
      replies := replies + [sub];
    }
    t := Thread(post, replies);
    NodeWellFormed(vs, t, kids);
  }

  /** Appending a well-formed subtree for the next child keeps the replies built so far in step with the children. */
  lemma RepliesSnoc(vs: seq<Post>, replies: seq<Thread>, sub: Thread, kids: seq<Post>, i: nat)
    requires i < |kids| && |replies| == i && sub.post == kids[i] && WellFormed(vs, sub)
    requires forall j | 0 <= j < i :: replies[j].post == kids[j] && WellFormed(vs, replies[j])
    ensures forall j | 0 <= j < i + 1 :: (replies + [sub])[j].post == kids[j] && WellFormed(vs, (replies + [sub])[j])
  {
    forall j | 0 <= j < i + 1 ensures (replies + [sub])[j].post == kids[j] && WellFormed(vs, (replies + [sub])[j]) {
      if j < i {
        assert (replies + [sub])[j] == replies[j];
      } else {
        assert (replies + [sub])[j] == sub;
      }
    }
  }

  /** A node whose replies are its sorted children, each well formed, is well formed. */
  lemma NodeWellFormed(vs: seq<Post>, t: Thread, kids: seq<Post>)
    requires kids == SortOldestFirst(ChildrenOf(vs, t.post.id)) && |t.replies| == |kids|
    requires forall j | 0 <= j < |kids| :: t.replies[j].post == kids[j] && WellFormed(vs, t.replies[j])
    ensures WellFormed(vs, t)
  {
    assert ThreadPosts(t.replies) == kids;
  }

  /** `keys` is a map's iteration order and `m` its contents, for the entries `e`. */
  predicate IndexOf(keys: seq<nat>, m: map<nat, Post>, e: seq<Post>) {
    && |keys| == |e|
    && m.Keys == Ids(e)
    && forall j {:trigger keys[j]} | 0 <= j < |keys| :: keys[j] == e[j].id && keys[j] in m && m[keys[j]] == e[j]
  }

  /** Setting a key already present keeps its place and overwrites its value. */
  lemma IndexReplace(keys: seq<nat>, m: map<nat, Post>, e: seq<Post>, x: Post)
    requires IndexOf(keys, m, e) && x.id in m
    ensures IndexOf(keys, m[x.id := x], Replace(e, x))
  {
    var r := Replace(e, x);
    IdsPointwise(e, r);
    assert m[x.id := x].Keys == m.Keys;
  }

  /** Setting a new key appends it to the iteration order. */
  lemma IndexAppend(keys: seq<nat>, m: map<nat, Post>, e: seq<Post>, x: Post)
    requires IndexOf(keys, m, e) && x.id !in m
    ensures IndexOf(keys + [x.id], m[x.id := x], e + [x])
  {
    IdsSnoc(e, x);
    var k, m', e' := keys + [x.id], m[x.id := x], e + [x];
    forall j | 0 <= j < |k| ensures k[j] == e'[j].id && k[j] in m' && m'[k[j]] == e'[j] {
      if j < |keys| {
        assert k[j] == keys[j] && e'[j] == e[j];
      }
    }
  }

  /** One `map.set(post.id, post)` keeps the key order and contents equal to the reference entries. */
  lemma IndexStep(s: seq<Post>, x: Post, keys: seq<nat>, m: map<nat, Post>)
    requires IndexOf(keys, m, MapEntries(s))
    ensures IndexOf(if x.id in m then keys else keys + [x.id], m[x.id := x], MapEntries(s + [x]))
  {
    var e := MapEntries(s);
    assert (s + [x])[..|s|] == s;
    if x.id in m {
      assert MapEntries(s + [x]) == Replace(e, x);
      IndexReplace(keys, m, e, x);
    } else {
      assert MapEntries(s + [x]) == e + [x];
      IndexAppend(keys, m, e, x);
    }
  }

  /**
   * `new Map(allPosts.map(post => [post.id, { ...post, children: [] }]))`:
   * `keys` is the map's iteration order and `postsMap` its contents.
   */
  method IndexById(allPosts: seq<Post>) returns (keys: seq<nat>, postsMap: map<nat, Post>)
    ensures IndexOf(keys, postsMap, MapEntries(allPosts))
  {
    keys := [];
    postsMap := map[];
    for i := 0 to |allPosts|
      invariant IndexOf(keys, postsMap, MapEntries(allPosts[..i]))
    {
      var post := allPosts[i];
      assert allPosts[..i + 1] == allPosts[..i] + [post];
      IndexStep(allPosts[..i], post, keys, postsMap);
      if post.id !in postsMap {
        keys := keys + [post.id];
      }
      postsMap := postsMap[post.id := post];
    }
    assert allPosts[..|allPosts|] == allPosts;
  }

  /**
   * The hierarchy pass of `renderBoardPosts`: each post with a truthy
   * `parentId` found in the map is pushed onto its parent's children, every
   * other post onto `topLevelPosts`.
   */
  method LinkChildren(keys: seq<nat>, postsMap: map<nat, Post>, ghost vs: seq<Post>)
    returns (children: map<nat, seq<Post>>, topLevelPosts: seq<Post>)
    requires IndexOf(keys, postsMap, vs)
    ensures children.Keys == postsMap.Keys
    ensures topLevelPosts == TopLevel(vs)
    ensures forall k | k in children :: children[k] == ChildrenOf(vs, k)
  {
    children := map k | k in postsMap.Keys :: [];
    topLevelPosts := [];
    for i := 0 to |keys|
      invariant children.Keys == postsMap.Keys
      invariant topLevelPosts == TopLevelIn(vs, vs[..i])
      invariant forall k | k in children :: children[k] == ChildrenIn(vs, vs[..i], k)
    {
      var post := postsMap[keys[i]];
      assert post == vs[i];
      PrefixSnoc(vs, i);
      LinkSnoc(vs, vs[..i], vs[i], vs[..i + 1], children, topLevelPosts);
      if post.parentId.Some? && post.parentId.value != 0 {
        var parentKey := post.parentId.value;
        if parentKey in postsMap {
          children := children[parentKey := children[parentKey] + [post]];
        } else {
          // the parent is not on the board (deleted): shown as a thread of its own
          topLevelPosts := topLevelPosts + [post];
        }
      } else {
        topLevelPosts := topLevelPosts + [post];
      }
    }
    assert vs[..|keys|] == vs;
  }

  lemma PrefixSnoc(vs: seq<Post>, i: nat)
    requires i < |vs|
    ensures vs[..i + 1] == vs[..i] + [vs[i]]
  {
  }

  lemma LinkSnoc(vs: seq<Post>, s: seq<Post>, post: Post, s': seq<Post>, children: map<nat, seq<Post>>, top: seq<Post>)
    requires s' == s + [post]
    requires children.Keys == Ids(vs) && top == TopLevelIn(vs, s)
    requires forall k | k in children :: children[k] == ChildrenIn(vs, s, k)
    ensures FiledUnder(vs, post) <==> HasParentRef(post) && post.parentId.value in children
    ensures FiledUnder(vs, post) ==> (top == TopLevelIn(vs, s')
      && var c := children[post.parentId.value := children[post.parentId.value] + [post]];
        forall k | k in c :: c[k] == ChildrenIn(vs, s', k))
    ensures !FiledUnder(vs, post) ==> (top + [post] == TopLevelIn(vs, s')
      && forall k | k in children :: children[k] == ChildrenIn(vs, s', k))
  {
    PartitionStep(vs, s, post);
  }

  /** Every map entry has its children list. */
  lemma ChildrenCoverEntries(vs: seq<Post>, children: map<nat, seq<Post>>)
    requires children.Keys == Ids(vs)
    requires forall k | k in children :: children[k] == ChildrenOf(vs, k)
    ensures forall q | q in vs :: q.id in children && children[q.id] == ChildrenOf(vs, q.id)
  {
    forall q | q in vs ensures q.id in Ids(vs) { }
  }

  /** Each root, on its own, is a parent chain. */
  lemma RootsStartChains(vs: seq<Post>, roots: seq<Post>)
    requires forall p :: p in roots <==> p in TopLevel(vs)
    ensures forall j | 0 <= j < |roots| :: Chain(vs, [roots[j]])
  {
    TopLevelInMembers(vs, vs);
    forall j | 0 <= j < |roots| ensures Chain(vs, [roots[j]]) {
      assert roots[j] in TopLevel(vs);
    }
  }

  /**
   * `for (const post of topLevelPosts) { appendPostAndChildren(post, postsContainer); }`
   * over the roots already sorted newest first: one thread per root, in the order given.
   */
  method AppendRoots(roots: seq<Post>, children: map<nat, seq<Post>>, ghost vs: seq<Post>)
    returns (forest: seq<Thread>)
    requires DistinctIds(vs)
    requires forall q | q in vs :: q.id in children && children[q.id] == ChildrenOf(vs, q.id)
    requires forall j | 0 <= j < |roots| :: Chain(vs, [roots[j]])
    ensures ThreadPosts(forest) == roots
    ensures forall j | 0 <= j < |forest| :: WellFormed(vs, forest[j])
  {
    forest := [];
    for i := 0 to |roots|
      invariant |forest| == i
      invariant forall j | 0 <= j < i :: forest[j].post == roots[j] && WellFormed(vs, forest[j])
    {
      var t := AppendPostAndChildren(roots[i], children, vs, [roots[i]]);
      forest := forest + [t];
    }
    assert ThreadPosts(forest) == roots;
  }

  /** `renderBoardPosts(allPosts)`: the forest the posts container ends up holding. */
  method RenderBoardPosts(allPosts: seq<Post>) returns (forest: seq<Thread>)
    ensures IsAssembly(MapEntries(allPosts), forest)
  {
    var keys, postsMap := IndexById(allPosts);
    ghost var vs := MapEntries(allPosts);
    var children, topLevelPosts := LinkChildren(keys, postsMap, vs);
    topLevelPosts := SortNewestFirst(topLevelPosts);
    ChildrenCoverEntries(vs, children);
    RootsStartChains(vs, topLevelPosts);
    forest := AppendRoots(topLevelPosts, children, vs);
  }
}
