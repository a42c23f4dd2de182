/**
 * The one persisted entity of the imageboard: a post, as stored in the
 * `posts` object store and as handed around by the page script.
 */
module Posts {
  import opened Wrappers
  import Sorting

  /** A media file chosen in a file input: its MIME type and its content. */
  datatype File = File(mimeType: string, bytes: seq<bv8>)

  datatype FileType = Image | Video

  /** Classification state of an attached link. */
  datatype LinkStatus = Pending | Safe | Malware | Porn | Error

  /**
   * A stored post. `None` stands for JavaScript `null` (or a missing
   * property on records written before a field existed).
   */
  datatype Post = Post(
    id: nat,
    boardName: string,
    file: Option<File>,
    fileType: Option<FileType>,
    comment: string,
    linkUrl: string,
    linkStatus: Option<LinkStatus>,
    linkReason: Option<string>,
    username: string,
    timestamp: int,
    parentId: Option<nat>)

  function IdOf(p: Post): nat { p.id }

  function Timestamp(p: Post): int { p.timestamp }

  function NegatedTimestamp(p: Post): int { -p.timestamp }

  function Ids(s: seq<Post>): set<nat> {
    set p | p in s :: p.id
  }

  /** No two posts of `s` share an id. */
  predicate DistinctIds(s: seq<Post>) {
    forall i, j | 0 <= i < j < |s| :: s[i].id != s[j].id
  }

  /** Timestamps never increase along `s`: newest first. */
  predicate NewestFirst(s: seq<Post>) {
    forall i, j | 0 <= i < j < |s| :: s[i].timestamp >= s[j].timestamp
  }

  /** Timestamps never decrease along `s`: oldest first. */
  predicate OldestFirst(s: seq<Post>) {
    forall i, j | 0 <= i < j < |s| :: s[i].timestamp <= s[j].timestamp
  }

  /** `posts.sort((a, b) => b.timestamp - a.timestamp)` */
  function SortNewestFirst(s: seq<Post>): (r: seq<Post>)
    ensures multiset(r) == multiset(s)
    ensures NewestFirst(r)
    ensures forall p :: p in r <==> p in s
    ensures DistinctIds(s) ==> DistinctIds(r)
  {
    var r := Sorting.Sort(s, NegatedTimestamp);
    Sorting.SortMembers(s, NegatedTimestamp);
    if DistinctIds(s) then
      assert Sorting.Injective(s, IdOf);
      Sorting.SortInjective(s, NegatedTimestamp, IdOf);
      r
    else
      r
  }

  /** `children.sort((a, b) => a.timestamp - b.timestamp)` */
  function SortOldestFirst(s: seq<Post>): (r: seq<Post>)
    ensures multiset(r) == multiset(s)
    ensures OldestFirst(r)
    ensures forall p :: p in r <==> p in s
    ensures DistinctIds(s) ==> DistinctIds(r)
  {
    var r := Sorting.Sort(s, Timestamp);
    Sorting.SortMembers(s, Timestamp);
    if DistinctIds(s) then
      assert Sorting.Injective(s, IdOf);
      Sorting.SortInjective(s, Timestamp, IdOf);
      r
    else
      r
  }

  /** The sort is stable: posts given in ascending id order keep that order among equal timestamps. */
  lemma NewestFirstStable(s: seq<Post>)
    requires forall i, j | 0 <= i < j < |s| :: s[i].id < s[j].id
    ensures forall i, j | 0 <= i < j < |SortNewestFirst(s)| ::
      SortNewestFirst(s)[i].timestamp > SortNewestFirst(s)[j].timestamp
      || (SortNewestFirst(s)[i].timestamp == SortNewestFirst(s)[j].timestamp && SortNewestFirst(s)[i].id < SortNewestFirst(s)[j].id)
  {
    Sorting.SortLex(s, NegatedTimestamp, IdOf);
  }

  /** Within a list of posts with distinct ids, the id determines the post. */
  lemma IdDeterminesPost(s: seq<Post>, p: Post, q: Post)
    requires DistinctIds(s) && p in s && q in s && p.id == q.id
    ensures p == q
  {
    var i :| 0 <= i < |s| && s[i] == p;
    var j :| 0 <= j < |s| && s[j] == q;
  }
}
