/**
 * The discussion decorator: every discussion (a forum category) gains the
 * number of live posts in its threads and, when there is one, its most
 * recently updated post together with that post's author and the author's
 * access level.
 *
 * Discussions are entity objects updated in place, so they are modelled as
 * objects whose fields the decorator assigns. Both queries join the posts
 * with the threads on `thread_id`; only the post's `deleted_at` is checked.
 */
module DiscussionDecorator {
  import opened Entities
  import opened Collections

  /** What `latest_post` holds. */
  datatype LatestPost = LatestPost(
    id: int,
    createdAt: int,
    threadTitle: string,
    authorId: int,
    authorDisplayName: string,
    authorAvatarUrl: string)

  class Discussion {
    const id: int
    var postCount: Option<nat>
    var latestPost: Option<LatestPost>
    var accessLevel: Option<string>

    constructor(id: int)
      ensures this.id == id && postCount.None? && latestPost.None? && accessLevel.None?
    {
      this.id := id;
      postCount := None;
      latestPost := None;
      accessLevel := None;
    }
  }

  /** A row of the join of posts with threads. */
  datatype JoinRow = JoinRow(post: Post, thread: Thread)

  /** A thread the post joins with that lies in category `categoryId`. */
  function JoinsIn(p: Post, categoryId: int): Thread -> bool {
    (t: Thread) => t.id == p.threadId && t.categoryId == categoryId
  }

  /** The join rows of one post: none if it is deleted, else one per matching thread. */
  function RowsOfPost(p: Post, threads: seq<Thread>, categoryId: int): (r: seq<JoinRow>)
    ensures forall x :: x in r ==> x.post == p && x.post.deletedAt.None? && x.thread in threads && JoinsIn(p, categoryId)(x.thread)
  {
    if p.deletedAt.Some? then []
    else
      var matching := Filter(threads, JoinsIn(p, categoryId));
      seq(|matching|, i requires 0 <= i < |matching| => JoinRow(p, matching[i]))
  }

  /** `posts p join threads t on t.id = p.thread_id where p.deleted_at is null and t.category_id = ?`. */
  function JoinRows(posts: seq<Post>, threads: seq<Thread>, categoryId: int): seq<JoinRow> {
    if posts == [] then [] else RowsOfPost(posts[0], threads, categoryId) + JoinRows(posts[1..], threads, categoryId)
  }

  /** Every joined row pairs a live post of the table with a thread of the category it belongs to. */
  lemma {:induction false} JoinRowsQualify(posts: seq<Post>, threads: seq<Thread>, categoryId: int)
    ensures forall x :: x in JoinRows(posts, threads, categoryId) ==>
      && x.post in posts && x.post.deletedAt.None?
      && x.thread in threads && x.thread.id == x.post.threadId && x.thread.categoryId == categoryId
  {
    if posts != [] {
      JoinRowsQualify(posts[1..], threads, categoryId);
      assert forall p :: p in posts[1..] ==> p in posts;
    }
  }

  /** Every live post of a thread of the category is joined. */
  lemma {:induction false} JoinRowsComplete(posts: seq<Post>, threads: seq<Thread>, categoryId: int, p: Post, t: Thread)
    requires p in posts && p.deletedAt.None?
    requires t in threads && t.id == p.threadId && t.categoryId == categoryId
    ensures JoinRow(p, t) in JoinRows(posts, threads, categoryId)
  {
    if posts[0] == p {
      var matching := Filter(threads, JoinsIn(p, categoryId));
      var k :| 0 <= k < |matching| && matching[k] == t;
      assert RowsOfPost(p, threads, categoryId)[k] == JoinRow(p, t);
    } else {
      JoinRowsComplete(posts[1..], threads, categoryId, p, t);
    }
  }

  /** `post_count`: the number of joined rows. */
  function PostCount(posts: seq<Post>, threads: seq<Thread>, categoryId: int): nat {
    |JoinRows(posts, threads, categoryId)|
  }

  /** A live post whose thread lies in category `categoryId`. */
  function InCategory(threads: seq<Thread>, categoryId: int): Post -> bool {
    (p: Post) => p.deletedAt.None? && Count(threads, JoinsIn(p, categoryId)) > 0
  }

  /**
   * With unique thread ids each post joins at most one thread, so
   * `post_count` is the number of live posts in the category's threads.
   */
  lemma {:induction false} PostCountCountsCategoryPosts(posts: seq<Post>, threads: seq<Thread>, categoryId: int)
    requires UniqueThreadIds(threads)
    ensures PostCount(posts, threads, categoryId) == Count(posts, InCategory(threads, categoryId))
  {
    if posts != [] {
      var p := posts[0];
      PostCountCountsCategoryPosts(posts[1..], threads, categoryId);
      assert AtMostOne(threads, JoinsIn(p, categoryId));
      AtMostOneCount(threads, JoinsIn(p, categoryId));
    }
  }

  /** `a` comes before `b` in `order by p.updated_at desc`, ties going to the larger post id. */
  predicate Later(a: JoinRow, b: JoinRow) {
    a.post.updatedAt > b.post.updatedAt || (a.post.updatedAt == b.post.updatedAt && a.post.id > b.post.id)
  }

  /** `limit 1`: the first row of the ordered join, if any. */
  function Latest(rows: seq<JoinRow>): (r: Option<JoinRow>)
    ensures r.None? <==> rows == []
    ensures r.Some? ==> r.value in rows
    ensures r.Some? ==> forall x :: x in rows ==> x.post.updatedAt <= r.value.post.updatedAt
  {
    if rows == [] then None
    else
      match Latest(rows[1..])
      case None => Some(rows[0])
      case Some(b) => Some(if Later(rows[0], b) then rows[0] else b)
  }

  /** The `latest_post` fields of a joined row; the author comes from the identity provider. */
  function LatestPostOf(row: JoinRow, userOf: int -> User, defaultAvatarUrl: string): LatestPost {
    var user := userOf(row.post.authorId);
    LatestPost(row.post.id, row.post.updatedAt, row.thread.title, row.post.authorId, user.displayName, AvatarUrl(user, defaultAvatarUrl))
  }

  /**
   * The latest post of a category exists iff its post count is positive;
   * it is a live post of one of its threads updated no earlier than any
   * other such post, and `created_at` is that post's `updated_at`.
   */
  lemma LatestIsNewestCategoryPost(posts: seq<Post>, threads: seq<Thread>, categoryId: int, userOf: int -> User, defaultAvatarUrl: string)
    ensures var l := Latest(JoinRows(posts, threads, categoryId));
      && (l.Some? <==> PostCount(posts, threads, categoryId) > 0)
      && (l.Some? ==>
            var lp := LatestPostOf(l.value, userOf, defaultAvatarUrl);
            && l.value.post in posts && l.value.post.deletedAt.None?
            && l.value.thread in threads && l.value.thread.id == l.value.post.threadId && l.value.thread.categoryId == categoryId
            && lp.id == l.value.post.id && lp.createdAt == l.value.post.updatedAt && lp.threadTitle == l.value.thread.title
            && lp.authorId == l.value.post.authorId && lp.authorDisplayName == userOf(lp.authorId).displayName
            && lp.authorAvatarUrl == AvatarUrl(userOf(lp.authorId), defaultAvatarUrl)
            && (forall p, t :: p in posts && p.deletedAt.None? && t in threads && t.id == p.threadId && t.categoryId == categoryId
                  ==> p.updatedAt <= lp.createdAt))
  {
    var rows := JoinRows(posts, threads, categoryId);
    JoinRowsQualify(posts, threads, categoryId);
    var l := Latest(rows);
    if l.Some? {
      forall p, t | p in posts && p.deletedAt.None? && t in threads && t.id == p.threadId && t.categoryId == categoryId
        ensures p.updatedAt <= l.value.post.updatedAt
      {
        JoinRowsComplete(posts, threads, categoryId, p, t);
      }
    }
  }

  /** `latest_post` after decoration: the category's latest post, else what the discussion held. */
  function NewLatestPost(posts: seq<Post>, threads: seq<Thread>, categoryId: int, userOf: int -> User, defaultAvatarUrl: string,
                         held: Option<LatestPost>): Option<LatestPost> {
    match Latest(JoinRows(posts, threads, categoryId))
    case Some(row) => Some(LatestPostOf(row, userOf, defaultAvatarUrl))
    case None => held
  }

  /** `access_level` after decoration: that of the latest post's author, else what the discussion held. */
  function NewAccessLevel(posts: seq<Post>, threads: seq<Thread>, categoryId: int, accessLevelOf: int -> string,
                          held: Option<string>): Option<string> {
    match Latest(JoinRows(posts, threads, categoryId))
    case Some(row) => Some(accessLevelOf(row.post.authorId))
    case None => held
  }

  /** A discussion decorated from what it held before: `held` and `heldAccess`. */
  ghost predicate DecoratedFrom(d: Discussion, posts: seq<Post>, threads: seq<Thread>, userOf: int -> User, accessLevelOf: int -> string,
                                defaultAvatarUrl: string, held: Option<LatestPost>, heldAccess: Option<string>)
    reads d
  {
    && d.postCount == Some(PostCount(posts, threads, d.id))
    && d.latestPost == NewLatestPost(posts, threads, d.id, userOf, defaultAvatarUrl, held)
    && d.accessLevel == NewAccessLevel(posts, threads, d.id, accessLevelOf, heldAccess)
  }

  /** The loop body for one discussion: the two queries and the assignments. */
  method DecorateOne(discussion: Discussion, posts: seq<Post>, threads: seq<Thread>,
                     userOf: int -> User, accessLevelOf: int -> string, defaultAvatarUrl: string)
    modifies discussion
    ensures DecoratedFrom(discussion, posts, threads, userOf, accessLevelOf, defaultAvatarUrl, old(discussion.latestPost), old(discussion.accessLevel))
  {
    var rows := JoinRows(posts, threads, discussion.id);
    discussion.postCount := Some(|rows|);
    var latest := Latest(rows);
    if latest.Some? {
      var row := latest.value;
      discussion.latestPost := Some(LatestPostOf(row, userOf, defaultAvatarUrl));
      discussion.accessLevel := Some(accessLevelOf(row.post.authorId));
    }
  }

  /** Decorating a decorated discussion again leaves it as it is. */
  lemma DecorateAgain(d: Discussion, posts: seq<Post>, threads: seq<Thread>, userOf: int -> User, accessLevelOf: int -> string,
                      defaultAvatarUrl: string, held: Option<LatestPost>, heldAccess: Option<string>,
                      again: Option<LatestPost>, againAccess: Option<string>)
    requires again == NewLatestPost(posts, threads, d.id, userOf, defaultAvatarUrl, held)
    requires againAccess == NewAccessLevel(posts, threads, d.id, accessLevelOf, heldAccess)
    ensures NewLatestPost(posts, threads, d.id, userOf, defaultAvatarUrl, again) == again
    ensures NewAccessLevel(posts, threads, d.id, accessLevelOf, againAccess) == againAccess
  {
  }

  /**
   * `decorate`: each discussion gets its post count; a discussion with a
   * latest post also gets `latest_post` and the access level of that post's
   * author, and otherwise keeps whatever it held. A discussion listed twice
   * is decorated twice, to the same values.
   */
  method Decorate(discussions: seq<Discussion>, posts: seq<Post>, threads: seq<Thread>,
                  userOf: int -> User, accessLevelOf: int -> string, defaultAvatarUrl: string)
    modifies set d | d in discussions
    ensures forall d :: d in discussions ==>
      DecoratedFrom(d, posts, threads, userOf, accessLevelOf, defaultAvatarUrl, old(d.latestPost), old(d.accessLevel))
  {
    ghost var done: set<Discussion> := {};
    for i := 0 to |discussions|
      invariant done == set j | 0 <= j < i :: discussions[j]
      invariant forall d :: d in done ==>
        DecoratedFrom(d, posts, threads, userOf, accessLevelOf, defaultAvatarUrl, old(d.latestPost), old(d.accessLevel))
      invariant forall d :: d in discussions && d !in done ==>
        d.latestPost == old(d.latestPost) && d.accessLevel == old(d.accessLevel)
    {
      var discussion := discussions[i];
      if discussion in done {
        DecorateAgain(discussion, posts, threads, userOf, accessLevelOf, defaultAvatarUrl,
          old(discussion.latestPost), old(discussion.accessLevel), discussion.latestPost, discussion.accessLevel);
      }
      DecorateOne(discussion, posts, threads, userOf, accessLevelOf, defaultAvatarUrl);
      done := done + {discussion};
    }
    assert forall d :: d in discussions ==> d in done;
  }
}
