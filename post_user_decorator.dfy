/**
 * The post user decorator: the distinct author ids of a list of posts are
 * looked up once in each batch source (post counts, users, access levels,
 * XP, signatures, like counts), then every post gains a liked-by-viewer flag
 * and, when its author is known, an author block whose missing entries take
 * fixed defaults.
 *
 * The identity provider is a set of maps (users, access levels, XP) that a
 * batch call restricts to the requested ids; the posts, likes and
 * signatures tables are sequences of rows.
 */
module PostUserDecorator {
  import opened Entities
  import opened Collections

  /** A row of the user signatures table. */
  datatype Signature = Signature(userId: int, signature: string, brand: string)

  /** A user's experience points and their rank name. */
  datatype XpEntry = XpEntry(xp: int, xpRank: string)

  /**
   * What `getUsersXPAndRank` answers: an entry per user, and beside them one
   * `level_rank` key shared by the whole answer.
   */
  datatype XpAnswer = XpAnswer(perUser: map<int, XpEntry>, levelRank: Option<string>)

  /** The tables and the identity provider the decorator reads. */
  datatype Sources = Sources(
    postsTable: seq<Post>,
    likesTable: seq<PostLike>,
    signaturesTable: seq<Signature>,
    brand: string,
    directory: map<int, User>,
    accessLevels: map<int, string>,
    xp: XpAnswer,
    defaultAvatarUrl: string)

  /** A post row; `isLikedByViewer` is the optional `is_liked_by_viewer` column. */
  datatype PostRow = PostRow(post: Post, isLikedByViewer: Option<int>)

  datatype AuthorBlock = AuthorBlock(
    displayName: string,
    avatarUrl: string,
    totalPosts: nat,
    signature: Option<string>,
    accessLevel: Option<string>,
    xp: int,
    xpRank: Option<string>,
    totalPostLikes: nat,
    createdAt: int,
    levelRank: string)

  datatype DecoratedPost = DecoratedPost(post: Post, isLikedByViewer: bool, author: Option<AuthorBlock>)

  /** The maps built by the batch calls, keyed by user id. */
  datatype Lookups = Lookups(
    userPosts: map<int, nat>,
    users: map<int, User>,
    accessLevels: map<int, string>,
    xp: XpAnswer,
    signatures: map<int, string>,
    userLikes: map<int, nat>)

  const DEFAULT_LEVEL_RANK: string := "1.0"

  /** The plucked `author_id` column, de-duplicated. */
  function AuthorIds(rows: seq<PostRow>): seq<int> {
    Distinct(seq(|rows|, i requires 0 <= i < |rows| => rows[i].post.authorId))
  }

  /** The ids handed to every batch source are the distinct authors of the posts. */
  lemma AuthorIdsAreTheAuthors(rows: seq<PostRow>)
    ensures NoDuplicates(AuthorIds(rows))
    ensures forall a :: a in AuthorIds(rows) <==> exists i :: 0 <= i < |rows| && rows[i].post.authorId == a
  {
    var plucked := seq(|rows|, i requires 0 <= i < |rows| => rows[i].post.authorId);
    forall a ensures a in plucked <==> exists i :: 0 <= i < |rows| && rows[i].post.authorId == a {
      if exists i :: 0 <= i < |rows| && rows[i].post.authorId == a {
        var i :| 0 <= i < |rows| && rows[i].post.authorId == a;
        assert plucked[i] == a;
      }
    }
  }

  function AuthoredBy(a: int): Post -> bool {
    (p: Post) => p.authorId == a
  }

  function LikedBy(a: int): PostLike -> bool {
    (l: PostLike) => l.likerId == a
  }

  /**
   * A `COUNT ... GROUP BY author_id` over the posts of the requested
   * authors, every state and deleted row included: authors without posts
   * have no group.
   */
  function UserPosts(postsTable: seq<Post>, ids: set<int>): (m: map<int, nat>)
    ensures forall a :: a in m <==> a in ids && Count(postsTable, AuthoredBy(a)) > 0
    ensures forall a :: a in m ==> m[a] == Count(postsTable, AuthoredBy(a))
  {
    map a | a in ids && Count(postsTable, AuthoredBy(a)) > 0 :: Count(postsTable, AuthoredBy(a))
  }

  /** The like counts per liker, grouped like `UserPosts`. */
  function UserLikes(likesTable: seq<PostLike>, ids: set<int>): (m: map<int, nat>)
    ensures forall a :: a in m <==> a in ids && Count(likesTable, LikedBy(a)) > 0
    ensures forall a :: a in m ==> m[a] == Count(likesTable, LikedBy(a))
  {
    map a | a in ids && Count(likesTable, LikedBy(a)) > 0 :: Count(likesTable, LikedBy(a))
  }

  predicate SignatureOf(row: Signature, userId: int, brand: string) {
    row.userId == userId && row.brand == brand
  }

  /**
   * The signature `array_combine` keeps for `userId`: keys repeat when a
   * user has several rows for the brand, and the last row wins.
   */
  function LastSignature(rows: seq<Signature>, userId: int, brand: string): (r: Option<string>)
    ensures r.None? <==> forall i :: 0 <= i < |rows| ==> !SignatureOf(rows[i], userId, brand)
    ensures r.Some? ==> exists i :: (0 <= i < |rows| && SignatureOf(rows[i], userId, brand) && rows[i].signature == r.value
      && forall j :: i < j < |rows| ==> !SignatureOf(rows[j], userId, brand))
  {
    if rows == [] then None
    else
      var last := rows[|rows| - 1];
      if SignatureOf(last, userId, brand) then Some(last.signature)
      else
        var r := LastSignature(rows[..|rows| - 1], userId, brand);
        assert forall i :: 0 <= i < |rows| - 1 ==> rows[..|rows| - 1][i] == rows[i];
        r
  }

  /** The signatures of the requested users for the configured brand. */
  function UserSignatures(signaturesTable: seq<Signature>, brand: string, ids: set<int>): (m: map<int, string>)
    ensures forall a :: a in m <==> a in ids && LastSignature(signaturesTable, a, brand).Some?
    ensures forall a :: a in m ==> m[a] == LastSignature(signaturesTable, a, brand).value
  {
    map a | a in ids && LastSignature(signaturesTable, a, brand).Some? :: LastSignature(signaturesTable, a, brand).value
  }

  /** The batch calls, each made once with the same ids. */
  function FetchLookups(src: Sources, ids: set<int>): Lookups {
    Lookups(
      UserPosts(src.postsTable, ids),
      Restrict(src.directory, ids),
      Restrict(src.accessLevels, ids),
      XpAnswer(Restrict(src.xp.perUser, ids), src.xp.levelRank),
      UserSignatures(src.signaturesTable, src.brand, ids),
      UserLikes(src.likesTable, ids))
  }

  /** `isset($v) && $v == 1`. */
  predicate LikedByViewer(v: Option<int>) {
    v == Some(1)
  }

  function Lookup<V>(m: map<int, V>, k: int, default: V): V {
    if k in m then m[k] else default
  }

  function LookupOption<V>(m: map<int, V>, k: int): Option<V> {
    if k in m then Some(m[k]) else None
  }

  /** The author block of a known author; an absent XP entry leaves `xp_rank` null. */
  function AuthorBlockOf(a: int, user: User, lk: Lookups, defaultAvatarUrl: string): AuthorBlock {
    AuthorBlock(
      user.displayName,
      AvatarUrl(user, defaultAvatarUrl),
      Lookup(lk.userPosts, a, 0),
      LookupOption(lk.signatures, a),
      LookupOption(lk.accessLevels, a),
      if a in lk.xp.perUser then lk.xp.perUser[a].xp else 0,
      if a in lk.xp.perUser then Some(lk.xp.perUser[a].xpRank) else None,
      Lookup(lk.userLikes, a, 0),
      user.createdAt,
      match lk.xp.levelRank case Some(r) => r case None => DEFAULT_LEVEL_RANK)
  }

  /** One post as the loop leaves it. */
  function DecorateRow(row: PostRow, lk: Lookups, defaultAvatarUrl: string): DecoratedPost {
    var a := row.post.authorId;
    DecoratedPost(
      row.post,
      LikedByViewer(row.isLikedByViewer),
      if a in lk.users then Some(AuthorBlockOf(a, lk.users[a], lk, defaultAvatarUrl)) else None)
  }

  /**
   * `decorate`: the ids, one call to each batch source, then a pass that
   * decorates every post in place.
   */
  method Decorate(rows: seq<PostRow>, src: Sources) returns (out: seq<DecoratedPost>)
    ensures |out| == |rows|
    ensures forall i :: 0 <= i < |rows| ==> out[i] == DecorateRow(rows[i], FetchLookups(src, set a | a in AuthorIds(rows)), src.defaultAvatarUrl)
  {
    var userIds := AuthorIds(rows);
    var lookups := FetchLookups(src, set a | a in userIds);
    out := [];
    for i := 0 to |rows|
      invariant |out| == i
      invariant forall j :: 0 <= j < i ==> out[j] == DecorateRow(rows[j], lookups, src.defaultAvatarUrl)
    {
      out := out + [DecorateRow(rows[i], lookups, src.defaultAvatarUrl)];
    }
  }

  /**
   * What a decorated post holds, stated against the tables and the provider
   * directly: the post itself unchanged; liked iff the column held 1; an
   * author block iff the provider knows the author; and in it the author's
   * own data, the number of their posts and likes over the whole tables,
   * their last signature for the brand, and null, 0 or `'1.0'` wherever a
   * source has no entry.
   */
  lemma DecoratedPostFields(rows: seq<PostRow>, src: Sources, i: int)
    requires 0 <= i < |rows|
    ensures var d := DecorateRow(rows[i], FetchLookups(src, set a | a in AuthorIds(rows)), src.defaultAvatarUrl);
      var a := rows[i].post.authorId;
      && d.post == rows[i].post
      && (d.isLikedByViewer <==> rows[i].isLikedByViewer == Some(1))
      && (d.author.Some? <==> a in src.directory)
      && (d.author.Some? ==>
            var b := d.author.value;
            && b.displayName == src.directory[a].displayName
            && b.avatarUrl == AvatarUrl(src.directory[a], src.defaultAvatarUrl)
            && b.totalPosts == Count(src.postsTable, AuthoredBy(a))
            && b.signature == LastSignature(src.signaturesTable, a, src.brand)
            && b.accessLevel == (if a in src.accessLevels then Some(src.accessLevels[a]) else None)
            && b.xp == (if a in src.xp.perUser then src.xp.perUser[a].xp else 0)
            && b.xpRank == (if a in src.xp.perUser then Some(src.xp.perUser[a].xpRank) else None)
            && b.totalPostLikes == Count(src.likesTable, LikedBy(a))
            && b.createdAt == src.directory[a].createdAt
            && b.levelRank == (if src.xp.levelRank.Some? then src.xp.levelRank.value else DEFAULT_LEVEL_RANK))
  {
    var a := rows[i].post.authorId;
    AuthorIdsAreTheAuthors(rows);
    assert a in AuthorIds(rows);
    LookupsOfRequested(src, (set x | x in AuthorIds(rows)), a);
  }

  /** For a requested id, each batch answer holds what the tables hold for it. */
  lemma LookupsOfRequested(src: Sources, ids: set<int>, a: int)
    requires a in ids
    ensures var lk := FetchLookups(src, ids);
      && (a in lk.users <==> a in src.directory)
      && (a in lk.users ==> lk.users[a] == src.directory[a])
      && Lookup(lk.userPosts, a, 0) == Count(src.postsTable, AuthoredBy(a))
      && LookupOption(lk.signatures, a) == LastSignature(src.signaturesTable, a, src.brand)
      && LookupOption(lk.accessLevels, a) == (if a in src.accessLevels then Some(src.accessLevels[a]) else None)
      && (a in lk.xp.perUser <==> a in src.xp.perUser)
      && (a in lk.xp.perUser ==> lk.xp.perUser[a] == src.xp.perUser[a])
      && Lookup(lk.userLikes, a, 0) == Count(src.likesTable, LikedBy(a))
      && lk.xp.levelRank == src.xp.levelRank
  {
  }

  /** `level_rank` is one value for the whole answer, so every decorated author carries the same one. */
  lemma LevelRankIsShared(rows: seq<PostRow>, src: Sources, i: int, j: int)
    requires 0 <= i < |rows| && 0 <= j < |rows|
    ensures var lk := FetchLookups(src, set a | a in AuthorIds(rows));
      var di := DecorateRow(rows[i], lk, src.defaultAvatarUrl);
      var dj := DecorateRow(rows[j], lk, src.defaultAvatarUrl);
      di.author.Some? && dj.author.Some? ==> di.author.value.levelRank == dj.author.value.levelRank
  {
  }

  // ---------------------------------------------------------------------
  // The decorator as written

  /**
   * One post as the source computes it: `xp` is guarded by a presence check
   * on the XP answer, but `xp_rank` indexes it without one, so a known
   * author without an XP entry raises an undefined-key error (`None`).
   */
  function DecorateRowAsWritten(row: PostRow, lk: Lookups, defaultAvatarUrl: string): Option<DecoratedPost> {
    var a := row.post.authorId;
    if a in lk.users && a !in lk.xp.perUser then None
    else Some(DecorateRow(row, lk, defaultAvatarUrl))
  }

  function DecorateRowsAsWritten(rows: seq<PostRow>, lk: Lookups, defaultAvatarUrl: string): Option<seq<DecoratedPost>> {
    if rows == [] then Some([])
    else
      match DecorateRowAsWritten(rows[0], lk, defaultAvatarUrl)
      case None => None
      case Some(d) =>
        match DecorateRowsAsWritten(rows[1..], lk, defaultAvatarUrl)
        case None => None
        case Some(rest) => Some([d] + rest)
  }

  function DecorateAsWritten(rows: seq<PostRow>, src: Sources): Option<seq<DecoratedPost>> {
    DecorateRowsAsWritten(rows, FetchLookups(src, set a | a in AuthorIds(rows)), src.defaultAvatarUrl)
  }

  /**
   * The source decorates a batch exactly when every known author has an XP
   * entry, and then it agrees with the corrected decorator row by row.
   */
  lemma {:induction false} AsWrittenAgreesWhenXpKnown(rows: seq<PostRow>, lk: Lookups, defaultAvatarUrl: string)
    ensures DecorateRowsAsWritten(rows, lk, defaultAvatarUrl).Some? <==>
      forall i :: 0 <= i < |rows| && rows[i].post.authorId in lk.users ==> rows[i].post.authorId in lk.xp.perUser
    ensures DecorateRowsAsWritten(rows, lk, defaultAvatarUrl).Some? ==>
      var out := DecorateRowsAsWritten(rows, lk, defaultAvatarUrl).value;
      |out| == |rows| && forall i :: 0 <= i < |rows| ==> out[i] == DecorateRow(rows[i], lk, defaultAvatarUrl)
  {
    if rows != [] {
      AsWrittenAgreesWhenXpKnown(rows[1..], lk, defaultAvatarUrl);
      assert forall i :: 1 <= i < |rows| ==> rows[1..][i - 1] == rows[i];
    }
  }

  /** A known author without any XP entry, on a single post. */
  lemma MissingXpExample(src: Sources, row: PostRow)
    requires row.post.authorId in src.directory && src.xp.perUser == map[]
    ensures DecorateAsWritten([row], src).None?
    ensures DecorateRow(row, FetchLookups(src, set a | a in AuthorIds([row])), src.defaultAvatarUrl).author.value.xpRank.None?
  {
    DecoratedPostFields([row], src, 0);
    AsWrittenAgreesWhenXpKnown([row], FetchLookups(src, set a | a in AuthorIds([row])), src.defaultAvatarUrl);
  }
}
