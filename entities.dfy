/**
 * The forum's stored records. Timestamps are integers (ordered like the
 * store's datetime strings); a nullable column is an `Option`, with `None`
 * standing for SQL NULL. State columns are the stored strings.
 */
module Entities {

  datatype Option<+T> = None | Some(value: T)

  const STATE_PUBLISHED: string := "published"
  const STATE_DRAFT: string := "draft"
  const STATE_HIDDEN: string := "hidden"

  /** The only thread and post state shown in listings. */
  const ACCESSIBLE_STATES: set<string> := {STATE_PUBLISHED}

  datatype Thread = Thread(
    id: int,
    categoryId: int,
    title: string,
    state: string,
    pinned: bool,
    authorId: int,
    deletedAt: Option<int>)

  datatype Post = Post(
    id: int,
    threadId: int,
    authorId: int,
    content: string,
    promptingPostId: Option<int>,
    state: string,
    publishedOn: int,
    editedOn: Option<int>,
    updatedAt: int,
    deletedAt: Option<int>)

  datatype ThreadRead = ThreadRead(threadId: int, readerId: int, readOn: int)

  datatype ThreadFollow = ThreadFollow(id: int, threadId: int, followerId: int)

  datatype PostLike = PostLike(id: int, postId: int, likerId: int, likedOn: int)

  /** A user as the identity provider describes one. */
  datatype User = User(displayName: string, profilePictureUrl: Option<string>, createdAt: int)

  /** The avatar shown for a user: the profile picture, else the configured default. */
  function AvatarUrl(user: User, defaultAvatarUrl: string): string
  {
    match user.profilePictureUrl
    case Some(u) => u
    case None => defaultAvatarUrl
  }

  ghost predicate UniquePostIds(posts: seq<Post>) {
    forall i, j :: 0 <= i < j < |posts| ==> posts[i].id != posts[j].id
  }

  ghost predicate UniqueThreadIds(threads: seq<Thread>) {
    forall i, j :: 0 <= i < j < |threads| ==> threads[i].id != threads[j].id
  }

  ghost predicate UniqueLikeIds(likes: seq<PostLike>) {
    forall i, j :: 0 <= i < j < |likes| ==> likes[i].id != likes[j].id
  }
}
