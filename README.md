# railforums core, modelled in Dafny

A Dafny model of the data-access and decoration core of the railforums
Laravel package (forum threads, posts and likes):

- **ThreadRepository** — the decorated thread query (post count, last post,
  read and follow flags per thread), the filtered, ordered and paginated
  listing built on it, the listing by ids, the thread count, the slug
  sanitiser and the chunked search-index rebuild.
- **ThreadUserDecorator**, **PostUserDecorator**, **DiscussionDecorator** —
  the batch look-ups that attach author data, post and like counts,
  signatures, XP and latest posts to rows.
- **UserForumPostService** and **ForumPostLikeService** — reading, creating,
  editing and destroying posts, and liking and unliking them, as the
  current user.
- **SoftDelete** — the `deleted_at` update mixed into repositories.

The tables are sequences of records (`Entities`). A nullable column is an
`Option`. Timestamps are integers ordered like the stored datetime strings.
The query builder's `where`, `count`, `order by` and `limit`/`skip` are the
functions `Filter`, `Count`, `SortBy` and `Paginate`.

The services hold state, so they are classes:

- The post service owns the posts table, the next auto-increment id and
  the posts and threads mapper caches.
- The like service owns the likes table, the next id and the posts
  mapper cache.
- `SoftDelete.PostTable` is a table updated row by row.

Each mapper cache is a validity flag that a flush clears. The
discussion decorator assigns fields of discussion objects in place. The
current user, the clock, the identity provider and the HTML purifier are
parameters or constant fields.

Modules: `Entities`, `Collections`, `Sorting` and `Pagination` are shared.
Each core source file has a module of its own: `ThreadRepository` (with
`ThreadSlug` and `ThreadSearchIndex` for its last two operations),
`ThreadUserDecorator`, `PostUserDecorator`, `DiscussionDecorator`,
`UserForumPostService`, `ForumPostLikeService` and `SoftDelete`.

## Model

Functions that only compute a value are listed through the members whose
contracts state their meaning:

- `ThreadRepository.DecoratedThreads` (ThreadRepository.php:120-161):
  `PageIsSliceOfListing`, `ListedRowsQualify`, `PageIsSorted`.
- `ThreadRepository.ThreadsCount` (ThreadRepository.php:172-227):
  `CountMatchesListing`, `IntendedCountMatchesListing`, `CountPartitions`.
- `ThreadRepository.DecorateThread` (ThreadRepository.php:234-322):
  `DecoratedColumns`.
- `ThreadSlug.SanitizeForSlug` (ThreadRepository.php:329-338):
  `SanitizeForSlugIsSlug`, `SanitizeKeepsWordChars`.
- `ThreadUserDecorator.DecorateRow` and `DecorateAsWritten`
  (ThreadUserDecorator.php:32-61): `DecoratedAuthorFields`,
  `DecorateAsWrittenOutcome`.
- `PostUserDecorator.DecorateRow`, `DecorateAsWritten`, `FetchLookups` and
  `LikedByViewer` (PostUserDecorator.php:42-119): `DecoratedPostFields`,
  `AsWrittenAgreesWhenXpKnown`, `LookupsOfRequested`.
- `DiscussionDecorator.PostCount` (DiscussionDecorator.php:35-45):
  `PostCountCountsCategoryPosts`.
- `DiscussionDecorator.LatestPostOf` and `Later` (DiscussionDecorator.php:47-79):
  `LatestIsNewestCategoryPost`, `Latest`.
- `ForumPostLikeService.Liked` and `Unliked`: the methods `LikePost` and
  `UnLikePost`, and `LikeIsIdempotent`, `UnlikeRemovesExactlyTheMatches`.
- `Pagination.Offset` (ThreadRepository.php:151-152): `Paginate`,
  `OffsetNext`.

| member | source | states |
|---|---|---|
| Collections.Distinct | src/Decorators/ThreadUserDecorator.php:41 | `array_unique`: no value twice, and exactly the values of the input |
| Sorting.SortBy | src/Repositories/ThreadRepository.php:153 | an `order by` returns its rows sorted by the order and as a permutation (same multiset) of its input |
| Pagination.Paginate | src/Repositories/ThreadRepository.php:151-152 | `limit amount skip amount*(page-1)`: at most `amount` rows, empty past the end, row `i` is row `offset + i` of the ordered result |
| Pagination.PageMembers | src/Repositories/ThreadRepository.php:151-152 | every row of a page is a row of the result |
| Pagination.PageOfSorted | src/Services/Posts/UserForumPostService.php:50-52 | a page of an ordered result is itself ordered |
| Pagination.OffsetNext | src/Repositories/ThreadRepository.php:358-359 | consecutive pages start `amount` rows apart |
| Pagination.PositionInPage | src/Repositories/ThreadRepository.php:358-359 | row `j` of page `page` sits at a position whose quotient by the page size is `page - 1` |
| Pagination.PageOfStamped | src/Repositories/ThreadRepository.php:358-397 | rows built from page `page` and stamped with that page's value are the slice, at the page's offset, of the rows built from the whole result |
| Pagination.PagesUpToIsPrefix | src/Services/Posts/UserForumPostService.php:50-51 | reading pages 1..n in turn yields exactly the first `n*amount` rows: none skipped, none repeated |
| Pagination.PagesCoverAll | src/Services/Posts/UserForumPostService.php:50-51 | pages 1..ceil(total/amount) together are the whole result, and the next page is empty |
| Pagination.PagesDisjoint | src/Services/Posts/UserForumPostService.php:50-51 | two different pages never share a row position |
| Pagination.TwelveRowsInPagesOfFive | src/Services/Posts/UserForumPostService.php:50-51 | twelve rows in pages of five: 5, 5 and 2 rows, then an empty page, and the three pages rebuild the rows |
| ThreadRepository.LastLivePost | src/Repositories/ThreadRepository.php:251-290 | the `limit 1 order by published_on desc` subqueries: none iff the thread has no live post; otherwise a live post of the thread published no earlier than any other |
| ThreadRepository.DecoratedColumns | src/Repositories/ThreadRepository.php:234-322 | `post_count` is the number of live posts; the three last-post columns are null together, exactly when the count is 0, and otherwise come from one live post with the latest `published_on`; `is_read` / `is_followed` hold iff a read / follow row of the viewer exists |
| ThreadRepository.LastPostColumns | src/Repositories/ThreadRepository.php:238-290 | the live post count is 0 exactly when there is no last post |
| ThreadRepository.ReadColumn | src/Repositories/ThreadRepository.php:291-305 | `COUNT(*) > 0` over the viewer's read rows iff such a row exists |
| ThreadRepository.FollowColumn | src/Repositories/ThreadRepository.php:306-320 | `COUNT(*) > 0` over the viewer's follow rows iff such a row exists |
| ThreadRepository.UpToDateImpliesIsRead | src/Repositories/ThreadRepository.php:291-305 | a read at or after the last post implies `is_read` |
| ThreadRepository.IsReadIgnoresRecency | src/Repositories/ThreadRepository.php:291-305 | `is_read` is true for a read a day older than the only post: the flag records existence, not recency |
| ThreadRepository.DecorateAll | src/Repositories/ThreadRepository.php:234-322 | the decorated query holds exactly the non-deleted threads, each with its own derived columns, and never more rows than threads |
| ThreadRepository.DecorateAllIsDecorateEach | src/Repositories/ThreadRepository.php:234-322 | the decorated query is, in store order, one decorated row per non-deleted thread, so it has exactly as many rows as there are non-deleted threads and repeats a thread only as often as the store does |
| ThreadRepository.ListedBeforeIsTotalPreorder | src/Repositories/ThreadRepository.php:153 | `last_post_published_on desc, id desc` (NULL last) is a total preorder |
| ThreadRepository.ListedBeforeIsAntisymmetric | src/Repositories/ThreadRepository.php:153 | two rows each listable before the other have the same key and the same id |
| ThreadRepository.FullListing | src/Repositories/ThreadRepository.php:127-158 | the unpaginated listing is in listing order, holds exactly the decorated rows passing the filters, and each as often as the query returns it |
| ThreadRepository.ListedRowsQualify | src/Repositories/ThreadRepository.php:120-161 | every listed row is a published, non-deleted thread of the store, with the requested pinned flag, in the categories when some are given, followed by the viewer when `followed === true`, and carries its own derived columns |
| ThreadRepository.FullListingExact | src/Repositories/ThreadRepository.php:127-158 | a thread is listed iff it is in the store, not deleted, and passes the filters |
| ThreadRepository.PageIsSliceOfListing | src/Repositories/ThreadRepository.php:151-152 | page `page` is at most `amount` rows long, and its row `i` is row `amount*(page-1)+i` of the full listing |
| ThreadRepository.PageIsSorted | src/Repositories/ThreadRepository.php:151-153 | every page is in listing order |
| ThreadRepository.EmptyStoreGivesEmptyPage | src/Repositories/ThreadRepository.php:120-161 | with no threads every page is empty |
| ThreadRepository.DecoratedThreadsByIds | src/Repositories/ThreadRepository.php:102-107 | in store order, one row per non-deleted thread whose id is asked for, each that thread with its own derived columns; exactly as many rows as such threads; every such thread appears; no state filter |
| ThreadRepository.ByIdsReturnsDrafts | src/Repositories/ThreadRepository.php:102-107 | a draft thread is returned by id |
| ThreadRepository.HeadContribution | src/Repositories/ThreadRepository.php:194-224 | with a unique follow table, the rows one thread adds to the count equal the rows it adds to a listing whose follow flag is read as a tri-state (`false`: not followed) |
| ThreadRepository.IntendedCountOverMatchesListing | src/Repositories/ThreadRepository.php:172-227 | with a unique follow table and any flag, the count over any threads equals the number of their rows the tri-state listing filter keeps |
| ThreadRepository.CountOverMatchesListing | src/Repositories/ThreadRepository.php:120-227 | with a unique follow table and `followed` null or true, the count over any threads equals the number of their listed rows |
| ThreadRepository.CountMatchesListing | src/Repositories/ThreadRepository.php:120-227 | with at most one follow row per (thread, viewer) and `followed` null or true, `getThreadsCount` equals the length of the unpaginated listing for the same filters |
| ThreadRepository.IntendedCountMatchesListing | src/Repositories/ThreadRepository.php:172-227 | with at most one follow row per (thread, viewer), `getThreadsCount` equals, for every flag including `false`, the number of decorated rows the tri-state listing filter keeps |
| ThreadRepository.FalseFlagListsFollowedThread | src/Repositories/ThreadRepository.php:129-144 | with `followed === false`, one published thread the viewer follows is counted 0 times by `getThreadsCount` but listed once by `getDecoratedThreads` |
| ThreadRepository.CountPartitions | src/Repositories/ThreadRepository.php:194-224 | with a unique follow table, the unflagged count is the `true` count plus the `false` count |
| ThreadRepository.DuplicateFollowCountedTwice | src/Repositories/ThreadRepository.php:196-216 | a thread with two follow rows of the viewer is counted twice by the `true` count but listed once |
| ThreadSlug.TrimStart | src/Repositories/ThreadRepository.php:335 | drops exactly the leading trim characters |
| ThreadSlug.TrimEnd | src/Repositories/ThreadRepository.php:335 | drops exactly the trailing trim characters |
| ThreadSlug.ReplaceAmpersands | src/Repositories/ThreadRepository.php:335 | no `&` is left |
| ThreadSlug.ReplaceAmpersandsLength | src/Repositories/ThreadRepository.php:335 | the result is two characters longer per `&` of the input |
| ThreadSlug.ReplaceAmpersandsAppend | src/Repositories/ThreadRepository.php:335 | replacing works character by character: the replacement of a concatenation is the concatenation of the replacements |
| ThreadSlug.ReplaceAmpersandsSplits | src/Repositories/ThreadRepository.php:335 | at any position, a `&` becomes `"and"` and any other character is kept, with the text on either side replaced independently |
| ThreadSlug.SpacesToDashes | src/Repositories/ThreadRepository.php:335 | same length, every space becomes `-` and nothing else changes |
| ThreadSlug.CollapseDashes | src/Repositories/ThreadRepository.php:332-334 | no two dashes in a row are left, and the first character is kept |
| ThreadSlug.CollapseDashesKeepsText | src/Repositories/ThreadRepository.php:332-334 | every character that is not a dash is kept, in order, and a dash is left iff the input had one |
| ThreadSlug.CollapseDashesMergesRun | src/Repositories/ThreadRepository.php:332-334 | a run of two dashes collapses exactly as a single dash does |
| ThreadSlug.ToLower | src/Repositories/ThreadRepository.php:331 | same length, each character ASCII-lower-cased |
| ThreadSlug.SanitizeForSlugIsSlug | src/Repositories/ThreadRepository.php:329-338 | a slug holds only `a-z`, `0-9`, `_` and `-`, never two dashes in a row |
| ThreadSlug.SanitizeKeepsWordChars | src/Repositories/ThreadRepository.php:329-338 | apart from its dashes, a slug is exactly the lower-cased word characters of the trimmed title with each `&` spelled `and`, in order |
| ThreadSlug.CollapseDashesKeepsSingles | src/Repositories/ThreadRepository.php:332-334 | collapsing a string without a dash run changes nothing |
| ThreadSlug.ReplaceAmpersandsKeepsPlain | src/Repositories/ThreadRepository.php:335 | a string without `&` is unchanged |
| ThreadSlug.SanitizeTwiceDropsDashes | src/Repositories/ThreadRepository.php:329-338 | sanitizing a slug again deletes its dashes and nothing else, since `-` is not a word character |
| ThreadSlug.ResanitizeDropsDashes | src/Repositories/ThreadRepository.php:329-338 | for any string of slug characters, sanitizing removes exactly the dashes |
| ThreadSlug.AmpersandBecomesAnd | src/Repositories/ThreadRepository.php:329-338 | `"A & B"` becomes `"a-and-b"` |
| ThreadSearchIndex.IndexedThreads | src/Repositories/ThreadRepository.php:349-354 | the scanned query: in id order, exactly the non-deleted threads, each at most as often as stored |
| ThreadSearchIndex.IndexChunk | src/Repositories/ThreadRepository.php:360-396 | the callback fails exactly when some thread of the chunk has an author the provider does not know (the decorator aborts); otherwise it turns each thread, in order, into its index row stamped with the chunk's time |
| ThreadSearchIndex.PageIsExpectedSlice | src/Repositories/ThreadRepository.php:358-359 | a non-empty chunk's rows are the expected rows at that chunk's offset |
| ThreadSearchIndex.IndexQuery | src/Repositories/ThreadRepository.php:358-397 | the chunk loop completes iff no scanned thread has an unknown author; the inserted batches are exactly the expected rows up to the stored count; every batch holds 1 to 100 rows and all but the last hold 100 |
| ThreadSearchIndex.FirstUnknownAuthor | src/Repositories/ThreadRepository.php:376 | the first scanned thread whose author is unknown: every earlier author is known, and the thread at that position is not |
| ThreadSearchIndex.StoredRows | src/Repositories/ThreadRepository.php:358-397 | all rows when every author is known; otherwise a whole number of chunks, no more than the rows before the first unknown author and fewer than a chunk short of it |
| ThreadSearchIndex.ChunkExtends | src/Repositories/ThreadRepository.php:376-395 | inserting a chunk whose authors are all known extends the stored prefix of the expected rows by exactly that chunk |
| ThreadSearchIndex.FailingChunk | src/Repositories/ThreadRepository.php:376 | a chunk holding an unknown author is the chunk of the first one, and the rows inserted before it are the stored rows |
| ThreadSearchIndex.CreateSearchIndexes | src/Repositories/ThreadRepository.php:343-398 | the rebuild completes iff every live thread's author is known; the inserted batches, in id order and in chunks of 100, are exactly the expected rows of the chunks before the first one that fails |
| ThreadSearchIndex.StoredRowsDescribeLiveThreads | src/Repositories/ThreadRepository.php:378-391 | every stored row describes the live thread at its position in the scan: no high value, the title, the author's display name, the thread id, no post, equal created and updated times |
| ThreadSearchIndex.IndexRowsDescribeLiveThreads | src/Repositories/ThreadRepository.php:378-391 | when every live thread's author is known: as many rows as live threads, row `k` describing live thread `k` |
| ThreadSearchIndex.EveryLiveThreadIndexed | src/Repositories/ThreadRepository.php:349-354 | when every live thread's author is known, every non-deleted thread gets a stored row |
| ThreadSearchIndex.PartialRebuild | src/Repositories/ThreadRepository.php:358-397 | when some live thread's author is unknown, the rebuild stores whole chunks only, stops at the chunk holding the first such thread, and stores fewer rows than live threads |
| ThreadSearchIndex.SecondChunkFails | src/Repositories/ThreadRepository.php:358-397 | 150 live threads with one unknown author at position 119: only the first chunk of 100 rows is stored |
| ThreadSearchIndex.IndexedOnce | src/Repositories/ThreadRepository.php:349-354 | with unique thread ids, row thread ids strictly increase, so no thread is indexed twice |
| ThreadUserDecorator.UserIdsCoverRows | src/Decorators/ThreadUserDecorator.php:34-43 | every author and last-post author is requested, and each id only once |
| ThreadUserDecorator.UserIdsOnlyNamed | src/Decorators/ThreadUserDecorator.php:34-43 | nothing else is requested |
| ThreadUserDecorator.DecoratedAuthorFields | src/Decorators/ThreadUserDecorator.php:50-57 | the row is kept; the display name is the author's, or `''` when unknown; the avatar is the profile picture, else the default; the access level is the author's |
| ThreadUserDecorator.FetchedUsersAgree | src/Decorators/ThreadUserDecorator.php:43 | the batch answer knows each author iff the provider does, with the same user |
| ThreadUserDecorator.Decorate | src/Decorators/ThreadUserDecorator.php:32-61 | one row out per row in, in order, each decorated as if its author were looked up in the whole provider |
| ThreadUserDecorator.AsWrittenAgreesOnKnownAuthors | src/Decorators/ThreadUserDecorator.php:50-54 | the source fails on a row exactly when its author is unknown, and otherwise agrees with `DecorateRow` |
| ThreadUserDecorator.AsWrittenAbortsOnUnknownAuthor | src/Decorators/ThreadUserDecorator.php:45-58 | one unknown author makes the whole source call fail |
| ThreadUserDecorator.AsWrittenSucceedsOnKnownAuthors | src/Decorators/ThreadUserDecorator.php:45-58 | with every author known, the source returns one decorated row per row, in order, as the corrected decorator does |
| ThreadUserDecorator.DecorateAsWrittenOutcome | src/Decorators/ThreadUserDecorator.php:32-61 | the source `decorate` fails iff some author is unknown to the provider, and otherwise returns every row, in order, decorated |
| ThreadUserDecorator.UnknownAuthorExample | src/Decorators/ThreadUserDecorator.php:53-54 | for one thread by an unknown author, the source fails while the corrected decorator gives `''` and the default avatar |
| PostUserDecorator.AuthorIdsAreTheAuthors | src/Decorators/PostUserDecorator.php:44-48 | the ids sent to every batch source are the posts' authors, each once |
| PostUserDecorator.LastSignature | src/Decorators/PostUserDecorator.php:67-76 | none iff the user has no row for the brand; otherwise the signature of the last such row (`array_combine` keeps the last of repeated keys) |
| PostUserDecorator.Decorate | src/Decorators/PostUserDecorator.php:42-119 | one post out per post in, in order, each decorated from one look-up in each batch source for the distinct authors |
| PostUserDecorator.DecoratedPostFields | src/Decorators/PostUserDecorator.php:90-116 | every field against the raw tables: the post is kept; liked iff the column is 1; an author block iff the provider knows the author; name, avatar, post count, last signature, access level, xp (0 if absent), xp rank (null if absent), like count, creation time, and level rank (`'1.0'` if absent) |
| PostUserDecorator.LookupsOfRequested | src/Decorators/PostUserDecorator.php:50-88 | for a requested id, each batch answer holds what the tables and provider hold for it |
| PostUserDecorator.LevelRankIsShared | src/Decorators/PostUserDecorator.php:114 | all decorated authors in one call carry the same level rank |
| PostUserDecorator.AsWrittenAgreesWhenXpKnown | src/Decorators/PostUserDecorator.php:107-109 | the source succeeds iff every known author has an XP entry, and then agrees row by row with the corrected decorator |
| PostUserDecorator.MissingXpExample | src/Decorators/PostUserDecorator.php:109 | a known author with no XP entry makes the source fail, while the corrected decorator gives a null rank |
| DiscussionDecorator.RowsOfPost | src/Decorators/DiscussionDecorator.php:35-43 | a post's join rows pair it, when it is live, with threads of the category it belongs to |
| DiscussionDecorator.JoinRowsQualify | src/Decorators/DiscussionDecorator.php:35-43 | every joined row pairs a live post with its thread in the category |
| DiscussionDecorator.JoinRowsComplete | src/Decorators/DiscussionDecorator.php:47-62 | every live post of a thread in the category is joined |
| DiscussionDecorator.PostCountCountsCategoryPosts | src/Decorators/DiscussionDecorator.php:35-45 | with unique thread ids, `post_count` is the number of live posts whose thread lies in the category |
| DiscussionDecorator.Latest | src/Decorators/DiscussionDecorator.php:60-62 | `order by updated_at desc limit 1`: none iff no row; otherwise a row updated no earlier than any other |
| DiscussionDecorator.LatestIsNewestCategoryPost | src/Decorators/DiscussionDecorator.php:47-79 | a latest post exists iff the count is positive; it is a live post of the category updated no earlier than any other, with its id, `updated_at` as `created_at`, the thread title, and the author's id, name and avatar |
| DiscussionDecorator.DecorateOne | src/Decorators/DiscussionDecorator.php:34-79 | one discussion gets its post count; with a latest post it also gets `latest_post` and that author's access level, and otherwise keeps what it held |
| DiscussionDecorator.DecorateAgain | src/Decorators/DiscussionDecorator.php:34-80 | decorating an already decorated discussion changes nothing |
| DiscussionDecorator.Decorate | src/Decorators/DiscussionDecorator.php:32-83 | every listed discussion, including one listed twice, ends decorated from what it held before the call |
| SoftDelete.SoftDeleted | src/Repositories/Traits/SoftDelete.php:16-20 | the update keeps every row in place; what each row becomes (only `deleted_at` changes, and only on the rows with that id) is stated by `SoftDelete.OnlyDeletedAtChanges` |
| SoftDelete.PostTable.Delete | src/Repositories/Traits/SoftDelete.php:14-21 | the table becomes its soft-deleted image, and the answer is the number of rows with that id |
| SoftDelete.MissingIdIsNoOp | src/Repositories/Traits/SoftDelete.php:14-21 | deleting an id no row has matches nothing and changes nothing |
| SoftDelete.OnlyDeletedAtChanges | src/Repositories/Traits/SoftDelete.php:16-20 | no row is removed or moved, only `deleted_at` changes, matching rows end deleted at `now`, and other rows are untouched |
| SoftDelete.DeleteTwiceKeepsLaterTime | src/Repositories/Traits/SoftDelete.php:16-20 | with no `deleted_at is null` guard, a second delete overwrites the first time and matches the same rows |
| SoftDelete.LiveRowsDrop | src/Repositories/Traits/SoftDelete.php:14-21 | the number of live rows drops by exactly the number of live rows with that id |
| ForumPostLikeService.FirstLike | src/Services/PostLikes/ForumPostLikeService.php:36-41 | `[0] ?? null`: none iff no like of that user on that post; otherwise such a like of the table |
| ForumPostLikeService.ForumPostLikeService.LikePost | src/Services/PostLikes/ForumPostLikeService.php:32-56 | with an existing like: answers it, and the table, ids and cache are unchanged; otherwise appends a new like dated now with a fresh id, answers it and flushes the cache; ids stay unique |
| ForumPostLikeService.ForumPostLikeService.UnLikePost | src/Services/PostLikes/ForumPostLikeService.php:58-76 | exactly the user's likes on the post are gone; the cache is flushed iff there were any; ids stay unique |
| ForumPostLikeService.ForumPostLikeService.DestroyEach | src/Services/PostLikes/ForumPostLikeService.php:72-74 | destroying the likes one by one removes exactly the rows with their ids |
| ForumPostLikeService.MatchesIffFirstLike | src/Services/PostLikes/ForumPostLikeService.php:62-69 | the unlike query finds nothing iff the like query finds nothing |
| ForumPostLikeService.DestroyedAreTheMatches | src/Services/PostLikes/ForumPostLikeService.php:62-74 | with unique ids, deleting the fetched likes by id removes exactly the matching likes |
| ForumPostLikeService.UnlikedKeepsIds | src/Services/PostLikes/ForumPostLikeService.php:58-76 | unliking keeps ids unique and below the next id |
| ForumPostLikeService.LikeIsIdempotent | src/Services/PostLikes/ForumPostLikeService.php:32-56 | liking twice leaves the table as liking once |
| ForumPostLikeService.LikeExistsAfterLiking | src/Services/PostLikes/ForumPostLikeService.php:43-52 | after liking, a like of that user on that post exists and every earlier like remains |
| ForumPostLikeService.LikeKeepsOneLikePerPair | src/Services/PostLikes/ForumPostLikeService.php:32-56 | liking keeps at most one like per (post, liker) |
| ForumPostLikeService.LikeAllKeepsOneLikePerPair | src/Services/PostLikes/ForumPostLikeService.php:32-56 | any sequence of likes keeps at most one like per (post, liker) |
| ForumPostLikeService.UnlikeRemovesExactlyTheMatches | src/Services/PostLikes/ForumPostLikeService.php:58-76 | after unliking no such like is left, every other like is, and nothing new appears |
| ForumPostLikeService.UnlikeWithoutMatchIsNoOp | src/Services/PostLikes/ForumPostLikeService.php:69-75 | unliking a post the user does not like changes nothing |
| UserForumPostService.ThreadPosts | src/Services/Posts/UserForumPostService.php:50-54 | the thread's listing, oldest first: exactly its published, non-deleted posts, as many as the count query counts |
| UserForumPostService.FindPost | src/Services/Posts/UserForumPostService.php:63-66 | none iff no non-deleted row has the id; otherwise a non-deleted row of the table with that id |
| UserForumPostService.ReplacePost | src/Services/Posts/UserForumPostService.php:114 | persisting keeps the number of rows; what the rows become (every id and every other post kept, the updated post read back) is stated by `UserForumPostService.EditTouchesOnlyThatPost` |
| UserForumPostService.UserForumPostService.GetPosts | src/Services/Posts/UserForumPostService.php:40-57 | oldest first, post `i` of the page is post `amount*(page-1)+i` of the thread's published posts; the page holds `amount` posts, fewer on the last page, none past the end |
| UserForumPostService.UserForumPostService.GetPost | src/Services/Posts/UserForumPostService.php:63-66 | null iff no non-deleted post has the id; otherwise a stored, non-deleted post with that id |
| UserForumPostService.UserForumPostService.GetThreadPostCount | src/Services/Posts/UserForumPostService.php:92-100 | the count is the length of the thread's unpaginated listing |
| UserForumPostService.UserForumPostService.Persist | src/Services/Posts/UserForumPostService.php:114 | the row with the post's id takes its values; ids stay unique |
| UserForumPostService.UserForumPostService.CreatePost | src/Services/Posts/UserForumPostService.php:152-172 | appends a published post by the current user, with the purified content, the prompting post, the thread and publication time now, and a fresh id; flushes both caches; ids stay unique |
| UserForumPostService.UserForumPostService.UpdatePostContent | src/Services/Posts/UserForumPostService.php:107-122 | missing id: answers null and changes nothing; otherwise that post alone gets the purified content and `edited_on` now, is answered, and only the posts cache is flushed |
| UserForumPostService.UserForumPostService.UpdatePostPromptingPostId | src/Services/Posts/UserForumPostService.php:129-144 | missing id: answers null and changes nothing; otherwise that post alone gets the prompting post id and `edited_on` now, is answered, and only the posts cache is flushed |
| UserForumPostService.UserForumPostService.DestroyPost | src/Services/Posts/UserForumPostService.php:72-86 | true iff a non-deleted post has the id; then that post is soft-deleted at `now` (the `SoftDelete` update) and both caches are flushed; otherwise nothing changes; ids stay unique |
| UserForumPostService.SoftDeleteKeepsValid | src/Services/Posts/UserForumPostService.php:77 | soft-deleting a post keeps ids unique and below the next id |
| UserForumPostService.PagesGiveTheThread | src/Services/Posts/UserForumPostService.php:40-100 | reading the pages in turn gives the whole listing, whose length is `getThreadPostCount` |
| UserForumPostService.CreatedPostIsListed | src/Services/Posts/UserForumPostService.php:152-172 | a created post reads back by id, joins its thread's listing and raises the count by one |
| UserForumPostService.EditTouchesOnlyThatPost | src/Services/Posts/UserForumPostService.php:107-144 | an edit keeps every id and every other post, and the edited post reads back with its new values |
| UserForumPostService.DestroyedPostIsGone | src/Services/Posts/UserForumPostService.php:72-86 | a destroyed post stays in the table but no longer reads back; every other post remains; ids stay valid; its thread's count drops by one when it was published |
| UserForumPostService.DestroyLowersCount | src/Services/Posts/UserForumPostService.php:77-80 | soft-deleting one live row takes away exactly its own contribution to the thread's published-post count |

## Left out

- Time formatting is left out: `published_on_diff`, `days_as_member`, and datetime strings. Timestamps are integers and the clock is a parameter.
- URLs are left out: the mobile-app URL each thread row gains, and configuration reads other than the default avatar and the brand, which are parameters.
- Repository events and the query cache of the repositories are left out. Each data-mapper cache is a flag that a flush clears, because cache contents are not visible to the core.
- Eager loading of `author`, `promptingPost` and `recentLikes` in `getPosts` is left out, because the relations live in the entity layer.
- The entity layer (`persist`, `destroy`) and the data mappers are not part of this model. `persist` of a new entity is an append with the next auto-increment id. `persist` of an existing one replaces the row with that id. A post's `destroy` is the `SoftDelete` update on the posts table; a like's `destroy` removes the row with that id.
- UserForumPostService: the posts mapper is taken to hide rows whose `deleted_at` is set, so `get`, `getPosts` and `getThreadPostCount` read non-deleted rows only; the queries in src/Services/Posts/UserForumPostService.php:40-100 carry no `deleted_at` condition of their own.
- UserForumPostService.UserForumPostService.CreatePost: sets `updated_at` to the publication time, because the entity layer's timestamps are not part of this model. The edits do not touch `updated_at`, for the same reason.
- UserForumPostService.PublishedNoLater: `published_on asc` leaves ties unordered in the store; the model breaks them by id.
- ThreadRepository.NewerOrSame: ties on `published_on` in the last-post subqueries are broken by larger post id, so the three last-post columns come from one post. The store could pick different posts for ties.
- DiscussionDecorator.Later: ties on `updated_at` go to the larger post id.
- DiscussionDecorator.LatestPostOf: `getUser` is a total function `userOf`, so the provider is taken to know the author of every live post. The null user that src/Decorators/DiscussionDecorator.php:65-73 would dereference for an unknown author is the same missing-author defect as the first "## Findings" row and is not modelled a second time.
- PostUserDecorator.LastSignature: the signatures query has no `order by`; the model reads the rows in table order, so `array_combine` keeps the signature of the last row in that order.
- ForumPostLikeService.FirstLike: the like query has no `order by`; the model reads the rows in table order, so `[0]` is the first matching like in that order.
- PostUserDecorator.LikedByViewer: PHP's loose `== 1` is modelled on integers only. String and float column values are left out.
- ThreadSearchIndex.IndexRow: `low_value` reads the decorated author display name. This assumes the configured display-name column names that field.
- ThreadSearchIndex.CreateSearchIndexes: the inserted batches are its result, and a chunk whose decoration fails ends it with `completed` false instead of an exception. Insert failures and the store's own `created_at` handling are left out.
- SoftDelete.PostTable.Delete: answers the number of rows matched. The store's changed-rows count, which skips a row whose `deleted_at` already equals the new value, is not modelled.
- Pagination.Offset: a page below 1 reads from the start, as the query builder clamps a negative offset to 0.
- Pagination.Paginate: `amount` is a `nat`. The source does not check `$amount`, and the query builder sets no limit for a negative one, so a negative amount would read every row from the (clamped) offset; that call is not modelled. The same holds for UserForumPostService.UserForumPostService.GetPosts (src/Services/Posts/UserForumPostService.php:50-51) and ThreadRepository.DecoratedThreads (src/Repositories/ThreadRepository.php:151-152), which take `amount` from their caller.
- ThreadRepository.ReadBy, ThreadRepository.FollowedBy and ThreadRepository.ThreadsCount: the viewer is a logged-in user with an integer id. For a guest, `auth()->id()` is null: the read and follow subqueries (src/Repositories/ThreadRepository.php:294-297, 309-312) and the listing's follow filter (136-139) compare with `is null`, and `getThreadsCount` with a boolean `followed` splices an empty raw value into its join (205-207), which is a SQL error. Neither the guest reading nor that error path is modelled.
- The HTML purifier is an opaque function `clean`. src/Services/HTMLPurifierService.php is not part of this model.
- Integers are unbounded. Ids and counts never wrap in the model.

## Findings

| source | as written | input that shows it | evidently intended | confidence | as-written member | corrected member |
|---|---|---|---|---|---|---|
| src/Decorators/ThreadUserDecorator.php:53-54 | the avatar line indexes the fetched users without the presence check the display-name line has, so an unknown author dereferences null and aborts the call | one thread whose `author_id` the identity provider does not know | fall back to the default avatar, as the `''` display-name fallback suggests | not executed | ThreadUserDecorator.AsWrittenAbortsOnUnknownAuthor | ThreadUserDecorator.Decorate |
| src/Decorators/PostUserDecorator.php:109 | `xp_rank` indexes the XP answer without the `array_key_exists` check that guards `xp` on the line above; the framework raises the undefined-key notice as an error | one post whose author the provider knows but has no XP entry for | `xp_rank` null when the author has no XP entry | not executed | PostUserDecorator.AsWrittenAgreesWhenXpKnown | PostUserDecorator.DecoratedPostFields |
| src/Repositories/ThreadRepository.php:129 | the listing adds a follow condition only for `followed === true`, so `false` lists followed threads too, while the count at lines 219-221 excludes them | one published thread the viewer follows, flag `false`: count 0, listing 1 row | a tri-state filter: `false` lists only threads the viewer does not follow, as the count does | not executed | ThreadRepository.FalseFlagListsFollowedThread | ThreadRepository.IntendedCountMatchesListing |

The listing model (`ThreadRepository.ListingFilter`) keeps the source's
two-way follow filter; `ThreadRepository.IntendedListingFilter` is the
tri-state reading the count agrees with.

The search-index rebuild calls the thread decorator as written
(`ThreadUserDecorator.DecorateAsWritten`), because its abort is what ends
a rebuild early; the lemmas about a complete index assume every live
thread's author is known, and `ThreadSearchIndex.PartialRebuild` states
what is stored otherwise.
