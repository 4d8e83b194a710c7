/**
 * The thread user decorator: one batch call fetches every user a list of
 * thread rows names (authors and last-post authors), then each row gains its
 * author's display name, avatar and access level, in place and in order.
 *
 * The identity provider is a directory `map<int, User>` (a batch fetch is
 * the directory restricted to the requested ids) and an access-level
 * function. The mobile-app URL each row also gains is left out.
 */
module ThreadUserDecorator {
  import opened Entities
  import opened Collections

  /**
   * A thread row as the decorator sees it. `lastPostUserId` is the
   * `last_post_user_id` column of a decorated listing row; rows read
   * straight from the threads table have no such column, so it is null.
   */
  datatype ThreadRow = ThreadRow(thread: Thread, lastPostUserId: Option<int>)

  datatype UserThreadRow = UserThreadRow(
    row: ThreadRow,
    authorDisplayName: string,
    authorAvatarUrl: string,
    authorAccessLevel: string)

  /** The plucked `author_id` column followed by the plucked `last_post_user_id` column. */
  function PluckedUserIds(rows: seq<ThreadRow>): seq<Option<int>> {
    seq(|rows|, i requires 0 <= i < |rows| => Some(rows[i].thread.authorId))
      + seq(|rows|, i requires 0 <= i < |rows| => rows[i].lastPostUserId)
  }

  /** The ids handed to the one `getUsersByIds` call: the plucked ids, de-duplicated. */
  function UserIds(rows: seq<ThreadRow>): seq<Option<int>> {
    Distinct(PluckedUserIds(rows))
  }

  /** The user ids in `ids` (a null id names no user). */
  function IdSet(ids: seq<Option<int>>): set<int> {
    set o | o in ids && o.Some? :: o.value
  }

  /** Every author and every last-post author is asked for, each id once. */
  lemma UserIdsCoverRows(rows: seq<ThreadRow>)
    ensures NoDuplicates(UserIds(rows))
    ensures forall i :: 0 <= i < |rows| ==> Some(rows[i].thread.authorId) in UserIds(rows)
    ensures forall i :: 0 <= i < |rows| ==> rows[i].lastPostUserId in UserIds(rows)
  {
    var plucked := PluckedUserIds(rows);
    forall i | 0 <= i < |rows|
      ensures Some(rows[i].thread.authorId) in plucked && rows[i].lastPostUserId in plucked
    {
      assert plucked[i] == Some(rows[i].thread.authorId);
      assert plucked[|rows| + i] == rows[i].lastPostUserId;
    }
  }

  /** Nothing but authors and last-post authors of the rows is asked for. */
  lemma UserIdsOnlyNamed(rows: seq<ThreadRow>)
    ensures forall o :: o in UserIds(rows) ==>
      exists i :: 0 <= i < |rows| && (o == Some(rows[i].thread.authorId) || o == rows[i].lastPostUserId)
  {
    var plucked := PluckedUserIds(rows);
    forall o | o in UserIds(rows)
      ensures exists i :: 0 <= i < |rows| && (o == Some(rows[i].thread.authorId) || o == rows[i].lastPostUserId)
    {
      var k :| 0 <= k < |plucked| && plucked[k] == o;
      if k < |rows| {
        assert o == Some(rows[k].thread.authorId);
      } else {
        assert o == rows[k - |rows|].lastPostUserId;
      }
    }
  }

  /** The fields the decorator adds to one row, looking the author up in `users`. */
  function DecorateRow(row: ThreadRow, users: map<int, User>, accessLevelOf: int -> string, defaultAvatarUrl: string): UserThreadRow {
    var a := row.thread.authorId;
    UserThreadRow(
      row,
      if a in users then users[a].displayName else "",
      if a in users then AvatarUrl(users[a], defaultAvatarUrl) else defaultAvatarUrl,
      accessLevelOf(a))
  }

  /**
   * What a decorated row holds: the row itself unchanged, the author's
   * display name or `''` when the author is unknown, the profile picture or
   * else the default avatar, and the author's access level.
   */
  lemma DecoratedAuthorFields(row: ThreadRow, users: map<int, User>, accessLevelOf: int -> string, defaultAvatarUrl: string)
    ensures var d := DecorateRow(row, users, accessLevelOf, defaultAvatarUrl);
      && d.row == row
      && (row.thread.authorId in users ==> d.authorDisplayName == users[row.thread.authorId].displayName)
      && (row.thread.authorId !in users ==> d.authorDisplayName == "" && d.authorAvatarUrl == defaultAvatarUrl)
      && (row.thread.authorId in users && users[row.thread.authorId].profilePictureUrl.Some? ==>
            d.authorAvatarUrl == users[row.thread.authorId].profilePictureUrl.value)
      && (row.thread.authorId in users && users[row.thread.authorId].profilePictureUrl.None? ==>
            d.authorAvatarUrl == defaultAvatarUrl)
      && d.authorAccessLevel == accessLevelOf(row.thread.authorId)
  {
  }

  /**
   * The fetched users agree with the directory on every author of the
   * batch, so looking authors up in the batch result is looking them up in
   * the directory.
   */
  lemma FetchedUsersAgree(rows: seq<ThreadRow>, directory: map<int, User>, i: int)
    requires 0 <= i < |rows|
    ensures var users := Restrict(directory, IdSet(UserIds(rows)));
      var a := rows[i].thread.authorId;
      && (a in users <==> a in directory)
      && (a in users ==> users[a] == directory[a])
  {
    UserIdsCoverRows(rows);
    assert Some(rows[i].thread.authorId) in UserIds(rows);
  }

  /**
   * `decorate`: one batch fetch, then a pass over the rows. The result has
   * the rows in their order, each decorated as if its author had been looked
   * up in the whole directory.
   */
  method Decorate(rows: seq<ThreadRow>, directory: map<int, User>, accessLevelOf: int -> string, defaultAvatarUrl: string)
    returns (out: seq<UserThreadRow>)
    ensures |out| == |rows|
    ensures forall i :: 0 <= i < |rows| ==> out[i] == DecorateRow(rows[i], directory, accessLevelOf, defaultAvatarUrl)
  {
    var userIds := UserIds(rows);
    var users := Restrict(directory, IdSet(userIds));
    out := [];
    for i := 0 to |rows|
      invariant |out| == i
      invariant forall j :: 0 <= j < i ==> out[j] == DecorateRow(rows[j], directory, accessLevelOf, defaultAvatarUrl)
    {
      FetchedUsersAgree(rows, directory, i);
      out := out + [DecorateRow(rows[i], users, accessLevelOf, defaultAvatarUrl)];
    }
  }

  // ---------------------------------------------------------------------
  // The decorator as written

  /**
   * One row as the source computes it: the display name is guarded by a
   * presence check, but the avatar line indexes the user map without one, so
   * an author missing from the batch result aborts the whole call (`None`).
   */
  function DecorateRowAsWritten(row: ThreadRow, users: map<int, User>, accessLevelOf: int -> string, defaultAvatarUrl: string)
    : Option<UserThreadRow>
  {
    var a := row.thread.authorId;
    if a !in users then None
    else Some(UserThreadRow(
      row,
      if a in users then users[a].displayName else "",
      AvatarUrl(users[a], defaultAvatarUrl),
      accessLevelOf(a)))
  }

  function DecorateRowsAsWritten(rows: seq<ThreadRow>, users: map<int, User>, accessLevelOf: int -> string, defaultAvatarUrl: string)
    : Option<seq<UserThreadRow>>
  {
    if rows == [] then Some([])
    else
      match DecorateRowAsWritten(rows[0], users, accessLevelOf, defaultAvatarUrl)
      case None => None
      case Some(d) =>
        match DecorateRowsAsWritten(rows[1..], users, accessLevelOf, defaultAvatarUrl)
        case None => None
        case Some(rest) => Some([d] + rest)
  }

  function DecorateAsWritten(rows: seq<ThreadRow>, directory: map<int, User>, accessLevelOf: int -> string, defaultAvatarUrl: string)
    : Option<seq<UserThreadRow>>
  {
    DecorateRowsAsWritten(rows, Restrict(directory, IdSet(UserIds(rows))), accessLevelOf, defaultAvatarUrl)
  }

  /**
   * The source and the corrected decorator agree on a row whose author is
   * known; on an unknown author the source aborts, so its `''` display-name
   * default can never be produced.
   */
  lemma AsWrittenAgreesOnKnownAuthors(row: ThreadRow, users: map<int, User>, accessLevelOf: int -> string, defaultAvatarUrl: string)
    ensures row.thread.authorId in users ==>
      DecorateRowAsWritten(row, users, accessLevelOf, defaultAvatarUrl) == Some(DecorateRow(row, users, accessLevelOf, defaultAvatarUrl))
    ensures row.thread.authorId !in users <==> DecorateRowAsWritten(row, users, accessLevelOf, defaultAvatarUrl).None?
    ensures forall d :: DecorateRowAsWritten(row, users, accessLevelOf, defaultAvatarUrl) == Some(d) ==> d.authorDisplayName != "" || (row.thread.authorId in users && users[row.thread.authorId].displayName == "")
  {
  }

  /**
   * The source aborts on a batch as soon as one author is unknown, while
   * the corrected decorator returns every row.
   */
  lemma {:induction false} AsWrittenAbortsOnUnknownAuthor(rows: seq<ThreadRow>, users: map<int, User>, accessLevelOf: int -> string, defaultAvatarUrl: string, i: int)
    requires 0 <= i < |rows| && rows[i].thread.authorId !in users
    ensures DecorateRowsAsWritten(rows, users, accessLevelOf, defaultAvatarUrl).None?
  {
    if i > 0 {
      AsWrittenAbortsOnUnknownAuthor(rows[1..], users, accessLevelOf, defaultAvatarUrl, i - 1);
    }
  }

  /** With every author in the batch result, the source decorates every row, in order, as the corrected decorator does. */
  lemma {:induction false} AsWrittenSucceedsOnKnownAuthors(rows: seq<ThreadRow>, users: map<int, User>, accessLevelOf: int -> string, defaultAvatarUrl: string)
    requires forall i :: 0 <= i < |rows| ==> rows[i].thread.authorId in users
    ensures var r := DecorateRowsAsWritten(rows, users, accessLevelOf, defaultAvatarUrl);
      && r.Some? && |r.value| == |rows|
      && forall i :: 0 <= i < |rows| ==> r.value[i] == DecorateRow(rows[i], users, accessLevelOf, defaultAvatarUrl)
  {
    if rows != [] {
      AsWrittenSucceedsOnKnownAuthors(rows[1..], users, accessLevelOf, defaultAvatarUrl);
      AsWrittenAgreesOnKnownAuthors(rows[0], users, accessLevelOf, defaultAvatarUrl);
      var rest := DecorateRowsAsWritten(rows[1..], users, accessLevelOf, defaultAvatarUrl).value;
      var r := [DecorateRow(rows[0], users, accessLevelOf, defaultAvatarUrl)] + rest;
      assert DecorateRowsAsWritten(rows, users, accessLevelOf, defaultAvatarUrl) == Some(r);
      forall i | 0 <= i < |rows| ensures r[i] == DecorateRow(rows[i], users, accessLevelOf, defaultAvatarUrl) {
        if i > 0 {
          assert r[i] == rest[i - 1] && rows[1..][i - 1] == rows[i];
        }
      }
    }
  }

  /**
   * The source's `decorate` over a batch: it fails exactly when some author
   * is unknown to the provider, and otherwise returns every row decorated
   * as by the corrected decorator.
   */
  lemma DecorateAsWrittenOutcome(rows: seq<ThreadRow>, directory: map<int, User>, accessLevelOf: int -> string, defaultAvatarUrl: string)
    ensures var r := DecorateAsWritten(rows, directory, accessLevelOf, defaultAvatarUrl);
      && (r.None? <==> exists i :: 0 <= i < |rows| && rows[i].thread.authorId !in directory)
      && (r.Some? ==> |r.value| == |rows|)
      && (r.Some? ==> forall i :: 0 <= i < |rows| ==> r.value[i] == DecorateRow(rows[i], directory, accessLevelOf, defaultAvatarUrl))
  {
    var users := Restrict(directory, IdSet(UserIds(rows)));
    forall i | 0 <= i < |rows|
      ensures (rows[i].thread.authorId in users <==> rows[i].thread.authorId in directory)
      ensures DecorateRow(rows[i], users, accessLevelOf, defaultAvatarUrl) == DecorateRow(rows[i], directory, accessLevelOf, defaultAvatarUrl)
    {
      FetchedUsersAgree(rows, directory, i);
    }
    if i :| 0 <= i < |rows| && rows[i].thread.authorId !in directory {
      AsWrittenAbortsOnUnknownAuthor(rows, users, accessLevelOf, defaultAvatarUrl, i);
    } else {
      AsWrittenSucceedsOnKnownAuthors(rows, users, accessLevelOf, defaultAvatarUrl);
    }
  }

  /** A single thread by an author the provider does not know. */
  lemma UnknownAuthorExample(accessLevelOf: int -> string)
    ensures var rows := [ThreadRow(Thread(1, 1, "t", STATE_PUBLISHED, false, 7, None), None)];
      && DecorateAsWritten(rows, map[], accessLevelOf, "default.png").None?
      && DecorateRow(rows[0], map[], accessLevelOf, "default.png").authorDisplayName == ""
      && DecorateRow(rows[0], map[], accessLevelOf, "default.png").authorAvatarUrl == "default.png"
  {
    var rows := [ThreadRow(Thread(1, 1, "t", STATE_PUBLISHED, false, 7, None), None)];
    AsWrittenAbortsOnUnknownAuthor(rows, Restrict(map[], IdSet(UserIds(rows))), accessLevelOf, "default.png", 0);
  }
}
