/**
 * `SoftDelete::delete`: an `update ... set deleted_at = now where id = ?`
 * over a repository's table. Rows are never removed; the matching row's
 * `deleted_at` is overwritten, whether or not it was already set. The
 * posts repository is the one that mixes the trait in, so the table here
 * holds posts.
 */
module SoftDelete {
  import opened Entities
  import opened Collections

  function HasId(id: int): Post -> bool {
    (p: Post) => p.id == id
  }

  function Live(): Post -> bool {
    (p: Post) => p.deletedAt.None?
  }

  /** The table after the update: every row with id `id` stamped with `now`, every other row as it was. */
  function SoftDeleted(rows: seq<Post>, id: int, now: int): (r: seq<Post>)
    ensures |r| == |rows|
  {
    seq(|rows|, i requires 0 <= i < |rows| => if rows[i].id == id then rows[i].(deletedAt := Some(now)) else rows[i])
  }

  class PostTable {
    var rows: seq<Post>

    constructor(rows: seq<Post>)
      ensures this.rows == rows
    {
      this.rows := rows;
    }

    /** `delete($id)`: stamps the matching rows in place and answers how many rows the update matched. */
    method Delete(id: int, now: int) returns (affected: nat)
      modifies this
      ensures rows == SoftDeleted(old(rows), id, now)
      ensures affected == Count(old(rows), HasId(id))
    {
      ghost var before := rows;
      affected := 0;
      for i := 0 to |rows|
        invariant rows == SoftDeleted(before[..i], id, now) + before[i..]
        invariant affected == Count(before[..i], HasId(id))
      {
        StepOne(before, i, id, now);
        if rows[i].id == id {
          rows := rows[i := rows[i].(deletedAt := Some(now))];
          affected := affected + 1;
        }
      }
      assert before[..|before|] == before;
    }
  }

  /** Visiting row `i` extends the stamped prefix by that row and the count by its match. */
  lemma StepOne(before: seq<Post>, i: int, id: int, now: int)
    requires 0 <= i < |before|
    ensures var stamped := if before[i].id == id then before[i].(deletedAt := Some(now)) else before[i];
      && (SoftDeleted(before[..i], id, now) + before[i..])[i := stamped] == SoftDeleted(before[..i + 1], id, now) + before[i + 1..]
      && Count(before[..i + 1], HasId(id)) == Count(before[..i], HasId(id)) + (if before[i].id == id then 1 else 0)
  {
    var stamped := if before[i].id == id then before[i].(deletedAt := Some(now)) else before[i];
    var prefix := SoftDeleted(before[..i], id, now);
    var longer := SoftDeleted(before[..i + 1], id, now);
    assert longer == prefix + [stamped];
    assert (prefix + before[i..])[i := stamped] == prefix + [stamped] + before[i + 1..];
    CountStep(before, i, HasId(id));
  }

  lemma CountStep(before: seq<Post>, i: int, p: Post -> bool)
    requires 0 <= i < |before|
    ensures Count(before[..i + 1], p) == Count(before[..i], p) + (if p(before[i]) then 1 else 0)
  {
    assert before[..i + 1] == before[..i] + [before[i]];
    CountAppend(before[..i], [before[i]], p);
  }

  /** Deleting an id no row has matches nothing and changes nothing. */
  lemma MissingIdIsNoOp(rows: seq<Post>, id: int, now: int)
    requires forall i :: 0 <= i < |rows| ==> rows[i].id != id
    ensures SoftDeleted(rows, id, now) == rows
    ensures Count(rows, HasId(id)) == 0
  {
  }

  /**
   * No row is removed or moved, no column but `deleted_at` changes, the
   * matching rows end soft-deleted at `now` and every other row is as it was.
   */
  lemma OnlyDeletedAtChanges(rows: seq<Post>, id: int, now: int)
    ensures var r := SoftDeleted(rows, id, now);
      && |r| == |rows|
      && (forall i :: 0 <= i < |rows| ==> r[i].(deletedAt := rows[i].deletedAt) == rows[i])
      && (forall i :: 0 <= i < |rows| && rows[i].id == id ==> r[i].deletedAt == Some(now))
      && (forall i :: 0 <= i < |rows| && rows[i].id != id ==> r[i] == rows[i])
  {
  }

  /** With no `deleted_at is null` guard, a second delete overwrites the first timestamp. */
  lemma DeleteTwiceKeepsLaterTime(rows: seq<Post>, id: int, first: int, second: int)
    ensures SoftDeleted(SoftDeleted(rows, id, first), id, second) == SoftDeleted(rows, id, second)
    ensures Count(SoftDeleted(rows, id, first), HasId(id)) == Count(rows, HasId(id))
  {
    var once := SoftDeleted(rows, id, first);
    assert forall i :: 0 <= i < |rows| ==> HasId(id)(once[i]) == HasId(id)(rows[i]);
    CountPositionwise(rows, once, HasId(id));
  }

  /**
   * Deleting takes exactly the live rows with that id out of the live rows:
   * the number of live rows drops by their number.
   */
  lemma {:induction false} LiveRowsDrop(rows: seq<Post>, id: int, now: int)
    ensures Count(SoftDeleted(rows, id, now), Live()) == Count(rows, Live()) - Count(rows, (p: Post) => p.id == id && p.deletedAt.None?)
  {
    if rows != [] {
      var r := SoftDeleted(rows, id, now);
      assert r[1..] == SoftDeleted(rows[1..], id, now);
      LiveRowsDrop(rows[1..], id, now);
    }
  }
}
