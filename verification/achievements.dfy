/**
  The achievement ledger `write_native_achievement`: one row per
  (account, badge id), created on the first achievement and incremented on
  every later one.
 */
module Achievements {
  import opened Primitives
  import opened Keys
  import opened MultiIndex
  import opened Tables

  /** Position of the row for (account, badgeId), if any. */
  function FindAchievement(rows: seq<AchievementRow>, account: Name, badgeId: U64): (i: Option<nat>)
    ensures i.Some? ==> i.value < |rows| && rows[i.value].account == account && rows[i.value].badgeId == badgeId
    ensures i.Some? ==> forall j :: 0 <= j < i.value ==> !(rows[j].account == account && rows[j].badgeId == badgeId)
    ensures i.None? <==> forall j :: 0 <= j < |rows| ==> !(rows[j].account == account && rows[j].badgeId == badgeId)
  {
    var key := Pack(account, badgeId);
    var i := Find(rows, AccBadgeKey, key);
    // The packed key matches exactly the rows that carry the same pair.
    assert forall j :: 0 <= j < |rows| ==> (AccBadgeKey(rows[j]) == key <==>
      rows[j].account == account && rows[j].badgeId == badgeId) by {
      forall j | 0 <= j < |rows| {
        PackInjective(rows[j].account, rows[j].badgeId, account, badgeId);
      }
    }
    i
  }

  /** How many rows of the table belong to (account, badgeId). */
  function RowsFor(rows: seq<AchievementRow>, account: Name, badgeId: U64): nat {
    |set j | 0 <= j < |rows| && rows[j].account == account && rows[j].badgeId == badgeId|
  }

  /**
    `write_native_achievement(org, account, badge_id, count)`: returns how
    many rows it inserted.
   */
  function WriteNativeAchievement(db: Db, org: Name, account: Name, badgeId: U64, count: U8)
    : (t: Transition<U8>)
    ensures OnlyAchievementsOf(db, t.db, org)
    ensures t.status.Err? ==> t.db == db
    ensures t.status.Err? ==>
      && t.status.error == PrimaryKeyExhausted
      && FindAchievement(db.Achievements(org), account, badgeId).None?
      && exists j :: 0 <= j < |db.Achievements(org)| && db.Achievements(org)[j].id == TWO_64 - 1
    // create: no row for the pair yet
    ensures t.status == Ok(1) <==> t.status.Ok? && FindAchievement(db.Achievements(org), account, badgeId).None?
    ensures t.status == Ok(1) ==>
      var rows := db.Achievements(org);
      var rows' := t.db.Achievements(org);
      && |rows'| == |rows| + 1
      && rows'[..|rows|] == rows
      && rows'[|rows|].account == account
      && rows'[|rows|].badgeId == badgeId
      && rows'[|rows|].count == count
      && (forall j :: 0 <= j < |rows| ==> rows[j].id < rows'[|rows|].id)
      && (|rows| > 0 ==> exists j :: 0 <= j < |rows| && rows[j].id == rows'[|rows|].id - 1)
      && (|rows| == 0 ==> rows'[0].id == 0)
    // increment: the first row for the pair gets `count` more, modulo 2^32
    ensures t.status == Ok(0) <==> FindAchievement(db.Achievements(org), account, badgeId).Some?
    ensures t.status == Ok(0) ==>
      var rows := db.Achievements(org);
      var rows' := t.db.Achievements(org);
      var i := FindAchievement(rows, account, badgeId).value;
      && |rows'| == |rows|
      && (forall j :: 0 <= j < |rows| && j != i ==> rows'[j] == rows[j])
      && rows'[i] == rows[i].(count := rows'[i].count)
      && rows'[i].count == (rows[i].count + count) % TWO_32
  {
    var rows := db.Achievements(org);
    match FindAchievement(rows, account, badgeId)
    case None =>
      (match AvailablePrimaryKey(rows, AchievementId)
       case None => Transition(db, Err(PrimaryKeyExhausted))
       case Some(id) =>
         Transition(db.WithAchievements(org, rows + [AchievementRow(id, account, badgeId, count)]), Ok(1)))
    case Some(i) =>
      var row := rows[i];
      Transition(db.WithAchievements(org, rows[i := row.(count := AddU32(row.count, count))]), Ok(0))
  }

  /** Recording an achievement keeps the achievement table well formed. */
  lemma WriteNativeAchievementKeepsTableOk(db: Db, org: Name, account: Name, badgeId: U64, count: U8)
    requires AchievementTableOk(db.Achievements(org))
    ensures AchievementTableOk(WriteNativeAchievement(db, org, account, badgeId, count).db.Achievements(org))
  {
    var rows := db.Achievements(org);
    var t := WriteNativeAchievement(db, org, account, badgeId, count);
    var rows' := t.db.Achievements(org);
    if t.status == Ok(1) {
      var row := rows'[|rows|];
      assert rows' == rows + [row];
      forall j | 0 <= j < |rows| ensures AccBadgeKey(rows[j]) != AccBadgeKey(row) {
        AccBadgeKeyInjective(rows[j], row);
      }
      AppendKeepsAscending(rows, AchievementId, row);
      AppendKeepsUnique(rows, AccBadgeKey, row);
    } else if t.status == Ok(0) {
      assert forall j :: 0 <= j < |rows| ==> AchievementId(rows'[j]) == AchievementId(rows[j]);
      assert forall j :: 0 <= j < |rows| ==> AccBadgeKey(rows'[j]) == AccBadgeKey(rows[j]);
    }
  }

  /** In a well-formed table at most one row belongs to a pair. */
  lemma AtMostOneRow(rows: seq<AchievementRow>, account: Name, badgeId: U64)
    requires AchievementTableOk(rows)
    ensures RowsFor(rows, account, badgeId) <= 1
  {
    var s := set j | 0 <= j < |rows| && rows[j].account == account && rows[j].badgeId == badgeId;
    if s != {} {
      var j0 :| j0 in s;
      forall j | j in s ensures j == j0 {
        AccBadgeKeyInjective(rows[j], rows[j0]);
      }
      assert s == {j0};
    }
  }

  /**
    Whichever branch it takes, a successful write leaves exactly one row for
    the pair in a well-formed table.
   */
  lemma ExactlyOneRowAfterWrite(db: Db, org: Name, account: Name, badgeId: U64, count: U8)
    requires AchievementTableOk(db.Achievements(org))
    requires WriteNativeAchievement(db, org, account, badgeId, count).status.Ok?
    ensures RowsFor(WriteNativeAchievement(db, org, account, badgeId, count).db.Achievements(org), account, badgeId) == 1
  {
    var t := WriteNativeAchievement(db, org, account, badgeId, count);
    var rows' := t.db.Achievements(org);
    WriteNativeAchievementKeepsTableOk(db, org, account, badgeId, count);
    AtMostOneRow(rows', account, badgeId);
    var i := FindAchievement(rows', account, badgeId);
    assert i.Some? by {
      if t.status == Ok(1) {
        var n := |db.Achievements(org)|;
        assert rows'[n].account == account && rows'[n].badgeId == badgeId;
      } else {
        var k := FindAchievement(db.Achievements(org), account, badgeId).value;
        assert rows'[k].account == account && rows'[k].badgeId == badgeId;
      }
    }
    var s := set j | 0 <= j < |rows'| && rows'[j].account == account && rows'[j].badgeId == badgeId;
    assert i.value in s;
  }

  /**
    Create-or-increment accumulates: two successive writes of `c1` and `c2`
    for a pair that had no row leave one row holding `c1 + c2`.
   */
  lemma TwoWritesAccumulate(db: Db, org: Name, account: Name, badgeId: U64, c1: U8, c2: U8)
    requires FindAchievement(db.Achievements(org), account, badgeId).None?
    requires WriteNativeAchievement(db, org, account, badgeId, c1).status.Ok?
    ensures var t1 := WriteNativeAchievement(db, org, account, badgeId, c1);
      var t2 := WriteNativeAchievement(t1.db, org, account, badgeId, c2);
      var rows := db.Achievements(org);
      var rows2 := t2.db.Achievements(org);
      && t1.status == Ok(1)
      && t2.status == Ok(0)
      && |rows2| == |rows| + 1
      && rows2[..|rows|] == rows
      && rows2[|rows|].account == account
      && rows2[|rows|].badgeId == badgeId
      && rows2[|rows|].count == c1 + c2
  {
    var rows := db.Achievements(org);
    var t1 := WriteNativeAchievement(db, org, account, badgeId, c1);
    var rows1 := t1.db.Achievements(org);
    var n := |rows|;
    // The pair's only row in the new table is the appended one.
    assert FindAchievement(rows1, account, badgeId) == Some(n) by {
      assert rows1[..n] == rows;
      assert forall j :: 0 <= j < n ==> rows1[j] == rows[j];
      assert rows1[n].account == account && rows1[n].badgeId == badgeId;
    }
  }
}
