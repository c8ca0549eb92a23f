/**
  The badge registry: creating a badge's metadata row
  (`write_native_badgedata`) and looking a badge up while bumping its rarity
  counter (`get_update_badgedata_state`). Both find the row through the
  (contract, badge) secondary key.
 */
module Badges {
  import opened Primitives
  import opened Keys
  import opened MultiIndex
  import opened Tables

  /** `badgedata_details`: what the achievement path needs to know about a badge. */
  datatype BadgedataDetails = BadgedataDetails(badgeId: U64, writeToAa: bool, aaTemplateId: U32)

  /** Position of the row registered for (contract, badge), if any. */
  function FindBadge(rows: seq<BadgeRow>, contract: Name, badge: Name): (i: Option<nat>)
    ensures i.Some? ==> i.value < |rows| && rows[i.value].contract == contract && rows[i.value].badge == badge
    ensures i.Some? ==> forall j :: 0 <= j < i.value ==> !(rows[j].contract == contract && rows[j].badge == badge)
    ensures i.None? <==> forall j :: 0 <= j < |rows| ==> !(rows[j].contract == contract && rows[j].badge == badge)
  {
    var key := Pack(contract, badge);
    var i := Find(rows, ContractBadgeKey, key);
    // The packed key matches exactly the rows that carry the same pair.
    assert forall j :: 0 <= j < |rows| ==> (ContractBadgeKey(rows[j]) == key <==>
      rows[j].contract == contract && rows[j].badge == badge) by {
      forall j | 0 <= j < |rows| {
        PackInjective(rows[j].contract, rows[j].badge, contract, badge);
      }
    }
    i
  }

  /** The row of `row` after `count` more achievements, with `uint32_t` wrap-around. */
  function Bumped(row: BadgeRow, count: U8): BadgeRow {
    row.(rarityCounts := AddU32(row.rarityCounts, count))
  }

  /** `get_update_badgedata_state(org, badge, contract, count)`. */
  function GetUpdateBadgedataState(db: Db, org: Name, badge: Name, contract: Name, count: U8)
    : (t: Transition<BadgedataDetails>)
    ensures t.status.Err? <==>
      forall j :: 0 <= j < |db.Badges(org)| ==>
        !(db.Badges(org)[j].contract == contract && db.Badges(org)[j].badge == badge)
    ensures t.status.Err? ==> t.status.error == BadgeNotFound && t.db == db
    ensures OnlyBadgesOf(db, t.db, org)
    ensures t.status.Ok? ==>
      var rows := db.Badges(org);
      var rows' := t.db.Badges(org);
      var i := FindBadge(rows, contract, badge).value;
      && rows[i].contract == contract && rows[i].badge == badge
      && |rows'| == |rows|
      && (forall j :: 0 <= j < |rows| && j != i ==> rows'[j] == rows[j])
      && rows'[i] == rows[i].(rarityCounts := rows'[i].rarityCounts)
      && rows'[i].rarityCounts == (rows[i].rarityCounts + count) % TWO_32
      && t.status.value == BadgedataDetails(rows[i].badgeId, rows[i].writeToAa, rows[i].aaTemplateId)
  {
    var rows := db.Badges(org);
    match FindBadge(rows, contract, badge)
    case None => Transition(db, Err(BadgeNotFound))
    case Some(i) =>
      var row := rows[i];
      Transition(db.WithBadges(org, rows[i := Bumped(row, count)]),
                 Ok(BadgedataDetails(row.badgeId, row.writeToAa, row.aaTemplateId)))
  }

  /**
    `write_native_badgedata(org, authorized_account, badge, ipfs, details, write_to_aa)`.
    The new row's `aa_template_id` is never assigned by the contract, so the
    model takes whatever value it holds as the parameter `unsetTemplateId`.
   */
  function WriteNativeBadgedata(db: Db, org: Name, authorizedAccount: Name, badge: Name,
                                ipfs: Bytes, details: Bytes, writeToAa: bool, unsetTemplateId: U32)
    : (t: Transition<U8>)
    ensures OnlyBadgesOf(db, t.db, org)
    ensures t.status.Err? ==> t.db == db
    ensures t.status == Err(BadgeAlreadyExists) <==>
      exists j :: 0 <= j < |db.Badges(org)| &&
        db.Badges(org)[j].contract == authorizedAccount && db.Badges(org)[j].badge == badge
    ensures t.status == Err(PrimaryKeyExhausted) <==>
      && (forall j :: 0 <= j < |db.Badges(org)| ==>
            !(db.Badges(org)[j].contract == authorizedAccount && db.Badges(org)[j].badge == badge))
      && exists j :: 0 <= j < |db.Badges(org)| && db.Badges(org)[j].badgeId == TWO_64 - 1
    ensures t.status != Err(BadgeNotFound)
    ensures t.status.Ok? ==>
      var rows := db.Badges(org);
      var rows' := t.db.Badges(org);
      && t.status.value == 1
      && |rows'| == |rows| + 1
      && rows'[..|rows|] == rows
      && rows'[|rows|].contract == authorizedAccount
      && rows'[|rows|].badge == badge
      && rows'[|rows|].ipfs == ipfs
      && rows'[|rows|].details == details
      && rows'[|rows|].writeToAa == writeToAa
      && rows'[|rows|].aaTemplateId == unsetTemplateId
      && rows'[|rows|].rarityCounts == 0
      && (forall j :: 0 <= j < |rows| ==> rows[j].badgeId < rows'[|rows|].badgeId)
      && (|rows| > 0 ==> exists j :: 0 <= j < |rows| && rows[j].badgeId == rows'[|rows|].badgeId - 1)
      && (|rows| == 0 ==> rows'[0].badgeId == 0)
  {
    var rows := db.Badges(org);
    if FindBadge(rows, authorizedAccount, badge).Some? then
      Transition(db, Err(BadgeAlreadyExists))
    else
      match AvailablePrimaryKey(rows, BadgeId)
      case None => Transition(db, Err(PrimaryKeyExhausted))
      case Some(id) =>
        var row := BadgeRow(id, authorizedAccount, badge, writeToAa, unsetTemplateId, ipfs, details, 0);
        Transition(db.WithBadges(org, rows + [row]), Ok(1))
  }

  /** Bumping a rarity counter keeps the badge table well formed. */
  lemma GetUpdateKeepsTableOk(db: Db, org: Name, badge: Name, contract: Name, count: U8)
    requires BadgeTableOk(db.Badges(org))
    ensures BadgeTableOk(GetUpdateBadgedataState(db, org, badge, contract, count).db.Badges(org))
  {
    var rows := db.Badges(org);
    var t := GetUpdateBadgedataState(db, org, badge, contract, count);
    if t.status.Ok? {
      var rows' := t.db.Badges(org);
      assert forall j :: 0 <= j < |rows| ==> BadgeId(rows'[j]) == BadgeId(rows[j]);
      assert forall j :: 0 <= j < |rows| ==> ContractBadgeKey(rows'[j]) == ContractBadgeKey(rows[j]);
    }
  }

  /** Registering a badge keeps the badge table well formed. */
  lemma WriteNativeBadgedataKeepsTableOk(db: Db, org: Name, authorizedAccount: Name, badge: Name,
                                         ipfs: Bytes, details: Bytes, writeToAa: bool, unsetTemplateId: U32)
    requires BadgeTableOk(db.Badges(org))
    ensures BadgeTableOk(WriteNativeBadgedata(db, org, authorizedAccount, badge, ipfs, details, writeToAa, unsetTemplateId).db.Badges(org))
  {
    var rows := db.Badges(org);
    var t := WriteNativeBadgedata(db, org, authorizedAccount, badge, ipfs, details, writeToAa, unsetTemplateId);
    if t.status.Ok? {
      var rows' := t.db.Badges(org);
      var row := rows'[|rows|];
      assert rows' == rows + [row];
      forall j | 0 <= j < |rows| ensures ContractBadgeKey(rows[j]) != ContractBadgeKey(row) {
        ContractBadgeKeyInjective(rows[j], row);
      }
      AppendKeepsAscending(rows, BadgeId, row);
      AppendKeepsUnique(rows, ContractBadgeKey, row);
    }
  }

  /**
    Registering the same (contract, badge) twice: the second attempt aborts
    with `BadgeAlreadyExists` and the row of the first, with its id and a
    rarity count of 0, is what the table still holds.
   */
  lemma RegisterTwiceFails(db: Db, org: Name, contract: Name, badge: Name,
                           ipfs: Bytes, details: Bytes, writeToAa: bool, tid: U32,
                           ipfs2: Bytes, details2: Bytes, writeToAa2: bool, tid2: U32)
    requires WriteNativeBadgedata(db, org, contract, badge, ipfs, details, writeToAa, tid).status.Ok?
    ensures var db1 := WriteNativeBadgedata(db, org, contract, badge, ipfs, details, writeToAa, tid).db;
      var t2 := WriteNativeBadgedata(db1, org, contract, badge, ipfs2, details2, writeToAa2, tid2);
      && t2.status == Err(BadgeAlreadyExists)
      && t2.db == db1
      && db1.Badges(org)[|db.Badges(org)|].rarityCounts == 0
  {
    var db1 := WriteNativeBadgedata(db, org, contract, badge, ipfs, details, writeToAa, tid).db;
    var n := |db.Badges(org)|;
    assert db1.Badges(org)[n].contract == contract && db1.Badges(org)[n].badge == badge;
  }

  /**
    A badge just registered is found by the next lookup,
    which reports the new row's id, mirror flag and template id, and raises
    its rarity counter from 0 to `count`.
   */
  lemma RegisteredBadgeIsFound(db: Db, org: Name, contract: Name, badge: Name,
                               ipfs: Bytes, details: Bytes, writeToAa: bool, tid: U32, count: U8)
    requires WriteNativeBadgedata(db, org, contract, badge, ipfs, details, writeToAa, tid).status.Ok?
    ensures var db1 := WriteNativeBadgedata(db, org, contract, badge, ipfs, details, writeToAa, tid).db;
      var t := GetUpdateBadgedataState(db1, org, badge, contract, count);
      var n := |db.Badges(org)|;
      && t.status.Ok?
      && t.status.value == BadgedataDetails(db1.Badges(org)[n].badgeId, writeToAa, tid)
      && t.db.Badges(org)[n].rarityCounts == count
  {
    var rows := db.Badges(org);
    var db1 := WriteNativeBadgedata(db, org, contract, badge, ipfs, details, writeToAa, tid).db;
    var rows1 := db1.Badges(org);
    var n := |rows|;
    assert rows1 == rows + [rows1[n]];
    assert rows1[n].contract == contract && rows1[n].badge == badge;
    assert FindBadge(rows1, contract, badge) == Some(n) by {
      assert forall j :: 0 <= j < n ==> rows1[j] == rows[j];
      assert FindBadge(rows, contract, badge).None?;
    }
    assert GetUpdateBadgedataState(db1, org, badge, contract, count).db
        == db1.WithBadges(org, rows1[n := Bumped(rows1[n], count)]);
  }

  /** The first badge an org registers in empty storage gets id 0 and rarity 0. */
  lemma FirstBadgeGetsIdZero(org: Name, contract: Name, badge: Name,
                             ipfs: Bytes, details: Bytes, writeToAa: bool, tid: U32)
    ensures var t := WriteNativeBadgedata(EmptyDb, org, contract, badge, ipfs, details, writeToAa, tid);
      && t.status == Ok(1)
      && t.db.Badges(org) == [BadgeRow(0, contract, badge, writeToAa, tid, ipfs, details, 0)]
  {
    var t := WriteNativeBadgedata(EmptyDb, org, contract, badge, ipfs, details, writeToAa, tid);
    assert EmptyDb.Badges(org) == [];
    assert t.db.Badges(org)[0] == BadgeRow(0, contract, badge, writeToAa, tid, ipfs, details, 0);
  }

  /** Bumping the row a lookup found leaves the next lookup of the same pair on that row. */
  lemma BumpKeepsPosition(rows: seq<BadgeRow>, contract: Name, badge: Name, count: U8)
    requires FindBadge(rows, contract, badge).Some?
    ensures var i := FindBadge(rows, contract, badge).value;
      FindBadge(rows[i := Bumped(rows[i], count)], contract, badge) == Some(i)
  {
    var i := FindBadge(rows, contract, badge).value;
    var rows' := rows[i := Bumped(rows[i], count)];
    assert forall j :: 0 <= j < i ==> rows'[j] == rows[j];
    assert rows'[i].contract == contract && rows'[i].badge == badge;
  }

  /**
    Two lookups of the same badge with counts `c1` and `c2` add both counts
    to its rarity counter (modulo 2^32), and leave every other row alone.
   */
  lemma RarityAccumulates(db: Db, org: Name, contract: Name, badge: Name, c1: U8, c2: U8)
    requires GetUpdateBadgedataState(db, org, badge, contract, c1).status.Ok?
    ensures var t1 := GetUpdateBadgedataState(db, org, badge, contract, c1);
      var t2 := GetUpdateBadgedataState(t1.db, org, badge, contract, c2);
      var i := FindBadge(db.Badges(org), contract, badge).value;
      && t2.status.Ok?
      && t2.status.value == t1.status.value
      && |t2.db.Badges(org)| == |db.Badges(org)|
      && t2.db.Badges(org)[i].rarityCounts == (db.Badges(org)[i].rarityCounts + c1 + c2) % TWO_32
      && forall j :: 0 <= j < |db.Badges(org)| && j != i ==> t2.db.Badges(org)[j] == db.Badges(org)[j]
  {
    var rows := db.Badges(org);
    var i := FindBadge(rows, contract, badge).value;
    var rows1 := rows[i := Bumped(rows[i], c1)];
    assert GetUpdateBadgedataState(db, org, badge, contract, c1).db == db.WithBadges(org, rows1);
    BumpKeepsPosition(rows, contract, badge, c1);
    var db1 := db.WithBadges(org, rows1);
    var rows2 := rows1[i := Bumped(rows1[i], c2)];
    assert GetUpdateBadgedataState(db1, org, badge, contract, c2).db == db1.WithBadges(org, rows2);
  }

  /**
    The rarity counter is a `uint32_t`: it does not decrease while the sum
    fits, and it wraps to a smaller value once it does not.
   */
  lemma RarityWrapsAtLimit(db: Db, org: Name, contract: Name, badge: Name, count: U8)
    requires GetUpdateBadgedataState(db, org, badge, contract, count).status.Ok?
    ensures var i := FindBadge(db.Badges(org), contract, badge).value;
      var before := db.Badges(org)[i].rarityCounts;
      var after := GetUpdateBadgedataState(db, org, badge, contract, count).db.Badges(org)[i].rarityCounts;
      && (before + count < TWO_32 ==> before <= after)
      && (before + count >= TWO_32 ==> after < before)
  {
  }
}
