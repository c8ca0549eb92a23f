/**
  The contract's three tables, each scoped by org: `authorized` (trusted
  badge contracts), `badgedata` (badge metadata) and `achievements`
  (per-account counts). A scope nobody has written to is an empty table.
 */
module Tables {
  import opened Primitives
  import opened Keys
  import opened MultiIndex

  /** A trusted or adopted badge contract; the primary key is its name. */
  datatype Authorized = Authorized(trustedContract: Name)

  /** Metadata of a badge issued by a trusted contract. */
  datatype BadgeRow = BadgeRow(
    badgeId: U64,
    contract: Name,
    badge: Name,
    writeToAa: bool,
    aaTemplateId: U32,
    ipfs: Bytes,
    details: Bytes,
    rarityCounts: U32)

  /** How many times `account` has been given the badge `badgeId`. */
  datatype AchievementRow = AchievementRow(
    id: U64,
    account: Name,
    badgeId: U64,
    count: U32)

  function TrustedKey(r: Authorized): U64 { r.trustedContract }
  function BadgeId(r: BadgeRow): U64 { r.badgeId }
  function AchievementId(r: AchievementRow): U64 { r.id }

  /** `badgedata::contract_badge_key`: contract in the high half, badge in the low half. */
  function ContractBadgeKey(r: BadgeRow): U128 { Pack(r.contract, r.badge) }

  /** `achievements::acc_badge_key`: account in the high half, badge id in the low half. */
  function AccBadgeKey(r: AchievementRow): U128 { Pack(r.account, r.badgeId) }

  /** Two badge rows share a secondary key exactly when they share (contract, badge). */
  lemma ContractBadgeKeyInjective(r: BadgeRow, r': BadgeRow)
    ensures ContractBadgeKey(r) == ContractBadgeKey(r') <==> r.contract == r'.contract && r.badge == r'.badge
  {
    PackInjective(r.contract, r.badge, r'.contract, r'.badge);
  }

  /** Two achievement rows share a secondary key exactly when they share (account, badge id). */
  lemma AccBadgeKeyInjective(r: AchievementRow, r': AchievementRow)
    ensures AccBadgeKey(r) == AccBadgeKey(r') <==> r.account == r'.account && r.badgeId == r'.badgeId
  {
    PackInjective(r.account, r.badgeId, r'.account, r'.badgeId);
  }

  ghost predicate BadgeTableOk(rows: seq<BadgeRow>) {
    Ascending(rows, BadgeId) && UniqueKeys(rows, ContractBadgeKey)
  }

  ghost predicate AchievementTableOk(rows: seq<AchievementRow>) {
    Ascending(rows, AchievementId) && UniqueKeys(rows, AccBadgeKey)
  }

  /** The contract's storage: one table of each kind per org scope. */
  datatype Db = Db(
    authorized: map<Name, seq<Authorized>>,
    badgedata: map<Name, seq<BadgeRow>>,
    achievements: map<Name, seq<AchievementRow>>)
  {
    function Trusted(org: Name): seq<Authorized> {
      if org in authorized then authorized[org] else []
    }

    function Badges(org: Name): seq<BadgeRow> {
      if org in badgedata then badgedata[org] else []
    }

    function Achievements(org: Name): seq<AchievementRow> {
      if org in achievements then achievements[org] else []
    }

    /** Replaces one org's badge table; every other scope and table is kept. */
    function WithBadges(org: Name, rows: seq<BadgeRow>): (db': Db)
      ensures db'.Badges(org) == rows
      ensures forall o :: o != org ==> db'.Badges(o) == Badges(o)
      ensures db'.authorized == authorized && db'.achievements == achievements
    {
      this.(badgedata := badgedata[org := rows])
    }

    /** Replaces one org's achievement table; every other scope and table is kept. */
    function WithAchievements(org: Name, rows: seq<AchievementRow>): (db': Db)
      ensures db'.Achievements(org) == rows
      ensures forall o :: o != org ==> db'.Achievements(o) == Achievements(o)
      ensures db'.authorized == authorized && db'.badgedata == badgedata
    {
      this.(achievements := achievements[org := rows])
    }
  }

  /** `db'` differs from `db` at most in the badge table of `org`. */
  ghost predicate OnlyBadgesOf(db: Db, db': Db, org: Name) {
    && db'.authorized == db.authorized
    && db'.achievements == db.achievements
    && forall o :: o != org ==> db'.Badges(o) == db.Badges(o)
  }

  /** `db'` differs from `db` at most in the achievement table of `org`. */
  ghost predicate OnlyAchievementsOf(db: Db, db': Db, org: Name) {
    && db'.authorized == db.authorized
    && db'.badgedata == db.badgedata
    && forall o :: o != org ==> db'.Achievements(o) == db.Achievements(o)
  }

  /** The storage of a contract nobody has written to yet. */
  const EmptyDb: Db := Db(map[], map[], map[])

  /**
    The outcome of a state-changing helper: the storage afterwards and what
    it returned, or an abort. An abort is a failed `check`, and it leaves the
    storage as it was.
   */
  datatype Transition<+T> = Transition(db: Db, status: Result<T>)
}
