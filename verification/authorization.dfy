/**
  The authorization resolver `auth`: it walks the org's trusted contracts in
  table order and returns the first one whose authority the current
  transaction carries.
 */
module Authorization {
  import opened Primitives
  import opened MultiIndex
  import opened Tables

  /** `authorization_details`: when not authorized the account is the empty name. */
  datatype AuthorizationDetails = AuthorizationDetails(isAuthorized: bool, authorizedAccount: Name)

  /** The loop of `auth` from position `from` onwards. */
  function ScanFrom(rows: seq<Authorized>, hasAuth: Name -> bool, from: nat): (d: AuthorizationDetails)
    requires from <= |rows|
    ensures d.isAuthorized <==> exists j :: from <= j < |rows| && hasAuth(rows[j].trustedContract)
    ensures d.isAuthorized ==>
      exists j :: from <= j < |rows| && rows[j].trustedContract == d.authorizedAccount
        && hasAuth(rows[j].trustedContract)
        && forall l :: from <= l < j ==> !hasAuth(rows[l].trustedContract)
    ensures !d.isAuthorized ==> d.authorizedAccount == EmptyName
    decreases |rows| - from
  {
    if from == |rows| then
      AuthorizationDetails(false, EmptyName)
    else if hasAuth(rows[from].trustedContract) then
      AuthorizationDetails(true, rows[from].trustedContract)
    else
      ScanFrom(rows, hasAuth, from + 1)
  }

  /** `auth(org)`. */
  function Auth(db: Db, org: Name, hasAuth: Name -> bool): (d: AuthorizationDetails)
    ensures d.isAuthorized <==>
      exists j :: 0 <= j < |db.Trusted(org)| && hasAuth(db.Trusted(org)[j].trustedContract)
    ensures d.isAuthorized ==>
      exists j :: 0 <= j < |db.Trusted(org)| && db.Trusted(org)[j].trustedContract == d.authorizedAccount
        && hasAuth(d.authorizedAccount)
        && forall l :: 0 <= l < j ==> !hasAuth(db.Trusted(org)[l].trustedContract)
    ensures !d.isAuthorized ==> d.authorizedAccount == EmptyName
  {
    ScanFrom(db.Trusted(org), hasAuth, 0)
  }

  /**
    Because the table iterates in ascending name order, the account `auth`
    returns is the least trusted contract whose authority is present.
   */
  lemma AuthPicksLeastAuthorized(db: Db, org: Name, hasAuth: Name -> bool)
    requires Ascending(db.Trusted(org), TrustedKey)
    ensures var d := Auth(db, org, hasAuth);
      d.isAuthorized ==>
        forall j :: 0 <= j < |db.Trusted(org)| && hasAuth(db.Trusted(org)[j].trustedContract) ==>
          d.authorizedAccount <= db.Trusted(org)[j].trustedContract
  {
    var rows := db.Trusted(org);
    var d := Auth(db, org, hasAuth);
    if d.isAuthorized {
      var j0 :| 0 <= j0 < |rows| && rows[j0].trustedContract == d.authorizedAccount
        && hasAuth(d.authorizedAccount)
        && forall l :: 0 <= l < j0 ==> !hasAuth(rows[l].trustedContract);
      forall j | 0 <= j < |rows| && hasAuth(rows[j].trustedContract)
        ensures d.authorizedAccount <= rows[j].trustedContract
      {
        if j != j0 {
          assert TrustedKey(rows[j0]) < TrustedKey(rows[j]);
        }
      }
    }
  }

  /** An org with no trusted contracts authorizes nobody. */
  lemma EmptyTableNotAuthorized(db: Db, org: Name, hasAuth: Name -> bool)
    requires db.Trusted(org) == []
    ensures Auth(db, org, hasAuth) == AuthorizationDetails(false, EmptyName)
  {
  }
}
