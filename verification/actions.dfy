/**
  The outbound side of the contract: every `action{...}.send()` appends one
  record to the transaction's outbox, and nothing is modelled of what the
  receiving contract does with it. Also the byte-cost model used to size the
  credit deduction.
 */
module Actions {
  import opened Primitives

  /** Attribute maps of the asset contract; values are opaque strings here. */
  type AttributeMap = map<string, string>

  /** A token backing a minted asset. */
  datatype Asset = Asset(amount: int, symbol: Name)

  /** The three contracts the profile contract calls. */
  datatype Receiver = BillingContract | AccountPreferencesContract | AtomicAssetsContract

  /** The called action together with its arguments. */
  datatype Call =
    | CheckAllow(org: Name, account: Name)
    | UseCredit(billedOrg: Name, bytesUsed: U64)
    | CreateTempl(
        authorizedCreator: Name, collectionName: Name, schemaName: Name,
        transferable: bool, burnable: bool, maxSupply: U32,
        immutableData: AttributeMap)
    | MintAsset(
        authorizedCreator: Name, collectionName: Name, schemaName: Name,
        templateId: U32, newAssetOwner: Name,
        immutableData: AttributeMap, mutableData: AttributeMap,
        tokensToBack: seq<Asset>)

  /** One sent action, authorized by `actor@active`. */
  datatype Action = Action(actor: Name, receiver: Receiver, call: Call)

  /** `check_account_prefs(org, account)`: asks the preferences contract whether `account` may be recorded. */
  function CheckAccountPrefs(h: Host, outbox: seq<Action>, org: Name, account: Name): (sent: seq<Action>)
    ensures |sent| == |outbox| + 1 && sent[..|outbox|] == outbox
    ensures sent[|outbox|].actor == h.self
    ensures sent[|outbox|].receiver == AccountPreferencesContract
    ensures sent[|outbox|].call.CheckAllow?
    ensures sent[|outbox|].call.org == org && sent[|outbox|].call.account == account
  {
    outbox + [Action(h.self, AccountPreferencesContract, CheckAllow(org, account))]
  }

  /** `deduct_credit(org, bytes_used)`: bills `org` for the bytes used. */
  function DeductCredit(h: Host, outbox: seq<Action>, org: Name, bytesUsed: U64): (sent: seq<Action>)
    ensures |sent| == |outbox| + 1 && sent[..|outbox|] == outbox
    ensures sent[|outbox|].actor == h.self
    ensures sent[|outbox|].receiver == BillingContract
    ensures sent[|outbox|].call.UseCredit?
    ensures sent[|outbox|].call.billedOrg == org && sent[|outbox|].call.bytesUsed == bytesUsed
  {
    outbox + [Action(h.self, BillingContract, UseCredit(org, bytesUsed))]
  }

  /**
    One unit mint of `write_aa_achievement`: the contract mints into its own
    collection and schema, for `owner`, from `templateId`, with empty
    attributes and no backing tokens.
   */
  ghost predicate IsUnitMint(a: Action, h: Host, owner: Name, templateId: U32) {
    && a.actor == h.self
    && a.receiver == AtomicAssetsContract
    && a.call.MintAsset?
    && a.call.authorizedCreator == h.self
    && a.call.collectionName == h.collection
    && a.call.schemaName == h.schema
    && a.call.templateId == templateId
    && a.call.newAssetOwner == owner
    && a.call.immutableData == map[]
    && a.call.mutableData == map[]
    && a.call.tokensToBack == []
  }

  /**
    `write_aa_achievement(account, write_to_aa, template_id, count)`: when the
    badge mirrors to the asset contract, sends `count` separate one-unit mints
    and returns `count`; otherwise sends nothing and returns 0.
   */
  method WriteAaAchievement(h: Host, outbox: seq<Action>, account: Name, writeToAa: bool, templateId: U32, count: U8)
    returns (sent: seq<Action>, rowsInserted: U8)
    ensures |sent| >= |outbox| && sent[..|outbox|] == outbox
    ensures writeToAa ==> rowsInserted == count && |sent| == |outbox| + count
    ensures writeToAa ==> forall k :: |outbox| <= k < |sent| ==> IsUnitMint(sent[k], h, account, templateId)
    ensures !writeToAa ==> rowsInserted == 0 && sent == outbox
  {
    sent := outbox;
    rowsInserted := 0;
    if writeToAa {
      var immutableData: AttributeMap := map[];
      var mutableData: AttributeMap := map[];
      var tokensToBack: seq<Asset> := [];
      var i := 0;
      while i < count
        invariant 0 <= i <= count
        invariant |sent| == |outbox| + i
        invariant sent[..|outbox|] == outbox
        invariant forall k :: |outbox| <= k < |sent| ==> IsUnitMint(sent[k], h, account, templateId)
      {
        sent := sent + [Action(h.self, AtomicAssetsContract,
          MintAsset(h.self, h.collection, h.schema, templateId, account,
                    immutableData, mutableData, tokensToBack))];
        i := i + 1;
      }
      rowsInserted := count;
    }
  }

  /** The attribute keys a badge template carries. */
  const TemplateKeys: set<string> := {"org", "badge", "contract"}

  /**
    `write_aa_template(org, authorized_account, badge, ipfs, details, write_to_aa)`:
    when the badge mirrors to the asset contract, requests one template that
    is neither transferable nor burnable, has no supply cap, and records org,
    badge and contract by name; returns 1 then and 0 with nothing sent
    otherwise. `ipfs` and `details` do not reach the template.
   */
  function WriteAaTemplate(h: Host, outbox: seq<Action>, org: Name, authorizedAccount: Name, badge: Name,
                           ipfs: Bytes, details: Bytes, writeToAa: bool): (res: (seq<Action>, U8))
    ensures |res.0| >= |outbox| && res.0[..|outbox|] == outbox
    ensures writeToAa <==> res.1 == 1
    ensures !writeToAa ==> res == (outbox, 0)
    ensures writeToAa ==>
      && |res.0| == |outbox| + 1
      && var a := res.0[|outbox|];
      && a.actor == h.self
      && a.receiver == AtomicAssetsContract
      && a.call.CreateTempl?
      && a.call.authorizedCreator == h.self
      && a.call.collectionName == h.collection
      && a.call.schemaName == h.schema
      && !a.call.transferable
      && !a.call.burnable
      && a.call.maxSupply == 0
      && a.call.immutableData.Keys == TemplateKeys
      && a.call.immutableData["org"] == h.nameToString(org)
      && a.call.immutableData["badge"] == h.nameToString(badge)
      && a.call.immutableData["contract"] == h.nameToString(authorizedAccount)
  {
    if writeToAa then
      var mdata: AttributeMap := map[
        "org" := h.nameToString(org),
        "badge" := h.nameToString(badge),
        "contract" := h.nameToString(authorizedAccount)];
      (outbox + [Action(h.self, AtomicAssetsContract,
         CreateTempl(h.self, h.collection, h.schema, false, false, 0, mdata))], 1)
    else
      (outbox, 0)
  }

  /**
    The template's attributes identify the badge: when `to_string` tells
    names apart, two requested templates with the same attributes were
    requested for the same org, badge and contract.
   */
  lemma TemplateAttributesIdentifyBadge(h: Host, outbox: seq<Action>, org: Name, contract: Name, badge: Name,
                                        org': Name, contract': Name, badge': Name,
                                        ipfs: Bytes, details: Bytes, ipfs': Bytes, details': Bytes)
    requires forall x: Name, y: Name :: h.nameToString(x) == h.nameToString(y) ==> x == y
    requires var a := WriteAaTemplate(h, outbox, org, contract, badge, ipfs, details, true).0[|outbox|];
      var a' := WriteAaTemplate(h, outbox, org', contract', badge', ipfs', details', true).0[|outbox|];
      a.call.immutableData == a'.call.immutableData
    ensures org == org' && contract == contract' && badge == badge'
  {
    var a := WriteAaTemplate(h, outbox, org, contract, badge, ipfs, details, true).0[|outbox|];
    var a' := WriteAaTemplate(h, outbox, org', contract', badge', ipfs', details', true).0[|outbox|];
    assert h.nameToString(org) == a.call.immutableData["org"] == h.nameToString(org');
    assert h.nameToString(badge) == a.call.immutableData["badge"] == h.nameToString(badge');
    assert h.nameToString(contract) == a.call.immutableData["contract"] == h.nameToString(contract');
  }

  /** The badge's ipfs link and details never reach the template request. */
  lemma TemplateIgnoresText(h: Host, outbox: seq<Action>, org: Name, contract: Name, badge: Name,
                            ipfs: Bytes, details: Bytes, ipfs': Bytes, details': Bytes, writeToAa: bool)
    ensures WriteAaTemplate(h, outbox, org, contract, badge, ipfs, details, writeToAa)
         == WriteAaTemplate(h, outbox, org, contract, badge, ipfs', details', writeToAa)
  {
  }

  /** `achievement_bytes()`: the fixed cost of recording an achievement. */
  function AchievementBytes(): (b: U64)
    ensures b == 288
  {
    64 * 4 + 32
  }

  /**
    `init_bytes(details, ipfs)`: twice a fixed 256 plus the byte lengths of the
    two strings. The sum is computed in `size_t`, which is 32 bits wide on the
    WebAssembly target, and only the result is widened to 64 bits.
   */
  function InitBytes(details: Bytes, ipfs: Bytes): (b: U64)
    ensures b < TWO_32
    ensures 256 + |details| + |ipfs| < TWO_32 / 2 ==> b == 2 * (256 + |details| + |ipfs|)
  {
    (2 * (3 * 64 + 2 * 32 + |details| + |ipfs|)) % TWO_32
  }

  /** Below the 32-bit wrap, a longer `details` or `ipfs` always costs more. */
  lemma InitBytesStrictlyIncreasing(details: Bytes, ipfs: Bytes, details': Bytes, ipfs': Bytes)
    requires |details| <= |details'| && |ipfs| <= |ipfs'|
    requires |details| + |ipfs| < |details'| + |ipfs'|
    requires 256 + |details'| + |ipfs'| < TWO_32 / 2
    ensures InitBytes(details, ipfs) < InitBytes(details', ipfs')
  {
  }
}
