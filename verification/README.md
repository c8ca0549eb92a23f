# Profile badge ledger — Dafny model

A model of the state-transition core of the `profile` contract
(`profile/include/profile.hpp`). Organisations ("orgs") trust badge
contracts, those contracts define badges, and accounts collect achievements
of those badges. Each org has its own scope of three tables:

- `authorized`: the org's trusted badge contracts, keyed by contract name;
- `badgedata`: badge metadata, keyed by a badge id and indexed by
  (contract, badge) packed into one 128-bit key;
- `achievements`: per-account counts, keyed by a row id and indexed by
  (account, badge id) packed into one 128-bit key.

The private helpers of the contract are modelled as pure functions. Each one
maps the storage and its arguments to the new storage, the outbound actions
it sends, and its return value:

- `auth` resolves the caller to the first trusted contract whose authority
  the transaction carries;
- `get_update_badgedata_state` looks a badge up and bumps its rarity counter;
- `write_native_badgedata` registers a badge once per (contract, badge);
- `write_native_achievement` creates or increments the achievement row of an
  (account, badge id) pair;
- `write_aa_achievement`, `write_aa_template`, `check_account_prefs` and
  `deduct_credit` send actions to the asset, preferences and billing
  contracts;
- `achievement_bytes` and `init_bytes` are the byte-cost model for billing.

Modelling choices:

- A name is an opaque 64-bit value. A 128-bit key `(uint128)hi << 64 | lo`
  is written `hi * 2^64 + lo`. The two are equal because the low 64 bits of
  the shifted value are zero.
- A table is the sequence of its rows in iteration order, which is ascending
  primary-key order. A secondary `find` returns the first row, in that
  order, whose secondary key matches. `available_primary_key()` is 0 for an
  empty table and otherwise one more than the largest id.
- A failed `check` is a `Transition` whose status is an error and whose
  storage is the storage before the call.
- `uint32_t` counters (`rarity_counts`, `achievements::count`) wrap modulo
  2^32, written out in `Primitives.AddU32`. No precondition rules the wrap
  out.
- `action{...}.send()` appends an `Action` record to an outbox sequence.
  Nothing is modelled of what the receiving contract does with it.
- `has_auth`, `name::to_string`, the contract's own account and the names of
  the asset collection and schema are fields of a `Host` parameter.
- `write_native_badgedata` never assigns `aa_template_id`, so the field holds
  an indeterminate value. The model takes that value as the parameter
  `unsetTemplateId` and does not fix it to 0.
- `ipfs` and `details` are byte strings (`Bytes`), because `std::string`
  holds bytes and `length()` counts bytes, not characters.

Notes on the code:

- `write_native_badgedata` returns 1, not the new badge id.
- The rarity counter is a `uint32_t`. It does not decrease while the sum fits
  in 32 bits, and it wraps to a smaller value once the sum does not fit
  (`Badges.RarityWrapsAtLimit`).
- When `auth` finds no match, the account it returns is the empty name
  (value 0).
- `init_bytes` adds the string lengths in `size_t`, which is 32 bits wide on
  the WebAssembly target. The sum wraps modulo 2^32 before it is widened to
  the `uint64_t` result.

## Model

| member | source | states |
|---|---|---|
| `Keys.Pack` | profile/include/profile.hpp:105-107 | the high half of a packed key is the first name and the low half is the second |
| `Keys.PackInjective` | profile/include/profile.hpp:105-107 | two packed keys are equal exactly when both components are equal |
| `Tables.ContractBadgeKeyInjective` | profile/include/profile.hpp:105-107 | two badge rows share `contract_badge_key` exactly when they have the same contract and badge |
| `Tables.AccBadgeKeyInjective` | profile/include/profile.hpp:120-122 | two achievement rows share `acc_badge_key` exactly when they have the same account and badge id |
| `Primitives.AddU32` | profile/include/profile.hpp:138 | adding a `uint8_t` count to a `uint32_t` counter gives the exact sum below 2^32 and the sum minus 2^32 above it |
| `MultiIndex.AvailablePrimaryKey` | profile/include/profile.hpp:195 | an empty table gives id 0; otherwise the new id exceeds every id in use and is one above some id in use; it is missing only when id 2^64-1 is in use |
| `MultiIndex.Find` | profile/include/profile.hpp:131-133 | the secondary `find` returns the first row in table order with the key, or `end()` exactly when no row has it |
| `MultiIndex.FindIsOnlyMatch` | profile/include/profile.hpp:133 | with unique secondary keys, the row `find` returns is the only row with that key |
| `Authorization.ScanFrom` | profile/include/profile.hpp:151-158 | from a position on, the scan authorizes iff some later trusted contract has authority, and then returns the first such contract |
| `Authorization.Auth` | profile/include/profile.hpp:149-162 | `is_authorized` holds iff some trusted contract of the org has authority; the account returned is the first one in table order that does; otherwise the empty name |
| `Authorization.AuthPicksLeastAuthorized` | profile/include/profile.hpp:149-162 | because the table iterates in ascending name order, `auth` returns the least trusted name whose authority is present |
| `Authorization.EmptyTableNotAuthorized` | profile/include/profile.hpp:159-161 | an org with no trusted contracts authorizes nobody |
| `Badges.FindBadge` | profile/include/profile.hpp:130-135 | the looked-up row is the first in table order with the requested (contract, badge); the lookup misses exactly when no row has it |
| `Badges.GetUpdateBadgedataState` | profile/include/profile.hpp:129-146 | aborts with `BadgeNotFound` and storage unchanged iff no row has (contract, badge); otherwise only that row's rarity counter changes, by `count` modulo 2^32, and its id, mirror flag and template id are returned; other orgs and tables are untouched |
| `Badges.WriteNativeBadgedata` | profile/include/profile.hpp:241-260 | aborts with `BadgeAlreadyExists` and storage unchanged iff (contract, badge) is registered; aborts with `PrimaryKeyExhausted` iff the pair is new and id 2^64-1 is in use; never aborts otherwise, and then appends one row with the given fields, the unassigned template id, rarity 0 and an id one above the largest existing id (0 in an empty table), and returns 1 |
| `Badges.FirstBadgeGetsIdZero` | profile/include/profile.hpp:249-257 | in empty storage, the first registration succeeds and stores exactly one row, with id 0 and rarity 0 |
| `Badges.GetUpdateKeepsTableOk` | profile/include/profile.hpp:137-139 | bumping a rarity counter keeps ids ascending and (contract, badge) keys unique |
| `Badges.WriteNativeBadgedataKeepsTableOk` | profile/include/profile.hpp:243-257 | registering a badge keeps ids ascending and (contract, badge) keys unique |
| `Badges.RegisterTwiceFails` | profile/include/profile.hpp:245-247 | a second registration of the same (contract, badge) aborts with `BadgeAlreadyExists` and leaves the first row, with rarity 0, in place |
| `Badges.RegisteredBadgeIsFound` | profile/include/profile.hpp:133-145 | after a registration, the lookup of the same pair succeeds, reports the new row's id, mirror flag and template id, and sets its rarity to `count` |
| `Badges.BumpKeepsPosition` | profile/include/profile.hpp:133-139 | bumping the row the lookup found leaves the next lookup of the same pair on that same row |
| `Badges.RarityAccumulates` | profile/include/profile.hpp:137-139 | two lookups with `c1` and `c2` raise the badge's rarity counter by `c1 + c2` modulo 2^32 and change no other row |
| `Badges.RarityWrapsAtLimit` | profile/include/profile.hpp:103 | the `uint32_t` rarity counter does not decrease while the sum fits, and wraps to a smaller value when it does not |
| `Achievements.FindAchievement` | profile/include/profile.hpp:188-191 | the looked-up row is the first with the requested (account, badge id); the lookup misses exactly when no row has it |
| `Achievements.WriteNativeAchievement` | profile/include/profile.hpp:186-208 | with no row for the pair it appends one with `count` and an id one above the largest existing id (0 in an empty table) and returns 1; with a row it adds `count` (modulo 2^32) to that row only and returns 0; it aborts only when no fresh id fits in 64 bits; other orgs and tables are untouched |
| `Achievements.WriteNativeAchievementKeepsTableOk` | profile/include/profile.hpp:193-206 | both branches keep ids ascending and (account, badge id) keys unique |
| `Achievements.AtMostOneRow` | profile/include/profile.hpp:120-122 | a well-formed table holds at most one row per (account, badge id) |
| `Achievements.ExactlyOneRowAfterWrite` | profile/include/profile.hpp:193-207 | after a successful write to a well-formed table, exactly one row exists for the pair |
| `Achievements.TwoWritesAccumulate` | profile/include/profile.hpp:193-204 | for a pair with no row, writes of `c1` and then `c2` insert once and then increment, leaving one row with count `c1 + c2` |
| `Actions.CheckAccountPrefs` | profile/include/profile.hpp:164-173 | sends exactly one `checkallow` to the preferences contract carrying org and account, after everything already sent |
| `Actions.DeductCredit` | profile/include/profile.hpp:175-184 | sends exactly one `usecredit` to the billing contract carrying org and bytes used, after everything already sent |
| `Actions.WriteAaAchievement` | profile/include/profile.hpp:210-235 | when mirroring, sends exactly `count` mints, each for the account with the given template, the contract's collection and schema, and empty attributes and backing, and returns `count`; otherwise sends nothing and returns 0 |
| `Actions.WriteAaTemplate` | profile/include/profile.hpp:262-285 | sends one `createtempl` iff mirroring: not transferable, not burnable, max supply 0, with attributes exactly "org", "badge" and "contract" naming org, badge and contract; returns 1 then and 0 with nothing sent otherwise |
| `Actions.TemplateAttributesIdentifyBadge` | profile/include/profile.hpp:264-267 | when `to_string` tells names apart, a template's "org", "badge" and "contract" attributes determine the org, badge and contract it was requested for |
| `Actions.TemplateIgnoresText` | profile/include/profile.hpp:262-285 | the template request does not depend on the badge's ipfs link or details |
| `Actions.AchievementBytes` | profile/include/profile.hpp:237-239 | recording an achievement costs 288 bytes |
| `Actions.InitBytes` | profile/include/profile.hpp:287-289 | the cost stays below 2^32; below the 32-bit wrap, registering a badge costs 2 * (256 + byte length of details + byte length of ipfs) |
| `Actions.InitBytesStrictlyIncreasing` | profile/include/profile.hpp:287-289 | below the 32-bit wrap, more bytes of details or ipfs text always cost strictly more |

## Left out

- The bodies of the actions `del`, `authcontract`, `initbadge`, `achievement` and `updatebadge` (profile.hpp:66-82) are not part of this model. They are only declared in the modelled file, so the order in which they call the helpers is not modelled. This also leaves out whatever `updatebadge` does with the template notification.
- `has_auth` is host authority checking. It is an oracle predicate on names.
- The encoding of `name` values and `name::to_string` are not modelled. Names are opaque 64-bit values, and `to_string` is a function the host supplies.
- What the billing, preferences and asset contracts do with the actions sent to them is not modelled. The permission is recorded only as the acting account.
- Attribute values of the asset contract are opaque strings. Their variant types are defined outside the modelled file.
- The storage payer, RAM accounting and the transaction-level rollback of `multi_index` are not modelled.
- The exact primary-key limit of `multi_index` is not modelled. The model aborts only when the next id would not fit in 64 bits.
- Actions.InitBytes: the closed form is stated only below the 32-bit wrap of `size_t` arithmetic, because above it the cost wraps modulo 2^32 as the code does. The wrap needs about 2^31 bytes of text.
- Actions.InitBytesStrictlyIncreasing: stated only below the 32-bit wrap, for the same reason.
