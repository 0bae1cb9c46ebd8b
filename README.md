# Trading-engine balance ledger

This project models the balance ledger of the trading engine in Dafny and
proves properties of the model.

The ledger has two layers:

- `asset.dfy` (module `Assets`) models one balance record. `Asset` is a
  class with two mutable fields: `available` (free to trade) and `frozen`
  (reserved against open orders). Its mutators add a signed delta to one
  field and check no bounds. `AssetEnum` is the closed set of asset types.
  `Balance` is the value a record holds at one moment.
- `asset_service.dfy` (module `Ledger`) models `AssetService`. It keeps a
  table from `(user, asset)` to a shared `Asset` record. `GetAsset` is
  get-or-insert: an unseen key gets a fresh zero record. `TryTransfer` is
  the one transfer primitive. It runs these steps in order:
  1. a zero amount succeeds at once;
  2. a negative amount is rejected with `InvalidAmount`;
  3. both records are looked up, and created if missing;
  4. with `checkBalance` set, the call fails with `InsufficientBalance`
     when the source field is strictly below the amount;
  5. otherwise it debits the source field and then credits the destination
     field. The `TransferType` decides which fields these are.

  The pure function `Ledger.Transfer` gives the meaning of a transfer on
  the abstract table, a `map<Key, Balance>`. `AssetService.TryTransfer` is
  proved to change the records exactly as `Transfer` says. When
  `fromUser == toUser`, both lookups return the same object, so the debit
  and the credit land on one record, one after the other. The model keeps
  that aliasing: records are objects, and `Valid()` says that distinct keys
  own distinct records.
- `ledger_client.dfy` (module `LedgerClient`) drives one `AssetService`
  through successive calls using only the methods' contracts.
- `ledger_properties.dfy` (module `LedgerProperties`) states what
  `Transfer` guarantees:
  - the result, with the exact condition for each error;
  - all-or-nothing on error;
  - which records get created;
  - the exact field effect of each transfer type, including self-transfers;
  - no record other than the two keys changes;
  - conservation of the pair's holding and of each asset's total over the
    whole ledger;
  - a checked transfer never makes a balance negative;
  - repeated transfers add up with no lost update.

Decimal amounts are exact `int`s in minor units. User ids (`usize`) are
`nat`s.

## Model

| member | source | states |
|---|---|---|
| Assets.Asset.Default | trading_engine/src/asset.rs:16-21 | a new record holds zero available and zero frozen |
| Assets.Asset.constructor | trading_engine/src/asset.rs:23-25 | a new record holds exactly the given available and frozen amounts |
| Assets.Asset.GetAvailable | trading_engine/src/asset.rs:27-29 | returns the record's available amount; reads only, changes nothing |
| Assets.Asset.GetFrozen | trading_engine/src/asset.rs:31-33 | returns the record's frozen amount; reads only, changes nothing |
| Assets.Asset.AddAvailable | trading_engine/src/asset.rs:35-37 | available becomes old available plus the delta (any sign, no bound check); frozen is unchanged |
| Assets.Asset.AddFrozen | trading_engine/src/asset.rs:39-41 | frozen becomes old frozen plus the delta; available is unchanged |
| Assets.AddChangesTotal | trading_engine/src/asset.rs:35-41 | either addition changes the record's total by exactly the delta and leaves the other field alone |
| Assets.AddAvailableTwice | trading_engine/src/asset.rs:35-37 | two additions to available equal one addition of their sum |
| Assets.AddFrozenTwice | trading_engine/src/asset.rs:39-41 | two additions to frozen equal one addition of their sum |
| Assets.AddsCommute | trading_engine/src/asset.rs:35-41 | an addition to available and one to frozen commute |
| Ledger.WithRecord | trading_engine/src/asset_service.rs:20-29 | after get-or-insert the key has a record; no key reads a different balance, because a new record is zero |
| Ledger.ApplyTransfer | trading_engine/src/asset_service.rs:49-77 | on the two looked-up records: fails with InsufficientBalance exactly when the check is on and the source field is strictly below the amount, changing nothing; otherwise the source is debited and the destination credited, both on one record when they are the same object |
| Ledger.TransferOnRecords | trading_engine/src/asset_service.rs:47-77 | a positive transfer is: create both records, then store the values the match leaves in them |
| Ledger.AssetService.constructor | trading_engine/src/asset_service.rs:14-18 | a new service has an empty table |
| Ledger.AssetService.GetAsset | trading_engine/src/asset_service.rs:20-29 | returns the existing record of the key unchanged, table untouched; otherwise inserts a fresh zero record and returns it; no value changes |
| Ledger.AssetService.SettleRecords | trading_engine/src/asset_service.rs:49-77 | the match seen on the whole table: only the two looked-up records change, as ApplyTransfer says |
| Ledger.AssetService.TryTransfer | trading_engine/src/asset_service.rs:31-78 | result and new balances are those Transfer gives for the old balances; a zero or negative amount creates no record; records already in the table stay the same objects and the ones created are new |
| Ledger.AssetService.TransferPositive | trading_engine/src/asset_service.rs:47-77 | the steps after the amount checks: result and new balances as Transfer gives them; existing records kept, created ones new |
| Ledger.AssetService.GetAssetPair | trading_engine/src/asset_service.rs:47-48 | both lookups, source first: both keys then have a record holding what it read before; existing records kept, created ones new |
| Ledger.UncheckedTransferTest | trading_engine/src/asset_service.rs:86-118 | from a new service, an unchecked transfer of 100 USDT from user 1 to user 2 succeeds and leaves user 1 at -100 and user 2 at 100 available |
| LedgerClient.SuccessiveTransfersTest | trading_engine/src/asset_service.rs:31-78 | on one ledger, 100 received unchecked and then 40 frozen by a checked self-transfer both succeed, leaving 60 available and 40 frozen in the same record object |
| LedgerClient.TwoTransfers | trading_engine/src/asset_service.rs:31-78 | two transfers in a row on any valid ledger: the second acts on the balances the first left, as Transfer composed twice |
| LedgerProperties.ZeroAmountIsNoOp | trading_engine/src/asset_service.rs:40-42 | a zero amount succeeds and leaves the table exactly as it was, with no record created |
| LedgerProperties.NegativeAmountRejected | trading_engine/src/asset_service.rs:43-45 | a negative amount fails with InvalidAmount and leaves the table exactly as it was |
| LedgerProperties.TransferResultCases | trading_engine/src/asset_service.rs:40-77 | each result holds exactly when its condition holds: InvalidAmount iff negative; InsufficientBalance iff positive, checked and source field below amount; Ok otherwise |
| LedgerProperties.FailedTransferChangesNoValue | trading_engine/src/asset_service.rs:43-76 | a failed transfer changes no balance; a negative amount leaves the table as it was; an insufficient balance keeps, as zero records, the records its lookups created for keys that had none |
| LedgerProperties.TransferCreatesRecords | trading_engine/src/asset_service.rs:40-48 | no record is created for a zero or negative amount; for a positive one both records exist afterwards, whatever the result |
| LedgerProperties.TransferFrame | trading_engine/src/asset_service.rs:47-77 | no record other than (from, asset) and (to, asset) changes or appears |
| LedgerProperties.TransferLookup | trading_engine/src/asset_service.rs:47-77 | closed form of every record after a transfer: source debited, destination credited, both on one record for a self-transfer, all else unchanged |
| LedgerProperties.AvailableToAvailableEffect | trading_engine/src/asset_service.rs:50-58 | AvailableToAvailable between two users moves the amount from source available to destination available; the frozen fields are unchanged |
| LedgerProperties.AvailableToFrozenEffect | trading_engine/src/asset_service.rs:59-67 | AvailableToFrozen moves the amount from source available to destination frozen |
| LedgerProperties.FrozenToAvailableEffect | trading_engine/src/asset_service.rs:68-76 | FrozenToAvailable moves the amount from source frozen to destination available |
| LedgerProperties.SelfTransferEffect | trading_engine/src/asset_service.rs:47-77 | a successful self-transfer: AvailableToAvailable is a net no-op; the other two shift the amount between the record's two fields |
| LedgerProperties.DebitCreditTotals | trading_engine/src/asset_service.rs:54-73 | the debit takes exactly the amount out of a record's total and the credit puts exactly the amount in |
| LedgerProperties.TransferConservesPair | trading_engine/src/asset_service.rs:47-77 | between two users, the combined available-plus-frozen of the two records is the same before and after, whatever the result |
| LedgerProperties.SelfTransferConservesHolding | trading_engine/src/asset_service.rs:47-77 | a self-transfer keeps the record's available-plus-frozen, whatever the kind and result |
| LedgerProperties.TransferConservesAssetTotal | trading_engine/src/asset_service.rs:31-78 | every asset's total over all records of the ledger is the same before and after any transfer |
| LedgerProperties.ExactBalanceDrainsSource | trading_engine/src/asset_service.rs:51-73 | the check is strict: a checked transfer of exactly the source field succeeds and leaves that field at zero (except the no-op AvailableToAvailable self-transfer) |
| LedgerProperties.UncheckedTransferAlwaysSucceeds | trading_engine/src/asset_service.rs:49-77 | with the check off, every positive transfer succeeds, even into a negative balance |
| LedgerProperties.UncheckedTransferFromFreshUser | trading_engine/src/asset_service.rs:86-118 | on the abstract table: the unchecked transfer of 100 from a fresh user 1 to user 2 leaves balances (-100, 0) and (100, 0) |
| LedgerProperties.CheckedTransferKeepsNonNegative | trading_engine/src/asset_service.rs:49-77 | checked transfers keep every field of every record non-negative |
| LedgerProperties.WithRecordIdempotent | trading_engine/src/asset_service.rs:20-29 | looking a key up a second time changes nothing more than the first lookup |
| LedgerProperties.RepeatedTransfersAccumulate | trading_engine/src/asset_service.rs:50-58 | n unchecked transfers of one amount from one user to another move exactly n times the amount of available balance and no frozen balance |

## Left out

- Concurrency is not modelled. The `DashMap` sharding, the locking order and deadlock avoidance are left out, and so is first-touch creation under contention. The model runs one call at a time. The records are `Rc<RefCell<…>>`, which is single-threaded in any case.
- The runtime borrow checks of `RefCell` are left out. Only their aliasing effect is kept: equal keys give the same record object.
- The nested table `user_id -> (asset -> record)` is flattened to one map keyed by `(user, asset)`. It has the same key space. Creating an empty inner table for a user is not observable, so it is not modelled.
- The `anyhow` error messages are left out. The two errors are the constructors `InvalidAmount` and `InsufficientBalance`.
- `rust_decimal` is modelled as exact integers. Scale, overflow, rounding and the sign of zero are not modelled. `is_zero` is tested before `is_sign_negative`, so a negative zero takes the zero fast path. This matches the integer model.
- The module `crate::transfer` is not part of this model. `TransferType` is defined locally with the three variants its match arms use.
- The ledger has no balance getters of its own. Readers call `get_asset` and then the record's getters, as `UncheckedTransferTest` does.
- The transfer has no protection against concurrent callers. A transfer that fails its balance check keeps any record it created, as a zero record; an existing record keeps its value. So only the balances are all-or-nothing, not the set of keys.
