/**
 The ledger of the trading engine: a table from (user, asset) to a shared
 `Asset` record, materialised as a zero record the first time a key is
 looked up, and the one transfer primitive `TryTransfer`, which moves an
 amount from one sub-field of the source record to one sub-field of the
 destination record according to a `TransferType`.

 The pure function `Transfer` gives the meaning of a transfer on the
 abstract table (a map from keys to `Balance` values); the method
 `AssetService.TryTransfer` is proved to act on the records exactly as
 `Transfer` says, and the lemmas of module `LedgerProperties` state what
 `Transfer` guarantees.
 */
module Ledger {
  import opened Assets

  /** A user id (`usize` in the engine) paired with an asset. */
  type Key = (nat, AssetEnum)

  /** Which sub-field of the source is debited and which of the destination is credited. */
  datatype TransferType = AvailableToAvailable | AvailableToFrozen | FrozenToAvailable

  datatype TransferError =
    | InvalidAmount        // a negative amount
    | InsufficientBalance  // the balance check failed on the source field

  datatype TransferResult = Ok | Err(error: TransferError)

  /** What a transfer returns together with the table it leaves behind. */
  datatype Outcome = Outcome(result: TransferResult, balances: map<Key, Balance>)

  /** The balance of a key; a key with no record reads as zero. */
  function Lookup(m: map<Key, Balance>, k: Key): Balance {
    if k in m then m[k] else Zero
  }

  /**
   The table after `get_asset(k)`: `k` has a record afterwards, and no key
   reads differently, since a materialised record is a zero one.
   */
  function WithRecord(m: map<Key, Balance>, k: Key): (m': map<Key, Balance>)
    ensures m'.Keys == m.Keys + {k}
    ensures forall j :: Lookup(m', j) == Lookup(m, j)
  {
    if k in m then m else m[k := Zero]
  }

  /** The current value of the sub-field a transfer of this type debits. */
  function SourceField(b: Balance, kind: TransferType): int {
    match kind
    case AvailableToAvailable => b.available
    case AvailableToFrozen => b.available
    case FrozenToAvailable => b.frozen
  }

  /** The source record after the debit. */
  function Debit(b: Balance, kind: TransferType, amount: int): Balance {
    match kind
    case AvailableToAvailable => b.AddAvailable(-amount)
    case AvailableToFrozen => b.AddAvailable(-amount)
    case FrozenToAvailable => b.AddFrozen(-amount)
  }

  /** The destination record after the credit. */
  function Credit(b: Balance, kind: TransferType, amount: int): Balance {
    match kind
    case AvailableToAvailable => b.AddAvailable(amount)
    case AvailableToFrozen => b.AddFrozen(amount)
    case FrozenToAvailable => b.AddAvailable(amount)
  }

  /**
   `try_transfer` on the abstract table. The steps run in the engine's
   order: the zero fast path, the sign check, materialising both records,
   the optional strict balance check, then the debit and, on the table the
   debit left (so that a self-transfer sees its own debit), the credit.
   */
  function Transfer(m: map<Key, Balance>, kind: TransferType, fromUser: nat, toUser: nat,
                    asset: AssetEnum, amount: int, checkBalance: bool): Outcome
  {
    if amount == 0 then Outcome(Ok, m)
    else if amount < 0 then Outcome(Err(InvalidAmount), m)
    else
      var fk, tk := (fromUser, asset), (toUser, asset);
      var m1 := WithRecord(WithRecord(m, fk), tk);
      if checkBalance && SourceField(m1[fk], kind) < amount then
        Outcome(Err(InsufficientBalance), m1)
      else
        var m2 := m1[fk := Debit(m1[fk], kind, amount)];
        Outcome(Ok, m2[tk := Credit(m2[tk], kind, amount)])
  }

  /**
   The `match` on the transfer type inside `try_transfer`, on the two
   records already looked up (the same object when both keys are equal):
   the optional strict balance check on the source field, then the debit
   of the source and the credit of the destination, in that order.
   */
  method ApplyTransfer(kind: TransferType, fromAsset: Asset, toAsset: Asset, amount: int, checkBalance: bool)
    returns (r: TransferResult)
    modifies fromAsset, toAsset
    ensures r == if checkBalance && SourceField(old(fromAsset.Value()), kind) < amount
                 then Err(InsufficientBalance) else Ok
    ensures r.Err? ==> fromAsset.Value() == old(fromAsset.Value()) && toAsset.Value() == old(toAsset.Value())
    ensures r.Ok? && fromAsset != toAsset ==>
              fromAsset.Value() == Debit(old(fromAsset.Value()), kind, amount) &&
              toAsset.Value() == Credit(old(toAsset.Value()), kind, amount)
    ensures r.Ok? && fromAsset == toAsset ==>
              toAsset.Value() == Credit(Debit(old(fromAsset.Value()), kind, amount), kind, amount)
  {
    match kind
    case AvailableToAvailable =>
      if checkBalance && fromAsset.GetAvailable() < amount {
        r := Err(InsufficientBalance);
      } else {
        fromAsset.AddAvailable(-amount);
        toAsset.AddAvailable(amount);
        r := Ok;
      }
    case AvailableToFrozen =>
      if checkBalance && fromAsset.GetAvailable() < amount {
        r := Err(InsufficientBalance);
      } else {
        fromAsset.AddAvailable(-amount);
        toAsset.AddFrozen(amount);
        r := Ok;
      }
    case FrozenToAvailable =>
      if checkBalance && fromAsset.GetFrozen() < amount {
        r := Err(InsufficientBalance);
      } else {
        fromAsset.AddFrozen(-amount);
        toAsset.AddAvailable(amount);
        r := Ok;
      }
  }

  /**
   `Transfer` of a positive amount is: materialise both records, then
   replace them by whatever values `ApplyTransfer` leaves in them (a
   single record when both keys are equal).
   */
  lemma TransferOnRecords(m: map<Key, Balance>, kind: TransferType, fromUser: nat, toUser: nat,
                          asset: AssetEnum, amount: int, checkBalance: bool,
                          r: TransferResult, from': Balance, to': Balance)
    requires amount > 0
    requires r == if checkBalance && SourceField(Lookup(m, (fromUser, asset)), kind) < amount
                  then Err(InsufficientBalance) else Ok
    requires r.Err? ==> from' == Lookup(m, (fromUser, asset)) && to' == Lookup(m, (toUser, asset))
    requires r.Ok? && fromUser != toUser ==>
               from' == Debit(Lookup(m, (fromUser, asset)), kind, amount) &&
               to' == Credit(Lookup(m, (toUser, asset)), kind, amount)
    requires r.Ok? && fromUser == toUser ==>
               from' == to' && to' == Credit(Debit(Lookup(m, (fromUser, asset)), kind, amount), kind, amount)
    ensures Transfer(m, kind, fromUser, toUser, asset, amount, checkBalance)
         == Outcome(r, WithRecord(WithRecord(m, (fromUser, asset)), (toUser, asset))
                         [(fromUser, asset) := from'][(toUser, asset) := to'])
  {
  }

  /** The table of records, each shared by reference between its key and every lookup of it. */
  class AssetService {
    var userAssets: map<Key, Asset>
    /** The key each record was created for. */
    ghost var owner: map<Asset, Key>

    /** Every key owns its own record: two keys never share one. */
    ghost predicate Valid()
      reads this
    {
      forall k :: k in userAssets ==> userAssets[k] in owner && owner[userAssets[k]] == k
    }

    /** The values currently held, key by key. */
    ghost function Balances(): map<Key, Balance>
      reads this, userAssets.Values
    {
      map k | k in userAssets :: userAssets[k].Value()
    }

    /** `AssetService::new()`: an empty table. */
    constructor ()
      ensures Valid()
      ensures userAssets == map[] && Balances() == map[]
    {
      userAssets := map[];
      owner := map[];
    }

    /**
     `get_asset`: returns the record of (userId, assetId), inserting a zero
     record first when there is none. No record's value changes, and the
     records already present stay the same objects.
     */
    method GetAsset(userId: nat, assetId: AssetEnum) returns (a: Asset)
      requires Valid()
      modifies this
      ensures Valid()
      ensures (userId, assetId) in userAssets && userAssets[(userId, assetId)] == a
      ensures a.Value() == Lookup(old(Balances()), (userId, assetId))
      ensures Balances() == WithRecord(old(Balances()), (userId, assetId))
      ensures (userId, assetId) in old(userAssets) ==>
                userAssets == old(userAssets) && a == old(userAssets[(userId, assetId)])
      ensures (userId, assetId) !in old(userAssets) ==>
                fresh(a) && userAssets == old(userAssets)[(userId, assetId) := a]
    {
      var key := (userId, assetId);
      if key in userAssets {
        a := userAssets[key];
      } else {
        a := new Asset.Default();
        userAssets := userAssets[key := a];
        owner := owner[a := key];
      }
    }

    /**
     The two lookups of `try_transfer`, source first: afterwards both keys
     have a record, holding what they read as before. Records already in
     the table stay the same objects; the ones created are new.
     */
    method GetAssetPair(fromUser: nat, toUser: nat, asset: AssetEnum) returns (fromAsset: Asset, toAsset: Asset)
      requires Valid()
      modifies this
      ensures Valid()
      ensures (fromUser, asset) in userAssets && userAssets[(fromUser, asset)] == fromAsset
      ensures (toUser, asset) in userAssets && userAssets[(toUser, asset)] == toAsset
      ensures fromAsset.Value() == Lookup(old(Balances()), (fromUser, asset))
      ensures toAsset.Value() == Lookup(old(Balances()), (toUser, asset))
      ensures Balances() == WithRecord(WithRecord(old(Balances()), (fromUser, asset)), (toUser, asset))
      ensures forall k :: k in old(userAssets) ==> k in userAssets && userAssets[k] == old(userAssets[k])
      ensures fresh(userAssets.Values - old(userAssets.Values))
    {
      ghost var m0 := Balances();
      fromAsset := GetAsset(fromUser, asset);
      ghost var m1, t1 := Balances(), userAssets;
      toAsset := GetAsset(toUser, asset);
      assert toAsset.Value() == Lookup(m1, (toUser, asset)) == Lookup(m0, (toUser, asset));
      assert userAssets[(fromUser, asset)] == t1[(fromUser, asset)];
    }

    /**
     `ApplyTransfer` on the records of `fk` and `tk`, seen on the whole
     table: the two records take the values `ApplyTransfer` promises and
     every other record keeps its value.
     */
    method SettleRecords(kind: TransferType, fromAsset: Asset, toAsset: Asset, amount: int, checkBalance: bool,
                         ghost fk: Key, ghost tk: Key) returns (r: TransferResult)
      requires Valid() && fk in userAssets && tk in userAssets
      requires userAssets[fk] == fromAsset && userAssets[tk] == toAsset
      modifies fromAsset, toAsset
      ensures Balances() == old(Balances())[fk := fromAsset.Value()][tk := toAsset.Value()]
      ensures r == if checkBalance && SourceField(old(fromAsset.Value()), kind) < amount
                   then Err(InsufficientBalance) else Ok
      ensures r.Err? ==> fromAsset.Value() == old(fromAsset.Value()) && toAsset.Value() == old(toAsset.Value())
      ensures r.Ok? && fromAsset != toAsset ==>
                fromAsset.Value() == Debit(old(fromAsset.Value()), kind, amount) &&
                toAsset.Value() == Credit(old(toAsset.Value()), kind, amount)
      ensures r.Ok? && fromAsset == toAsset ==>
                toAsset.Value() == Credit(Debit(old(fromAsset.Value()), kind, amount), kind, amount)
    {
      ghost var before := Balances();
      r := ApplyTransfer(kind, fromAsset, toAsset, amount, checkBalance);
      forall j | j in userAssets && j != fk && j != tk
        ensures userAssets[j].Value() == before[j]
      {
        assert owner[userAssets[j]] == j;
      }
      BalancesAfterPairUpdate(this, fk, tk, before);
    }

    /**
     `try_transfer`: the result and the new values are those `Transfer`
     gives for the values held before the call, and a zero or negative
     amount creates no record. Records already in the table stay the same
     objects; the ones the call creates are new.
     */
    method TryTransfer(kind: TransferType, fromUser: nat, toUser: nat, asset: AssetEnum,
                       amount: int, checkBalance: bool) returns (r: TransferResult)
      requires Valid()
      modifies this, userAssets.Values
      ensures Valid()
      ensures r == Transfer(old(Balances()), kind, fromUser, toUser, asset, amount, checkBalance).result
      ensures Balances() == Transfer(old(Balances()), kind, fromUser, toUser, asset, amount, checkBalance).balances
      ensures amount <= 0 ==> userAssets == old(userAssets)
      ensures forall k :: k in old(userAssets) ==> k in userAssets && userAssets[k] == old(userAssets[k])
      ensures fresh(userAssets.Values - old(userAssets.Values))
    {
      if amount == 0 {
        return Ok;
      }
      if amount < 0 {
        return Err(InvalidAmount);
      }
      r := TransferPositive(kind, fromUser, toUser, asset, amount, checkBalance);
    }

    /**
     The steps of `try_transfer` after the amount checks: look up (or
     create) both records, then settle the match on them.
     */
    method TransferPositive(kind: TransferType, fromUser: nat, toUser: nat, asset: AssetEnum,
                            amount: int, checkBalance: bool) returns (r: TransferResult)
      requires Valid() && amount > 0
      modifies this, userAssets.Values
      ensures Valid()
      ensures r == Transfer(old(Balances()), kind, fromUser, toUser, asset, amount, checkBalance).result
      ensures Balances() == Transfer(old(Balances()), kind, fromUser, toUser, asset, amount, checkBalance).balances
      ensures forall k :: k in old(userAssets) ==> k in userAssets && userAssets[k] == old(userAssets[k])
      ensures fresh(userAssets.Values - old(userAssets.Values))
    {
      ghost var m0 := Balances();
      ghost var fk, tk := (fromUser, asset), (toUser, asset);
      var fromAsset, toAsset := GetAssetPair(fromUser, toUser, asset);
      assert fromAsset == toAsset <==> fk == tk;
      r := SettleRecords(kind, fromAsset, toAsset, amount, checkBalance, fk, tk);
      TransferOnRecords(m0, kind, fromUser, toUser, asset, amount, checkBalance, r, fromAsset.Value(), toAsset.Value());
    }
  }

  /**
   When every record but those of `fk` and `tk` still holds its value in
   `before`, the table's value differs from `before` at those two keys alone.
   */
  lemma BalancesAfterPairUpdate(s: AssetService, fk: Key, tk: Key, before: map<Key, Balance>)
    requires fk in s.userAssets && tk in s.userAssets && s.userAssets.Keys == before.Keys
    requires forall j :: j in s.userAssets && j != fk && j != tk ==> s.userAssets[j].Value() == before[j]
    ensures s.Balances() == before[fk := s.userAssets[fk].Value()][tk := s.userAssets[tk].Value()]
  {
  }

  /**
   The engine's own unit test: from an empty ledger, an unchecked transfer
   of 100 USDT from user 1 to user 2 leaves user 1 at -100 and user 2 at
   100 available.
   */
  method UncheckedTransferTest() returns (r: TransferResult, fromAvailable: int, toAvailable: int)
    ensures r == Ok && fromAvailable == -100 && toAvailable == 100
  {
    var service := new AssetService();
    r := service.TryTransfer(AvailableToAvailable, 1, 2, Usdt, 100, false);
    var fromAsset := service.GetAsset(1, Usdt);
    var toAsset := service.GetAsset(2, Usdt);
    fromAvailable := fromAsset.GetAvailable();
    toAvailable := toAsset.GetAvailable();
  }
}
