/**
 The per-(user, asset) balance record of the trading engine: an `Asset`
 holds two exact decimal amounts, `available` (free to trade) and `frozen`
 (reserved against open orders). Decimals are modelled as exact integers
 (amounts in minor units). The record is a plain accumulator: its mutators
 add a signed delta to one field and enforce no bounds.
 */
module Assets {

  /** The fungible asset types the engine knows. */
  datatype AssetEnum = Btc | Usdt

  /** The value held by one `Asset` record at one point in time. */
  datatype Balance = Balance(available: int, frozen: int) {

    /** The record's whole holding, both partitions together. */
    function Total(): int {
      available + frozen
    }

    /** The value after `add_available(amount)`. */
    function AddAvailable(amount: int): Balance {
      Balance(available + amount, frozen)
    }

    /** The value after `add_frozen(amount)`. */
    function AddFrozen(amount: int): Balance {
      Balance(available, frozen + amount)
    }
  }

  /** The value of a freshly materialised record. */
  const Zero := Balance(0, 0)

  /** Either addition changes the record's total by exactly the delta, and only its own field. */
  lemma AddChangesTotal(b: Balance, amount: int)
    ensures b.AddAvailable(amount).Total() == b.Total() + amount
    ensures b.AddFrozen(amount).Total() == b.Total() + amount
    ensures b.AddAvailable(amount).frozen == b.frozen
    ensures b.AddFrozen(amount).available == b.available
  {
  }

  /** Two successive additions to `available` are one addition of their sum. */
  lemma AddAvailableTwice(b: Balance, d1: int, d2: int)
    ensures b.AddAvailable(d1).AddAvailable(d2) == b.AddAvailable(d1 + d2)
  {
  }

  /** Two successive additions to `frozen` are one addition of their sum. */
  lemma AddFrozenTwice(b: Balance, d1: int, d2: int)
    ensures b.AddFrozen(d1).AddFrozen(d2) == b.AddFrozen(d1 + d2)
  {
  }

  /** Adding to one field and then the other, in either order, gives the same value. */
  lemma AddsCommute(b: Balance, d1: int, d2: int)
    ensures b.AddAvailable(d1).AddFrozen(d2) == b.AddFrozen(d2).AddAvailable(d1)
  {
  }

  /** One mutable balance record, shared by reference inside the ledger. */
  class Asset {
    var available: int
    var frozen: int

    /** The record's current value. */
    ghost function Value(): Balance
      reads this
    {
      Balance(available, frozen)
    }

    /** `Asset::default()`: both fields zero. */
    constructor Default()
      ensures Value() == Zero
    {
      available := 0;
      frozen := 0;
    }

    /** `Asset::new(available, frozen)`: exactly the given fields. */
    constructor (available: int, frozen: int)
      ensures Value() == Balance(available, frozen)
    {
      this.available := available;
      this.frozen := frozen;
    }

    function GetAvailable(): (r: int)
      reads this
      ensures r == Value().available
    {
      available
    }

    function GetFrozen(): (r: int)
      reads this
      ensures r == Value().frozen
    {
      frozen
    }

    /** Adds a signed delta to `available`; `frozen` is untouched. */
    method AddAvailable(amount: int)
      modifies this
      ensures available == old(available) + amount && frozen == old(frozen)
      ensures Value() == old(Value()).AddAvailable(amount)
    {
      available := available + amount;
    }

    /** Adds a signed delta to `frozen`; `available` is untouched. */
    method AddFrozen(amount: int)
      modifies this
      ensures frozen == old(frozen) + amount && available == old(available)
      ensures Value() == old(Value()).AddFrozen(amount)
    {
      frozen := frozen + amount;
    }
  }
}
