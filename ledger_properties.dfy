/**
 What a transfer guarantees, stated on `Ledger.Transfer` (which
 `AssetService.TryTransfer` is proved to implement): which calls fail and
 that they change no value, the exact effect of each transfer type on the
 source and destination records (also when both are one record), that no
 other record changes, that value is conserved on the pair and on the
 whole ledger, that a checked transfer never overdraws, and that repeated
 transfers accumulate without lost updates.
 */
module LedgerProperties {
  import opened Assets
  import opened Ledger

  /** A zero amount succeeds and leaves the table exactly as it was; no record is created. */
  lemma ZeroAmountIsNoOp(m: map<Key, Balance>, kind: TransferType, fromUser: nat, toUser: nat,
                         asset: AssetEnum, checkBalance: bool)
    ensures Transfer(m, kind, fromUser, toUser, asset, 0, checkBalance) == Outcome(Ok, m)
  {
  }

  /** A negative amount fails with `InvalidAmount` and leaves the table exactly as it was. */
  lemma NegativeAmountRejected(m: map<Key, Balance>, kind: TransferType, fromUser: nat, toUser: nat,
                               asset: AssetEnum, amount: int, checkBalance: bool)
    requires amount < 0
    ensures Transfer(m, kind, fromUser, toUser, asset, amount, checkBalance) == Outcome(Err(InvalidAmount), m)
  {
  }

  /** The three possible results, each with exactly the condition that produces it. */
  lemma TransferResultCases(m: map<Key, Balance>, kind: TransferType, fromUser: nat, toUser: nat,
                            asset: AssetEnum, amount: int, checkBalance: bool)
    ensures var r := Transfer(m, kind, fromUser, toUser, asset, amount, checkBalance).result;
            var short := SourceField(Lookup(m, (fromUser, asset)), kind) < amount;
            && (r == Err(InvalidAmount) <==> amount < 0)
            && (r == Err(InsufficientBalance) <==> amount > 0 && checkBalance && short)
            && (r == Ok <==> amount == 0 || (amount > 0 && !(checkBalance && short)))
  {
  }

  /**
   A failed transfer changes no value. A rejected negative amount leaves the
   table as it was; an insufficient balance keeps, as zero records, the
   records its lookups created for keys that had none.
   */
  lemma FailedTransferChangesNoValue(m: map<Key, Balance>, kind: TransferType, fromUser: nat, toUser: nat,
                                     asset: AssetEnum, amount: int, checkBalance: bool)
    requires Transfer(m, kind, fromUser, toUser, asset, amount, checkBalance).result.Err?
    ensures var m' := Transfer(m, kind, fromUser, toUser, asset, amount, checkBalance).balances;
            && (forall k :: Lookup(m', k) == Lookup(m, k))
            && (amount < 0 ==> m' == m)
            && (amount > 0 ==> m'.Keys == m.Keys + {(fromUser, asset), (toUser, asset)})
  {
  }

  /**
   Which records exist afterwards: none is created for a zero or negative
   amount, and for a positive one both looked-up records exist, whatever
   the result.
   */
  lemma TransferCreatesRecords(m: map<Key, Balance>, kind: TransferType, fromUser: nat, toUser: nat,
                               asset: AssetEnum, amount: int, checkBalance: bool)
    ensures var m' := Transfer(m, kind, fromUser, toUser, asset, amount, checkBalance).balances;
            && (amount <= 0 ==> m' == m)
            && (amount > 0 ==> m'.Keys == m.Keys + {(fromUser, asset), (toUser, asset)})
  {
  }

  /** No record other than the source's and the destination's changes, and none is removed. */
  lemma TransferFrame(m: map<Key, Balance>, kind: TransferType, fromUser: nat, toUser: nat,
                      asset: AssetEnum, amount: int, checkBalance: bool, k: Key)
    requires k != (fromUser, asset) && k != (toUser, asset)
    ensures var m' := Transfer(m, kind, fromUser, toUser, asset, amount, checkBalance).balances;
            && Lookup(m', k) == Lookup(m, k)
            && (k in m <==> k in m')
            && m.Keys <= m'.Keys
  {
  }

  /**
   Every record after a transfer, in closed form: only a successful
   positive transfer changes anything, and then only the source (debited)
   and the destination (credited, after the debit when both are one record).
   */
  lemma TransferLookup(m: map<Key, Balance>, kind: TransferType, fromUser: nat, toUser: nat,
                       asset: AssetEnum, amount: int, checkBalance: bool, k: Key)
    ensures var o := Transfer(m, kind, fromUser, toUser, asset, amount, checkBalance);
            var fk, tk := (fromUser, asset), (toUser, asset);
            Lookup(o.balances, k) ==
              if o.result.Err? || amount == 0 || (k != fk && k != tk) then Lookup(m, k)
              else if fk == tk then Credit(Debit(Lookup(m, fk), kind, amount), kind, amount)
              else if k == fk then Debit(Lookup(m, fk), kind, amount)
              else Credit(Lookup(m, tk), kind, amount)
  {
  }

  /** A successful `AvailableToAvailable` between two users: available to available. */
  lemma AvailableToAvailableEffect(m: map<Key, Balance>, fromUser: nat, toUser: nat,
                                   asset: AssetEnum, amount: int, checkBalance: bool)
    requires fromUser != toUser && amount > 0
    requires Transfer(m, AvailableToAvailable, fromUser, toUser, asset, amount, checkBalance).result == Ok
    ensures var m' := Transfer(m, AvailableToAvailable, fromUser, toUser, asset, amount, checkBalance).balances;
            var f, t := Lookup(m, (fromUser, asset)), Lookup(m, (toUser, asset));
            && Lookup(m', (fromUser, asset)) == Balance(f.available - amount, f.frozen)
            && Lookup(m', (toUser, asset)) == Balance(t.available + amount, t.frozen)
  {
  }

  /** A successful `AvailableToFrozen` between two users: source available to destination frozen. */
  lemma AvailableToFrozenEffect(m: map<Key, Balance>, fromUser: nat, toUser: nat,
                                asset: AssetEnum, amount: int, checkBalance: bool)
    requires fromUser != toUser && amount > 0
    requires Transfer(m, AvailableToFrozen, fromUser, toUser, asset, amount, checkBalance).result == Ok
    ensures var m' := Transfer(m, AvailableToFrozen, fromUser, toUser, asset, amount, checkBalance).balances;
            var f, t := Lookup(m, (fromUser, asset)), Lookup(m, (toUser, asset));
            && Lookup(m', (fromUser, asset)) == Balance(f.available - amount, f.frozen)
            && Lookup(m', (toUser, asset)) == Balance(t.available, t.frozen + amount)
  {
  }

  /** A successful `FrozenToAvailable` between two users: source frozen to destination available. */
  lemma FrozenToAvailableEffect(m: map<Key, Balance>, fromUser: nat, toUser: nat,
                                asset: AssetEnum, amount: int, checkBalance: bool)
    requires fromUser != toUser && amount > 0
    requires Transfer(m, FrozenToAvailable, fromUser, toUser, asset, amount, checkBalance).result == Ok
    ensures var m' := Transfer(m, FrozenToAvailable, fromUser, toUser, asset, amount, checkBalance).balances;
            var f, t := Lookup(m, (fromUser, asset)), Lookup(m, (toUser, asset));
            && Lookup(m', (fromUser, asset)) == Balance(f.available, f.frozen - amount)
            && Lookup(m', (toUser, asset)) == Balance(t.available + amount, t.frozen)
  {
  }

  /**
   A successful transfer from a user to themself hits one record twice:
   `AvailableToAvailable` is a net no-op, the other two shift `amount`
   between the record's two fields.
   */
  lemma SelfTransferEffect(m: map<Key, Balance>, kind: TransferType, user: nat,
                           asset: AssetEnum, amount: int, checkBalance: bool)
    requires Transfer(m, kind, user, user, asset, amount, checkBalance).result == Ok
    ensures var b' := Lookup(Transfer(m, kind, user, user, asset, amount, checkBalance).balances, (user, asset));
            var b := Lookup(m, (user, asset));
            && (kind == AvailableToAvailable ==> b' == b)
            && (kind == AvailableToFrozen ==> b' == Balance(b.available - amount, b.frozen + amount))
            && (kind == FrozenToAvailable ==> b' == Balance(b.available + amount, b.frozen - amount))
  {
  }

  /** The debit takes exactly `amount` out of a record, the credit puts exactly `amount` in. */
  lemma DebitCreditTotals(b: Balance, kind: TransferType, amount: int)
    ensures Debit(b, kind, amount).Total() == b.Total() - amount
    ensures Credit(b, kind, amount).Total() == b.Total() + amount
    ensures Credit(Debit(b, kind, amount), kind, amount).Total() == b.Total()
  {
    AddChangesTotal(b, -amount);
    AddChangesTotal(b, amount);
    AddChangesTotal(Debit(b, kind, amount), amount);
  }

  /** Debiting one record and crediting another keeps the pair's holding. */
  lemma MoveKeepsPairHolding(m: map<Key, Balance>, m': map<Key, Balance>, fk: Key, tk: Key,
                             kind: TransferType, amount: int)
    requires fk != tk
    requires Lookup(m', fk) == Debit(Lookup(m, fk), kind, amount)
    requires Lookup(m', tk) == Credit(Lookup(m, tk), kind, amount)
    ensures Holding(m', fk) + Holding(m', tk) == Holding(m, fk) + Holding(m, tk)
  {
    DebitCreditTotals(Lookup(m, fk), kind, amount);
    DebitCreditTotals(Lookup(m, tk), kind, amount);
  }

  /** Debiting and then crediting one record keeps its holding. */
  lemma MoveKeepsOneHolding(m: map<Key, Balance>, m': map<Key, Balance>, k: Key,
                            kind: TransferType, amount: int)
    requires Lookup(m', k) == Credit(Debit(Lookup(m, k), kind, amount), kind, amount)
    ensures Holding(m', k) == Holding(m, k)
  {
    DebitCreditTotals(Lookup(m, k), kind, amount);
  }

  /**
   Every transfer between two users, whatever its result, conserves value:
   the holdings of the source and destination records add up to the same
   total before and after.
   */
  lemma TransferConservesPair(m: map<Key, Balance>, kind: TransferType, fromUser: nat, toUser: nat,
                              asset: AssetEnum, amount: int, checkBalance: bool)
    requires fromUser != toUser
    ensures var m' := Transfer(m, kind, fromUser, toUser, asset, amount, checkBalance).balances;
            var fk, tk := (fromUser, asset), (toUser, asset);
            Holding(m', fk) + Holding(m', tk) == Holding(m, fk) + Holding(m, tk)
  {
    var o := Transfer(m, kind, fromUser, toUser, asset, amount, checkBalance);
    var fk, tk := (fromUser, asset), (toUser, asset);
    TransferLookup(m, kind, fromUser, toUser, asset, amount, checkBalance, fk);
    TransferLookup(m, kind, fromUser, toUser, asset, amount, checkBalance, tk);
    if o.result.Ok? && amount != 0 {
      MoveKeepsPairHolding(m, o.balances, fk, tk, kind, amount);
    }
  }

  /**
   A transfer from a user to themself, whatever its kind and result, keeps
   that record's holding: at most the split between its fields shifts.
   */
  lemma SelfTransferConservesHolding(m: map<Key, Balance>, kind: TransferType, user: nat,
                                     asset: AssetEnum, amount: int, checkBalance: bool)
    ensures var m' := Transfer(m, kind, user, user, asset, amount, checkBalance).balances;
            Holding(m', (user, asset)) == Holding(m, (user, asset))
  {
    var o := Transfer(m, kind, user, user, asset, amount, checkBalance);
    TransferLookup(m, kind, user, user, asset, amount, checkBalance, (user, asset));
    if o.result.Ok? && amount != 0 {
      MoveKeepsOneHolding(m, o.balances, (user, asset), kind, amount);
    }
  }

  /**
   The balance check is strict: a checked transfer of exactly the source
   field succeeds and leaves that field at zero (unless it is an
   `AvailableToAvailable` from a user to themself, which is a no-op).
   */
  lemma ExactBalanceDrainsSource(m: map<Key, Balance>, kind: TransferType, fromUser: nat, toUser: nat,
                                 asset: AssetEnum, amount: int)
    requires amount > 0 && SourceField(Lookup(m, (fromUser, asset)), kind) == amount
    requires fromUser != toUser || kind != AvailableToAvailable
    ensures var o := Transfer(m, kind, fromUser, toUser, asset, amount, true);
            o.result == Ok && SourceField(Lookup(o.balances, (fromUser, asset)), kind) == 0
  {
  }

  /** With the check switched off a positive transfer always succeeds, even into a negative balance. */
  lemma UncheckedTransferAlwaysSucceeds(m: map<Key, Balance>, kind: TransferType, fromUser: nat, toUser: nat,
                                        asset: AssetEnum, amount: int)
    requires amount > 0
    ensures Transfer(m, kind, fromUser, toUser, asset, amount, false).result == Ok
  {
  }

  /** The engine's unit test, on the table: an unchecked transfer from a fresh user goes negative. */
  lemma UncheckedTransferFromFreshUser()
    ensures var o := Transfer(map[], AvailableToAvailable, 1, 2, Usdt, 100, false);
            && o.result == Ok
            && Lookup(o.balances, (1, Usdt)) == Balance(-100, 0)
            && Lookup(o.balances, (2, Usdt)) == Balance(100, 0)
  {
  }

  /** No record holds a negative amount in either field. */
  ghost predicate NonNegative(m: map<Key, Balance>) {
    forall k :: k in m ==> m[k].available >= 0 && m[k].frozen >= 0
  }

  /** Checked transfers keep every balance non-negative. */
  lemma CheckedTransferKeepsNonNegative(m: map<Key, Balance>, kind: TransferType, fromUser: nat, toUser: nat,
                                        asset: AssetEnum, amount: int)
    requires NonNegative(m)
    ensures NonNegative(Transfer(m, kind, fromUser, toUser, asset, amount, true).balances)
  {
    var m' := Transfer(m, kind, fromUser, toUser, asset, amount, true).balances;
    var fk, tk := (fromUser, asset), (toUser, asset);
    assert Lookup(m, fk).available >= 0 && Lookup(m, fk).frozen >= 0;
    assert Lookup(m, tk).available >= 0 && Lookup(m, tk).frozen >= 0;
    forall k | k in m'
      ensures m'[k].available >= 0 && m'[k].frozen >= 0
    {
      TransferLookup(m, kind, fromUser, toUser, asset, amount, true, k);
      assert Lookup(m', k) == m'[k];
      assert Lookup(m, k).available >= 0 && Lookup(m, k).frozen >= 0;
    }
  }

  /** Calling `get_asset` twice on one key is calling it once. */
  lemma WithRecordIdempotent(m: map<Key, Balance>, k: Key)
    ensures WithRecord(WithRecord(m, k), k) == WithRecord(m, k)
  {
  }

  // ---------------------------------------------------------------------
  // Conservation on the whole ledger

  /** What the record under `k` holds, both partitions together (zero when absent). */
  ghost function Holding(m: map<Key, Balance>, k: Key): int {
    Lookup(m, k).Total()
  }

  /** The sum of `h` over the keys of `ks`. */
  ghost function Sum(h: Key -> int, ks: set<Key>): int
    decreases ks
  {
    if ks == {} then 0
    else
      var k :| k in ks;
      h(k) + Sum(h, ks - {k})
  }

  /** Every key of `ks` contributes its own term to the sum, whichever is taken first. */
  lemma {:induction false} SumRemove(h: Key -> int, ks: set<Key>, k: Key)
    requires k in ks
    ensures Sum(h, ks) == h(k) + Sum(h, ks - {k})
    decreases ks
  {
    var j :| j in ks && Sum(h, ks) == h(j) + Sum(h, ks - {j});
    if j != k {
      SumRemove(h, ks - {j}, k);
      assert ks - {j} - {k} == ks - {k} - {j};
      SumRemove(h, ks - {k}, j);
    }
  }

  /** Two functions that agree on `ks` have the same sum there. */
  lemma {:induction false} SumSameOn(h: Key -> int, h': Key -> int, ks: set<Key>)
    requires forall k :: k in ks ==> h(k) == h'(k)
    ensures Sum(h, ks) == Sum(h', ks)
    decreases ks
  {
    if ks != {} {
      var k :| k in ks;
      SumRemove(h, ks, k);
      SumRemove(h', ks, k);
      SumSameOn(h, h', ks - {k});
    }
  }

  /** Adding keys whose terms are zero does not change the sum. */
  lemma {:induction false} SumZeroKeys(h: Key -> int, ks: set<Key>, extra: set<Key>)
    requires forall k :: k in extra ==> h(k) == 0
    ensures Sum(h, ks + extra) == Sum(h, ks)
    decreases extra
  {
    if extra <= ks {
      assert ks + extra == ks;
    } else {
      var k :| k in extra && k !in ks;
      SumRemove(h, ks + extra, k);
      assert ks + extra - {k} == ks + (extra - {k});
      SumZeroKeys(h, ks, extra - {k});
    }
  }

  /**
   When `h'` differs from `h` on `ks` only at `a` and `b`, and their terms
   there add up alike, the sums over `ks` are equal.
   */
  lemma SumPairMove(h: Key -> int, h': Key -> int, ks: set<Key>, a: Key, b: Key)
    requires a in ks && b in ks
    requires forall k :: k in ks && k != a && k != b ==> h'(k) == h(k)
    requires a == b ==> h'(a) == h(a)
    requires a != b ==> h'(a) + h'(b) == h(a) + h(b)
    ensures Sum(h', ks) == Sum(h, ks)
  {
    SumRemove(h, ks, a);
    SumRemove(h', ks, a);
    if a == b {
      SumSameOn(h, h', ks - {a});
    } else {
      SumRemove(h, ks - {a}, b);
      SumRemove(h', ks - {a}, b);
      SumSameOn(h, h', ks - {a} - {b});
    }
  }

  /** The keys of the records of one asset. */
  function KeysOf(m: map<Key, Balance>, asset: AssetEnum): set<Key> {
    set k | k in m && k.1 == asset
  }

  /** The ledger's whole holding of one asset, over all users. */
  ghost function AssetTotal(m: map<Key, Balance>, asset: AssetEnum): int {
    Sum(Holdings(m), KeysOf(m, asset))
  }

  /** The holding of every key, as one function. */
  ghost function Holdings(m: map<Key, Balance>): Key -> int {
    k => Holding(m, k)
  }

  /** Records added as zero records leave the total of every asset as it was. */
  lemma NewZeroRecordsKeepAssetTotal(m: map<Key, Balance>, m': map<Key, Balance>, a: AssetEnum)
    requires m.Keys <= m'.Keys
    ensures Sum(Holdings(m), KeysOf(m', a)) == AssetTotal(m, a)
  {
    var ks, ks' := KeysOf(m, a), KeysOf(m', a);
    var h := Holdings(m);
    assert ks' == ks + (ks' - ks);
    forall k | k in ks' - ks
      ensures h(k) == 0
    {
      assert k !in m;
    }
    SumZeroKeys(h, ks, ks' - ks);
  }

  /**
   Over the keys of `ks`, a table whose holdings differ from those of `m`
   only by a move of value within the records of `fk` and `tk` holds the
   same sum.
   */
  lemma PairMoveKeepsSum(m: map<Key, Balance>, m': map<Key, Balance>, ks: set<Key>, fk: Key, tk: Key)
    requires fk in ks && tk in ks
    requires forall k | k in ks && k != fk && k != tk :: Holding(m', k) == Holding(m, k)
    requires fk == tk ==> Holding(m', fk) == Holding(m, fk)
    requires fk != tk ==> Holding(m', fk) + Holding(m', tk) == Holding(m, fk) + Holding(m, tk)
    ensures Sum(Holdings(m'), ks) == Sum(Holdings(m), ks)
  {
    SumPairMove(Holdings(m), Holdings(m'), ks, fk, tk);
  }

  /** Over keys that avoid `fk` and `tk`, such a table holds the same sum. */
  lemma PairMoveKeepsOtherSum(m: map<Key, Balance>, m': map<Key, Balance>, ks: set<Key>, fk: Key, tk: Key)
    requires fk !in ks && tk !in ks
    requires forall k :: k != fk && k != tk ==> Holding(m', k) == Holding(m, k)
    ensures Sum(Holdings(m'), ks) == Sum(Holdings(m), ks)
  {
    SumSameOn(Holdings(m'), Holdings(m), ks);
  }

  /**
   A table that differs from `m` only by new zero records and a move of
   value within the records of `fk` and `tk` (one asset) holds the same
   total of every asset.
   */
  lemma PairMoveKeepsAssetTotal(m: map<Key, Balance>, m': map<Key, Balance>, fk: Key, tk: Key, a: AssetEnum)
    requires fk.1 == tk.1
    requires m'.Keys == m.Keys + {fk, tk}
    requires forall k :: k != fk && k != tk ==> Holding(m', k) == Holding(m, k)
    requires fk == tk ==> Holding(m', fk) == Holding(m, fk)
    requires fk != tk ==> Holding(m', fk) + Holding(m', tk) == Holding(m, fk) + Holding(m, tk)
    ensures AssetTotal(m', a) == AssetTotal(m, a)
  {
    var ks' := KeysOf(m', a);
    NewZeroRecordsKeepAssetTotal(m, m', a);
    if fk.1 == a {
      PairMoveKeepsSum(m, m', ks', fk, tk);
    } else {
      PairMoveKeepsOtherSum(m, m', ks', fk, tk);
    }
  }

  /**
   Value is neither created nor destroyed: after any transfer, whatever
   its result, the ledger holds the same total of every asset.
   */
  lemma TransferConservesAssetTotal(m: map<Key, Balance>, kind: TransferType, fromUser: nat, toUser: nat,
                                    asset: AssetEnum, amount: int, checkBalance: bool, a: AssetEnum)
    ensures AssetTotal(Transfer(m, kind, fromUser, toUser, asset, amount, checkBalance).balances, a)
         == AssetTotal(m, a)
  {
    var m' := Transfer(m, kind, fromUser, toUser, asset, amount, checkBalance).balances;
    var fk, tk := (fromUser, asset), (toUser, asset);
    TransferCreatesRecords(m, kind, fromUser, toUser, asset, amount, checkBalance);
    if amount > 0 {
      forall k | k != fk && k != tk
        ensures Holding(m', k) == Holding(m, k)
      {
        TransferFrame(m, kind, fromUser, toUser, asset, amount, checkBalance, k);
      }
      if fromUser == toUser {
        SelfTransferConservesHolding(m, kind, fromUser, asset, amount, checkBalance);
      } else {
        TransferConservesPair(m, kind, fromUser, toUser, asset, amount, checkBalance);
      }
      PairMoveKeepsAssetTotal(m, m', fk, tk, a);
    }
  }

  // ---------------------------------------------------------------------
  // Repeated transfers

  /** `n` unchecked `AvailableToAvailable` transfers of `amount`, one after the other. */
  function RepeatTransfer(m: map<Key, Balance>, n: nat, fromUser: nat, toUser: nat,
                          asset: AssetEnum, amount: int): map<Key, Balance>
    decreases n
  {
    if n == 0 then m
    else Transfer(RepeatTransfer(m, n - 1, fromUser, toUser, asset, amount),
                  AvailableToAvailable, fromUser, toUser, asset, amount, false).balances
  }

  /**
   No update is lost: `n` transfers of `amount` from one user to another
   move exactly `n * amount` of available balance, and no frozen balance.
   */
  lemma {:induction false} RepeatedTransfersAccumulate(m: map<Key, Balance>, n: nat, fromUser: nat, toUser: nat,
                                                       asset: AssetEnum, amount: int)
    requires fromUser != toUser && amount >= 0
    ensures var m' := RepeatTransfer(m, n, fromUser, toUser, asset, amount);
            var f, t := Lookup(m, (fromUser, asset)), Lookup(m, (toUser, asset));
            && Lookup(m', (fromUser, asset)) == Balance(f.available - n * amount, f.frozen)
            && Lookup(m', (toUser, asset)) == Balance(t.available + n * amount, t.frozen)
    decreases n
  {
    if n > 0 {
      RepeatedTransfersAccumulate(m, n - 1, fromUser, toUser, asset, amount);
      var prev := RepeatTransfer(m, n - 1, fromUser, toUser, asset, amount);
      if amount > 0 {
        AvailableToAvailableEffect(prev, fromUser, toUser, asset, amount, false);
      }
      assert (n - 1) * amount + amount == n * amount;
    }
  }
}
