/**
 A client of the ledger that drives one `AssetService` through several
 calls, relying only on the contracts of its methods.
 */
module LedgerClient {
  import opened Assets
  import opened Ledger
  import opened LedgerProperties

  /**
   Successive transfers on one ledger: user 2 receives 100 USDT unchecked
   from user 1, then freezes 40 of it with a checked self-transfer, which
   succeeds and leaves 60 available and 40 frozen. A record looked up
   before the second transfer is still the record of its key afterwards.
   */
  method SuccessiveTransfersTest() returns (r1: TransferResult, r2: TransferResult,
                                            available: int, frozen: int, sameRecord: bool)
    ensures r1 == Ok && r2 == Ok && available == 60 && frozen == 40 && sameRecord
  {
    var service := new AssetService();
    r1 := service.TryTransfer(AvailableToAvailable, 1, 2, Usdt, 100, false);
    UncheckedTransferFromFreshUser();
    ghost var b1 := service.Balances();
    assert Lookup(b1, (2, Usdt)) == Balance(100, 0);

    var before := service.GetAsset(2, Usdt);
    ghost var b2, t2 := service.Balances(), service.userAssets;
    assert Lookup(b2, (2, Usdt)) == Balance(100, 0);

    r2 := service.TryTransfer(AvailableToFrozen, 2, 2, Usdt, 40, true);
    TransferResultCases(b2, AvailableToFrozen, 2, 2, Usdt, 40, true);
    SelfTransferEffect(b2, AvailableToFrozen, 2, Usdt, 40, true);
    assert Lookup(service.Balances(), (2, Usdt)) == Balance(60, 40);
    assert service.userAssets[(2, Usdt)] == t2[(2, Usdt)] == before;

    var after := service.GetAsset(2, Usdt);
    sameRecord := before == after;
    available := after.GetAvailable();
    frozen := after.GetFrozen();
  }

  /**
   Two transfers in a row on any ledger: the second sees the balances the
   first left, and the service stays valid throughout.
   */
  method TwoTransfers(s: AssetService, kind1: TransferType, from1: nat, to1: nat, amount1: int,
                      kind2: TransferType, from2: nat, to2: nat, amount2: int, asset: AssetEnum,
                      check1: bool, check2: bool)
    returns (r1: TransferResult, r2: TransferResult)
    requires s.Valid()
    modifies s, s.userAssets.Values
    ensures s.Valid()
    ensures var o1 := Transfer(old(s.Balances()), kind1, from1, to1, asset, amount1, check1);
            var o2 := Transfer(o1.balances, kind2, from2, to2, asset, amount2, check2);
            r1 == o1.result && r2 == o2.result && s.Balances() == o2.balances
  {
    r1 := s.TryTransfer(kind1, from1, to1, asset, amount1, check1);
    r2 := s.TryTransfer(kind2, from2, to2, asset, amount2, check2);
  }
}
