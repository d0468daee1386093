/** Client runs of the handlers, as tests/test_overall.py drives them: what a caller can
    conclude from the handlers' contracts alone. */
module Scenarios {
  import opened Models
  import opened Data
  import opened BankingApi

  /** A customer opens an account with 200 in an empty bank: it is that customer's number 1. */
  method OpenFirstAccount(c: int) returns (first: Result<AccountInfo>, store: Store)
    requires CustomerExists(c)
    ensures first == Ok(AccountInfo(AccountId(c, 1), c, 200))
    ensures Consistent(store) && store.ledger.records == []
    ensures store.accounts.Keys == {AccountId(c, 1)}
    ensures store.Owners()[AccountId(c, 1)] == c
    ensures store.Balances()[AccountId(c, 1)] == 200
    ensures fresh(store) && fresh(store.ledger) && fresh(store.accounts[AccountId(c, 1)])
  {
    store := new Store();
    var owners := store.Owners();
    NextAfterCount(owners, c, 0);
    first := CreateAccount(store, c, 200);
  }

  /** Another customer then opens an account with 50: it is number 1 of theirs. */
  method OpenSecondAccount(store: Store, c1: int, c2: int) returns (second: Result<AccountInfo>)
    requires CustomerExists(c2) && c1 != c2
    requires Consistent(store) && store.ledger.records == []
    requires store.accounts.Keys == {AccountId(c1, 1)}
    requires store.Owners()[AccountId(c1, 1)] == c1
    requires store.Balances()[AccountId(c1, 1)] == 200
    modifies store
    ensures second == Ok(AccountInfo(AccountId(c2, 1), c2, 50))
    ensures store.Valid() && store.ledger.records == []
    ensures AccountId(c1, 1) != AccountId(c2, 1)
    ensures store.accounts.Keys == {AccountId(c1, 1), AccountId(c2, 1)}
    ensures store.Balances()[AccountId(c1, 1)] == 200
    ensures store.Balances()[AccountId(c2, 1)] == 50
    ensures store.accounts[AccountId(c1, 1)] == old(store.accounts[AccountId(c1, 1)])
    ensures fresh(store.accounts[AccountId(c2, 1)])
  {
    var owners := store.Owners();
    assert owners.Keys == {AccountId(c1, 1)};
    NextAfterCount(owners, c2, 0);
    second := CreateAccount(store, c2, 50);
  }

  method OpenTwoAccounts(c1: int, c2: int)
    returns (first: Result<AccountInfo>, second: Result<AccountInfo>, store: Store)
    requires CustomerExists(c1) && CustomerExists(c2) && c1 != c2
    ensures first == Ok(AccountInfo(AccountId(c1, 1), c1, 200))
    ensures second == Ok(AccountInfo(AccountId(c2, 1), c2, 50))
    ensures store.Valid() && store.ledger.records == []
    ensures AccountId(c1, 1) != AccountId(c2, 1)
    ensures store.accounts.Keys == {AccountId(c1, 1), AccountId(c2, 1)}
    ensures store.Balances()[AccountId(c1, 1)] == 200
    ensures store.Balances()[AccountId(c2, 1)] == 50
    ensures fresh(store) && fresh(store.ledger)
    ensures fresh(store.accounts[AccountId(c1, 1)]) && fresh(store.accounts[AccountId(c2, 1)])
  {
    first, store := OpenFirstAccount(c1);
    second := OpenSecondAccount(store, c1, c2);
  }

  /** Moving 100 from the first to the second leaves 100 and 150 and one logged transfer,
      which is the first account's whole history. */
  method TransferBetweenNewAccounts(c1: int, c2: int, timestamp: string)
    returns (moved: Result<TransferRec>, store: Store)
    requires CustomerExists(c1) && CustomerExists(c2) && c1 != c2
    ensures moved == Ok(TransferRec(AccountId(c1, 1), AccountId(c2, 1), 100, timestamp))
    ensures store.Valid()
    ensures GetBalance(store, AccountId(c1, 1)) == Ok(100)
    ensures GetBalance(store, AccountId(c2, 1)) == Ok(150)
    ensures |store.ledger.records| == 1
    ensures GetTransferHistory(store, AccountId(c1, 1)) == Ok([moved.value])
  {
    var first, second;
    first, second, store := OpenTwoAccounts(c1, c2);
    moved := TransferAmount(store, AccountId(c1, 1), AccountId(c2, 1), 100, timestamp);
    assert store.ledger.records == [moved.value];
    assert AccountTransactions(store.ledger.records, AccountId(c1, 1)) == [moved.value];
  }

  /** A second account of the same customer is numbered 2; an unknown customer and a
      negative deposit are refused without touching the table. */
  method OpenAccounts(c: int, unknownCustomer: int)
    returns (a: Result<AccountInfo>, b: Result<AccountInfo>, unknown: Result<AccountInfo>,
             negative: Result<AccountInfo>, store: Store)
    requires CustomerExists(c) && !CustomerExists(unknownCustomer)
    ensures a.Ok? && a.value.accountId == AccountId(c, 1)
    ensures b.Ok? && b.value.accountId == AccountId(c, 2)
    ensures unknown == Err(CustomerNotFound) && negative == Err(NegativeDeposit)
    ensures |store.accounts| == 2
  {
    a, store := OpenFirstAccount(c);
    var owners := store.Owners();
    assert CountFor(owners, c) == 1 by {
      assert owners.Keys == {AccountId(c, 1)};
      assert (set k | k in owners && owners[k] == c) == {AccountId(c, 1)};
    }
    NextAfterCount(owners, c, 1);
    b := CreateAccount(store, c, 200);
    unknown := CreateAccount(store, unknownCustomer, 100);
    negative := CreateAccount(store, c, -50);
  }
}
