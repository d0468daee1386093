/** The request handlers of src/banking_api.py with the HTTP layer removed: each handler
    takes the store it works on and returns a `Result` in place of a status code. */
module BankingApi {
  import opened Decimal
  import opened Models
  import opened Data

  // ---------------------------------------------------------------------------
  // Customers

  /** Whether some seeded customer has the id. */
  function CustomerExists(customerId: int): (r: bool)
    ensures r <==> 1 <= customerId <= 4
  {
    exists c :: c in Customers && c.id == customerId
  }

  // ---------------------------------------------------------------------------
  // Account identifiers

  /** `customer_{customerId}_account_{seqNo}`: the prefix, the customer's text (which has
      no underscore), the separator, then the sequence number's digits. */
  function AccountId(customerId: int, seqNo: nat): (r: string)
    ensures var a := IntText(customerId);
      && |r| == 18 + |a| + |Digits(seqNo)|
      && r[..9] == "customer_" && r[9..9 + |a|] == a
      && r[9 + |a|..18 + |a|] == "_account_" && r[18 + |a|..] == Digits(seqNo)
  {
    "customer_" + IntText(customerId) + "_account_" + Digits(seqNo)
  }

  /** The identifier determines the customer and the sequence number: the customer's text
      has no underscore, so the text after the prefix ends where "_account_" begins. */
  lemma AccountIdInjective(c1: int, n1: nat, c2: int, n2: nat)
    requires AccountId(c1, n1) == AccountId(c2, n2)
    ensures c1 == c2 && n1 == n2
  {
    var s, a1, a2 := AccountId(c1, n1), IntText(c1), IntText(c2);
    var m := if |a1| <= |a2| then |a1| else |a2|;
    AccountIdCharAt(c1, n1, m);
    AccountIdCharAt(c2, n2, m);
    assert |a1| == |a2|;
    assert s == "customer_" + a1 + "_account_" + Digits(n1);
    assert s == "customer_" + a2 + "_account_" + Digits(n2);
    assert a1 == s[9..9 + |a1|] == a2;
    IntTextInjective(c1, c2);
    assert Digits(n1) == s[18 + |a1|..] == Digits(n2);
    DigitsInjective(n1, n2);
  }

  /** After the prefix come the customer's text and then an underscore. */
  lemma AccountIdCharAt(customerId: int, seqNo: nat, i: nat)
    requires i <= |IntText(customerId)|
    ensures var a := IntText(customerId);
      AccountId(customerId, seqNo)[9 + i] == if i < |a| then a[i] else '_'
  {
    var a := IntText(customerId);
    assert AccountId(customerId, seqNo) == ("customer_" + a) + ("_account_" + Digits(seqNo));
  }

  /** How many accounts of the table belong to the customer. */
  function CountFor(owners: map<string, int>, customerId: int): (r: nat)
    ensures r == 0 <==> forall k :: k in owners ==> owners[k] != customerId
  {
    var mine := set k | k in owners && owners[k] == customerId;
    assert (forall k :: k in owners ==> owners[k] != customerId) ==> mine == {};
    assert |mine| == 0 ==> forall k :: k in owners ==> k !in mine;
    |mine|
  }

  /** The identifier `create_account` gives the customer's next account. */
  function NextAccountId(owners: map<string, int>, customerId: int): (r: string)
    ensures WellNumbered(owners) ==> r !in owners
  {
    FreshAccountId(owners, customerId);
    AccountId(customerId, CountFor(owners, customerId) + 1)
  }

  /** Every key is its owner's identifier with a sequence number no larger than the number
      of accounts that owner has: what a table built only by `create_account` looks like. */
  ghost predicate WellNumbered(owners: map<string, int>) {
    forall k {:trigger NumberedKey(owners, k)} :: k in owners ==> NumberedKey(owners, k)
  }

  /** The key is its owner's identifier for one of that owner's sequence numbers. */
  ghost predicate NumberedKey(owners: map<string, int>, k: string)
    requires k in owners
  {
    exists n: nat :: 1 <= n <= CountFor(owners, owners[k]) && k == AccountId(owners[k], n)
  }

  /** The identifier `create_account` generates is never already taken in a table built
      only by `create_account`. */
  lemma FreshAccountId(owners: map<string, int>, customerId: int)
    ensures WellNumbered(owners) ==> AccountId(customerId, CountFor(owners, customerId) + 1) !in owners
  {
    var id := AccountId(customerId, CountFor(owners, customerId) + 1);
    if WellNumbered(owners) && id in owners {
      assert NumberedKey(owners, id);
      var n: nat :| 1 <= n <= CountFor(owners, owners[id]) && id == AccountId(owners[id], n);
      AccountIdInjective(owners[id], n, customerId, CountFor(owners, customerId) + 1);
    }
  }

  /** The next identifier carries the count plus one. */
  lemma NextAfterCount(owners: map<string, int>, customerId: int, n: nat)
    requires CountFor(owners, customerId) == n
    ensures NextAccountId(owners, customerId) == AccountId(customerId, n + 1)
  {
  }

  /** Adding an account makes its owner's count one larger and leaves the others'. */
  lemma CountAfterInsert(owners: map<string, int>, id: string, customerId: int, other: int)
    requires id !in owners
    ensures CountFor(owners[id := customerId], other)
         == CountFor(owners, other) + (if other == customerId then 1 else 0)
  {
    var before := set k | k in owners && owners[k] == other;
    var owners' := owners[id := customerId];
    var after := set k | k in owners' && owners'[k] == other;
    if other == customerId {
      assert after == before + {id};
    } else {
      assert after == before;
    }
  }

  /** `create_account` keeps the table well numbered. */
  lemma NumberingPreserved(owners: map<string, int>, customerId: int)
    requires WellNumbered(owners)
    ensures WellNumbered(owners[NextAccountId(owners, customerId) := customerId])
  {
    var id := NextAccountId(owners, customerId);
    var owners' := owners[id := customerId];
    FreshAccountId(owners, customerId);
    forall k | k in owners'
      ensures NumberedKey(owners', k)
    {
      CountAfterInsert(owners, id, customerId, owners'[k]);
      if k == id {
        assert k == AccountId(customerId, CountFor(owners', customerId));
      } else {
        assert NumberedKey(owners, k);
        var n: nat :| 1 <= n <= CountFor(owners, owners[k]) && k == AccountId(owners[k], n);
        assert 1 <= n <= CountFor(owners', owners'[k]) && k == AccountId(owners'[k], n);
      }
    }
  }

  /** A customer's first two accounts are numbered 1 and 2. */
  lemma FirstAccountIds()
    ensures NextAccountId(map[], 1) == "customer_1_account_1"
    ensures NextAccountId(map["customer_1_account_1" := 1], 1) == "customer_1_account_2"
  {
    assert (set k | k in map["customer_1_account_1" := 1] && map["customer_1_account_1" := 1][k] == 1)
        == {"customer_1_account_1"};
  }

  // ---------------------------------------------------------------------------
  // The store as the handlers find it and leave it

  /** The store's own invariant, plus the numbering that only `CreateAccount` inserts by. */
  ghost predicate Consistent(store: Store)
    reads store, store.accounts.Values
  {
    store.Valid() && WellNumbered(store.Owners())
  }

  /** The account with the id, or `AccountNotFound`. */
  function GetAccount(store: Store, accountId: string): (r: Result<Account>)
    reads store
    ensures r.Err? <==> accountId !in store.accounts
    ensures r.Err? ==> r.error == AccountNotFound
    ensures r.Ok? ==> r.value == store.accounts[accountId]
    ensures r.Ok? && FiledById(store.accounts) ==> r.value.id == accountId
  {
    if accountId !in store.accounts then Err(AccountNotFound) else Ok(store.accounts[accountId])
  }

  /** An account as the handlers report it. */
  datatype AccountInfo = AccountInfo(accountId: string, customerId: int, balance: int)

  /** Opens an account for an existing customer with a non-negative deposit. The customer
      is checked first. The new account is numbered one past the customer's existing ones. */
  method CreateAccount(store: Store, customerId: int, initialDeposit: int)
    returns (r: Result<AccountInfo>)
    requires Consistent(store)
    modifies store
    ensures Consistent(store)
    ensures !CustomerExists(customerId) ==> r == Err(CustomerNotFound)
    ensures CustomerExists(customerId) && initialDeposit < 0 ==> r == Err(NegativeDeposit)
    ensures r.Ok? <==> CustomerExists(customerId) && 0 <= initialDeposit
    ensures r.Err? ==> store.accounts == old(store.accounts) && store.order == old(store.order)
    ensures r.Ok? ==>
      var id := NextAccountId(old(store.Owners()), customerId);
      && id !in old(store.accounts)
      && r.value == AccountInfo(id, customerId, initialDeposit)
      && id in store.accounts && fresh(store.accounts[id])
      && store.accounts == old(store.accounts)[id := store.accounts[id]]
      && store.Owners() == old(store.Owners())[id := customerId]
      && store.Balances() == old(store.Balances())[id := initialDeposit]
      && store.order == old(store.order) + [id]
  {
    ghost var balances := store.Balances();
    if !CustomerExists(customerId) {
      return Err(CustomerNotFound);
    }
    if initialDeposit < 0 {
      return Err(NegativeDeposit);
    }
    var existing := CountFor(store.Owners(), customerId);
    var id := AccountId(customerId, existing + 1);
    FreshAccountId(store.Owners(), customerId);
    NumberingPreserved(store.Owners(), customerId);
    var account := new Account(id, customerId, initialDeposit);
    assert store.Balances() == balances;
    store.Insert(account);
    assert store.Balances() == balances[id := initialDeposit];
    r := Ok(AccountInfo(id, customerId, initialDeposit));
  }

  // ---------------------------------------------------------------------------
  // Transfers

  /** Every balance is non-negative. */
  ghost predicate NonNegative(balances: map<string, int>) {
    forall k :: k in balances ==> balances[k] >= 0
  }

  /** What `transfer_amount` does to the books: resolve the source, then the target, then
      check as `transfer_to` does; on success debit, credit and log one record. */
  function Transfer(b: Books, from: string, to: string, amount: int, timestamp: string)
    : (r: (Result<TransferRec>, Books))
    ensures r.0.Err? ==> r.1 == b
    ensures r.0 == Err(AccountNotFound) <==> from !in b.balances || to !in b.balances
    ensures r.0 == Err(InvalidAmount) <==> from in b.balances && to in b.balances && amount <= 0
    ensures r.0 == Err(InsufficientFunds) <==>
      from in b.balances && to in b.balances && 0 < amount && b.balances[from] < amount
    ensures r.0.Ok? ==>
      && r.0.value == TransferRec(from, to, amount, timestamp)
      && r.1.log == b.log + [r.0.value]
      && r.1.balances.Keys == b.balances.Keys
      && (forall k :: k in b.balances && k != from && k != to ==> r.1.balances[k] == b.balances[k])
    ensures r.0.Ok? && from != to ==>
      && r.1.balances[from] == b.balances[from] - amount
      && r.1.balances[to] == b.balances[to] + amount
    ensures from == to ==> r.1.balances == b.balances
    ensures r.0.Ok? <==> from in b.balances && to in b.balances && 0 < amount <= b.balances[from]
    ensures NonNegative(b.balances) ==> NonNegative(r.1.balances)
  {
    if from !in b.balances || to !in b.balances then (Err(AccountNotFound), b)
    else if amount <= 0 then (Err(InvalidAmount), b)
    else if b.balances[from] < amount then (Err(InsufficientFunds), b)
    else
      var rec := TransferRec(from, to, amount, timestamp);
      var debited := b.balances[from := b.balances[from] - amount];
      (Ok(rec), Books(debited[to := debited[to] + amount], b.log + [rec]))
  }

  /** `Transfer` in closed form, for callers that reason about the balances one by one. */
  lemma TransferClosedForm(b: Books, from: string, to: string, amount: int, timestamp: string)
    requires from in b.balances && to in b.balances
    ensures var r := Transfer(b, from, to, amount, timestamp);
      && (r.0.Err? || from == to ==> r.1.balances == b.balances)
      && (r.0.Ok? && from != to ==>
            r.1.balances == b.balances[from := b.balances[from] - amount][to := b.balances[to] + amount])
  {
  }

  /** The sum of the balances of the accounts named by `keys`. */
  function Total(balances: map<string, int>, keys: seq<string>): int
    requires forall k :: k in keys ==> k in balances
  {
    if keys == [] then 0 else balances[keys[0]] + Total(balances, keys[1..])
  }

  /** Changing one balance by `delta` changes the total over a listing that names it once
      by `delta`. */
  lemma {:induction false} TotalAfterUpdate(balances: map<string, int>, keys: seq<string>, k: string, delta: int)
    requires forall j :: j in keys ==> j in balances
    requires k in balances && Distinct(keys)
    ensures Total(balances[k := balances[k] + delta], keys)
         == Total(balances, keys) + (if k in keys then delta else 0)
  {
    if keys != [] {
      assert k == keys[0] ==> k !in keys[1..];
      TotalAfterUpdate(balances, keys[1..], k, delta);
    }
  }

  /** A transfer moves money and creates none: the total over all accounts is unchanged. */
  lemma TransferConservesTotal(b: Books, from: string, to: string, amount: int, timestamp: string, keys: seq<string>)
    requires Distinct(keys) && forall k :: k in keys <==> k in b.balances
    ensures var after := Transfer(b, from, to, amount, timestamp).1;
      Total(after.balances, keys) == Total(b.balances, keys)
  {
    if from in b.balances && to in b.balances && 0 < amount <= b.balances[from] {
      var debited := b.balances[from := b.balances[from] - amount];
      TotalAfterUpdate(b.balances, keys, from, -amount);
      TotalAfterUpdate(debited, keys, to, amount);
    }
  }

  /** A successful transfer adds its record to the history of the two accounts and of no
      other; a failed one changes no history. */
  lemma TransferHistory(b: Books, from: string, to: string, amount: int, timestamp: string, id: string)
    ensures var (r, after) := Transfer(b, from, to, amount, timestamp);
      AccountTransactions(after.log, id)
        == AccountTransactions(b.log, id) + (if r.Ok? && (id == from || id == to) then [r.value] else [])
  {
    var (r, after) := Transfer(b, from, to, amount, timestamp);
    if r.Ok? {
      HistoryAppend(b.log, r.value, id);
    }
  }

  /** Moves `amount` from one account to another: both must exist, then `TransferTo`
      decides. Only the two balances and the log can change; the table itself does not,
      so a `Consistent` store stays `Consistent`. */
  method TransferAmount(store: Store, from: string, to: string, amount: int, timestamp: string)
    returns (r: Result<TransferRec>)
    requires store.Valid()
    modifies store.ledger, store.accounts.Values
    ensures store.Valid()
    ensures store.accounts == old(store.accounts) && store.order == old(store.order)
    ensures (r, store.Snapshot()) == Transfer(old(store.Snapshot()), from, to, amount, timestamp)
  {
    ghost var b := store.Snapshot();
    var source := GetAccount(store, from);
    if source.Err? {
      return Err(source.error);
    }
    var target := GetAccount(store, to);
    if target.Err? {
      return Err(target.error);
    }
    r := source.value.TransferTo(target.value, amount, timestamp, store.ledger);
    forall k | k in store.accounts && k != from && k != to
      ensures store.accounts[k].balance == old(store.accounts[k].balance)
    {
      assert store.accounts[k] != source.value && store.accounts[k] != target.value;
    }
    ghost var expected := Transfer(b, from, to, amount, timestamp);
    assert r == expected.0;
    assert store.ledger.records == expected.1.log;
    ghost var x, y := store.accounts[from].balance, store.accounts[to].balance;
    ghost var now := b.balances[from := x][to := y];
    forall k | k in store.accounts ensures store.Balances()[k] == now[k] {
    }
    assert store.Balances().Keys == now.Keys;
    assert store.Balances() == now;
    if r.Ok? && from != to {
      assert source.value != target.value;
      assert x == b.balances[from] - amount && y == b.balances[to] + amount;
      ghost var want := b.balances[from := b.balances[from] - amount][to := b.balances[to] + amount];
      assert now == want;
      TransferClosedForm(b, from, to, amount, timestamp);
      assert expected.1.balances == want;
    } else {
      assert x == b.balances[from] && y == b.balances[to];
      assert now == b.balances;
      TransferClosedForm(b, from, to, amount, timestamp);
      assert now == expected.1.balances;
    }
    assert store.Balances() == expected.1.balances;
    assert store.Snapshot() == expected.1;
  }

  // ---------------------------------------------------------------------------
  // Queries

  /** The balance of the account with the id. */
  function GetBalance(store: Store, accountId: string): (r: Result<int>)
    requires store.Valid()
    reads store, store.accounts.Values
    ensures r.Err? <==> accountId !in store.accounts
    ensures r.Err? ==> r.error == AccountNotFound
    ensures r.Ok? ==> r.value == store.Balances()[accountId] && r.value >= 0
  {
    match GetAccount(store, accountId)
    case Err(e) => Err(e)
    case Ok(account) => Ok(account.balance)
  }

  /** The transfers the account with the id took part in, in log order. */
  function GetTransferHistory(store: Store, accountId: string): (r: Result<seq<TransferRec>>)
    reads store, store.ledger
    ensures r.Err? <==> accountId !in store.accounts
    ensures r.Err? ==> r.error == AccountNotFound
    ensures r.Ok? ==> r.value == AccountTransactions(store.ledger.records, accountId)
    ensures r.Ok? ==> forall t :: t in r.value <==> t in store.ledger.records && Involves(t, accountId)
  {
    match GetAccount(store, accountId)
    case Err(e) => Err(e)
    case Ok(_) => Ok(AccountTransactions(store.ledger.records, accountId))
  }

  function Describe(account: Account): AccountInfo
    reads account
  {
    AccountInfo(account.id, account.customer, account.balance)
  }

  function DescribeAll(list: seq<Account>): (r: seq<AccountInfo>)
    reads list
    ensures |r| == |list|
    ensures forall i :: 0 <= i < |list| ==> r[i] == Describe(list[i])
  {
    if list == [] then [] else [Describe(list[0])] + DescribeAll(list[1..])
  }

  /** Entry `i` of the listing describes the account filed under `order[i]`. */
  lemma ListingEntries(store: Store, r: seq<AccountInfo>)
    requires store.Valid() && r == DescribeAll(store.AllAccounts())
    ensures |r| == |store.order|
    ensures forall i :: 0 <= i < |r| ==>
        && r[i].accountId == store.order[i] && r[i].accountId in store.accounts
        && r[i].customerId == store.Owners()[r[i].accountId]
        && r[i].balance == store.Balances()[r[i].accountId]
  {
    var list := store.AllAccounts();
    forall i | 0 <= i < |r|
      ensures && r[i].accountId == store.order[i] && r[i].accountId in store.accounts
              && r[i].customerId == store.Owners()[r[i].accountId]
              && r[i].balance == store.Balances()[r[i].accountId]
    {
      assert list[i] == store.accounts[store.order[i]];
    }
  }

  /** Every filed id is listed. */
  lemma ListingComplete(store: Store, r: seq<AccountInfo>)
    requires store.Valid() && r == DescribeAll(store.AllAccounts())
    ensures forall k :: k in store.accounts ==> exists i :: 0 <= i < |r| && r[i].accountId == k
  {
    var list := store.AllAccounts();
    forall k | k in store.accounts ensures exists i :: 0 <= i < |r| && r[i].accountId == k {
      var i :| 0 <= i < |store.order| && store.order[i] == k;
      assert list[i] == store.accounts[k];
      assert r[i].accountId == k;
    }
  }

  /** Every account as id, owner and balance, one per table entry, in insertion order. */
  function ListAllAccounts(store: Store): (r: seq<AccountInfo>)
    requires store.Valid()
    reads store, store.accounts.Values
    ensures |r| == |store.accounts| == |store.order|
    ensures forall i :: 0 <= i < |r| ==>
      && r[i].accountId == store.order[i] && r[i].accountId in store.accounts
      && r[i].customerId == store.Owners()[r[i].accountId]
      && r[i].balance == store.Balances()[r[i].accountId]
    ensures forall k :: k in store.accounts ==> exists i :: 0 <= i < |r| && r[i].accountId == k
    ensures forall i, j :: 0 <= i < j < |r| ==> r[i].accountId != r[j].accountId
  {
    var r := DescribeAll(store.AllAccounts());
    ListingEntries(store, r);
    ListingComplete(store, r);
    r
  }
}
