/** The in-memory storage of src/data.py: the seeded customers, the account table and the
    transfer log, with the two read-only queries over them. The module-level globals become
    one `Store` object that the API layer receives. */
module Data {
  import opened Models

  datatype Customer = Customer(id: int, name: string)

  /** The customers seeded at start-up; nothing adds, changes or removes them. */
  const Customers: seq<Customer> := [
    Customer(1, "Arisha Barron"),
    Customer(2, "Branden Gibson"),
    Customer(3, "Rhonda Church"),
    Customer(4, "Georgina Hazel")
  ]

  /** The seeded ids are exactly 1 to 4, each used once. */
  lemma SeededCustomerIds()
    ensures (set c | c in Customers :: c.id) == {1, 2, 3, 4}
    ensures forall i, j :: 0 <= i < j < |Customers| ==> Customers[i].id != Customers[j].id
  {
    assert Customers[0].id == 1 && Customers[1].id == 2 && Customers[2].id == 3 && Customers[3].id == 4;
  }

  predicate Distinct<T(==)>(s: seq<T>) {
    forall i, j :: 0 <= i < j < |s| ==> s[i] != s[j]
  }

  /** A sequence without repetitions has as many elements as the set of its elements. */
  lemma {:induction false} DistinctCardinality<T>(s: seq<T>)
    requires Distinct(s)
    ensures |set x | x in s| == |s|
  {
    if s != [] {
      DistinctCardinality(s[1..]);
      assert (set x | x in s) == (set x | x in s[1..]) + {s[0]};
      assert s[0] !in s[1..];
    }
  }

  /** The accounts named by `keys`, in the order of `keys`. */
  function ValuesInOrder(m: map<string, Account>, keys: seq<string>): (r: seq<Account>)
    requires forall k :: k in keys ==> k in m
    ensures |r| == |keys|
    ensures forall i :: 0 <= i < |keys| ==> r[i] == m[keys[i]]
  {
    if keys == [] then [] else [m[keys[0]]] + ValuesInOrder(m, keys[1..])
  }

  /** A table whose entries are filed under their own ids. */
  ghost predicate FiledById(m: map<string, Account>) {
    forall k :: k in m ==> m[k].id == k
  }

  /** `order` names every key of `m` once. */
  ghost predicate Enumerates(order: seq<string>, m: map<string, Account>) {
    (forall k :: k in m <==> k in order) && Distinct(order)
  }

  lemma ListingSize(m: map<string, Account>, order: seq<string>)
    requires Enumerates(order, m)
    ensures |ValuesInOrder(m, order)| == |m|
  {
    DistinctCardinality(order);
    assert m.Keys == set k | k in order;
  }

  lemma ListingCovers(m: map<string, Account>, order: seq<string>, k: string)
    requires Enumerates(order, m) && k in m
    ensures m[k] in ValuesInOrder(m, order)
  {
    var i :| 0 <= i < |order| && order[i] == k;
    assert ValuesInOrder(m, order)[i] == m[k];
  }

  lemma ListingDistinct(m: map<string, Account>, order: seq<string>)
    requires FiledById(m) && Enumerates(order, m)
    ensures Distinct(ValuesInOrder(m, order))
  {
    var list := ValuesInOrder(m, order);
    forall i, j | 0 <= i < j < |list| ensures list[i] != list[j] {
      assert list[i].id == order[i] && list[j].id == order[j];
    }
  }

  lemma InsertKeepsFiling(m: map<string, Account>, a: Account)
    requires FiledById(m)
    ensures FiledById(m[a.id := a])
  {
  }

  lemma InsertKeepsEnumeration(order: seq<string>, m: map<string, Account>, a: Account)
    requires Enumerates(order, m) && a.id !in m
    ensures Enumerates(order + [a.id], m[a.id := a])
  {
    var order' := order + [a.id];
    forall i, j | 0 <= i < j < |order'| ensures order'[i] != order'[j] {
      if j == |order| {
        assert order'[i] == order[i];
      }
    }
  }

  /** The owning customer of every account of the table, by id. */
  function OwnersOf(m: map<string, Account>): map<string, int> {
    map k | k in m :: m[k].customer
  }

  lemma InsertOwners(m: map<string, Account>, a: Account)
    ensures OwnersOf(m[a.id := a]) == OwnersOf(m)[a.id := a.customer]
  {
    var l, r := OwnersOf(m[a.id := a]), OwnersOf(m)[a.id := a.customer];
    assert l.Keys == r.Keys;
    forall k | k in l ensures l[k] == r[k] {
    }
  }

  /** What transfers read and write: every account's balance, by id, and the log. */
  datatype Books = Books(balances: map<string, int>, log: seq<TransferRec>)

  class Store {
    /** The account table, keyed by account id. */
    var accounts: map<string, Account>
    /** The table's keys in insertion order, which is the order a Python dict iterates in. */
    var order: seq<string>
    /** The transfer log. */
    const ledger: Ledger

    /** Every account is filed under its own id and has a non-negative balance, and `order`
        lists each key once. */
    ghost predicate Valid()
      reads this, accounts.Values
    {
      && FiledById(accounts)
      && (forall k :: k in accounts ==> accounts[k].balance >= 0)
      && Enumerates(order, accounts)
    }

    constructor ()
      ensures Valid()
      ensures accounts == map[] && order == []
      ensures fresh(ledger) && ledger.records == []
    {
      accounts := map[];
      order := [];
      ledger := new Ledger();
    }

    /** The balance of every account, by id. */
    ghost function Balances(): map<string, int>
      reads this, accounts.Values
    {
      map k | k in accounts :: accounts[k].balance
    }

    /** The balances and the log together. */
    ghost function Snapshot(): Books
      reads this, ledger, accounts.Values
    {
      Books(Balances(), ledger.records)
    }

    /** The owning customer of every account, by id. */
    function Owners(): map<string, int>
      reads this
    {
      OwnersOf(accounts)
    }

    /** Files a new account under its id, after every existing one. */
    method Insert(account: Account)
      requires Valid() && account.id !in accounts && account.balance >= 0
      modifies this
      ensures Valid()
      ensures accounts == old(accounts)[account.id := account]
      ensures order == old(order) + [account.id]
      ensures Owners() == old(Owners())[account.id := account.customer]
      ensures Balances() == old(Balances())[account.id := account.balance]
    {
      ghost var balances := Balances();
      InsertKeepsFiling(accounts, account);
      InsertKeepsEnumeration(order, accounts, account);
      InsertOwners(accounts, account);
      accounts := accounts[account.id := account];
      order := order + [account.id];
      assert forall k :: k in accounts ==> accounts[k].balance >= 0;
      assert Balances().Keys == balances.Keys + {account.id};
      forall k | k in Balances() ensures Balances()[k] == balances[account.id := account.balance][k] {
      }
    }

    /** All accounts, one per table entry, in insertion order. */
    function AllAccounts(): (list: seq<Account>)
      requires Valid()
      reads this, accounts.Values
      ensures |list| == |accounts| == |order|
      ensures forall i :: 0 <= i < |list| ==> list[i] == accounts[order[i]]
      ensures forall k :: k in accounts ==> accounts[k] in list
      ensures forall i :: 0 <= i < |list| ==> list[i] in accounts.Values
      ensures Distinct(list)
    {
      ListingSize(accounts, order);
      ListingDistinct(accounts, order);
      forall k | k in accounts ensures accounts[k] in ValuesInOrder(accounts, order) {
        ListingCovers(accounts, order, k);
      }
      ValuesInOrder(accounts, order)
    }
  }

  /** True when the account sent or received the transfer. */
  predicate Involves(t: TransferRec, id: string) {
    t.from == id || t.to == id
  }

  /** The transfers an account took part in, in log order. */
  function AccountTransactions(log: seq<TransferRec>, id: string): (h: seq<TransferRec>)
    ensures |h| <= |log|
    ensures forall t :: t in h <==> t in log && Involves(t, id)
    ensures h == [] <==> forall t :: t in log ==> !Involves(t, id)
  {
    if log == [] then []
    else if Involves(log[0], id) then [log[0]] + AccountTransactions(log[1..], id)
    else AccountTransactions(log[1..], id)
  }

  /** Logging one more transfer adds it to the history of exactly the accounts it involves. */
  lemma {:induction false} HistoryAppend(log: seq<TransferRec>, t: TransferRec, id: string)
    ensures AccountTransactions(log + [t], id)
         == AccountTransactions(log, id) + (if Involves(t, id) then [t] else [])
  {
    if log != [] {
      assert (log + [t])[1..] == log[1..] + [t];
      HistoryAppend(log[1..], t, id);
    }
  }

  /** `idx` lists positions of `log`, strictly increasing, at which the entries of `h` stand. */
  ghost predicate Embeds(h: seq<TransferRec>, log: seq<TransferRec>, idx: seq<nat>) {
    && |idx| == |h|
    && (forall i :: 0 <= i < |idx| ==> idx[i] < |log| && h[i] == log[idx[i]])
    && (forall i, j :: 0 <= i < j < |idx| ==> idx[i] < idx[j])
  }

  /** Every position moved one place to the right. */
  function Shift(idx: seq<nat>): (r: seq<nat>)
    ensures |r| == |idx|
    ensures forall i :: 0 <= i < |idx| ==> r[i] == idx[i] + 1
  {
    if idx == [] then [] else [idx[0] + 1] + Shift(idx[1..])
  }

  lemma ShiftMembership(idx: seq<nat>, j: nat)
    ensures j + 1 in Shift(idx) <==> j in idx
    ensures 0 !in Shift(idx)
  {
    var r := Shift(idx);
    if j in idx {
      var i :| 0 <= i < |idx| && idx[i] == j;
      assert r[i] == j + 1;
    }
  }

  /** Positions in the tail of a log are positions in the log, one further on. */
  lemma EmbedsInTail(h: seq<TransferRec>, log: seq<TransferRec>, rest: seq<nat>)
    requires log != [] && Embeds(h, log[1..], rest)
    ensures Embeds(h, log, Shift(rest))
  {
    var s := Shift(rest);
    forall i | 0 <= i < |s| ensures s[i] < |log| && h[i] == log[s[i]] {
      assert h[i] == log[1..][rest[i]];
    }
  }

  /** ... and the first entry of the log can go in front of them. */
  lemma EmbedsWithHead(h: seq<TransferRec>, log: seq<TransferRec>, rest: seq<nat>)
    requires log != [] && Embeds(h, log, Shift(rest))
    ensures Embeds([log[0]] + h, log, [0] + Shift(rest))
  {
    var h', s' := [log[0]] + h, [0] + Shift(rest);
    forall i | 1 <= i < |s'| ensures h'[i] == h[i - 1] && s'[i] == Shift(rest)[i - 1] {
    }
  }

  /** The positions of a log are those of its tail, moved one on, and 0 when the first
      entry involves the account. */
  lemma PositionsStep(log: seq<TransferRec>, id: string, rest: seq<nat>, j: nat)
    requires log != [] && j < |log|
    requires forall i :: 0 <= i < |log| - 1 ==> (i in rest <==> Involves(log[1..][i], id))
    ensures j in (if Involves(log[0], id) then [0] + Shift(rest) else Shift(rest)) <==> Involves(log[j], id)
  {
    ShiftMembership(rest, if j == 0 then 0 else j - 1);
    if j > 0 {
      assert log[j] == log[1..][j - 1];
    }
  }

  /** The history is the subsequence of the log at exactly the positions where the
      account took part: it keeps log order, repeats and omits nothing. */
  lemma {:induction false} HistoryPositions(log: seq<TransferRec>, id: string) returns (idx: seq<nat>)
    ensures Embeds(AccountTransactions(log, id), log, idx)
    ensures forall j :: 0 <= j < |log| ==> (j in idx <==> Involves(log[j], id))
  {
    if log == [] {
      idx := [];
    } else {
      var rest := HistoryPositions(log[1..], id);
      EmbedsInTail(AccountTransactions(log[1..], id), log, rest);
      if Involves(log[0], id) {
        EmbedsWithHead(AccountTransactions(log[1..], id), log, rest);
      }
      idx := if Involves(log[0], id) then [0] + Shift(rest) else Shift(rest);
      forall j | 0 <= j < |log| ensures j in idx <==> Involves(log[j], id) {
        PositionsStep(log, id, rest, j);
      }
    }
  }
}
