# In-memory bank: a Dafny model

The system is a small demonstration bank. Four customers are seeded at start-up (ids 1 to 4).
Customers open accounts with an initial deposit. Accounts move money to one another, and
every successful transfer is appended to a global log. A handful of read-only queries report
balances, per-account transfer histories and the list of all accounts.

The model keeps the shape of the three Python modules:

- `models.dfy` (module `Models`), from `src/models.py`:
  - The `Account` class has a read-only id and customer and a mutable `balance`.
  - Its `TransferTo` method checks the amount, then the funds. It debits the source, credits the target and appends one `TransferRec` to the shared `Ledger`.
  - Failures are values of `BankError`, carried in a `Result`.
- `data.dfy` (module `Data`), from `src/data.py`:
  - The seeded `Customers` list.
  - The global account table and transfer log, gathered into one `Store` object. `Store.order` records the table's insertion order, which is the order in which a Python dict lists its values.
  - `AllAccounts` corresponds to `get_all_accounts`.
  - The `AccountTransactions` filter corresponds to `get_account_transactions`.
- `banking_api.dfy` (module `BankingApi`), from `src/banking_api.py`:
  - The request handlers without the HTTP layer. Each takes the `Store` and returns a `Result` in place of a status code.
  - Account ids are `customer_{customer}_account_{n}`. The numbering invariant `WellNumbered` shows that a generated id is never already taken.
  - Transfers are specified by the pure function `Transfer` on `Books` (every balance by id, plus the log). `TransferAmount` is proved to change the store's books exactly as `Transfer` says.
- `decimal.dfy` (module `Decimal`): the decimal rendering of integers that the id format uses, proved injective.
- `scenarios.dfy` (module `Scenarios`): the flows that `tests/test_overall.py` drives, each stated for any seeded customers and proved from the handlers' contracts alone.

Money is an integer count of minor units, so conservation of money is exact. A transfer to the
account itself is accepted, leaves the balance as it was, and is still logged, as the code does.

## Model

| member | source | states |
|---|---|---|
| Models.Account.constructor | src/models.py:11-14 | The new account has the given id, customer and balance equal to the initial deposit. |
| Models.Account.TransferTo | src/models.py:28-45 | A non-positive amount fails with InvalidAmount. Otherwise a balance below the amount fails with InsufficientFunds. It succeeds exactly when 0 < amount <= old balance. On failure neither balance nor the log changes. On success the returned record is (source id, target id, amount, timestamp) and is the one record appended to the log. For distinct accounts the source is debited, the target credited and their sum conserved. A self-transfer leaves the balance as it was. A non-negative source balance stays non-negative. |
| Models.Ledger.constructor | src/data.py:26 | The transfer log starts empty. |
| Models.Ledger.Append | src/models.py:44 | Appending adds the record at the end and keeps every earlier entry. |
| Data.SeededCustomerIds | src/data.py:8-13 | The seeded customer ids are exactly {1, 2, 3, 4}, pairwise distinct. |
| Data.Store.constructor | src/data.py:20-26 | An empty account table and an empty, fresh transfer log, satisfying the store invariant. |
| Data.Store.Insert | src/banking_api.py:43-44 | Filing a new account under an unused id keeps the store invariant. The table gains exactly that entry, the insertion order gains the id at the end, and owners and balances gain the new account's. |
| Data.Store.AllAccounts | src/data.py:28-34 | One element per table entry, in insertion order: element i is the account filed under the i-th inserted id, every account appears, nothing else does, and none twice. |
| Data.DistinctCardinality | src/data.py:34 | A list without repetitions has as many elements as its set, so the listing has the table's size. |
| Data.AccountTransactions | src/data.py:36-41 | A record is in an account's history exactly when it is in the log and the account sent or received it. The history is empty exactly when no record involves the account. It is never longer than the log. |
| Data.HistoryPositions | src/data.py:38-41 | The history is the subsequence of the log at exactly the positions whose record involves the account, in strictly increasing order: log order is kept, nothing repeated or dropped. |
| Data.HistoryAppend | src/data.py:38-41 | Logging one more record extends the history of exactly the accounts it involves, by that record, and leaves the rest. |
| BankingApi.CustomerExists | src/banking_api.py:23-24 | True exactly when 1 <= id <= 4, i.e. when some seeded customer has the id (1 is found, 5 is not). |
| BankingApi.GetAccount | src/banking_api.py:26-29 | Fails with AccountNotFound exactly when the id is not in the table; otherwise it returns the stored account, whose own id is the one asked for. |
| BankingApi.AccountIdInjective | src/banking_api.py:41 | `customer_{c}_account_{n}` determines both c and n. |
| Decimal.ValueOfDigits | src/banking_api.py:41 | Reading back the decimal digits of n gives n. |
| Decimal.IntTextInjective | src/banking_api.py:41 | Distinct integers render as distinct texts. |
| BankingApi.CountAfterInsert | src/banking_api.py:39 | Adding an account raises its owner's count by one and leaves every other customer's count. |
| BankingApi.CountFor | src/banking_api.py:39 | The number of the customer's accounts in the table; it is zero exactly when no account belongs to the customer. |
| BankingApi.AccountId | src/banking_api.py:40-41 | The id is `customer_`, then the customer's decimal text, then `_account_`, then the sequence number's digits, and nothing else. |
| BankingApi.NextAccountId | src/banking_api.py:39-41 | The id for the customer's count plus one, which is not already a key of a well-numbered table. |
| Decimal.IntText | src/banking_api.py:41 | Python's `str` of an int: non-empty, led by a minus sign exactly when negative, and free of underscores. |
| Decimal.Digits | src/banking_api.py:41 | The decimal digits of a natural number: non-empty, all digits, a single digit exactly below 10. |
| BankingApi.FreshAccountId | src/banking_api.py:39-44 | If the table is well numbered (built only by account creation), the id the handler generates is not already a key, so no account is overwritten. |
| BankingApi.NumberingPreserved | src/banking_api.py:39-44 | Inserting under the generated id keeps the table well numbered. |
| BankingApi.FirstAccountIds | tests/test_overall.py:49-59 | A customer's first account is `customer_1_account_1` and the next is `customer_1_account_2`. |
| BankingApi.CreateAccount | src/banking_api.py:31-45 | An unknown customer fails with CustomerNotFound, checked before the deposit. A negative deposit fails with NegativeDeposit. It succeeds exactly when the customer exists and the deposit is non-negative, and on failure the table is unchanged. On success the id is the customer's count plus one, is new, and is returned with the customer and the deposit. The table gains exactly that fresh account, owners and balances gain its entries, the order gains its id, and the store stays consistent. |
| BankingApi.Transfer | src/banking_api.py:60-65 | A missing source or target fails with AccountNotFound. Otherwise a non-positive amount fails with InvalidAmount, then a short balance with InsufficientFunds, each an if-and-only-if, and any failure leaves the books unchanged. It succeeds exactly when both accounts exist and 0 < amount <= the source balance. On success it returns the record, appends exactly it to the log, debits the source and credits the target when they differ, leaves every other balance and the set of accounts alone, and keeps all balances non-negative. |
| BankingApi.TransferConservesTotal | src/models.py:35-36 | A transfer changes no total: the sum of all balances after it equals the sum before, whatever its outcome. |
| BankingApi.TransferHistory | src/models.py:44 | A successful transfer adds its record to the history of its two accounts only; a failed one changes no history. |
| BankingApi.TransferAmount | src/banking_api.py:60-65 | The outcome and the store's new balances and log are exactly those `Transfer` gives for the old ones. The table and its order are unchanged, and the store invariant (non-negative balances) is kept. |
| BankingApi.GetBalance | src/banking_api.py:67-71 | Fails with AccountNotFound exactly for an unknown id; otherwise it returns the account's stored balance, which is non-negative. |
| BankingApi.GetTransferHistory | src/banking_api.py:73-77 | Fails with AccountNotFound exactly for an unknown id; otherwise it returns exactly `AccountTransactions` of the log: the records that involve the account, in log order, none repeated or dropped (by `HistoryPositions`). |
| BankingApi.ListingEntries | src/banking_api.py:51-58 | Entry i of the listing carries the i-th inserted id, that account's customer and its balance. |
| BankingApi.ListingComplete | src/banking_api.py:51-58 | Every account of the table appears in the listing. |
| BankingApi.ListAllAccounts | src/banking_api.py:47-58 | One entry per account in insertion order, each with the account's id, customer and balance. Every account is listed and no id appears twice. |
| Scenarios.OpenFirstAccount | tests/test_overall.py:62-64 | In an empty bank a seeded customer's deposit of 200 opens account number 1 with that balance, and the log stays empty. |
| Scenarios.OpenSecondAccount | tests/test_overall.py:65-67 | A second customer's deposit of 50 opens that customer's account number 1, distinct from the first, which keeps its account and its 200. |
| Scenarios.OpenTwoAccounts | tests/test_overall.py:62-69 | Two customers' accounts opened in turn hold 200 and 50 and are both numbered 1. |
| Scenarios.TransferBetweenNewAccounts | tests/test_overall.py:61-82 | Moving 100 from the 200 account to the 50 account succeeds, leaves balances 100 and 150 and one logged record, and that record is the sender's whole history. |
| Scenarios.OpenAccounts | tests/test_overall.py:33-59 | A customer's second account is numbered 2. An unknown customer is refused with CustomerNotFound, a negative deposit with NegativeDeposit, and the table ends with the two accounts. |

## Left out

- The FastAPI application, routing, CORS and response serialisation (src/banking_api.py:1-21) are not modelled. Handlers return a `Result` whose error names the detail text; status codes are not modelled.
- Pydantic validation (`ge=0` on the deposit, `gt=0` on the amount, src/models.py:48-68) answers 422 before a handler runs, and it is not modelled. The model keeps the handlers' own checks, which answer NegativeDeposit and InvalidAmount.
- A negative deposit has two answers in the source. The test at tests/test_overall.py:41-46 expects the 422 from validation. The handler's own check (src/banking_api.py:36-37) returns "Initial deposit cannot be negative". The model follows the handler's code.
- Balances are floats in the source. The model uses integer minor units, so rounding is not modelled.
- `datetime.utcnow().isoformat()` (src/models.py:42) is a clock call. The timestamp is a parameter of the transfer.
- The lazy import at src/models.py:37 and src/__init__.py are module plumbing. The log is the `Ledger` object that the store holds and that `TransferTo` receives.
- The module-level globals become one `Store` object passed to each handler. The test fixture that clears them corresponds to a fresh `Store`.
- `GetTransferHistory` returns records by value. The source returns the same dict objects that the log holds, so their aliasing is not modelled.
- `GetBalance` and `CreateAccount` return the values of the source's response dicts, not the dicts themselves.
- Customer names are seeded but no operation reads them.
- Concurrency: the source assumes one request at a time and has no locks, so there is nothing to model.
- BankingApi.TransferAmount requires only the store invariant, not the numbering invariant that `CreateAccount` needs. It leaves the table unchanged, so a well-numbered table stays well numbered.
- Models.Account.TransferTo states the debit and the credit only for distinct accounts. For a self-transfer it states that the balance is unchanged, which is what the debit followed by the credit gives.
