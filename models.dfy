/** The domain model of src/models.py: an account that owns its balance and moves money
    to another account, logging each transfer. Money is an integer count of minor units. */
module Models {

  /** The failures the bank reports; each one leaves every account and the log unchanged. */
  datatype BankError =
    | InvalidAmount      // "Transfer amount must be positive"
    | InsufficientFunds  // "Insufficient funds"
    | AccountNotFound    // "Account not found"
    | CustomerNotFound   // "Customer not found"
    | NegativeDeposit    // "Initial deposit cannot be negative"

  datatype Result<+T> = Ok(value: T) | Err(error: BankError)

  /** One entry of the transfer log. The timestamp is whatever text the caller's clock gave. */
  datatype TransferRec = TransferRec(from: string, to: string, amount: int, timestamp: string)

  /** The shared, append-only transfer log (the `transactions` list). */
  class Ledger {
    var records: seq<TransferRec>

    constructor ()
      ensures records == []
    {
      records := [];
    }

    method Append(r: TransferRec)
      modifies this
      ensures records == old(records) + [r]
    {
      records := records + [r];
    }
  }

  class Account {
    // Read-only after construction, as the source's properties are.
    const id: string
    const customer: int
    var balance: int

    constructor (id: string, customer: int, initialDeposit: int)
      ensures this.id == id && this.customer == customer && balance == initialDeposit
    {
      this.id := id;
      this.customer := customer;
      balance := initialDeposit;
    }

    /** Moves `amount` from this account to `target` and logs it. The amount is checked
        before the funds; on either failure nothing changes. A transfer to the account
        itself is allowed: it debits and credits the same balance and is still logged. */
    method TransferTo(target: Account, amount: int, timestamp: string, ledger: Ledger)
      returns (r: Result<TransferRec>)
      modifies this, target, ledger
      ensures amount <= 0 ==> r == Err(InvalidAmount)
      ensures 0 < amount && old(balance) < amount ==> r == Err(InsufficientFunds)
      ensures r.Ok? <==> 0 < amount <= old(balance)
      ensures r.Err? ==>
        && balance == old(balance)
        && target.balance == old(target.balance)
        && ledger.records == old(ledger.records)
      ensures r.Ok? ==>
        && r.value == TransferRec(id, target.id, amount, timestamp)
        && ledger.records == old(ledger.records) + [r.value]
      ensures r.Ok? && target != this ==>
        && balance == old(balance) - amount
        && target.balance == old(target.balance) + amount
        && balance + target.balance == old(balance) + old(target.balance)
      ensures target == this ==> balance == old(balance)
      ensures old(balance) >= 0 ==> balance >= 0
    {
      if amount <= 0 {
        return Err(InvalidAmount);
      }
      if balance < amount {
        return Err(InsufficientFunds);
      }
      balance := balance - amount;
      target.balance := target.balance + amount;
      var rec := TransferRec(id, target.id, amount, timestamp);
      ledger.Append(rec);
      r := Ok(rec);
    }
  }
}
