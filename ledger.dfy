/** The `transactions` table (the ledger) and its per-user reading. The table is
    append-only; `Store.Database.AddTransaction` is its only writer. */
module Ledger {
  import opened Models

  /** The user is the sender or the receiver of the record. */
  predicate Involves(t: Transaction, userId: int)
  {
    t.fromUserId == userId || t.toUserId == userId
  }

  /** The records `TransactionRepository.GetUserTransactions` selects: those where the user
      is either party, in table order. */
  function Involving(ledger: seq<Transaction>, userId: int): (r: seq<Transaction>)
    ensures forall t :: t in r <==> t in ledger && Involves(t, userId)
    ensures |r| <= |ledger|
  {
    if ledger == [] then []
    else
      var last := ledger[|ledger| - 1];
      assert ledger == ledger[..|ledger| - 1] + [last];
      Involving(ledger[..|ledger| - 1], userId) + (if Involves(last, userId) then [last] else [])
  }

  /** Appending a record extends each party's history by exactly that record
      and leaves every other user's history as it was. */
  lemma InvolvingAppend(ledger: seq<Transaction>, t: Transaction, userId: int)
    ensures Involving(ledger + [t], userId) == Involving(ledger, userId) + (if Involves(t, userId) then [t] else [])
  {
    assert (ledger + [t])[..|ledger + [t]| - 1] == ledger;
  }

  /** `TransactionRepository.GetUserTransactions`: scan the rows, appending each record
      that involves the user. */
  method GetUserTransactions(ledger: seq<Transaction>, userId: int) returns (transactions: seq<Transaction>)
    ensures transactions == Involving(ledger, userId)
  {
    transactions := [];
    var k := 0;
    while k < |ledger|
      invariant 0 <= k <= |ledger|
      invariant transactions == Involving(ledger[..k], userId)
    {
      assert ledger[..k + 1][..k] == ledger[..k];
      if Involves(ledger[k], userId) {
        transactions := transactions + [ledger[k]];
      }
      k := k + 1;
    }
    assert ledger[..|ledger|] == ledger;
  }
}
