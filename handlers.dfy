/** `filterTransactions`: the "received" or "sent" view of a list of ledger records
    for one user id. */
module Handlers {
  import opened Models
  import Ledger

  /** The entry one record contributes to the view: `Received(from, amount)` when the
      received view is asked for and the user is the receiver, `Sent(to, amount)` when the
      sent view is asked for and the user is the sender, nothing otherwise. */
  function Entry(t: Transaction, userId: int, received: bool): seq<CoinMove>
  {
    if received && t.toUserId == userId then [Received(t.fromUserId, t.amount)]
    else if !received && t.fromUserId == userId then [Sent(t.toUserId, t.amount)]
    else []
  }

  /** The view, one entry per matching record, in input order. */
  function History(transactions: seq<Transaction>, userId: int, received: bool): (r: seq<CoinMove>)
    ensures |r| <= |transactions|
  {
    if transactions == [] then []
    else
      var n := |transactions| - 1;
      History(transactions[..n], userId, received) + Entry(transactions[n], userId, received)
  }

  /** The view of a concatenation is the concatenation of the views: entries keep
      the order of the records they come from. */
  lemma {:induction false} HistoryConcat(a: seq<Transaction>, b: seq<Transaction>, userId: int, received: bool)
    ensures History(a + b, userId, received) == History(a, userId, received) + History(b, userId, received)
  {
    if b == [] {
      assert a + b == a;
    } else {
      var n := |b| - 1;
      assert (a + b)[..|a + b| - 1] == a + b[..n] && (a + b)[|a + b| - 1] == b[n];
      HistoryConcat(a, b[..n], userId, received);
    }
  }

  /** The received view holds exactly the records whose receiver is the user, as
      (sender, amount); the sent view exactly those whose sender is the user, as (receiver, amount). */
  lemma {:induction false} HistoryExact(transactions: seq<Transaction>, userId: int)
    ensures forall e :: e in History(transactions, userId, true) <==>
      exists t :: t in transactions && t.toUserId == userId && e == Received(t.fromUserId, t.amount)
    ensures forall e :: e in History(transactions, userId, false) <==>
      exists t :: t in transactions && t.fromUserId == userId && e == Sent(t.toUserId, t.amount)
  {
    if transactions != [] {
      var n := |transactions| - 1;
      assert transactions == transactions[..n] + [transactions[n]];
      HistoryExact(transactions[..n], userId);
    }
  }

  /** A move is in a view exactly when some record yields it. */
  lemma {:induction false} HistoryMembers(transactions: seq<Transaction>, userId: int, received: bool)
    ensures forall e :: e in History(transactions, userId, received) <==>
      exists t :: t in transactions && e in Entry(t, userId, received)
  {
    if transactions != [] {
      var n := |transactions| - 1;
      assert transactions == transactions[..n] + [transactions[n]];
      HistoryMembers(transactions[..n], userId, received);
    }
  }

  /** A self-transfer record shows up in both views of its user. */
  lemma SelfTransferInBothViews(transactions: seq<Transaction>, t: Transaction)
    requires t in transactions && t.fromUserId == t.toUserId
    ensures Received(t.fromUserId, t.amount) in History(transactions, t.toUserId, true)
    ensures Sent(t.toUserId, t.amount) in History(transactions, t.fromUserId, false)
  {
    HistoryExact(transactions, t.toUserId);
  }

  /** Selecting the user's records first (as `GetUserTransactions` does) changes neither view. */
  lemma {:induction false} HistoryOfInvolving(ledger: seq<Transaction>, userId: int, received: bool)
    ensures History(Ledger.Involving(ledger, userId), userId, received) == History(ledger, userId, received)
  {
    if ledger != [] {
      var n := |ledger| - 1;
      var last := ledger[n];
      HistoryOfInvolving(ledger[..n], userId, received);
      var sel := if Ledger.Involves(last, userId) then [last] else [];
      HistoryConcat(Ledger.Involving(ledger[..n], userId), sel, userId, received);
      assert History(sel, userId, received) == Entry(last, userId, received) by {
        if sel != [] {
          assert sel[..0] == [];
        }
      }
    }
  }

  /** `filterTransactions`: the for-loop appending one entry per matching record. */
  method FilterTransactions(transactions: seq<Transaction>, userId: int, received: bool) returns (result: seq<CoinMove>)
    ensures result == History(transactions, userId, received)
  {
    result := [];
    for k := 0 to |transactions|
      invariant result == History(transactions[..k], userId, received)
    {
      assert transactions[..k + 1][..k] == transactions[..k];
      var t := transactions[k];
      if received && t.toUserId == userId {
        result := result + [Received(t.fromUserId, t.amount)];
      } else if !received && t.fromUserId == userId {
        result := result + [Sent(t.toUserId, t.amount)];
      }
    }
    assert transactions[..|transactions|] == transactions;
  }
}
