/** `UserRepository.GetUserInfo`: one query returning a user's balance, inventory and
    the received and sent halves of its coin history. The query joins the user's row
    with its inventory rows (and their catalog items) and with the ledger records
    involving it, then aggregates each list over the joined rows. */
module UserInfo {
  import opened Models
  import opened Accounts
  import Catalog
  import Inventory
  import Ledger
  import Handlers

  /** The query's result: balance, inventory entries, received and sent moves. */
  datatype Info = Info(coins: int, inventory: seq<ItemEntry>, received: seq<CoinMove>, sent: seq<CoinMove>)

  /** One row of the join: an inventory row of the user, or NULL when it has none,
      beside a ledger record involving the user, or NULL when there is none. */
  datatype Joined = Joined(inv: Option<InventoryRow>, tx: Option<Transaction>)

  /** The rows as non-NULL join columns, in order. */
  function Lift<T>(rows: seq<T>): (r: seq<Option<T>>)
    ensures |r| == |rows|
  {
    if rows == [] then []
    else
      var n := |rows| - 1;
      Lift(rows[..n]) + [Some(rows[n])]
  }

  /** The right side of a LEFT JOIN: the matching rows, or a single NULL row when none match,
      so that the left row is kept. */
  function Padded<T>(rows: seq<T>): (r: seq<Option<T>>)
    ensures r != []
  {
    if rows == [] then [None] else Lift(rows)
  }

  /** One inventory column value beside every ledger column value. */
  function Beside(inv: Option<InventoryRow>, txs: seq<Option<Transaction>>): (r: seq<Joined>)
    ensures |r| == |txs|
  {
    if txs == [] then []
    else
      var n := |txs| - 1;
      Beside(inv, txs[..n]) + [Joined(inv, txs[n])]
  }

  /** The two LEFT JOINs on the user's row: every inventory column value with every ledger
      column value. */
  function Cross(invs: seq<Option<InventoryRow>>, txs: seq<Option<Transaction>>): seq<Joined>
  {
    if invs == [] then []
    else
      var n := |invs| - 1;
      Cross(invs[..n], txs) + Beside(invs[n], txs)
  }

  /** Lifting keeps exactly the rows, none of them NULL. */
  lemma {:induction false} LiftMembers<T(!new)>(rows: seq<T>)
    ensures forall x :: Some(x) in Lift(rows) <==> x in rows
    ensures None !in Lift(rows)
  {
    if rows != [] {
      var n := |rows| - 1;
      assert rows == rows[..n] + [rows[n]];
      LiftMembers(rows[..n]);
    }
  }

  /** Padding keeps exactly the rows, with NULL only when there are none. */
  lemma PaddedMembers<T(!new)>(rows: seq<T>)
    ensures forall x :: Some(x) in Padded(rows) <==> x in rows
  {
    LiftMembers(rows);
  }

  /** The join holds exactly the pairs of a value from each side. */
  lemma {:induction false} BesideMembers(inv: Option<InventoryRow>, txs: seq<Option<Transaction>>)
    ensures forall j :: j in Beside(inv, txs) <==> j.inv == inv && j.tx in txs
  {
    if txs != [] {
      var n := |txs| - 1;
      assert txs == txs[..n] + [txs[n]];
      BesideMembers(inv, txs[..n]);
    }
  }

  lemma {:induction false} CrossMembers(invs: seq<Option<InventoryRow>>, txs: seq<Option<Transaction>>)
    ensures forall j :: j in Cross(invs, txs) <==> j.inv in invs && j.tx in txs
  {
    if invs != [] {
      var n := |invs| - 1;
      assert invs == invs[..n] + [invs[n]];
      CrossMembers(invs[..n], txs);
      BesideMembers(invs[n], txs);
    }
  }

  /** The inventory aggregate, filtered to rows that carry an inventory row: one
      (item name, quantity) entry per such joined row. A row whose item is not in the
      catalog contributes nothing. */
  function InventoryAgg(rows: seq<Joined>, items: seq<Item>): (r: seq<ItemEntry>)
    ensures |r| <= |rows|
  {
    if rows == [] then []
    else
      var n := |rows| - 1;
      InventoryAgg(rows[..n], items) + InventoryEntry(rows[n].inv, items)
  }

  function InventoryEntry(inv: Option<InventoryRow>, items: seq<Item>): seq<ItemEntry>
  {
    if inv.Some? then Inventory.EntryOf(inv.value, items) else []
  }

  /** The received (or sent) aggregate, filtered to rows whose record has the user as
      receiver (or sender): one move per such joined row. */
  function HistoryAgg(rows: seq<Joined>, userId: int, received: bool): (r: seq<CoinMove>)
    ensures |r| <= |rows|
  {
    if rows == [] then []
    else
      var n := |rows| - 1;
      HistoryAgg(rows[..n], userId, received)
        + (if rows[n].tx.Some? then Handlers.Entry(rows[n].tx.value, userId, received) else [])
  }

  /** An inventory entry is aggregated exactly when some joined row carries a row yielding it. */
  lemma {:induction false} InventoryAggMembers(rows: seq<Joined>, items: seq<Item>)
    ensures forall e :: e in InventoryAgg(rows, items) <==>
      exists j :: j in rows && e in InventoryEntry(j.inv, items)
  {
    if rows != [] {
      var n := |rows| - 1;
      assert rows == rows[..n] + [rows[n]];
      InventoryAggMembers(rows[..n], items);
    }
  }

  /** A move is aggregated exactly when some joined row carries a record yielding it. */
  lemma {:induction false} HistoryAggMembers(rows: seq<Joined>, userId: int, received: bool)
    ensures forall e :: e in HistoryAgg(rows, userId, received) <==>
      exists j :: j in rows && j.tx.Some? && e in Handlers.Entry(j.tx.value, userId, received)
  {
    if rows != [] {
      var n := |rows| - 1;
      assert rows == rows[..n] + [rows[n]];
      HistoryAggMembers(rows[..n], userId, received);
    }
  }

  /** `UserRepository.GetUserInfo` as written: no result for an unknown username;
      otherwise the balance and the three aggregates over the inventory x ledger join. */
  function GetUserInfo(users: map<int, User>, byName: map<string, int>, items: seq<Item>,
                       inventory: seq<InventoryRow>, ledger: seq<Transaction>, username: string): (r: Option<Info>)
    requires Indexed(users, byName)
    ensures r.None? <==> username !in byName
    ensures r.Some? ==> r.value.coins == users[byName[username]].coins
  {
    match GetUserByUsername(users, byName, username)
    case None => None
    case Some(user) =>
      var rows := Cross(Padded(Inventory.RowsOf(inventory, user.id)), Padded(Ledger.Involving(ledger, user.id)));
      Some(Info(user.coins, InventoryAgg(rows, items), HistoryAgg(rows, user.id, true), HistoryAgg(rows, user.id, false)))
  }

  /** Joined with any non-empty inventory column, the inventory aggregate has the members
      of the catalog listing. */
  lemma InventoryJoinMembers(inventory: seq<InventoryRow>, items: seq<Item>, userId: int, txs: seq<Option<Transaction>>)
    requires txs != []
    ensures forall e :: e in InventoryAgg(Cross(Padded(Inventory.RowsOf(inventory, userId)), txs), items) <==>
      e in Inventory.ItemsOf(inventory, items, userId)
  {
    var invs := Padded(Inventory.RowsOf(inventory, userId));
    var rows := Cross(invs, txs);
    InventoryAggMembers(rows, items);
    Inventory.ItemsOfExact(inventory, items, userId);
    PaddedMembers(Inventory.RowsOf(inventory, userId));
    CrossMembers(invs, txs);
    var someTx := txs[0];
    forall e | e in Inventory.ItemsOf(inventory, items, userId)
      ensures exists j :: j in rows && e in InventoryEntry(j.inv, items)
    {
      var row :| row in inventory && row.userId == userId
        && Catalog.NameOf(items, row.itemId) == Some(e.itemType) && e.quantity == row.quantity;
      assert Joined(Some(row), someTx) in rows;
    }
  }

  /** Joined with any non-empty ledger column, a history aggregate has the members of the
      corresponding view of the ledger. */
  lemma HistoryJoinMembers(ledger: seq<Transaction>, userId: int, received: bool, invs: seq<Option<InventoryRow>>)
    requires invs != []
    ensures forall e :: e in HistoryAgg(Cross(invs, Padded(Ledger.Involving(ledger, userId))), userId, received) <==>
      e in Handlers.History(ledger, userId, received)
  {
    var txs := Padded(Ledger.Involving(ledger, userId));
    var rows := Cross(invs, txs);
    HistoryAggMembers(rows, userId, received);
    Handlers.HistoryMembers(ledger, userId, received);
    PaddedMembers(Ledger.Involving(ledger, userId));
    CrossMembers(invs, txs);
    var someInv := invs[0];
    forall e | e in Handlers.History(ledger, userId, received)
      ensures exists j :: j in rows && j.tx.Some? && e in Handlers.Entry(j.tx.value, userId, received)
    {
      var t :| t in ledger && e in Handlers.Entry(t, userId, received);
      assert Ledger.Involves(t, userId) by {
        assert Handlers.Entry(t, userId, received) != [];
      }
      assert Joined(someInv, Some(t)) in rows;
    }
  }

  /** The query's lists hold the right entries: an inventory entry exactly when the user
      has a row for a catalog item with that name and quantity, a received move exactly
      when a record pays the user, a sent move exactly when a record is paid by the user. */
  lemma GetUserInfoMembers(users: map<int, User>, byName: map<string, int>, items: seq<Item>,
                           inventory: seq<InventoryRow>, ledger: seq<Transaction>, username: string)
    requires Indexed(users, byName) && username in byName
    ensures var info, id := GetUserInfo(users, byName, items, inventory, ledger, username).value, byName[username];
      && (forall e :: e in info.inventory <==> e in Inventory.ItemsOf(inventory, items, id))
      && (forall e :: e in info.received <==> e in Handlers.History(ledger, id, true))
      && (forall e :: e in info.sent <==> e in Handlers.History(ledger, id, false))
  {
    var id := byName[username];
    assert GetUserByUsername(users, byName, username).value.id == id;
    var invs, txs := Padded(Inventory.RowsOf(inventory, id)), Padded(Ledger.Involving(ledger, id));
    InventoryJoinMembers(inventory, items, id, txs);
    HistoryJoinMembers(ledger, id, true, invs);
    HistoryJoinMembers(ledger, id, false, invs);
  }

  lemma LiftSnoc<T>(rows: seq<T>, x: T)
    ensures Lift(rows + [x]) == Lift(rows) + [Some(x)]
  {
    assert (rows + [x])[..|rows|] == rows;
  }

  lemma CrossSnoc(invs: seq<Option<InventoryRow>>, inv: Option<InventoryRow>, txs: seq<Option<Transaction>>)
    ensures Cross(invs + [inv], txs) == Cross(invs, txs) + Beside(inv, txs)
  {
    assert (invs + [inv])[..|invs|] == invs;
  }

  lemma BesideSnoc(inv: Option<InventoryRow>, txs: seq<Option<Transaction>>, tx: Option<Transaction>)
    ensures Beside(inv, txs + [tx]) == Beside(inv, txs) + [Joined(inv, tx)]
  {
    assert (txs + [tx])[..|txs|] == txs;
  }

  lemma InventoryAggSnoc(rows: seq<Joined>, j: Joined, items: seq<Item>)
    ensures InventoryAgg(rows + [j], items) == InventoryAgg(rows, items) + InventoryEntry(j.inv, items)
  {
    assert (rows + [j])[..|rows|] == rows;
  }

  lemma HistoryAggSnoc(rows: seq<Joined>, j: Joined, userId: int, received: bool)
    ensures HistoryAgg(rows + [j], userId, received) ==
      HistoryAgg(rows, userId, received) + (if j.tx.Some? then Handlers.Entry(j.tx.value, userId, received) else [])
  {
    assert (rows + [j])[..|rows|] == rows;
  }

  /** A row of the user adds its entry to both the aggregate and the listing. */
  lemma InventoryJoinOwnRow(init: seq<InventoryRow>, last: InventoryRow, items: seq<Item>, userId: int)
    requires last.userId == userId
    ensures InventoryAgg(Cross(Lift(Inventory.RowsOf(init + [last], userId)), [None]), items) ==
      InventoryAgg(Cross(Lift(Inventory.RowsOf(init, userId)), [None]), items) + Inventory.EntryOf(last, items)
  {
    var inv := init + [last];
    var rows := Inventory.RowsOf(init, userId);
    var joined := Cross(Lift(rows), [None]);
    assert Inventory.RowsOf(inv, userId) == rows + [last] by {
      assert inv[..|inv| - 1] == init && inv[|inv| - 1] == last;
    }
    LiftSnoc(rows, last);
    CrossSnoc(Lift(rows), Some(last), [None]);
    BesideSnoc(Some(last), [], None);
    InventoryAggSnoc(joined, Joined(Some(last), None), items);
  }

  /** A row of another user adds nothing to either the user's rows or the listing. */
  lemma InventoryJoinOtherRow(init: seq<InventoryRow>, last: InventoryRow, items: seq<Item>, userId: int)
    requires last.userId != userId
    ensures Inventory.RowsOf(init + [last], userId) == Inventory.RowsOf(init, userId)
    ensures Inventory.ItemsOf(init + [last], items, userId) == Inventory.ItemsOf(init, items, userId)
  {
    var inv := init + [last];
    assert inv[..|inv| - 1] == init && inv[|inv| - 1] == last;
    var rows, listed := Inventory.RowsOf(init, userId), Inventory.ItemsOf(init, items, userId);
    assert rows + [] == rows;
    assert listed + [] == listed;
  }

  /** One more inventory row extends both sides of `InventoryJoinLifted` alike. */
  lemma InventoryJoinStep(init: seq<InventoryRow>, last: InventoryRow, items: seq<Item>, userId: int)
    requires InventoryAgg(Cross(Lift(Inventory.RowsOf(init, userId)), [None]), items) == Inventory.ItemsOf(init, items, userId)
    ensures InventoryAgg(Cross(Lift(Inventory.RowsOf(init + [last], userId)), [None]), items) == Inventory.ItemsOf(init + [last], items, userId)
  {
    if last.userId == userId {
      var inv := init + [last];
      assert inv[..|inv| - 1] == init && inv[|inv| - 1] == last;
      InventoryJoinOwnRow(init, last, items, userId);
    } else {
      InventoryJoinOtherRow(init, last, items, userId);
    }
  }

  /** Aggregating the inventory over the user's inventory rows alone (no ledger join)
      lists each of its rows once, in table order: the catalog listing. */
  lemma {:induction false} InventoryJoinLifted(inv: seq<InventoryRow>, items: seq<Item>, userId: int)
    ensures InventoryAgg(Cross(Lift(Inventory.RowsOf(inv, userId)), [None]), items) == Inventory.ItemsOf(inv, items, userId)
  {
    if inv != [] {
      var n := |inv| - 1;
      InventoryJoinLifted(inv[..n], items, userId);
      InventoryJoinStep(inv[..n], inv[n], items, userId);
      assert inv[..n] + [inv[n]] == inv;
    }
  }

  /** The same with the LEFT JOIN's NULL row for a user without inventory rows. */
  lemma InventoryJoinAlone(inv: seq<InventoryRow>, items: seq<Item>, userId: int)
    ensures InventoryAgg(Cross(Padded(Inventory.RowsOf(inv, userId)), [None]), items) == Inventory.ItemsOf(inv, items, userId)
  {
    InventoryJoinLifted(inv, items, userId);
    if Inventory.RowsOf(inv, userId) == [] {
      var joined := [Joined(None, None)];
      assert Cross([None], [None]) == joined;
      assert joined[..0] == [];
    }
  }

  /** Aggregating a history over the user's ledger records alone (no inventory join)
      yields each matching record once, in table order: the view of the whole ledger. */
  lemma {:induction false} HistoryJoinLifted(ledger: seq<Transaction>, userId: int, received: bool)
    ensures HistoryAgg(Beside(None, Lift(Ledger.Involving(ledger, userId))), userId, received) == Handlers.History(ledger, userId, received)
  {
    if ledger != [] {
      var n := |ledger| - 1;
      var init, last := ledger[..n], ledger[n];
      HistoryJoinLifted(init, userId, received);
      var records := Ledger.Involving(init, userId);
      if Ledger.Involves(last, userId) {
        assert Ledger.Involving(ledger, userId) == records + [last];
        LiftSnoc(records, last);
        BesideSnoc(None, Lift(records), Some(last));
        HistoryAggSnoc(Beside(None, Lift(records)), Joined(None, Some(last)), userId, received);
      } else {
        assert Ledger.Involving(ledger, userId) == records;
      }
    }
  }

  /** The same with the LEFT JOIN's NULL row for a user without ledger records. */
  lemma HistoryJoinAlone(ledger: seq<Transaction>, userId: int, received: bool)
    ensures HistoryAgg(Cross([None], Padded(Ledger.Involving(ledger, userId))), userId, received) == Handlers.History(ledger, userId, received)
  {
    HistoryJoinLifted(ledger, userId, received);
    var txs := Padded(Ledger.Involving(ledger, userId));
    var nulls: seq<Option<InventoryRow>> := [None];
    assert Cross(nulls, txs) == Beside(None, txs) by {
      assert nulls[..0] == [];
    }
    if Ledger.Involving(ledger, userId) == [] {
      var joined := [Joined(None, None)];
      assert Beside(None, [None]) == joined;
      assert joined[..0] == [];
    }
  }

  /** The query with one LEFT JOIN per aggregate, so no list is multiplied by the length
      of another: each list is then exactly the per-table view, the catalog listing and
      the received and sent views of the ledger, in table order and without repetition. */
  function GetUserInfoSeparate(users: map<int, User>, byName: map<string, int>, items: seq<Item>,
                               inventory: seq<InventoryRow>, ledger: seq<Transaction>, username: string): (r: Option<Info>)
    requires Indexed(users, byName)
    ensures r.None? <==> username !in byName
    ensures r.Some? ==>
      var id := byName[username];
      r.value == Info(users[id].coins, Inventory.ItemsOf(inventory, items, id),
                      Handlers.History(ledger, id, true), Handlers.History(ledger, id, false))
  {
    match GetUserByUsername(users, byName, username)
    case None => None
    case Some(user) =>
      var owned := Cross(Padded(Inventory.RowsOf(inventory, user.id)), [None]);
      var moves := Cross([None], Padded(Ledger.Involving(ledger, user.id)));
      InventoryJoinAlone(inventory, items, user.id);
      HistoryJoinAlone(ledger, user.id, true);
      HistoryJoinAlone(ledger, user.id, false);
      Some(Info(user.coins, InventoryAgg(owned, items), HistoryAgg(moves, user.id, true), HistoryAgg(moves, user.id, false)))
  }

  /** One inventory row joined with two ledger records gives two joined rows. */
  lemma JoinOneRowTwoRecords(row: InventoryRow, t1: Transaction, t2: Transaction)
    ensures Cross(Padded([row]), Padded([t1, t2])) == [Joined(Some(row), Some(t1)), Joined(Some(row), Some(t2))]
  {
    assert Lift([row]) == [Some(row)] by {
      assert [row][..0] == [];
    }
    var txs := [Some(t1), Some(t2)];
    assert Lift([t1, t2]) == txs by {
      assert [t1, t2][..1] == [t1] && [t1][..0] == [];
    }
    assert Beside(Some(row), txs) == [Joined(Some(row), Some(t1)), Joined(Some(row), Some(t2))] by {
      assert txs[..1] == [Some(t1)] && [Some(t1)][..0] == [];
    }
    var invs: seq<Option<InventoryRow>> := [Some(row)];
    assert invs[..0] == [];
  }

  /** Both joined rows carry the same inventory row, so its entry is aggregated twice. */
  lemma AggregateTwice(row: InventoryRow, t1: Transaction, t2: Transaction, items: seq<Item>)
    ensures InventoryAgg([Joined(Some(row), Some(t1)), Joined(Some(row), Some(t2))], items) ==
      Inventory.EntryOf(row, items) + Inventory.EntryOf(row, items)
  {
    var j1, j2 := Joined(Some(row), Some(t1)), Joined(Some(row), Some(t2));
    assert [j1, j2][..1] == [j1] && [j1][..0] == [];
  }

  /** One t-shirt held by user 1, who was paid twice: the join as written pairs the
      inventory row with each of the two ledger records and aggregates the t-shirt twice,
      while the catalog listing holds it once. */
  lemma JoinRowsRepeat(items: seq<Item>, inventory: seq<InventoryRow>, ledger: seq<Transaction>)
    requires items == [Item(1, "t-shirt", 80)]
    requires inventory == [InventoryRow(1, 1, 1)]
    requires ledger == [Transaction(1, 2, 1, 10), Transaction(2, 2, 1, 20)]
    ensures InventoryAgg(Cross(Padded(Inventory.RowsOf(inventory, 1)), Padded(Ledger.Involving(ledger, 1))), items) ==
      [ItemEntry("t-shirt", 1), ItemEntry("t-shirt", 1)]
    ensures Inventory.ItemsOf(inventory, items, 1) == [ItemEntry("t-shirt", 1)]
  {
    var row, t1, t2 := inventory[0], ledger[0], ledger[1];
    assert Inventory.RowsOf(inventory, 1) == [row] by {
      assert inventory[..0] == [];
    }
    assert Ledger.Involving(ledger, 1) == [t1, t2] by {
      assert ledger[..1] == [t1] && [t1][..0] == [];
    }
    assert Inventory.EntryOf(row, items) == [ItemEntry("t-shirt", 1)] by {
      assert Catalog.NameOf(items, 1) == Some("t-shirt");
    }
    JoinOneRowTwoRecords(row, t1, t2);
    AggregateTwice(row, t1, t2, items);
    assert inventory[..0] == [];
  }

  /** The same database seen through the two queries: the user info as written lists the
      one t-shirt twice, the corrected query lists it once. */
  lemma JoinRepeatsEntries(users: map<int, User>, byName: map<string, int>, items: seq<Item>,
                           inventory: seq<InventoryRow>, ledger: seq<Transaction>)
    requires users == map[1 := User(1, "alice", "", 1000)]
    requires byName == map["alice" := 1]
    requires items == [Item(1, "t-shirt", 80)]
    requires inventory == [InventoryRow(1, 1, 1)]
    requires ledger == [Transaction(1, 2, 1, 10), Transaction(2, 2, 1, 20)]
    ensures Indexed(users, byName)
    ensures GetUserInfo(users, byName, items, inventory, ledger, "alice").value.inventory ==
      [ItemEntry("t-shirt", 1), ItemEntry("t-shirt", 1)]
    ensures GetUserInfoSeparate(users, byName, items, inventory, ledger, "alice").value.inventory ==
      [ItemEntry("t-shirt", 1)]
  {
    assert Indexed(users, byName);
    assert GetUserByUsername(users, byName, "alice") == Some(users[1]);
    JoinRowsRepeat(items, inventory, ledger);
  }
}
