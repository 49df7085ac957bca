/** The `inventory` table as a sequence of rows, the upsert that both
    inventory writers issue, and the two per-user listings. */
module Inventory {
  import opened Models
  import Catalog

  predicate IsKey(row: InventoryRow, userId: int, itemId: int)
  {
    row.userId == userId && row.itemId == itemId
  }

  predicate HasKey(inv: seq<InventoryRow>, userId: int, itemId: int)
  {
    exists k :: 0 <= k < |inv| && IsKey(inv[k], userId, itemId)
  }

  /** The UNIQUE (user_id, item_id) constraint the `ON CONFLICT` clause relies on. */
  predicate KeysUnique(inv: seq<InventoryRow>)
  {
    forall j, k :: 0 <= j < k < |inv| ==> !IsKey(inv[k], inv[j].userId, inv[j].itemId)
  }

  /** Every stored quantity is at least one. */
  predicate Positive(inv: seq<InventoryRow>)
  {
    forall k :: 0 <= k < |inv| ==> inv[k].quantity >= 1
  }

  /** How many of an item a user owns: the quantity of the (userId, itemId) row, 0 without one. */
  function Quantity(inv: seq<InventoryRow>, userId: int, itemId: int): int
  {
    if inv == [] then 0
    else if IsKey(inv[0], userId, itemId) then inv[0].quantity
    else Quantity(inv[1..], userId, itemId)
  }

  /** The upsert both inventory writers issue: insert a (userId, itemId) row holding
      `delta`, and on a conflict over that key add `delta` to the stored quantity instead.
      The existing row is updated in place; a new row is added at the end. */
  function Upsert(inv: seq<InventoryRow>, userId: int, itemId: int, delta: int): seq<InventoryRow>
  {
    if inv == [] then [InventoryRow(userId, itemId, delta)]
    else if IsKey(inv[0], userId, itemId) then [inv[0].(quantity := inv[0].quantity + delta)] + inv[1..]
    else [inv[0]] + Upsert(inv[1..], userId, itemId, delta)
  }

  lemma HasKeyCons(inv: seq<InventoryRow>, userId: int, itemId: int)
    requires inv != []
    ensures HasKey(inv, userId, itemId) <==> IsKey(inv[0], userId, itemId) || HasKey(inv[1..], userId, itemId)
  {
    if HasKey(inv, userId, itemId) && !IsKey(inv[0], userId, itemId) {
      var k :| 0 <= k < |inv| && IsKey(inv[k], userId, itemId);
      assert inv[1..][k - 1] == inv[k];
    }
    if HasKey(inv[1..], userId, itemId) {
      var k :| 0 <= k < |inv[1..]| && IsKey(inv[1..][k], userId, itemId);
      assert inv[k + 1] == inv[1..][k];
    }
  }

  /** A user without a row owns none of the item. */
  lemma {:induction false} QuantityAbsent(inv: seq<InventoryRow>, userId: int, itemId: int)
    requires !HasKey(inv, userId, itemId)
    ensures Quantity(inv, userId, itemId) == 0
  {
    if inv != [] {
      HasKeyCons(inv, userId, itemId);
      QuantityAbsent(inv[1..], userId, itemId);
    }
  }

  /** The upsert adds `delta` to the owned quantity: an absent key is inserted with
      quantity `delta`, a present one becomes old + `delta`; afterwards the key is present. */
  lemma {:induction false} UpsertQuantity(inv: seq<InventoryRow>, userId: int, itemId: int, delta: int)
    ensures Quantity(Upsert(inv, userId, itemId, delta), userId, itemId) == Quantity(inv, userId, itemId) + delta
    ensures !HasKey(inv, userId, itemId) ==> Quantity(Upsert(inv, userId, itemId, delta), userId, itemId) == delta
    ensures HasKey(Upsert(inv, userId, itemId, delta), userId, itemId)
  {
    var r := Upsert(inv, userId, itemId, delta);
    if !HasKey(inv, userId, itemId) {
      QuantityAbsent(inv, userId, itemId);
    }
    if inv == [] {
      assert IsKey(r[0], userId, itemId);
    } else if IsKey(inv[0], userId, itemId) {
      assert IsKey(r[0], userId, itemId);
    } else {
      UpsertQuantity(inv[1..], userId, itemId, delta);
      assert r[1..] == Upsert(inv[1..], userId, itemId, delta);
      HasKeyCons(r, userId, itemId);
    }
  }

  /** The upsert leaves every other key alone: its presence and its quantity. */
  lemma {:induction false} UpsertOthers(inv: seq<InventoryRow>, userId: int, itemId: int, delta: int, u: int, i: int)
    requires !(u == userId && i == itemId)
    ensures Quantity(Upsert(inv, userId, itemId, delta), u, i) == Quantity(inv, u, i)
    ensures HasKey(Upsert(inv, userId, itemId, delta), u, i) == HasKey(inv, u, i)
  {
    var r := Upsert(inv, userId, itemId, delta);
    if inv == [] {
      assert !HasKey(r, u, i) by {
        assert |r| == 1 && !IsKey(r[0], u, i);
      }
    } else {
      HasKeyCons(inv, u, i);
      HasKeyCons(r, u, i);
      if IsKey(inv[0], userId, itemId) {
        assert r[1..] == inv[1..];
      } else {
        UpsertOthers(inv[1..], userId, itemId, delta, u, i);
        assert r[1..] == Upsert(inv[1..], userId, itemId, delta);
      }
    }
  }

  /** A conflict updates rather than duplicates: the table grows by one row exactly
      when the key was absent, so each (user, item) keeps at most one row. */
  lemma {:induction false} UpsertKeysUnique(inv: seq<InventoryRow>, userId: int, itemId: int, delta: int)
    requires KeysUnique(inv)
    ensures KeysUnique(Upsert(inv, userId, itemId, delta))
    ensures |Upsert(inv, userId, itemId, delta)| == if HasKey(inv, userId, itemId) then |inv| else |inv| + 1
  {
    var r := Upsert(inv, userId, itemId, delta);
    if inv != [] {
      HasKeyCons(inv, userId, itemId);
      if IsKey(inv[0], userId, itemId) {
        assert r[1..] == inv[1..];
        forall j, k | 0 <= j < k < |r| ensures !IsKey(r[k], r[j].userId, r[j].itemId) {
          assert IsKey(r[j], inv[j].userId, inv[j].itemId);
        }
      } else {
        var rest := Upsert(inv[1..], userId, itemId, delta);
        UpsertKeysUnique(inv[1..], userId, itemId, delta);
        assert r == [inv[0]] + rest;
        assert KeysUnique(inv[1..]) by {
          forall j, k | 0 <= j < k < |inv[1..]| ensures !IsKey(inv[1..][k], inv[1..][j].userId, inv[1..][j].itemId) {
            assert inv[1..][k] == inv[k + 1] && inv[1..][j] == inv[j + 1];
          }
        }
        assert !HasKey(inv[1..], inv[0].userId, inv[0].itemId) by {
          forall k | 0 <= k < |inv[1..]| ensures !IsKey(inv[1..][k], inv[0].userId, inv[0].itemId) {
            assert inv[1..][k] == inv[k + 1];
          }
        }
        UpsertOthers(inv[1..], userId, itemId, delta, inv[0].userId, inv[0].itemId);
        forall j, k | 0 <= j < k < |r| ensures !IsKey(r[k], r[j].userId, r[j].itemId) {
          if j == 0 {
            assert r[k] == rest[k - 1] && r[0] == inv[0];
            assert !IsKey(rest[k - 1], inv[0].userId, inv[0].itemId);
          } else {
            assert r[k] == rest[k - 1] && r[j] == rest[j - 1];
          }
        }
      }
    }
  }

  /** Adding a positive quantity keeps every quantity at least one. */
  lemma {:induction false} UpsertPositive(inv: seq<InventoryRow>, userId: int, itemId: int, delta: int)
    requires Positive(inv) && delta >= 1
    ensures Positive(Upsert(inv, userId, itemId, delta))
  {
    if inv != [] && !IsKey(inv[0], userId, itemId) {
      var rest := Upsert(inv[1..], userId, itemId, delta);
      UpsertPositive(inv[1..], userId, itemId, delta);
      assert Upsert(inv, userId, itemId, delta) == [inv[0]] + rest;
    }
  }

  /** The rows `InventoryRepository.GetUserInventory` selects: those of the user, in table order. */
  function RowsOf(inv: seq<InventoryRow>, userId: int): (r: seq<InventoryRow>)
    ensures forall row :: row in r <==> row in inv && row.userId == userId
    ensures |r| <= |inv|
  {
    if inv == [] then []
    else
      var last := inv[|inv| - 1];
      assert inv == inv[..|inv| - 1] + [last];
      RowsOf(inv[..|inv| - 1], userId) + (if last.userId == userId then [last] else [])
  }

  /** `InventoryRepository.GetUserInventory`: scan the table, keeping the user's rows. */
  method ListUserRows(inv: seq<InventoryRow>, userId: int) returns (rows: seq<InventoryRow>)
    ensures rows == RowsOf(inv, userId)
  {
    rows := [];
    var k := 0;
    while k < |inv|
      invariant 0 <= k <= |inv|
      invariant rows == RowsOf(inv[..k], userId)
    {
      assert inv[..k + 1][..k] == inv[..k];
      if inv[k].userId == userId {
        rows := rows + [inv[k]];
      }
      k := k + 1;
    }
    assert inv[..|inv|] == inv;
  }

  /** One row as the catalog join shows it: (item name, quantity), or nothing when the
      row's item id has no catalog row. */
  function EntryOf(row: InventoryRow, items: seq<Item>): (r: seq<ItemEntry>)
    ensures |r| <= 1
  {
    var name := Catalog.NameOf(items, row.itemId);
    if name.Some? then [ItemEntry(name.value, row.quantity)] else []
  }

  /** `ItemRepository.GetUserInventory`: the user's rows joined with the catalog by item id,
      each as (item name, quantity), in table order. A row whose item id has no catalog
      row drops out of the inner join. */
  function ItemsOf(inv: seq<InventoryRow>, items: seq<Item>, userId: int): (r: seq<ItemEntry>)
    ensures |r| <= |inv|
  {
    if inv == [] then []
    else
      var last := inv[|inv| - 1];
      ItemsOf(inv[..|inv| - 1], items, userId) + (if last.userId == userId then EntryOf(last, items) else [])
  }

  /** Each listed entry is one of the user's rows, shown with its catalog name and
      quantity; and each of the user's rows whose item is in the catalog is listed. */
  lemma {:induction false} ItemsOfExact(inv: seq<InventoryRow>, items: seq<Item>, userId: int)
    ensures forall e :: e in ItemsOf(inv, items, userId) <==>
      exists row :: row in inv && row.userId == userId
        && Catalog.NameOf(items, row.itemId) == Some(e.itemType) && e.quantity == row.quantity
  {
    if inv != [] {
      var init := inv[..|inv| - 1];
      var last := inv[|inv| - 1];
      assert inv == init + [last];
      ItemsOfExact(init, items, userId);
    }
  }

  /** `ItemRepository.GetUserInventory`'s row loop, appending one entry per joined row. */
  method ListUserItems(inv: seq<InventoryRow>, items: seq<Item>, userId: int) returns (entries: seq<ItemEntry>)
    ensures entries == ItemsOf(inv, items, userId)
  {
    entries := [];
    var k := 0;
    while k < |inv|
      invariant 0 <= k <= |inv|
      invariant entries == ItemsOf(inv[..k], items, userId)
    {
      assert inv[..k + 1][..k] == inv[..k];
      var name := Catalog.NameOf(items, inv[k].itemId);
      if inv[k].userId == userId && name.Some? {
        entries := entries + [ItemEntry(name.value, inv[k].quantity)];
      }
      k := k + 1;
    }
    assert inv[..|inv|] == inv;
  }
}
