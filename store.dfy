/** The relational store the engine runs against: the four tables as fields of one
    object, and the repository writes that change them in place. */
module Store {
  import opened Models
  import opened Accounts
  import opened Inventory

  class Database {
    /** `users`, keyed by the serial id, with the username index the lookups go through. */
    var users: map<int, User>
    var byName: map<string, int>
    var nextUserId: int
    /** `items`: the catalog, seeded outside the engine and never written by it. */
    var items: seq<Item>
    /** `inventory`: rows keyed by (user_id, item_id). */
    var inventory: seq<InventoryRow>
    /** `transactions`: the append-only ledger. */
    var ledger: seq<Transaction>
    var nextTxId: int

    /** Structural consistency: the username index is exact, the id sequences are ahead
        of every id handed out, and the inventory key is unique. */
    ghost predicate Valid()
      reads this
    {
      && Indexed(users, byName)
      && (forall id :: id in users ==> id < nextUserId)
      && KeysUnique(inventory)
      && (forall k :: 0 <= k < |ledger| ==> ledger[k].id < nextTxId)
    }

    /** The business invariants: no negative balance, no inventory row below one. */
    ghost predicate Sound()
      reads this
    {
      NonNegative(users) && Positive(inventory)
    }

    /** An empty database whose catalog holds `catalog`; serial ids start at 1. */
    constructor (catalog: seq<Item>)
      ensures Valid() && Sound()
      ensures users == map[] && byName == map[] && items == catalog
      ensures inventory == [] && ledger == []
    {
      users, byName, nextUserId := map[], map[], 1;
      items := catalog;
      inventory, ledger, nextTxId := [], [], 1;
    }

    /** `UserRepository.CreateUser`: insert a row with a fresh serial id and return it.
        A taken username violates the table's unique key: the insert fails and nothing changes. */
    method CreateUser(username: string, passwordHash: string, coins: int) returns (r: Result<User>)
      requires Valid()
      modifies this`users, this`byName, this`nextUserId
      ensures Valid()
      ensures old(Sound()) && coins >= 0 ==> Sound()
      ensures r.Err? <==> username in old(byName)
      ensures r.Err? ==> r.error == UserAlreadyExists && users == old(users) && byName == old(byName)
      ensures r.Ok? ==> r.value == User(r.value.id, username, passwordHash, coins) && r.value.id !in old(users)
      ensures r.Ok? ==> users == old(users)[r.value.id := r.value] && byName == old(byName)[username := r.value.id]
    {
      if username in byName {
        return Err(UserAlreadyExists);
      }
      var user := User(nextUserId, username, passwordHash, coins);
      users := users[user.id := user];
      byName := byName[username := user.id];
      nextUserId := nextUserId + 1;
      r := Ok(user);
    }

    /** `UserRepository.UpdateUserBalance` and `UpdateUserBalanceTx` (the same statement,
        outside or inside a unit of work): set the coins of the row with that id. */
    method UpdateUserBalance(id: int, coins: int)
      requires Valid()
      modifies this`users
      ensures Valid()
      ensures old(Sound()) && coins >= 0 ==> Sound()
      ensures users == SetCoins(old(users), id, coins)
    {
      SetCoinsKeepsIndex(users, byName, id, coins);
      users := SetCoins(users, id, coins);
    }

    /** `ItemRepository.AddToInventory`: the upsert with a quantity of one. */
    method AddToInventory(userId: int, itemId: int)
      requires Valid()
      modifies this`inventory
      ensures Valid()
      ensures old(Sound()) ==> Sound()
      ensures inventory == Upsert(old(inventory), userId, itemId, 1)
      ensures Quantity(inventory, userId, itemId) ==
                if HasKey(old(inventory), userId, itemId) then Quantity(old(inventory), userId, itemId) + 1 else 1
      ensures forall u, i :: !(u == userId && i == itemId) ==> Quantity(inventory, u, i) == Quantity(old(inventory), u, i)
    {
      AddItemToInventory(userId, itemId, 1);
    }

    /** `InventoryRepository.AddItemToInventory`: the upsert with quantity `quantity`:
        an absent key is inserted holding `quantity`, a present one grows by it. */
    method AddItemToInventory(userId: int, itemId: int, quantity: int)
      requires Valid()
      modifies this`inventory
      ensures Valid()
      ensures old(Sound()) && quantity >= 1 ==> Sound()
      ensures inventory == Upsert(old(inventory), userId, itemId, quantity)
      ensures |inventory| == if HasKey(old(inventory), userId, itemId) then |old(inventory)| else |old(inventory)| + 1
      ensures Quantity(inventory, userId, itemId) ==
                if HasKey(old(inventory), userId, itemId) then Quantity(old(inventory), userId, itemId) + quantity else quantity
      ensures forall u, i :: !(u == userId && i == itemId) ==> Quantity(inventory, u, i) == Quantity(old(inventory), u, i)
    {
      var old_inventory := inventory;
      UpsertKeysUnique(inventory, userId, itemId, quantity);
      UpsertQuantity(inventory, userId, itemId, quantity);
      if Positive(inventory) && quantity >= 1 {
        UpsertPositive(inventory, userId, itemId, quantity);
      }
      forall u, i | !(u == userId && i == itemId)
        ensures Quantity(Upsert(old_inventory, userId, itemId, quantity), u, i) == Quantity(old_inventory, u, i)
      {
        UpsertOthers(old_inventory, userId, itemId, quantity, u, i);
      }
      inventory := Upsert(inventory, userId, itemId, quantity);
    }

    /** Append one ledger record (the service's `CreateTransaction`, and the repository's
        `AddTransaction`): a fresh serial id, the two parties and the amount; earlier
        records are untouched. */
    method AddTransaction(fromUserId: int, toUserId: int, amount: int) returns (id: int)
      requires Valid()
      modifies this`ledger, this`nextTxId
      ensures Valid()
      ensures id == old(nextTxId) && nextTxId == id + 1
      ensures ledger == old(ledger) + [Transaction(id, fromUserId, toUserId, amount)]
      ensures forall k :: 0 <= k < |old(ledger)| ==> old(ledger)[k].id != id
    {
      id := nextTxId;
      ledger := ledger + [Transaction(id, fromUserId, toUserId, amount)];
      nextTxId := nextTxId + 1;
    }
  }
}
