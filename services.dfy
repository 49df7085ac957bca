/** The ledger engine: the service operations that move coins (`BuyItem`, `SendCoins`),
    registration, and the balance-delta helper. Each runs as one unit of work on the
    database; a business error is returned before any write, so the rolled-back unit
    leaves every table as it was. */
module Services {
  import opened Models
  import opened Accounts
  import opened Inventory
  import Catalog
  import Ledger
  import Store

  /** The balance every new account starts with. */
  const StartingBalance := 1000

  /** The outcome of the checks `BuyItem` makes before writing, in its order: the buyer
      exists, the item exists, the buyer's balance covers the price. */
  ghost function PurchaseVerdict(db: Store.Database, username: string, itemName: string): Outcome
    reads db
    requires db.Valid()
  {
    if username !in db.byName then Fail(UserNotFound)
    else if Catalog.GetItemByName(db.items, itemName).None? then Fail(ItemNotFound)
    else if db.users[db.byName[username]].coins < Catalog.GetItemByName(db.items, itemName).value.price then Fail(InsufficientFunds)
    else Pass
  }

  /** `ItemService.BuyItem`: lock and read the buyer's row, look the item up by name,
      check the balance covers the price, then debit the price and add one of the item
      to the buyer's inventory. */
  method BuyItem(db: Store.Database, username: string, itemName: string) returns (r: Outcome)
    requires db.Valid()
    modifies db`users, db`inventory
    ensures db.Valid()
    ensures old(db.Sound()) ==> db.Sound()
    ensures r == old(PurchaseVerdict(db, username, itemName))
    ensures r.Fail? ==> db.users == old(db.users) && db.inventory == old(db.inventory)
    ensures db.ledger == old(db.ledger)
    ensures r.Pass? ==>
      var id, item := db.byName[username], Catalog.GetItemByName(db.items, itemName).value;
      && db.users == SetCoins(old(db.users), id, old(db.users)[id].coins - item.price)
      && db.inventory == Upsert(old(db.inventory), id, item.id, 1)
  {
    var user := GetUserByUsername(db.users, db.byName, username);
    if user.None? {
      return Fail(UserNotFound);
    }
    var userId, userCoins := user.value.id, user.value.coins;
    assert userId == db.byName[username] && userCoins == db.users[userId].coins;
    var item := Catalog.GetItemByName(db.items, itemName);
    if item.None? {
      return Fail(ItemNotFound);
    }
    if userCoins < item.value.price {
      return Fail(InsufficientFunds);
    }
    db.UpdateUserBalance(userId, userCoins - item.value.price);
    db.AddToInventory(userId, item.value.id);
    return Pass;
  }

  /** The outcome of the checks `SendCoins` makes before writing, in its order: a positive
      amount, the sender exists, the receiver exists, the sender's balance covers the amount. */
  ghost function TransferVerdict(db: Store.Database, fromUsername: string, toUsername: string, amount: int): Outcome
    reads db
    requires db.Valid()
  {
    if amount <= 0 then Fail(InvalidAmount)
    else if fromUsername !in db.byName then Fail(SenderNotFound)
    else if toUsername !in db.byName then Fail(ReceiverNotFound)
    else if db.users[db.byName[fromUsername]].coins < amount then Fail(InsufficientFunds)
    else Pass
  }

  /** `TransactionService.SendCoins`: reject a non-positive amount, lock and read the
      sender's row, then the receiver's, check the sender's funds, write both new
      balances (computed from the values read) and append one ledger record. */
  method SendCoins(db: Store.Database, fromUsername: string, toUsername: string, amount: int) returns (r: Outcome)
    requires db.Valid()
    modifies db`users, db`ledger, db`nextTxId
    ensures db.Valid()
    ensures old(db.Sound()) ==> db.Sound()
    ensures r == old(TransferVerdict(db, fromUsername, toUsername, amount))
    ensures r.Fail? ==> db.users == old(db.users) && db.ledger == old(db.ledger)
    ensures r.Pass? ==>
      var fromId, toId := db.byName[fromUsername], db.byName[toUsername];
      && db.users == TransferBalances(old(db.users), fromId, toId, amount)
      && db.ledger == old(db.ledger) + [Transaction(old(db.nextTxId), fromId, toId, amount)]
  {
    if amount <= 0 {
      return Fail(InvalidAmount);
    }
    var sender := GetUserByUsername(db.users, db.byName, fromUsername);
    if sender.None? {
      return Fail(SenderNotFound);
    }
    var receiver := GetUserByUsername(db.users, db.byName, toUsername);
    if receiver.None? {
      return Fail(ReceiverNotFound);
    }
    var fromId, fromCoins := sender.value.id, sender.value.coins;
    var toId, toCoins := receiver.value.id, receiver.value.coins;
    assert fromId == db.byName[fromUsername] && toId == db.byName[toUsername];
    if fromCoins < amount {
      return Fail(InsufficientFunds);
    }
    ghost var before := db.users;
    TransferBalancesWrites(before, fromId, toId, amount);
    db.UpdateUserBalance(fromId, fromCoins - amount);
    db.UpdateUserBalance(toId, toCoins + amount);
    var txId := db.AddTransaction(fromId, toId, amount);
    return Pass;
  }

  /** `SendCoins` with the receiver's new balance computed after the sender's write,
      so that a transfer to oneself leaves the balance as it was (see
      `Accounts.ConservingTransferPreservesTotal`). */
  method SendCoinsConserving(db: Store.Database, fromUsername: string, toUsername: string, amount: int) returns (r: Outcome)
    requires db.Valid()
    modifies db`users, db`ledger, db`nextTxId
    ensures db.Valid()
    ensures old(db.Sound()) ==> db.Sound()
    ensures r == old(TransferVerdict(db, fromUsername, toUsername, amount))
    ensures r.Fail? ==> db.users == old(db.users) && db.ledger == old(db.ledger)
    ensures r.Pass? ==>
      var fromId, toId := db.byName[fromUsername], db.byName[toUsername];
      && db.users == TransferBalancesConserving(old(db.users), fromId, toId, amount)
      && db.ledger == old(db.ledger) + [Transaction(old(db.nextTxId), fromId, toId, amount)]
  {
    if amount <= 0 {
      return Fail(InvalidAmount);
    }
    var sender := GetUserByUsername(db.users, db.byName, fromUsername);
    if sender.None? {
      return Fail(SenderNotFound);
    }
    var receiver := GetUserByUsername(db.users, db.byName, toUsername);
    if receiver.None? {
      return Fail(ReceiverNotFound);
    }
    var fromId, fromCoins := sender.value.id, sender.value.coins;
    var toId := receiver.value.id;
    assert fromId == db.byName[fromUsername] && toId == db.byName[toUsername];
    if fromCoins < amount {
      return Fail(InsufficientFunds);
    }
    ghost var before := db.users;
    ConservingTransferWrites(before, fromId, toId, amount);
    db.UpdateUserBalance(fromId, fromCoins - amount);
    var toCoins := db.users[toId].coins;
    db.UpdateUserBalance(toId, toCoins + amount);
    var txId := db.AddTransaction(fromId, toId, amount);
    return Pass;
  }

  /** `UserService.RegisterUser` without its cache and worker pool: refuse a taken
      username, otherwise create the account with the starting balance. The password
      hash is computed outside the model and passed in. */
  method RegisterUser(db: Store.Database, username: string, passwordHash: string) returns (r: Result<User>)
    requires db.Valid()
    modifies db`users, db`byName, db`nextUserId
    ensures db.Valid()
    ensures old(db.Sound()) ==> db.Sound()
    ensures r.Err? <==> username in old(db.byName)
    ensures r.Err? ==> r.error == UserAlreadyExists && db.users == old(db.users) && db.byName == old(db.byName)
    ensures r.Ok? ==>
      && r.value.username == username && r.value.passwordHash == passwordHash
      && r.value.coins == StartingBalance
      && r.value.id !in old(db.users)
      && db.users == old(db.users)[r.value.id := r.value]
      && GetUserByUsername(db.users, db.byName, username) == Some(r.value)
  {
    var existing := GetUserByUsername(db.users, db.byName, username);
    if existing.Some? {
      return Err(UserAlreadyExists);
    }
    r := db.CreateUser(username, passwordHash, StartingBalance);
  }

  /** The outcome of the checks `UpdateUserBalance` makes before writing, in its order:
      the user exists, the new balance is not negative. */
  ghost function BalanceVerdict(db: Store.Database, username: string, amount: int): Outcome
    reads db
    requires db.Valid()
  {
    if username !in db.byName then Fail(UserNotFound)
    else if db.users[db.byName[username]].coins + amount < 0 then Fail(InsufficientFunds)
    else Pass
  }

  /** `UserService.UpdateUserBalance`: add `amount` (of either sign) to the named
      user's balance, refusing a result below zero. */
  method UpdateUserBalance(db: Store.Database, username: string, amount: int) returns (r: Outcome)
    requires db.Valid()
    modifies db`users
    ensures db.Valid()
    ensures old(db.Sound()) ==> db.Sound()
    ensures r == old(BalanceVerdict(db, username, amount))
    ensures r.Fail? ==> db.users == old(db.users)
    ensures r.Pass? ==>
      var id := db.byName[username];
      db.users == SetCoins(old(db.users), id, old(db.users)[id].coins + amount)
  {
    var user := GetUserByUsername(db.users, db.byName, username);
    if user.None? {
      return Fail(UserNotFound);
    }
    assert user.value.id == db.byName[username];
    var newBalance := user.value.coins + amount;
    if newBalance < 0 {
      return Fail(InsufficientFunds);
    }
    db.UpdateUserBalance(user.value.id, newBalance);
    return Pass;
  }
}
