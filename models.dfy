/** Rows of the store's tables and the values the ledger engine returns.
    Ids are `int` throughout (the database's serial ids). */
module Models {

  datatype Option<T> = None | Some(value: T)

  /** A row of the `users` table. The password hash is produced outside the model. */
  datatype User = User(id: int, username: string, passwordHash: string, coins: int)

  /** A row of the `items` table (the catalog, seeded outside the engine). */
  datatype Item = Item(id: int, name: string, price: int)

  /** A row of the `inventory` table, keyed by (userId, itemId). */
  datatype InventoryRow = InventoryRow(userId: int, itemId: int, quantity: int)

  /** A row of the `transactions` table: one completed coin transfer. */
  datatype Transaction = Transaction(id: int, fromUserId: int, toUserId: int, amount: int)

  /** One `{"type": name, "quantity": q}` entry of an inventory listing. */
  datatype ItemEntry = ItemEntry(itemType: string, quantity: int)

  /** One entry of a coin history: `{"fromUser", "amount"}` or `{"toUser", "amount"}`. */
  datatype CoinMove = Received(fromUser: int, amount: int) | Sent(toUser: int, amount: int)

  /** The business errors of the engine, in the source's terms. */
  datatype Error =
    | InvalidAmount      // a transfer of zero or fewer coins
    | SenderNotFound     // no user row for the sender's name
    | ReceiverNotFound   // no user row for the receiver's name
    | UserNotFound       // no user row for the buyer's (or account holder's) name
    | ItemNotFound       // no catalog item with that name
    | InsufficientFunds  // the balance does not cover the price, amount or debit
    | UserAlreadyExists  // registration of a taken username

  datatype Outcome = Pass | Fail(error: Error)

  datatype Result<T> = Ok(value: T) | Err(error: Error)
}
