# MerchServiceAvito ledger engine in Dafny

This project models the ledger engine of the MerchServiceAvito merch shop. Employees hold
coin balances. They buy catalog items with coins (`BuyItem`) and send coins to each other
(`SendCoins`). The engine runs each operation as one database transaction over four
tables:
- `users` (balance per account, unique username);
- `items` (the catalog);
- `inventory` (quantity per user and item);
- `transactions` (the append-only ledger).

Registration, the balance-delta helper, the per-user listings and the coin-history views
are built on those tables too.

Layout (one module per file):

- `models.dfy` — `Models`: the table rows (`User`, `Item`, `InventoryRow`, `Transaction`), the
  listing entries (`ItemEntry`, `CoinMove`), the business errors and the `Outcome`/`Result` values.
- `catalog.dfy` — `Catalog`: reads of the `items` table.
- `accounts.dfy` — `Accounts`: the `users` table as a map from id to row, the username index,
  the balance write, the coin total `Total`, and the two-write balance update of a transfer.
- `inventory.dfy` — `Inventory`: the `inventory` table as a sequence of rows, the
  `ON CONFLICT` upsert, and the two per-user listings (loops proved against filter functions).
- `ledger.dfy` — `Ledger`: the `transactions` table and the per-user selection (a loop).
- `handlers.dfy` — `Handlers`: `filterTransactions`, the received and sent views (a loop).
- `store.dfy` — `Store.Database`: a class whose fields are the four tables. Its methods are
  the repository writes and update those fields in place. `Valid()` is the structural invariant:
  - the username index is exact;
  - ids are fresh;
  - there is one inventory row per (user, item).

  `Sound()` is the business invariant:
  - no balance is negative;
  - no inventory quantity is below one.
- `services.dfy` — `Services`: `BuyItem`, `SendCoins`, `RegisterUser` and `UpdateUserBalance`
  as methods that change a `Store.Database`. A business error returns before any write, which
  models the `defer tx.Rollback()` of the source.
- `userinfo.dfy` — `UserInfo`: the single SQL query `GetUserInfo`. It is modelled as the
  rows of its LEFT JOINs and the `json_agg` aggregates over them.

Ids are unbounded `int`s throughout. The model follows the code as written:
- A transfer to oneself is accepted, and it leaves the balance at balance + amount. A transfer
  should move coins, so a self-transfer should leave the balance as it was; see "## Findings".
- The two user rows of a transfer are locked in argument order. Locks are not modelled; each
  operation is one atomic step.

## Model

| member | source | states |
|---|---|---|
| Catalog.GetItemByName | internal/repositories/item.go:19-30 | None exactly when no catalog row has the name (a missing item is not an error); a returned item is a catalog row with that name and its stored price |
| Catalog.NameOf | internal/repositories/item.go:48-51 | the name the catalog join attaches to an item id: none exactly when no catalog row has that id, else the name of a row with that id |
| Accounts.GetUserByUsername | internal/repositories/user.go:25-36 | None (no error) exactly when no row has the username; otherwise the stored row with that username, which is the only such row |
| Accounts.SetCoins | internal/repositories/user.go:52-68 | the row with that id gets the new balance; every other row and the set of ids are unchanged; with no such row nothing changes |
| Accounts.SetCoinsKeepsIndex | internal/repositories/user.go:61-68 | a balance write keeps the username index exact |
| Accounts.TotalSetCoins | internal/repositories/user.go:61-68 | setting one balance changes the coin total by exactly the difference |
| Accounts.DebitBurnsPrice | internal/services/item.go:56-59 | the purchase debit removes exactly the price from the coins in circulation |
| Accounts.TransferBalances | internal/services/transaction.go:60-68 | the two writes of a transfer as written keep the ids, leave every non-party row unchanged, and end the receiver at the balance it was read with + amount |
| Accounts.TransferBetweenDistinct | internal/services/transaction.go:60-68 | between distinct users: sender ends at balance − amount, receiver at balance + amount, and the coin total is conserved |
| Accounts.SelfTransferMints | internal/services/transaction.go:60-68 | a transfer to oneself as written ends at balance + amount and raises the coin total by amount |
| Accounts.TransferBalancesConserving | internal/services/transaction.go:60-68 | the corrected writes keep the ids and leave every non-party row unchanged |
| Accounts.ConservingTransferPreservesTotal | internal/services/transaction.go:60-68 | the corrected transfer conserves the coin total for every pair, equals the transfer as written between distinct users, and changes nothing on a self-transfer |
| Inventory.QuantityAbsent | internal/repositories/item.go:33-35 | a (user, item) pair without a row owns quantity 0 |
| Inventory.UpsertQuantity | internal/repositories/repository.go:38-42 | the upsert inserts an absent key with quantity delta, turns a present one into old + delta, and leaves the key present |
| Inventory.UpsertOthers | internal/repositories/repository.go:38-44 | the upsert leaves the presence and quantity of every other (user, item) key unchanged |
| Inventory.UpsertKeysUnique | internal/repositories/repository.go:41-42 | a conflict updates rather than duplicates: keys stay unique, and the table grows by one row exactly when the key was absent |
| Inventory.UpsertPositive | internal/repositories/item.go:33-39 | with a positive delta every stored quantity stays at least one |
| Inventory.RowsOf | internal/repositories/repository.go:19-34 | the rows selected are exactly those of the user |
| Inventory.ListUserRows | internal/repositories/repository.go:18-35 | the row loop returns exactly `RowsOf`, the user's rows in table order |
| Inventory.ItemsOfExact | internal/repositories/item.go:46-68 | each listed entry is one of the user's rows shown with its catalog name and quantity, and each of the user's rows with a catalog item is listed |
| Inventory.ListUserItems | internal/repositories/item.go:46-69 | the row loop over the catalog join returns exactly `ItemsOf`, in table order |
| Ledger.Involving | internal/repositories/transaction.go:30-35 | the records selected are exactly those in which the user is sender or receiver |
| Ledger.InvolvingAppend | internal/repositories/transaction.go:18-28 | appending a record adds it to the selection of each of its parties and changes no other user's selection |
| Ledger.GetUserTransactions | internal/repositories/transaction.go:30-51 | the row loop returns exactly `Involving`: every record involving the user, none omitted, in table order |
| Handlers.History | internal/handlers/user.go:54-70 | a view is never longer than its input |
| Handlers.HistoryConcat | internal/handlers/user.go:54-70 | the view of a concatenation is the concatenation of the views, so entries keep input order |
| Handlers.HistoryExact | internal/handlers/user.go:56-67 | the received view holds exactly the (sender, amount) of records paying the user; the sent view holds exactly the (receiver, amount) of records paid by the user |
| Handlers.HistoryMembers | internal/handlers/user.go:54-70 | a move is in a view exactly when some record yields it |
| Handlers.SelfTransferInBothViews | internal/handlers/user.go:57-62 | a self-transfer record appears in both views of its user |
| Handlers.HistoryOfInvolving | internal/handlers/user.go:54-70 | filtering the per-user selection instead of the whole ledger yields the same views |
| Handlers.FilterTransactions | internal/handlers/user.go:54-70 | the loop returns exactly `History` of its input |
| Store.Database.CreateUser | internal/repositories/user.go:38-50 | a taken username fails with no change; otherwise a row with the given username, hash and coins is added under a fresh id, and the index gains the name |
| Store.Database.UpdateUserBalance | internal/repositories/user.go:52-68 | the users table becomes `SetCoins` of the old one; the invariants are kept |
| Store.Database.AddToInventory | internal/repositories/item.go:32-44 | the inventory becomes the upsert by one: an absent pair gets 1, a present pair old + 1, and every other pair is unchanged |
| Store.Database.AddItemToInventory | internal/repositories/repository.go:37-49 | the inventory becomes the upsert by delta: quantity delta when absent, old + delta when present, others unchanged, keys still unique |
| Store.Database.AddTransaction | internal/repositories/transaction.go:18-28 | exactly one record (fresh id, from, to, amount) is appended; earlier records are unchanged |
| Services.BuyItem | internal/services/item.go:26-70 | the outcome is `PurchaseVerdict`: `UserNotFound`, then `ItemNotFound`, then `InsufficientFunds`, else success; a failure leaves every table unchanged; then the buyer's balance becomes coins − price (non-negative), the inventory is upserted by one, and the ledger is untouched |
| Services.SendCoins | internal/services/transaction.go:25-84 | the outcome is `TransferVerdict`: `InvalidAmount` for a non-positive amount, then `SenderNotFound`, then `ReceiverNotFound`, then `InsufficientFunds`, else success; a failure leaves balances and ledger unchanged; then the balances are `TransferBalances` and exactly one record (from, to, amount) is appended |
| Services.SendCoinsConserving | internal/services/transaction.go:25-84 | the same outcome (`TransferVerdict`) and ledger append, with the corrected balance writes `TransferBalancesConserving` |
| Services.RegisterUser | internal/services/user.go:99-115 | a taken username fails with `UserAlreadyExists` and creates no user; otherwise one user is created under a fresh id with that name and hash and exactly 1000 coins, and lookup by the name finds it |
| Services.UpdateUserBalance | internal/services/user.go:127-146 | the outcome is `BalanceVerdict`: `UserNotFound` for an unknown user, then `InsufficientFunds` when coins + amount is negative, else success with the balance set to coins + amount; a failure changes nothing |
| UserInfo.CrossMembers | internal/repositories/user.go:102-104 | the joined rows are exactly the pairs of an inventory column value and a ledger column value |
| UserInfo.InventoryAggMembers | internal/repositories/user.go:74-82 | an inventory entry is aggregated exactly when some joined row carries an inventory row yielding it |
| UserInfo.HistoryAggMembers | internal/repositories/user.go:83-100 | a move is aggregated exactly when some joined row carries a record yielding it |
| UserInfo.GetUserInfo | internal/repositories/user.go:70-118 | no result exactly when the username is unknown; otherwise the user's balance |
| UserInfo.InventoryJoinMembers | internal/repositories/user.go:74-82 | beside any non-empty ledger column the inventory aggregate has the members of the catalog listing |
| UserInfo.HistoryJoinMembers | internal/repositories/user.go:83-104 | beside any non-empty inventory column each history aggregate has the members of the matching view |
| UserInfo.GetUserInfoMembers | internal/repositories/user.go:70-118 | the inventory list holds exactly the user's rows with their catalog names and quantities, received exactly the records paying the user, sent exactly those paid by the user (as sets) |
| UserInfo.InventoryJoinAlone | internal/repositories/user.go:74-82 | over the inventory join alone, the aggregate equals the catalog listing, an empty list for a user without rows |
| UserInfo.HistoryJoinAlone | internal/repositories/user.go:83-100 | over the ledger join alone, each history aggregate equals the view of the whole ledger |
| UserInfo.GetUserInfoSeparate | internal/repositories/user.go:70-118 | the corrected query: no result exactly for an unknown username; otherwise the balance, the catalog listing and the received and sent views, each exactly and in table order |
| UserInfo.JoinRowsRepeat | internal/repositories/user.go:102-104 | one inventory row joined with two records is aggregated twice, while the catalog listing holds it once |
| UserInfo.JoinRepeatsEntries | internal/repositories/user.go:70-118 | for one t-shirt and two incoming payments, the query as written lists the t-shirt twice and the corrected query once |

## Left out

- Concurrency: row locks (`FOR UPDATE`), their acquisition order, isolation levels and
  interleavings. Each service call is one atomic step.
- Database faults: errors from `Begin`, `Exec`, `Scan` and `Commit`, and connection failures.
  Only the business errors are modelled, and such an error leaves the state unchanged.
- Error message texts and their payloads (usernames and amounts). The model names only which
  error is returned.
- Redis caching, in every place it is used. This includes the cache hit in `RegisterUser`
  that returns a cached user without error, and the username-taken flag.
- The goroutines and worker pool of `RegisterUser`. The duplicate check and the hashing are
  sequential here. The bcrypt hash is computed outside the model and passed in as a parameter.
- JWT and authentication.
- The HTTP handlers, JSON encoding, and the `GetInfo` response shaping.
- `UserService.GetUserByUsername` (internal/services/user.go:31-52). It wraps the repository
  lookup in the cache and turns a missing user into an error. The repository lookup is
  modelled.
- Timestamps (`created_at`). The inventory table's surrogate `id` column is also left out,
  since rows are identified by (user, item).
- 64-bit integer overflow of balances, amounts and quantities (integers are unbounded).
- `Store.Database.CreateUser` assumes a unique key on `users.username`, which turns a second
  insert of a name into an error. The table schema is not part of this model.
- `SendCoins` calls `CreateTransaction`, which is not part of this model.
  `Store.Database.AddTransaction` stands for it: one append with a fresh serial id. The source
  also types ledger ids as strings in places; ids are `int` here.
- `UserInfo.GetUserInfo`: the row order that `json_agg` sees over the join is unspecified in
  SQL. The model fixes one order (inventory-major, table order). It therefore proves membership
  of the lists (`GetUserInfoMembers`), not their order or counts, except in the concrete
  example `JoinRepeatsEntries`.
- An inventory row whose item id has no catalog row drops out of both listings. In the
  source's JSON it would show up with a null name.
- `TransactionService.GetUserTransactions`, `ItemService.GetUserInventory` and
  `UserService.GetUserInfo` only forward to the repository reads, which are modelled.

## Findings

| source | as written | input that shows it | evidently intended | confidence | as-written member | corrected member |
|---|---|---|---|---|---|---|
| internal/services/transaction.go:60-68 | both new balances are computed from the values read before either write, then written sender first, receiver second | `SendCoins("a", "a", 100)` with balance 1000: the second write stores 1100, so 100 coins are minted | a transfer moves coins; a transfer to oneself leaves the balance (and the coin total) unchanged | medium, not executed | Accounts.SelfTransferMints | Accounts.ConservingTransferPreservesTotal |
| internal/repositories/user.go:102-104 | the inventory and transactions LEFT JOINs are on the same user row, so every list is aggregated over their cross product | a user holding one t-shirt who received two payments: `inventory` lists the t-shirt twice (and each payment would repeat once per inventory row) | each list holds each of its rows once | high, not executed | UserInfo.JoinRepeatsEntries | UserInfo.GetUserInfoSeparate |
