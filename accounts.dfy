/** The `users` table: rows keyed by id, the unique-username index, the balance
    write, and the coin total the engine's invariants are stated in. */
module Accounts {
  import opened Models

  /** `byName` is exactly the username column: each row is found under its own name,
      and each name leads to the row carrying it. Usernames are therefore unique. */
  predicate Indexed(users: map<int, User>, byName: map<string, int>)
  {
    && (forall id :: id in users ==>
          users[id].id == id && users[id].username in byName && byName[users[id].username] == id)
    && (forall name :: name in byName ==> byName[name] in users && users[byName[name]].username == name)
  }

  /** No balance is negative. */
  predicate NonNegative(users: map<int, User>)
  {
    forall id :: id in users ==> users[id].coins >= 0
  }

  /** `UserRepository.GetUserByUsername`: the row with that username, or none
      (a missing row is not an error). */
  function GetUserByUsername(users: map<int, User>, byName: map<string, int>, username: string): (r: Option<User>)
    requires Indexed(users, byName)
    ensures r.None? <==> forall id :: id in users ==> users[id].username != username
    ensures r.Some? ==> r.value.username == username && r.value.id in users && users[r.value.id] == r.value
    ensures r.Some? ==> forall id :: id in users && users[id].username == username ==> id == r.value.id
  {
    if username in byName then
      var id := byName[username];
      assert users[id].username == username;
      Some(users[id])
    else None
  }

  /** The balance write of `UserRepository.UpdateUserBalance(Tx)`: set the coins of the row
      with that id; with no such row nothing is updated. */
  function SetCoins(users: map<int, User>, id: int, coins: int): (r: map<int, User>)
    ensures r.Keys == users.Keys
    ensures id in users ==> r[id] == users[id].(coins := coins)
    ensures forall k :: k in users && k != id ==> r[k] == users[k]
  {
    if id in users then users[id := users[id].(coins := coins)] else users
  }

  /** A balance write touches no id and no username, so the index stays exact. */
  lemma SetCoinsKeepsIndex(users: map<int, User>, byName: map<string, int>, id: int, coins: int)
    requires Indexed(users, byName)
    ensures Indexed(SetCoins(users, id, coins), byName)
  {
  }

  lemma SomeElement(ids: set<int>)
    requires ids != {}
    ensures exists id :: id in ids
  {
    if forall id :: id !in ids {
      assert false;
    }
  }

  lemma SomeUser(users: map<int, User>)
    requires |users| != 0
    ensures exists id :: id in users
  {
    assert users.Keys != {};
    SomeElement(users.Keys);
  }

  /** Some id of a non-empty table; which one is left unspecified. */
  ghost function Pick(users: map<int, User>): (id: int)
    requires |users| != 0
    ensures id in users
  {
    SomeUser(users);
    var id :| id in users;
    id
  }

  /** The number of coins in circulation: the sum of all balances. */
  ghost function Total(users: map<int, User>): int
    decreases users.Keys
  {
    if |users| == 0 then 0
    else
      var id := Pick(users);
      users[id].coins + Total(users - {id})
  }

  /** The total splits into any one balance plus the total of the others. */
  lemma {:induction false} TotalRemove(users: map<int, User>, id: int)
    requires id in users
    ensures Total(users) == users[id].coins + Total(users - {id})
    decreases users.Keys
  {
    var pick := Pick(users);
    if pick != id {
      var rest, others := users - {pick}, users - {id};
      assert id in rest && rest.Keys < users.Keys;
      TotalRemove(rest, id);
      assert pick in others && others.Keys < users.Keys;
      TotalRemove(others, pick);
      assert rest - {id} == others - {pick};
    }
  }

  /** Setting one balance changes the total by the difference, and by nothing else. */
  lemma TotalSetCoins(users: map<int, User>, id: int, coins: int)
    requires id in users
    ensures Total(SetCoins(users, id, coins)) == Total(users) - users[id].coins + coins
  {
    var r := SetCoins(users, id, coins);
    TotalRemove(users, id);
    TotalRemove(r, id);
    assert r - {id} == users - {id};
  }

  /** A debit of `price` from one balance takes exactly `price` coins out of circulation. */
  lemma DebitBurnsPrice(users: map<int, User>, id: int, price: int)
    requires id in users
    ensures Total(SetCoins(users, id, users[id].coins - price)) == Total(users) - price
  {
    TotalSetCoins(users, id, users[id].coins - price);
  }

  /** The two balance writes of `SendCoins` as written: both new balances are computed from
      the values read before either write, then the sender's row and the receiver's row are
      written in that order. */
  function TransferBalances(users: map<int, User>, fromId: int, toId: int, amount: int): (r: map<int, User>)
    requires fromId in users && toId in users
    ensures r.Keys == users.Keys
    ensures forall k :: k in users && k != fromId && k != toId ==> r[k] == users[k]
    ensures r[toId].coins == users[toId].coins + amount
  {
    var fromCoins := users[fromId].coins;
    var toCoins := users[toId].coins;
    SetCoins(SetCoins(users, fromId, fromCoins - amount), toId, toCoins + amount)
  }

  /** Unfolds the definition of `TransferBalances` into its two writes; a proof step for
      `Services.SendCoins`, which issues them one at a time. */
  lemma TransferBalancesWrites(users: map<int, User>, fromId: int, toId: int, amount: int)
    requires fromId in users && toId in users
    ensures TransferBalances(users, fromId, toId, amount) ==
      SetCoins(SetCoins(users, fromId, users[fromId].coins - amount), toId, users[toId].coins + amount)
  {
  }

  /** Between two distinct users the transfer moves `amount` from one to the other
      and the coins in circulation stay the same. */
  lemma TransferBetweenDistinct(users: map<int, User>, fromId: int, toId: int, amount: int)
    requires fromId in users && toId in users && fromId != toId
    ensures TransferBalances(users, fromId, toId, amount)[fromId].coins == users[fromId].coins - amount
    ensures TransferBalances(users, fromId, toId, amount)[toId].coins == users[toId].coins + amount
    ensures Total(TransferBalances(users, fromId, toId, amount)) == Total(users)
  {
    var debited := SetCoins(users, fromId, users[fromId].coins - amount);
    var credited := SetCoins(debited, toId, users[toId].coins + amount);
    assert TransferBalances(users, fromId, toId, amount) == credited;
    assert debited[toId].coins == users[toId].coins;
    TotalSetCoins(users, fromId, users[fromId].coins - amount);
    assert Total(debited) == Total(users) - amount;
    TotalSetCoins(debited, toId, users[toId].coins + amount);
  }

  /** A transfer to oneself, as written, ends at balance + `amount`: the receiver's write
      overwrites the sender's, so `amount` new coins enter circulation. */
  lemma SelfTransferMints(users: map<int, User>, id: int, amount: int)
    requires id in users
    ensures TransferBalances(users, id, id, amount)[id].coins == users[id].coins + amount
    ensures Total(TransferBalances(users, id, id, amount)) == Total(users) + amount
  {
    var credited := users[id].coins + amount;
    assert TransferBalances(users, id, id, amount) == SetCoins(users, id, credited);
    TotalSetCoins(users, id, credited);
  }

  /** The corrected balance writes: the receiver's new balance is computed from its
      balance after the debit, so a self-transfer leaves the balance as it was. */
  function TransferBalancesConserving(users: map<int, User>, fromId: int, toId: int, amount: int): (r: map<int, User>)
    requires fromId in users && toId in users
    ensures r.Keys == users.Keys
    ensures forall k :: k in users && k != fromId && k != toId ==> r[k] == users[k]
  {
    var debited := SetCoins(users, fromId, users[fromId].coins - amount);
    SetCoins(debited, toId, debited[toId].coins + amount)
  }

  /** Unfolds the definition of `TransferBalancesConserving` into its two writes; a proof
      step for `Services.SendCoinsConserving`, which issues them one at a time. */
  lemma ConservingTransferWrites(users: map<int, User>, fromId: int, toId: int, amount: int)
    requires fromId in users && toId in users
    ensures var debited := SetCoins(users, fromId, users[fromId].coins - amount);
      TransferBalancesConserving(users, fromId, toId, amount) == SetCoins(debited, toId, debited[toId].coins + amount)
  {
  }

  /** The corrected transfer conserves the coins in circulation for every pair of users,
      agrees with the transfer as written between distinct users, and is the identity on
      a self-transfer. */
  lemma ConservingTransferPreservesTotal(users: map<int, User>, fromId: int, toId: int, amount: int)
    requires fromId in users && toId in users
    ensures Total(TransferBalancesConserving(users, fromId, toId, amount)) == Total(users)
    ensures fromId != toId ==> TransferBalancesConserving(users, fromId, toId, amount) == TransferBalances(users, fromId, toId, amount)
    ensures fromId == toId ==> TransferBalancesConserving(users, fromId, toId, amount) == users
  {
    var debited := SetCoins(users, fromId, users[fromId].coins - amount);
    var r := SetCoins(debited, toId, debited[toId].coins + amount);
    assert r == TransferBalancesConserving(users, fromId, toId, amount);
    if fromId == toId {
      assert r[toId] == users[toId];
      assert r == users;
    } else {
      TransferBetweenDistinct(users, fromId, toId, amount);
      assert debited[toId] == users[toId];
      assert r == TransferBalances(users, fromId, toId, amount);
    }
  }
}
