/** The user collection, reduced to an in-memory map from username to the
    stored account. Both revisions of the server read and write it. */
module Accounts {

  /** A stored user. `secret` stands for the password hash the store keeps;
      `wins` and `losses` default to 0 on creation. */
  datatype Account = Account(secret: string, wins: nat, losses: nat)

  type Users = map<string, Account>

  /** A fresh account as the User schema creates it. */
  function NewAccount(secret: string): (a: Account)
    ensures a.wins == 0 && a.losses == 0 && a.secret == secret
  {
    Account(secret, 0, 0)
  }

  /** `updateOne({username: name}, {$inc: {wins: 1}})`: a missing user is left alone. */
  function AddWin(users: Users, name: string): (u: Users)
    ensures u.Keys == users.Keys
    ensures forall n :: n in users && n != name ==> u[n] == users[n]
    ensures name in users ==> u[name] == users[name].(wins := users[name].wins + 1)
  {
    if name in users then users[name := users[name].(wins := users[name].wins + 1)] else users
  }

  /** `updateOne({username: name}, {$inc: {losses: 1}})`. */
  function AddLoss(users: Users, name: string): (u: Users)
    ensures u.Keys == users.Keys
    ensures forall n :: n in users && n != name ==> u[n] == users[n]
    ensures name in users ==> u[name] == users[name].(losses := users[name].losses + 1)
  {
    if name in users then users[name := users[name].(losses := users[name].losses + 1)] else users
  }

  /** The two stat updates a won game performs, winner first. */
  function RecordResult(users: Users, winner: string, loser: string): (u: Users)
    ensures u.Keys == users.Keys
    ensures forall n :: n in users ==>
      && u[n].secret == users[n].secret
      && u[n].wins == users[n].wins + (if n == winner then 1 else 0)
      && u[n].losses == users[n].losses + (if n == loser then 1 else 0)
  {
    AddLoss(AddWin(users, winner), loser)
  }
}
