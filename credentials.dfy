/**
 * The stored credential records and the lookups the authentication context
 * runs over them (`users.find`, `users.findIndex`, `getUserBio`).
 */
module Credentials {
  import opened Wrappers
  import opened SimpleHash

  /** One entry of the `userCredentials` list; `bio` is optional in the record type. */
  datatype User = User(username: string, passwordHash: string, bio: Option<string>)

  /** `k` is the index of the first record whose username is `username`. */
  predicate FirstNamed(users: seq<User>, username: string, k: int) {
    0 <= k < |users| && users[k].username == username
    && forall j :: 0 <= j < k ==> users[j].username != username
  }

  predicate Absent(users: seq<User>, username: string) {
    forall k :: 0 <= k < |users| ==> users[k].username != username
  }

  /** No two records share a username. */
  predicate Distinct(users: seq<User>) {
    forall i, j :: 0 <= i < j < |users| ==> users[i].username != users[j].username
  }

  /** `users.findIndex(u => u.username === username)`: -1 when there is no such record. */
  function FindIndex(users: seq<User>, username: string): (i: int)
    ensures -1 <= i < |users|
    ensures i == -1 <==> Absent(users, username)
    ensures i != -1 ==> FirstNamed(users, username, i)
  {
    if users == [] then -1
    else if users[0].username == username then 0
    else
      var j := FindIndex(users[1..], username);
      if j == -1 then -1 else j + 1
  }

  /** `users.find(u => u.username === username)`. */
  function Find(users: seq<User>, username: string): (r: Option<User>)
    ensures r.None? <==> Absent(users, username)
    ensures r.Some? ==> exists k :: FirstNamed(users, username, k) && users[k] == r.value
  {
    var i := FindIndex(users, username);
    if i == -1 then None else Some(users[i])
  }

  /** `getUserBio`: the `bio` of the first record named `username`, absent when there is none. */
  function GetUserBio(users: seq<User>, username: string): (bio: Option<string>)
    ensures Absent(users, username) ==> bio == None
    ensures forall k :: FirstNamed(users, username, k) ==> bio == users[k].bio
  {
    match Find(users, username)
    case None => None
    case Some(user) => user.bio
  }

  /** In a list without duplicates the first record named `username` is the only one. */
  lemma DistinctFirstNamed(users: seq<User>, username: string, k: int)
    requires Distinct(users)
    requires 0 <= k < |users| && users[k].username == username
    ensures FirstNamed(users, username, k)
  {
  }

  lemma FirstNamedUnique(users: seq<User>, username: string, i: int, k: int)
    requires FirstNamed(users, username, i) && FirstNamed(users, username, k)
    ensures i == k
  {
  }

  /** The password of the seeded administrator account, as UTF-16 code units of `password`. */
  const AdminPassword: seq<CodeUnit> := [112, 97, 115, 115, 119, 111, 114, 100]

  /** The list used when `userCredentials` is not yet in storage. */
  function SeedUsers(): (users: seq<User>)
    ensures Distinct(users) && |users| == 1
    ensures users[0].username == "admin" && users[0].passwordHash == HashText(AdminPassword)
  {
    [User("admin", HashText(AdminPassword), Some("Default administrator account."))]
  }
}
