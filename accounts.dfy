/** The in-memory user store: plaintext username/password pairs. */
module Accounts {
  import opened ArrayOps

  datatype User = User(username: string, password: string)

  /** No two users share a username. */
  ghost predicate UniqueUsernames(users: seq<User>)
  {
    forall i, j :: 0 <= i < j < |users| ==> users[i].username != users[j].username
  }

  function Named(name: string): User -> bool { (u: User) => u.username == name }
  function Matches(name: string, password: string): User -> bool
  {
    (u: User) => u.username == name && u.password == password
  }

  /** `users.some(user => user.username === name)`. */
  function UsernameTaken(users: seq<User>, name: string): (b: bool)
    ensures b <==> exists i :: 0 <= i < |users| && users[i].username == name
  {
    Any(users, Named(name))
  }

  /**
   * `users.find(user => user.username === name && user.password === password)`,
   * checked for truthiness: some stored user has exactly these credentials.
   */
  function HasAccount(users: seq<User>, name: string, password: string): (b: bool)
    ensures b <==> exists i :: 0 <= i < |users| && users[i] == User(name, password)
  {
    FindIndex(users, Matches(name, password)).Some?
  }

  /** Appending a user whose name is not taken keeps usernames unique. */
  lemma AppendFreshKeepsUnique(users: seq<User>, u: User)
    requires UniqueUsernames(users)
    requires !UsernameTaken(users, u.username)
    ensures UniqueUsernames(users + [u])
  {
  }
}
