/**
 * The credential table of the REST API (UsersRepository): a fixed map from
 * username to password and role, consulted by two lookups. The table is a
 * constant, so neither lookup can change it.
 */
module Users {

  datatype Account = Account(password: string, role: string)

  /** The two demo accounts the repository is seeded with. */
  const Accounts: map<string, Account> :=
    map["wsei" := Account("wsei", "Admin"), "student" := Account("student", "User")]

  /** The role reported for a username the table does not know. */
  const DefaultRole: string := "User"

  /** A login succeeds when the username is known and the password matches it exactly. */
  function AuthorizeUser(username: string, password: string): (ok: bool)
    ensures ok <==> username in Accounts && Accounts[username].password == password
    ensures username !in Accounts ==> !ok
  {
    username in Accounts && Accounts[username].password == password
  }

  /** The stored role of a known user; the default role for anyone else. */
  function GetRole(username: string): (role: string)
    ensures username in Accounts ==> role == Accounts[username].role
    ensures username !in Accounts ==> role == DefaultRole
  {
    if username in Accounts then Accounts[username].role else DefaultRole
  }

  /** The seeded accounts, spelled out: exactly two logins succeed. */
  lemma AuthorizeUserExactly(username: string, password: string)
    ensures AuthorizeUser(username, password) <==>
            (username == "wsei" && password == "wsei") || (username == "student" && password == "student")
  {
  }

  /** Only "wsei" has the role "Admin"; every other name, known or not, reads as "User". */
  lemma GetRoleExactly(username: string)
    ensures GetRole(username) == if username == "wsei" then "Admin" else "User"
  {
  }

  /** A successful login fixes the password: no user has two passwords that both work. */
  lemma PasswordIsDetermined(username: string, p: string, q: string)
    requires AuthorizeUser(username, p) && AuthorizeUser(username, q)
    ensures p == q
  {
  }

  /** The seeded demo logins. */
  lemma SeededAccounts()
    ensures AuthorizeUser("wsei", "wsei") && GetRole("wsei") == "Admin"
    ensures AuthorizeUser("student", "student") && GetRole("student") == "User"
    ensures !AuthorizeUser("wsei", "student") && !AuthorizeUser("student", "wsei")
  {
  }
}
