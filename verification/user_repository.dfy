/** The users table of the auth service. Ids come from the table's serial
    counter, which starts at 1 and never hands out the same value twice. */
module UserRepository {
  import opened Wrappers

  /** A user record; the password field holds the bcrypt hash. */
  datatype User = User(id: nat, username: string, email: string, password: string)

  /** The stored rows and the next value of the id sequence. */
  datatype UserTable = UserTable(rows: seq<User>, nextId: nat)

  /** The two columns a lookup can select on. */
  datatype Column = UsernameColumn | EmailColumn

  function ValueOf(u: User, column: Column): string
  {
    match column
    case UsernameColumn => u.username
    case EmailColumn => u.email
  }

  /** Ids are positive, below the counter, and distinct. */
  predicate Valid(t: UserTable)
  {
    && t.nextId >= 1
    && (forall i :: 0 <= i < |t.rows| ==> 1 <= t.rows[i].id < t.nextId)
    && (forall i, j :: 0 <= i < j < |t.rows| ==> t.rows[i].id != t.rows[j].id)
  }

  /** No two users share a username, and no two share an email. */
  predicate Unique(t: UserTable)
  {
    forall i, j :: 0 <= i < j < |t.rows| ==>
      t.rows[i].username != t.rows[j].username && t.rows[i].email != t.rows[j].email
  }

  predicate HasId(t: UserTable, id: nat)
  {
    exists i :: 0 <= i < |t.rows| && t.rows[i].id == id
  }

  /** Some stored user has `value` in `column`. */
  predicate Taken(rows: seq<User>, column: Column, value: string)
  {
    exists i :: 0 <= i < |rows| && ValueOf(rows[i], column) == value
  }

  /** The first stored user with `value` in `column`. */
  function SelectFirst(rows: seq<User>, column: Column, value: string): (r: Option<User>)
    ensures r.None? <==> !Taken(rows, column, value)
    ensures r.Some? ==> exists i :: 0 <= i < |rows| && rows[i] == r.value
                          && forall j :: 0 <= j < i ==> ValueOf(rows[j], column) != value
    ensures r.Some? ==> ValueOf(r.value, column) == value
  {
    if |rows| == 0 then None
    else if ValueOf(rows[0], column) == value then Some(rows[0])
    else
      var r := SelectFirst(rows[1..], column, value);
      assert r.Some? ==> exists i :: 0 <= i < |rows[1..]| && rows[1..][i] == r.value
                          && forall j :: 0 <= j < i ==> ValueOf(rows[1..][j], column) != value;
      r
  }

  /** FindByUsername: a stored user with that username; None when there is
      none, which the source reports as (nil, nil) and not as an error. */
  function FindByUsername(t: UserTable, username: string): (r: Option<User>)
    ensures r.Some? ==> r.value in t.rows && r.value.username == username
    ensures r.None? <==> forall u | u in t.rows :: u.username != username
  {
    SelectFirst(t.rows, UsernameColumn, username)
  }

  /** FindByEmail: a stored user with that email, or None (again no error). */
  function FindByEmail(t: UserTable, email: string): (r: Option<User>)
    ensures r.Some? ==> r.value in t.rows && r.value.email == email
    ensures r.None? <==> forall u | u in t.rows :: u.email != email
  {
    SelectFirst(t.rows, EmailColumn, email)
  }

  /** The table after an insert, and the inserted user with its assigned id. */
  datatype Created = Created(table: UserTable, user: User)

  /** Create: INSERT ... RETURNING id, writing the assigned id into the user. */
  function Create(t: UserTable, username: string, email: string, password: string): (r: Created)
    ensures r.user.username == username && r.user.email == email && r.user.password == password
    ensures r.table.rows == t.rows + [r.user]
    ensures Valid(t) ==> Valid(r.table) && !HasId(t, r.user.id)
  {
    var u := User(t.nextId, username, email, password);
    Created(UserTable(t.rows + [u], t.nextId + 1), u)
  }

  /** Selecting on a table extended by one row finds the new row exactly
      when no earlier row matches and the new row does. */
  lemma {:induction false} SelectFirstAppend(rows: seq<User>, u: User, column: Column, value: string)
    requires !Taken(rows, column, value)
    ensures SelectFirst(rows + [u], column, value) == (if ValueOf(u, column) == value then Some(u) else None)
  {
    if |rows| == 0 {
      assert rows + [u] == [u];
    } else {
      assert (rows + [u])[1..] == rows[1..] + [u];
      assert ValueOf(rows[0], column) != value;
      SelectFirstAppend(rows[1..], u, column, value);
    }
  }

  /** After Create, a user whose username and email no other user has is
      found again by both. */
  lemma CreateThenFind(t: UserTable, username: string, email: string, password: string)
    requires forall u | u in t.rows :: u.username != username
    requires forall u | u in t.rows :: u.email != email
    ensures FindByUsername(Create(t, username, email, password).table, username)
            == Some(Create(t, username, email, password).user)
    ensures FindByEmail(Create(t, username, email, password).table, email)
            == Some(Create(t, username, email, password).user)
  {
  }

  /** Create keeps names unique when the new username and email are free. */
  lemma CreateKeepsUnique(t: UserTable, username: string, email: string, password: string)
    requires Unique(t)
    requires forall u | u in t.rows :: u.username != username
    requires forall u | u in t.rows :: u.email != email
    ensures Unique(Create(t, username, email, password).table)
  {
  }
}
