/** The rows of the relational store that both services read and write, and
    the shapes in which the store answers a statement. */
module Schema {

  type UserId = string

  /** The role keys of `user_roles` this core looks up. Each user refers to
      exactly one of them. */
  datatype Role = Personal | Designer | Employer

  /** One row of `users`. */
  datatype User = User(
    id: UserId,
    firstName: string,
    lastName: string,
    email: string,
    phone: string,
    profilePicture: string,
    role: Role)

  /** What a service call hands back: a value, or the error it re-raises
      after a store statement failed. */
  datatype Outcome<T> = Ok(value: T) | Failed

  /** The store's answer to one `INSERT … RETURNING` statement: it raised;
      it inserted no row and so returned none; or it inserted one row and
      returned the requested column of it. */
  datatype Reply<T> = Raises | NoRow | Row(value: T)

  /** A value that may be missing (JavaScript's `null` or `undefined`). */
  datatype Option<T> = None | Some(value: T)

  /** True when some row of `users` has this id and this role. */
  predicate HasRole(users: seq<User>, id: UserId, role: Role) {
    exists u :: u in users && u.id == id && u.role == role
  }

  /** `SELECT * FROM users WHERE id = id AND user_role = role`, in table order. */
  function SelectUsers(users: seq<User>, id: UserId, role: Role): (rows: seq<User>)
    ensures forall u :: u in rows <==> u in users && u.id == id && u.role == role
  {
    if users == [] then []
    else
      var rest := SelectUsers(users[1..], id, role);
      assert forall u :: u in users <==> u == users[0] || u in users[1..];
      if users[0].id == id && users[0].role == role then [users[0]] + rest else rest
  }

  /** A role check is "at least one row came back" (`result.rows.length`). */
  lemma {:induction false} SelectFindsRole(users: seq<User>, id: UserId, role: Role)
    ensures |SelectUsers(users, id, role)| > 0 <==> HasRole(users, id, role)
  {
    var rows := SelectUsers(users, id, role);
    if |rows| > 0 {
      assert rows[0] in rows;
    }
  }

  /** `UPDATE users SET user_role = … WHERE users.id = id`: every row with that
      id takes the role, every other row is kept as it was. */
  function WithRole(users: seq<User>, id: UserId, role: Role): (r: seq<User>)
    ensures |r| == |users|
    ensures forall i :: 0 <= i < |users| ==>
      r[i] == if users[i].id == id then users[i].(role := role) else users[i]
  {
    seq(|users|, i requires 0 <= i < |users| =>
      if users[i].id == id then users[i].(role := role) else users[i])
  }

  /** After a role update, some user holds the new role under that id exactly
      when some user had that id before. */
  lemma {:induction false} WithRoleGrants(users: seq<User>, id: UserId, role: Role)
    ensures HasRole(WithRole(users, id, role), id, role) <==> (exists u :: u in users && u.id == id)
  {
    if exists u :: u in users && u.id == id {
      var u :| u in users && u.id == id;
      WithRoleGrantsRow(users, id, role, u);
    }
    if HasRole(WithRole(users, id, role), id, role) {
      WithRoleNeedsRow(users, id, role);
    }
  }

  /** A row with that id holds the new role after the update. */
  lemma WithRoleGrantsRow(users: seq<User>, id: UserId, role: Role, u: User)
    requires u in users && u.id == id
    ensures u.(role := role) in WithRole(users, id, role)
  {
    var i :| 0 <= i < |users| && users[i] == u;
    assert WithRole(users, id, role)[i] == u.(role := role);
  }

  /** A row holding the new role under that id came from a row with that id. */
  lemma WithRoleNeedsRow(users: seq<User>, id: UserId, role: Role)
    requires HasRole(WithRole(users, id, role), id, role)
    ensures exists u :: u in users && u.id == id
  {
    var r := WithRole(users, id, role);
    var v :| v in r && v.id == id && v.role == role;
    var i :| 0 <= i < |r| && r[i] == v;
    assert users[i] in users;
  }

  /** After a role update, no user with that id keeps any other role. */
  lemma {:induction false} WithRoleRevokes(users: seq<User>, id: UserId, role: Role, other: Role)
    requires other != role
    ensures !HasRole(WithRole(users, id, role), id, other)
  {
  }

  /** A role update does not change which roles the other ids hold. */
  lemma {:induction false} WithRoleKeepsOthers(users: seq<User>, id: UserId, role: Role, x: UserId, other: Role)
    requires x != id
    ensures HasRole(WithRole(users, id, role), x, other) <==> HasRole(users, x, other)
  {
    var r := WithRole(users, id, role);
    if HasRole(r, x, other) {
      var v :| v in r && v.id == x && v.role == other;
      var i :| 0 <= i < |r| && r[i] == v;
      assert users[i] in users;
    }
    if HasRole(users, x, other) {
      var u :| u in users && u.id == x && u.role == other;
      var i :| 0 <= i < |users| && users[i] == u;
      assert r[i] in r;
    }
  }
}
