/**
 * The user repository of the contacts API over an in-memory `users` table: registration,
 * first-match lookup by email or username, and the single-field updates behind email
 * confirmation, avatar upload and refresh-token rotation.
 */
module Users {
  import opened Results
  import opened Seqs
  import opened Civil

  /** A row of the `users` table. */
  datatype User = User(
    id: int,
    username: string,
    email: string,
    password: string,
    createdAt: DateTime,
    avatar: Option<string>,
    refreshToken: Option<string>,
    confirmed: bool)

  /** The registration body. */
  datatype UserBody = UserBody(username: string, email: string, password: string)

  function HasEmail(email: string): User -> bool {
    (u: User) => u.email == email
  }

  function HasUsername(username: string): User -> bool {
    (u: User) => u.username == username
  }

  class UserTable {
    var rows: seq<User>
    /** The next value of the primary-key sequence; ids are never reused. */
    var nextId: int

    /** The table's constraints: primary key and UNIQUE email (usernames may repeat). */
    ghost predicate Valid()
      reads this
    {
      && (forall i, j :: 0 <= i < j < |rows| ==> rows[i].id != rows[j].id && rows[i].email != rows[j].email)
      && (forall u :: u in rows ==> u.id < nextId)
    }

    constructor ()
      ensures Valid() && rows == [] && nextId == 1
    {
      rows := [];
      nextId := 1;
    }

    /** `get_user_by_email`: the first user with this email, or `None` when there is none. */
    function GetUserByEmail(email: string): (r: Option<User>)
      reads this
      ensures r.Some? ==> exists i :: 0 <= i < |rows| && rows[i] == r.value && rows[i].email == email
                                      && forall j :: 0 <= j < i ==> rows[j].email != email
      ensures r.None? <==> forall u :: u in rows ==> u.email != email
    {
      match FirstIndex(rows, HasEmail(email))
      case Some(i) => Some(rows[i])
      case None => None
    }

    /** `get_user_by_username`: the first user with this username, or `None` when there is none. */
    function GetUserByUsername(username: string): (r: Option<User>)
      reads this
      ensures r.Some? ==> exists i :: 0 <= i < |rows| && rows[i] == r.value && rows[i].username == username
                                      && forall j :: 0 <= j < i ==> rows[j].username != username
      ensures r.None? <==> forall u :: u in rows ==> u.username != username
    {
      match FirstIndex(rows, HasUsername(username))
      case Some(i) => Some(rows[i])
      case None => None
    }

    /**
     * `create_user`: appends an unconfirmed user with the body's username, email and password,
     * no avatar and no refresh token, under a fresh id. A taken email breaks the UNIQUE
     * constraint and nothing is written.
     */
    method Create(body: UserBody, now: DateTime) returns (r: Result<User, StoreError>)
      requires Valid()
      modifies this
      ensures Valid()
      ensures r.Failure? <==> exists u :: u in old(rows) && u.email == body.email
      ensures r.Failure? ==> rows == old(rows) && nextId == old(nextId)
      ensures r.Success? ==>
        var u := r.value;
        && u.username == body.username && u.email == body.email && u.password == body.password
        && u.createdAt == now && u.avatar == None && u.refreshToken == None && !u.confirmed
        && (forall v :: v in old(rows) ==> v.id != u.id)
        && rows == old(rows) + [u]
    {
      if exists u :: u in rows && u.email == body.email {
        return Failure(UniqueViolation);
      }
      assert forall k :: 0 <= k < |rows| ==> rows[k].email != body.email;
      var user := User(nextId, body.username, body.email, body.password, now, None, None, false);
      rows := rows + [user];
      nextId := nextId + 1;
      return Success(user);
    }

    /**
     * `confirmed_email`: marks the user with this email as confirmed and changes nothing else.
     * The source dereferences the lookup's result, so the user must exist. Confirming an
     * already confirmed user changes nothing, so a second call is a no-op.
     */
    method ConfirmEmail(email: string)
      requires Valid() && GetUserByEmail(email).Some?
      modifies this
      ensures Valid() && nextId == old(nextId) && |rows| == |old(rows)|
      ensures forall i :: 0 <= i < |rows| ==>
        rows[i] == if old(rows)[i].email == email then old(rows)[i].(confirmed := true) else old(rows)[i]
      ensures GetUserByEmail(email) == Some(old(GetUserByEmail(email)).value.(confirmed := true))
      ensures old(GetUserByEmail(email)).value.confirmed ==> rows == old(rows)
    {
      var i := FirstIndex(rows, HasEmail(email)).value;
      rows := rows[i := rows[i].(confirmed := true)];
      assert FirstIndex(rows, HasEmail(email)) == Some(i) by {
        assert rows[i].email == email;
      }
    }

    /**
     * `update_avatar`: sets the avatar URL of the user with this email, changes nothing else,
     * and returns the updated user. The user must exist, as for `confirmed_email`.
     */
    method UpdateAvatar(email: string, url: string) returns (u: User)
      requires Valid() && GetUserByEmail(email).Some?
      modifies this
      ensures Valid() && nextId == old(nextId) && |rows| == |old(rows)|
      ensures u == old(GetUserByEmail(email)).value.(avatar := Some(url))
      ensures forall i :: 0 <= i < |rows| ==>
        rows[i] == if old(rows)[i].email == email then u else old(rows)[i]
      ensures GetUserByEmail(email) == Some(u)
    {
      var i := FirstIndex(rows, HasEmail(email)).value;
      u := rows[i].(avatar := Some(url));
      rows := rows[i := u];
      assert FirstIndex(rows, HasEmail(email)) == Some(i) by {
        assert rows[i].email == email;
      }
    }

    /**
     * `update_token`: stores the refresh token, or clears it with `None`, on the caller's row
     * and changes nothing else. The caller passes a user loaded from this table.
     */
    method UpdateToken(userId: int, token: Option<string>)
      requires Valid() && exists u :: u in rows && u.id == userId
      modifies this
      ensures Valid() && nextId == old(nextId) && |rows| == |old(rows)|
      ensures forall i :: 0 <= i < |rows| ==>
        rows[i] == if old(rows)[i].id == userId then old(rows)[i].(refreshToken := token) else old(rows)[i]
    {
      var i :| 0 <= i < |rows| && rows[i].id == userId;
      rows := rows[i := rows[i].(refreshToken := token)];
    }
  }

  /** The confirmation round trip: after registering and confirming, the lookup by email finds a confirmed user. */
  method ConfirmAfterCreate(body: UserBody, now: DateTime) returns (found: Option<User>)
    ensures found.Some? && found.value.confirmed
    ensures found.value.username == body.username && found.value.email == body.email
  {
    var table := new UserTable();
    var created := table.Create(body, now);
    table.ConfirmEmail(body.email);
    found := table.GetUserByEmail(body.email);
  }
}
