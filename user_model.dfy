/** The user table and the functions of the user model: login, registration,
    look-ups by username and e-mail, profile update and account deletion. */
module UserModel {
  import opened Outcomes
  import opened JsStrings
  import opened Rows

  /** A row of the `user` table. Passwords are stored as given. */
  datatype User = User(userId: nat, username: string, email: string, password: string, icon: string)

  /** The icon every new account gets, whatever icon was asked for. */
  const DefaultIcon: string := "https://icon-library.com/images/default-user-icon/default-user-icon-8.jpg"

  /** The icon an update stores when the icon it was given is not valid text. */
  const FallbackIcon: string := "images/default.jpg"

  function UserKey(u: User): int { u.userId }

  function WithUsername(rows: seq<User>, name: string): (r: seq<User>)
    ensures forall u :: u in r <==> u in rows && u.username == name
  {
    Filter(rows, (u: User) => u.username == name)
  }

  function WithEmail(rows: seq<User>, email: string): (r: seq<User>)
    ensures forall u :: u in r <==> u in rows && u.email == email
  {
    Filter(rows, (u: User) => u.email == email)
  }

  function WithCredentials(rows: seq<User>, email: string, password: string): (r: seq<User>)
    ensures forall u :: u in r <==> u in rows && u.email == email && u.password == password
  {
    Filter(rows, (u: User) => u.email == email && u.password == password)
  }

  function WithoutEmail(rows: seq<User>, email: string): (r: seq<User>)
    ensures forall u :: u in r <==> u in rows && u.email != email
  {
    Filter(rows, (u: User) => u.email != email)
  }

  /** The icon `updateUser` stores for the icon argument it receives. */
  function IconOrFallback(icon: Arg): (stored: string)
    ensures ValidText(icon) ==> stored == icon.s
    ensures !ValidText(icon) ==> stored == FallbackIcon
  {
    if ValidText(icon) then icon.s else FallbackIcon
  }

  /** The table after `UPDATE user SET username, password, icon WHERE email`. */
  function RewriteByEmail(rows: seq<User>, email: string, name: string, password: string, icon: string): (r: seq<User>)
    ensures |r| == |rows|
    ensures forall i :: 0 <= i < |rows| ==> r[i].userId == rows[i].userId && r[i].email == rows[i].email
    ensures forall i :: 0 <= i < |rows| && rows[i].email != email ==> r[i] == rows[i]
    ensures forall i :: 0 <= i < |rows| && rows[i].email == email ==>
              r[i].username == name && r[i].password == password && r[i].icon == icon
  {
    seq(|rows|, i requires 0 <= i < |rows| =>
      if rows[i].email == email then rows[i].(username := name, password := password, icon := icon) else rows[i])
  }

  /** After a profile update the account can log in with the new password. */
  lemma UpdateThenLogin(rows: seq<User>, email: string, name: string, password: string, icon: string)
    requires WithEmail(rows, email) != []
    ensures WithCredentials(RewriteByEmail(rows, email, name, password, icon), email, password) != []
  {
    var u := WithEmail(rows, email)[0];
    assert u in WithEmail(rows, email);
    var i :| 0 <= i < |rows| && rows[i] == u;
    var r := RewriteByEmail(rows, email, name, password, icon);
    assert r[i] in r;
    assert r[i] in WithCredentials(r, email, password);
  }

  /** After deleting an e-mail address no row carries it. */
  lemma DeleteThenNoEmail(rows: seq<User>, email: string)
    ensures WithEmail(WithoutEmail(rows, email), email) == []
  {
    FilterNone(WithoutEmail(rows, email), (u: User) => u.email == email);
  }

  class UserTable {
    var rows: seq<User>
    /** The next value of the AUTO_INCREMENT `user_id` column. */
    var nextId: nat

    ghost predicate Valid()
      reads this
    {
      KeyedBelow(rows, UserKey, nextId)
    }

    constructor ()
      ensures Valid() && rows == [] && nextId == 1
    {
      rows, nextId := [], 1;
    }

    /** `findById` succeeds: some row has this id. */
    function HasUser(id: nat): (found: bool)
      reads this
      ensures found <==> exists u :: u in rows && u.userId == id
    {
      var matching := Filter(rows, (u: User) => u.userId == id);
      assert matching != [] ==> matching[0] in matching;
      matching != []
    }

    /** `login`: both fields must be valid text; then the first row with that
        e-mail and password, or nothing (`undefined`) when no row has both. */
    method Login(email: Arg, password: Arg) returns (r: Result<Option<User>>)
      ensures r.Err? <==> !ValidText(email) || !ValidText(password)
      ensures r.Err? ==> r.error == AuthException
      ensures r.Ok? ==> (r.value.None? <==> WithCredentials(rows, email.s, password.s) == [])
      ensures r.Ok? && r.value.Some? ==>
                r.value.value == WithCredentials(rows, email.s, password.s)[0]
                && r.value.value in rows
                && r.value.value.email == email.s && r.value.value.password == password.s
    {
      if !ValidText(email) {
        return Err(AuthException);
      }
      if !ValidText(password) {
        return Err(AuthException);
      }
      var results := WithCredentials(rows, email.s, password.s);
      // `results[0]` is the row array, which is always truthy, so the
      // `userException` branch of the source is never taken.
      if results == [] {
        r := Ok(None);
      } else {
        assert results[0] in results;
        r := Ok(Some(results[0]));
      }
    }

    /** `findByEmail`: the rows with that address, or a `userException`
        when the address is not valid text or no row has it. */
    method FindByEmail(email: Arg) returns (r: Result<seq<User>>)
      ensures !ValidText(email) ==> r == Err(UserException)
      ensures ValidText(email) ==> (r.Ok? <==> WithEmail(rows, email.s) != [])
      ensures ValidText(email) ==> (r.Ok? <==> exists u :: u in rows && u.email == email.s)
      ensures r.Err? ==> r.error == UserException
      ensures r.Ok? ==> r.value == WithEmail(rows, email.s)
    {
      if !ValidText(email) {
        return Err(UserException);
      }
      var found := WithEmail(rows, email.s);
      if found == [] {
        r := Err(UserException);
      } else {
        assert found[0] in found;
        r := Ok(found);
      }
    }

    /** `findByUsername`: the first row with that name. The `userException`
        thrown for a missing name is caught by the function's own handler,
        which returns a `databaseException` instead. */
    method FindByUsername(username: Arg) returns (r: Result<User>)
      ensures !ValidText(username) ==> r == Err(UserException)
      ensures ValidText(username) && WithUsername(rows, username.s) == [] ==> r == Err(DatabaseException)
      ensures ValidText(username) && WithUsername(rows, username.s) != [] ==>
                r == Ok(WithUsername(rows, username.s)[0])
      ensures r.Ok? ==> r.value in rows && r.value.username == username.s
    {
      if !ValidText(username) {
        return Err(UserException);
      }
      var found := WithUsername(rows, username.s);
      if found == [] {
        r := Err(DatabaseException);
      } else {
        assert found[0] in found;
        r := Ok(found[0]);
      }
    }

    /** `createUser`: validates username, e-mail and password, refuses a
        username or e-mail already present, then inserts the row with the
        default icon and returns the rows with that username. */
    method CreateUser(username: Arg, email: Arg, password: Arg, icon: Arg) returns (r: Result<seq<User>>)
      requires Valid()
      modifies this
      ensures Valid()
      ensures !(ValidText(username) && ValidText(email) && ValidText(password)) ==>
                r == Err(UserException) && rows == old(rows) && nextId == old(nextId)
      ensures ValidText(username) && ValidText(email) && ValidText(password)
              && (WithUsername(old(rows), username.s) != [] || WithEmail(old(rows), email.s) != []) ==>
                r == Err(UserException) && rows == old(rows) && nextId == old(nextId)
      ensures ValidText(username) && ValidText(email) && ValidText(password)
              && WithUsername(old(rows), username.s) == [] && WithEmail(old(rows), email.s) == [] ==>
                var created := User(old(nextId), username.s, email.s, password.s, DefaultIcon);
                && rows == old(rows) + [created]
                && nextId == old(nextId) + 1
                && r == Ok([created])
                && forall u :: u in old(rows) ==> u.userId != created.userId
    {
      if !ValidText(username) || !ValidText(email) || !ValidText(password) {
        return Err(UserException);
      }
      var duplicateUsername := FindByUsername(username);
      var duplicateEmail := FindByEmail(email);
      if !duplicateUsername.Err? || !duplicateEmail.Err? {
        return Err(UserException);
      }
      var created := User(nextId, username.s, email.s, password.s, DefaultIcon);
      InsertKeyed(rows, created, UserKey, nextId);
      FilterAppend(rows, created, (u: User) => u.username == username.s);
      assert WithUsername(rows + [created], username.s) == [created];
      rows, nextId := rows + [created], nextId + 1;
      r := Ok(WithUsername(rows, username.s));
    }

    /** `updateUser`: validates the new username and password, falls back to
        the default icon, and rewrites the rows with that e-mail. The row
        search is `find(row => row != newUsername)`, which compares each row
        object's text form with the new username; it finds nothing when no
        row has the address or the new username is that text form. */
    method UpdateUser(userEmail: string, newUsername: Arg, newPassword: Arg, newIcon: Arg) returns (r: Result<seq<User>>)
      requires Valid()
      modifies this
      ensures Valid() && nextId == old(nextId)
      ensures !(ValidText(newUsername) && ValidText(newPassword)) ==>
                r == Err(UserException) && rows == old(rows)
      ensures ValidText(newUsername) && ValidText(newPassword)
              && (WithEmail(old(rows), userEmail) == [] || newUsername.s == ObjectText) ==>
                r == Err(UserException) && rows == old(rows)
      ensures ValidText(newUsername) && ValidText(newPassword)
              && WithEmail(old(rows), userEmail) != [] && newUsername.s != ObjectText ==>
                && rows == RewriteByEmail(old(rows), userEmail, newUsername.s, newPassword.s, IconOrFallback(newIcon))
                && r == Ok(WithEmail(rows, userEmail))
    {
      if !ValidText(newUsername) || !ValidText(newPassword) {
        return Err(UserException);
      }
      var icon := IconOrFallback(newIcon);
      var retrieved := WithEmail(rows, userEmail);
      if retrieved == [] || newUsername.s == ObjectText {
        return Err(UserException);
      }
      var updated := RewriteByEmail(rows, userEmail, newUsername.s, newPassword.s, icon);
      SameKeysKeyed(rows, updated, UserKey, nextId);
      rows := updated;
      r := Ok(WithEmail(rows, userEmail));
    }

    /** `deleteUser`: validates the address, deletes its rows and reports
        whether none remain, which is always the case once the DELETE runs.
        `referenced` holds the user ids that a `category` or `post_it` row
        still refers to through its foreign key; the database refuses to
        delete such a row and the handler answers with a database error. */
    method DeleteUser(email: Arg, referenced: set<nat>) returns (r: Result<bool>)
      requires Valid()
      modifies this
      ensures Valid() && nextId == old(nextId)
      ensures !ValidText(email) ==> r == Err(UserException) && rows == old(rows)
      ensures ValidText(email) && (exists u :: u in old(rows) && u.email == email.s && u.userId in referenced) ==>
                r == Err(DatabaseException) && rows == old(rows)
      ensures ValidText(email) && !(exists u :: u in old(rows) && u.email == email.s && u.userId in referenced) ==>
                rows == WithoutEmail(old(rows), email.s) && r == Ok(true)
    {
      if !ValidText(email) {
        return Err(UserException);
      }
      if exists u :: u in rows && u.email == email.s && u.userId in referenced {
        return Err(DatabaseException);
      }
      FilterKeyed(rows, (u: User) => u.email != email.s, UserKey, nextId);
      rows := WithoutEmail(rows, email.s);
      DeleteThenNoEmail(old(rows), email.s);
      r := Ok(WithEmail(rows, email.s) == []);
    }
  }
}
