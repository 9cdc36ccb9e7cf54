/**
 * The user table and the two operations the registration route uses:
 * `save`, which hashes the password and inserts one row, and `findByEmail`,
 * the uniqueness check, which raises `been_taken` when the email is stored.
 */
module UserService {
  import opened Wrappers
  import opened Messages
  import Query

  /** A request body as the route receives it; None stands for a null or missing field. */
  datatype Body = Body(username: Option<string>, email: Option<string>, password: Option<string>)

  /** A row of the user table; `id` is the identity the table assigns on insertion. */
  datatype User = User(id: int, username: Option<string>, email: Option<string>, password: Option<string>)

  /** The row `save` inserts: the body with its password replaced by the hash of the password. */
  function Stored(id: int, body: Body, hash: string -> string): User
    requires body.password.Some?
  {
    User(id, body.username, body.email, Some(hash(body.password.value)))
  }

  /** The `where: { email }` condition. */
  function HasEmail(email: string): User -> bool
  {
    (u: User) => u.email == Some(email)
  }

  /** Whether `findOne({ where: { email } })` finds a row. */
  predicate EmailTaken(rows: seq<User>, email: string)
  {
    Query.FindOne(rows, HasEmail(email)).Some?
  }

  /** The saved row keeps the body's username and email, and stores the hash in place of the password. */
  lemma StoredKeepsBody(id: int, body: Body, hash: string -> string)
    requires body.password.Some?
    ensures Stored(id, body, hash).username == body.username
    ensures Stored(id, body, hash).email == body.email
    ensures Stored(id, body, hash).password == Some(hash(body.password.value))
  {
  }

  /** When the hash has no fixed point, the stored password is never the plaintext. */
  lemma StoredPasswordIsNotPlaintext(id: int, body: Body, hash: string -> string)
    requires body.password.Some?
    requires forall p :: hash(p) != p
    ensures Stored(id, body, hash).password != body.password
  {
  }

  class UserTable {
    var rows: seq<User>
    /** The identity the next inserted row receives (an auto-increment column). */
    var nextId: int

    /** Identities are positive, increase in insertion order and stay below `nextId`. */
    ghost predicate Valid()
      reads this
    {
      && 1 <= nextId
      && (forall i :: 0 <= i < |rows| ==> 1 <= rows[i].id < nextId)
      && (forall i, j :: 0 <= i < j < |rows| ==> rows[i].id < rows[j].id)
    }

    constructor ()
      ensures Valid() && rows == [] && nextId == 1
    {
      rows := [];
      nextId := 1;
    }

    /**
     * `save(body)`: hashes the password and inserts the body as one new row.
     * Hashing a missing password raises, and then nothing is inserted.
     */
    method Save(body: Body, hash: string -> string) returns (ok: bool)
      requires Valid()
      modifies this
      ensures Valid()
      ensures ok <==> body.password.Some?
      ensures ok ==> rows == old(rows) + [Stored(old(nextId), body, hash)] && nextId == old(nextId) + 1
      ensures !ok ==> rows == old(rows) && nextId == old(nextId)
    {
      if body.password.None? {
        return false;
      }
      var user := Stored(nextId, body, hash);
      rows := rows + [user];
      nextId := nextId + 1;
      ok := true;
    }

    /** `findByEmail(email)`: raises `been_taken` exactly when some stored user has this email. */
    method FindByEmail(email: string) returns (r: Outcome<MsgKey>)
      ensures r.Fail? <==> exists i :: 0 <= i < |rows| && rows[i].email == Some(email)
      ensures r.Fail? ==> r.error == BeenTaken
      ensures r.Fail? <==> EmailTaken(rows, email)
    {
      var found := Query.FindOne(rows, HasEmail(email));
      if found.Some? {
        r := Fail(BeenTaken);
      } else {
        r := Pass;
      }
    }
  }
}
