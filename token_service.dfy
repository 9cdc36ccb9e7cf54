/**
 * Opaque bearer tokens kept in the Token table as (token, userId) rows:
 * `createToken` issues one, `verify` resolves one to an identity and
 * `removeToken` deletes it.
 */
module TokenService {
  import opened Wrappers
  import Query
  import UserService

  datatype TokenRow = TokenRow(token: string, userId: int)

  /** What `verify` returns: `{ id: userId }`. */
  datatype Identity = Identity(id: int)

  /** `verify` reads `userId` of the row it did not find: a TypeError on null. */
  datatype VerifyError = NullDereference

  /** The `where: { token }` condition. */
  function HasToken(token: string): TokenRow -> bool
  {
    (row: TokenRow) => row.token == token
  }

  /** Whether some row holds `token`. */
  predicate Issued(rows: seq<TokenRow>, token: string)
  {
    exists i :: 0 <= i < |rows| && rows[i].token == token
  }

  class TokenTable {
    var rows: seq<TokenRow>

    constructor ()
      ensures rows == []
    {
      rows := [];
    }

    /**
     * `createToken(user)`: stores `drawn`, the 32-character string the random
     * generator produced, against the user's id, and returns it.
     */
    method CreateToken(user: UserService.User, drawn: string) returns (token: string)
      requires |drawn| == 32
      modifies this
      ensures token == drawn && |token| == 32
      ensures rows == old(rows) + [TokenRow(token, user.id)]
      ensures !Issued(old(rows), token) ==> Verify(token) == Success(Identity(user.id))
    {
      token := drawn;
      rows := rows + [TokenRow(token, user.id)];
      if !Issued(old(rows), token) {
        Query.FindOneAppended(old(rows), TokenRow(token, user.id), HasToken(token));
      }
    }

    /**
     * `verify(token)`: the identity of the first row holding `token`; when no
     * row holds it, reading the missing row's `userId` fails.
     */
    function Verify(token: string): (r: Result<Identity, VerifyError>)
      reads this
      ensures r.Success? <==> Issued(rows, token)
      ensures r.Success? ==> exists i :: (0 <= i < |rows| && rows[i].token == token
        && r.value == Identity(rows[i].userId)
        && forall j :: 0 <= j < i ==> rows[j].token != token)
      ensures r.Failure? ==> r.error == NullDereference
    {
      match Query.FindOne(rows, HasToken(token))
      case Some(i) => Success(Identity(rows[i].userId))
      case None => Failure(NullDereference)
    }

    /** `removeToken(token)`: deletes every row holding `token`. */
    method RemoveToken(token: string)
      modifies this
      ensures rows == Query.DestroyWhere(old(rows), HasToken(token))
      ensures Verify(token).Failure?
      ensures !Issued(old(rows), token) ==> rows == old(rows)
    {
      rows := Query.DestroyWhere(rows, HasToken(token));
      Query.FindOneAfterDestroy(old(rows), HasToken(token));
      if !Issued(old(rows), token) {
        Query.DestroyWhereNoMatch(old(rows), HasToken(token));
      }
    }
  }

  /**
   * Issue, verify, revoke: a freshly drawn token resolves to the user it was
   * issued for until it is removed, and then no longer resolves.
   */
  method TokenLifecycle(user: UserService.User, drawn: string)
    returns (verified: Result<Identity, VerifyError>, afterRemoval: Result<Identity, VerifyError>)
    requires |drawn| == 32
    ensures verified == Success(Identity(user.id))
    ensures afterRemoval == Failure(NullDereference)
  {
    var table := new TokenTable();
    var token := table.CreateToken(user, drawn);
    verified := table.Verify(token);
    table.RemoveToken(token);
    afterRemoval := table.Verify(token);
  }
}
