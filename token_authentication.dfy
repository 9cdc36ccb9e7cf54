/**
 * The best-effort authentication middleware: it takes the token out of the
 * `Authorization` header, asks the token table who it belongs to, records the
 * answer on the request when there is one, and always passes the request on.
 */
module TokenAuthentication {
  import opened Wrappers
  import opened TokenService

  class Request {
    /** `req.headers.authorization`; None when the header is absent. */
    const authorization: Option<string>
    /** `req.authenticatedUser`; None while unset. */
    var authenticatedUser: Option<Identity>

    constructor (authorization: Option<string>)
      ensures this.authorization == authorization && authenticatedUser == None
    {
      this.authorization := authorization;
      authenticatedUser := None;
    }
  }

  /** The `next` callback of the middleware chain, counting its calls. */
  class Next {
    var calls: nat

    constructor ()
      ensures calls == 0
    {
      calls := 0;
    }

    method Invoke()
      modifies this
      ensures calls == old(calls) + 1
    {
      calls := calls + 1;
    }
  }

  /** `authorization.substring(7)`: the header without its first seven characters, "" when shorter. */
  function BearerToken(header: string): (t: string)
    ensures |header| >= 7 ==> header == header[..7] + t
    ensures |header| < 7 ==> t == ""
  {
    if |header| < 7 then "" else header[7..]
  }

  /**
   * The identity the middleware records for a request: none without a
   * (non-empty) header, and none when `verify` fails on the token.
   */
  function Authenticate(authorization: Option<string>, tokens: TokenTable): (r: Option<Identity>)
    reads tokens
    ensures authorization.None? || authorization == Some("") ==> r.None?
    ensures r.Some? <==> (authorization.Some? && authorization.value != ""
      && Issued(tokens.rows, BearerToken(authorization.value)))
    ensures r.Some? ==> exists i :: (0 <= i < |tokens.rows|
      && tokens.rows[i].token == BearerToken(authorization.value)
      && r.value == Identity(tokens.rows[i].userId))
  {
    if authorization.None? || authorization.value == "" then None
    else match tokens.Verify(BearerToken(authorization.value))
      case Success(user) => Some(user)
      case Failure(_) => None
  }

  /** The seven characters dropped from the header play no part: any scheme word, or none, resolves alike. */
  lemma PrefixIsIgnored(prefix: string, other: string, token: string, tokens: TokenTable)
    requires |prefix| == 7 && |other| == 7
    ensures Authenticate(Some(prefix + token), tokens) == Authenticate(Some(other + token), tokens)
  {
  }

  /** `TokenAuthentication(req, res, next)`. It never writes a response: `res` is outside its frame. */
  method TokenAuthentication(req: Request, next: Next, tokens: TokenTable)
    modifies req, next
    ensures next.calls == old(next.calls) + 1
    ensures req.authenticatedUser ==
      if Authenticate(req.authorization, tokens).Some? then Authenticate(req.authorization, tokens)
      else old(req.authenticatedUser)
  {
    var authorization := req.authorization;
    if authorization.Some? && authorization.value != "" {
      var token := BearerToken(authorization.value);
      var verified := tokens.Verify(token);
      if verified.Success? {
        req.authenticatedUser := Some(verified.value);
      }
    }
    next.Invoke();
  }

  /** A request carrying `Bearer <token>` for a freshly issued token is attributed to the token's user. */
  method IssuedTokenAuthenticates(user: UserService.User, drawn: string) returns (known: Option<Identity>)
    requires |drawn| == 32
    ensures known == Some(Identity(user.id))
  {
    var tokens := new TokenTable();
    var token := tokens.CreateToken(user, drawn);
    var next := new Next();
    var req := new Request(Some("Bearer " + token));
    assert BearerToken("Bearer " + token) == token by {
      assert ("Bearer " + token)[7..] == token;
    }
    TokenAuthentication(req, next, tokens);
    known := req.authenticatedUser;
  }

  /**
   * A request with an unknown token, and one without the header, both pass on
   * unauthenticated, and `next` runs once for each.
   */
  method UnknownTokenPassesOn(tokens: TokenTable, token: string)
    returns (unknown: Option<Identity>, absent: Option<Identity>, calls: nat)
    requires !Issued(tokens.rows, token)
    ensures unknown == None && absent == None
    ensures calls == 2
  {
    var next := new Next();
    var withBadToken := new Request(Some("Bearer " + token));
    assert BearerToken("Bearer " + token) == token by {
      assert ("Bearer " + token)[7..] == token;
    }
    TokenAuthentication(withBadToken, next, tokens);
    unknown := withBadToken.authenticatedUser;
    var withoutHeader := new Request(None);
    TokenAuthentication(withoutHeader, next, tokens);
    absent := withoutHeader.authenticatedUser;
    calls := next.calls;
  }
}
