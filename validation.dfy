/**
 * The validation chains of `POST /api/v1/users`, written as the data they are
 * in the route (`check(field).notEmpty().withMessage(..).bail()...`) and run
 * by the rules of the validation library: each validator that fails adds its
 * message, and a `bail()` stops the chain when the chain has reported an error.
 */
module Validation {
  import opened Wrappers
  import opened Messages
  import UserService

  datatype Field = Username | Email | Password
  {
    function Name(): string
    {
      match this
      case Username => "username"
      case Email => "email"
      case Password => "password"
    }
  }

  /** The validators the chains use. `FindByEmail` is the `custom(UserService.findByEmail)` validator. */
  datatype Validator = NotEmpty | IsLength(min: nat, max: Option<nat>) | IsEmail | MatchesPasswordPattern | FindByEmail

  /** One link of a chain: a validator with the message `withMessage` gave it, or a `bail()`. */
  datatype Item = Check(validator: Validator, message: MsgKey) | Bail

  /**
   * What the validators consult besides the value: the email grammar of the
   * library, left abstract, and the user table that `findByEmail` queries.
   */
  datatype Env = Env(isEmail: string -> bool, users: seq<UserService.User>)

  const UsernameChain: seq<Item> :=
    [Check(NotEmpty, Blank), Bail, Check(IsLength(4, Some(32)), UsernameSize)]

  /** The custom validator carries no `withMessage`; its message is that of the error it raises. */
  const EmailChain: seq<Item> :=
    [Check(NotEmpty, Blank), Bail, Check(IsEmail, NotValid), Bail, Check(FindByEmail, BeenTaken)]

  const PasswordChain: seq<Item> :=
    [Check(NotEmpty, Blank), Bail, Check(IsLength(6, None), PasswordSize), Bail, Check(MatchesPasswordPattern, PasswordChars)]

  function Chain(f: Field): seq<Item>
  {
    match f
    case Username => UsernameChain
    case Email => EmailChain
    case Password => PasswordChain
  }

  function Value(f: Field, body: UserService.Body): Option<string>
  {
    match f
    case Username => body.username
    case Email => body.email
    case Password => body.password
  }

  /** The string the validators see: the library turns null and undefined into "". */
  function Text(v: Option<string>): string
  {
    if v.Some? then v.value else ""
  }

  // ---------------------------------------------------------------------------
  // The password pattern /^(?=.*[a-z])(?=.*[A-Z])(?=.*\d).*$/ (no flags)

  /** The characters `.` does not match: the line terminators of ECMAScript. */
  predicate IsLineTerminator(c: char)
  {
    c == '\n' || c == '\r' || c == '\U{2028}' || c == '\U{2029}'
  }

  predicate IsLower(c: char) { 'a' <= c <= 'z' }
  predicate IsUpper(c: char) { 'A' <= c <= 'Z' }
  predicate IsDigit(c: char) { '0' <= c <= '9' }

  /** The lookahead `(?=.*C)` at position 0: a character of class C preceded only by characters `.` matches. */
  predicate LookaheadAtStart(s: string, charClass: char -> bool)
  {
    exists k :: 0 <= k < |s| && charClass(s[k]) && forall j :: 0 <= j < k ==> !IsLineTerminator(s[j])
  }

  /**
   * The pattern as the regular-expression engine reads it: `^` pins the match
   * to position 0, where the three lookaheads must hold, and `.*$` must then
   * consume the whole input.
   */
  predicate PasswordPattern(s: string)
  {
    && LookaheadAtStart(s, IsLower)
    && LookaheadAtStart(s, IsUpper)
    && LookaheadAtStart(s, IsDigit)
    && forall j :: 0 <= j < |s| ==> !IsLineTerminator(s[j])
  }

  predicate Contains(s: string, charClass: char -> bool)
  {
    exists k :: 0 <= k < |s| && charClass(s[k])
  }

  /** The pattern accepts exactly the single-line strings with a lowercase letter, an uppercase letter and a digit. */
  lemma PasswordPatternMeaning(s: string)
    ensures PasswordPattern(s) <==>
      && Contains(s, IsLower) && Contains(s, IsUpper) && Contains(s, IsDigit)
      && forall j :: 0 <= j < |s| ==> !IsLineTerminator(s[j])
  {
  }

  // ---------------------------------------------------------------------------
  // Running a chain

  function Passes(v: Validator, s: string, env: Env): bool
  {
    match v
    case NotEmpty => s != ""
    case IsLength(min, max) => min <= |s| && (max.None? || |s| <= max.value)
    case IsEmail => env.isEmail(s)
    case MatchesPasswordPattern => PasswordPattern(s)
    case FindByEmail => !UserService.EmailTaken(env.users, s)
  }

  /** The messages a chain reports for `s`, after the messages `reported` so far. */
  function Run(chain: seq<Item>, s: string, env: Env, reported: seq<MsgKey>): seq<MsgKey>
    decreases |chain|
  {
    if chain == [] then reported
    else match chain[0]
      case Bail => if reported != [] then reported else Run(chain[1..], s, env, reported)
      case Check(v, m) => Run(chain[1..], s, env, if Passes(v, s, env) then reported else reported + [m])
  }

  /** Reference reading of a chain: the message of its earliest failing validator. */
  function FirstFailure(chain: seq<Item>, s: string, env: Env): (r: Option<MsgKey>)
    ensures r.None? <==> forall k :: 0 <= k < |chain| && chain[k].Check? ==> Passes(chain[k].validator, s, env)
    ensures r.Some? ==> exists k :: (0 <= k < |chain| && chain[k].Check? && !Passes(chain[k].validator, s, env)
      && r.value == chain[k].message
      && forall j :: 0 <= j < k && chain[j].Check? ==> Passes(chain[j].validator, s, env))
  {
    if chain == [] then None
    else if chain[0].Check? && !Passes(chain[0].validator, s, env) then Some(chain[0].message)
    else
      var rest := FirstFailure(chain[1..], s, env);
      assert forall k :: 1 <= k < |chain| ==> chain[k] == chain[1..][k - 1];
      rest
  }

  /** A chain with a `bail()` after every validator but the last. */
  predicate BailAfterEach(chain: seq<Item>)
    decreases |chain|
  {
    && |chain| >= 1
    && chain[0].Check?
    && (|chain| == 1 || (|chain| >= 3 && chain[1].Bail? && BailAfterEach(chain[2..])))
  }

  function AsSeq(o: Option<MsgKey>): seq<MsgKey>
  {
    if o.Some? then [o.value] else []
  }

  /** With a bail after every validator, a chain reports its earliest failure and nothing else. */
  lemma {:induction false} BailReportsFirstFailure(chain: seq<Item>, s: string, env: Env)
    requires BailAfterEach(chain)
    ensures Run(chain, s, env, []) == AsSeq(FirstFailure(chain, s, env))
    decreases |chain|
  {
    var v, m := chain[0].validator, chain[0].message;
    if |chain| == 1 {
      assert chain[1..] == [];
    } else if !Passes(v, s, env) {
      assert Run(chain, s, env, []) == Run(chain[1..], s, env, [m]);
      assert chain[1..][0] == Bail;
    } else {
      assert Run(chain, s, env, []) == Run(chain[1..], s, env, []);
      assert chain[1..][0] == Bail;
      assert Run(chain[1..], s, env, []) == Run(chain[2..], s, env, []) by {
        assert chain[1..][1..] == chain[2..];
      }
      assert FirstFailure(chain[1..], s, env) == FirstFailure(chain[2..], s, env) by {
        assert chain[1..][1..] == chain[2..];
      }
      BailReportsFirstFailure(chain[2..], s, env);
    }
  }

  lemma ChainsBailAfterEach(f: Field)
    ensures BailAfterEach(Chain(f))
  {
  }

  // ---------------------------------------------------------------------------
  // What the route reports per field

  /** The messages reported for field `f`, in chain order. */
  function Reported(f: Field, body: UserService.Body, env: Env): seq<MsgKey>
  {
    Run(Chain(f), Text(Value(f, body)), env, [])
  }

  /** The verdict on field `f`: its earliest failing check, if any. */
  function Verdict(f: Field, body: UserService.Body, env: Env): Option<MsgKey>
  {
    FirstFailure(Chain(f), Text(Value(f, body)), env)
  }

  /** Each field reports at most one message: its verdict. */
  lemma ReportedIsVerdict(f: Field, body: UserService.Body, env: Env)
    ensures Reported(f, body, env) == AsSeq(Verdict(f, body, env))
  {
    ChainsBailAfterEach(f);
    BailReportsFirstFailure(Chain(f), Text(Value(f, body)), env);
  }

  /** Username: blank when null or empty, otherwise `username_size` outside 4..32 characters. */
  lemma UsernameRule(body: UserService.Body, env: Env)
    ensures var s := Text(body.username);
      Verdict(Username, body, env) ==
        if s == "" then Some(Blank)
        else if |s| < 4 || 32 < |s| then Some(UsernameSize)
        else None
  {
    var s := Text(body.username);
    var c := UsernameChain;
    assert c[0].Check? && c[1].Bail? && c[2].Check?;
    if s != "" && !(|s| < 4 || 32 < |s|) {
      assert forall k :: 0 <= k < |c| && c[k].Check? ==> Passes(c[k].validator, s, env);
    }
  }

  /** Email: blank when null or empty, otherwise `not_valid`, otherwise `been_taken` when already stored. */
  lemma EmailRule(body: UserService.Body, env: Env)
    ensures var s := Text(body.email);
      Verdict(Email, body, env) ==
        if s == "" then Some(Blank)
        else if !env.isEmail(s) then Some(NotValid)
        else if UserService.EmailTaken(env.users, s) then Some(BeenTaken)
        else None
  {
    var s := Text(body.email);
    var c := EmailChain;
    assert c[0].Check? && c[1].Bail? && c[2].Check? && c[3].Bail? && c[4].Check?;
    var r := Verdict(Email, body, env);
    if r.Some? {
      var k :| 0 <= k < |c| && c[k].Check? && !Passes(c[k].validator, s, env) && r.value == c[k].message
        && forall j :: 0 <= j < k && c[j].Check? ==> Passes(c[j].validator, s, env);
      assert k == 0 || k == 2 || k == 4;
    }
  }

  /** Password: blank, then `password_size` under 6 characters, then `password_chars` when the pattern fails. */
  lemma PasswordRule(body: UserService.Body, env: Env)
    ensures var s := Text(body.password);
      Verdict(Password, body, env) ==
        if s == "" then Some(Blank)
        else if |s| < 6 then Some(PasswordSize)
        else if !PasswordPattern(s) then Some(PasswordChars)
        else None
  {
    var s := Text(body.password);
    var c := PasswordChain;
    assert c[0].Check? && c[1].Bail? && c[2].Check? && c[3].Bail? && c[4].Check?;
    var r := Verdict(Password, body, env);
    if r.Some? {
      var k :| 0 <= k < |c| && c[k].Check? && !Passes(c[k].validator, s, env) && r.value == c[k].message
        && forall j :: 0 <= j < k && c[j].Check? ==> Passes(c[j].validator, s, env);
      assert k == 0 || k == 2 || k == 4;
    }
  }

  // ---------------------------------------------------------------------------
  // The error array `validationResult(req).array()`

  datatype FieldError = FieldError(param: Field, msg: MsgKey)

  function Tag(f: Field, msgs: seq<MsgKey>): (r: seq<FieldError>)
    ensures |r| == |msgs|
    ensures forall i :: 0 <= i < |r| ==> r[i] == FieldError(f, msgs[i])
  {
    if msgs == [] then [] else [FieldError(f, msgs[0])] + Tag(f, msgs[1..])
  }

  /** The errors of all three chains, in the order the chains are declared. */
  function Errors(body: UserService.Body, env: Env): seq<FieldError>
  {
    Tag(Username, Reported(Username, body, env))
      + Tag(Email, Reported(Email, body, env))
      + Tag(Password, Reported(Password, body, env))
  }

  /** The errors a field with verdict `v` contributes. */
  function EntryOf(f: Field, v: Option<MsgKey>): seq<FieldError>
  {
    if v.Some? then [FieldError(f, v.value)] else []
  }

  function Entry(f: Field, body: UserService.Body, env: Env): seq<FieldError>
  {
    EntryOf(f, Verdict(f, body, env))
  }

  lemma TaggedIsEntry(f: Field, body: UserService.Body, env: Env)
    ensures Tag(f, Reported(f, body, env)) == Entry(f, body, env)
  {
    ReportedIsVerdict(f, body, env);
  }

  /** The error array holds one error per failing field, with its verdict, in the order username, email, password. */
  lemma ErrorsAreVerdicts(body: UserService.Body, env: Env)
    ensures Errors(body, env) == Entry(Username, body, env) + Entry(Email, body, env) + Entry(Password, body, env)
  {
    TaggedIsEntry(Username, body, env);
    TaggedIsEntry(Email, body, env);
    TaggedIsEntry(Password, body, env);
  }

  /** The verdict of `f` among the three verdicts, listed in field order. */
  function Pick(f: Field, vu: Option<MsgKey>, ve: Option<MsgKey>, vp: Option<MsgKey>): Option<MsgKey>
  {
    match f
    case Username => vu
    case Email => ve
    case Password => vp
  }

  lemma VerdictIsPick(body: UserService.Body, env: Env, f: Field)
    ensures Verdict(f, body, env)
      == Pick(f, Verdict(Username, body, env), Verdict(Email, body, env), Verdict(Password, body, env))
  {
  }

  /** Three fields contribute no error exactly when none of them has a verdict. */
  lemma EntriesEmpty(vu: Option<MsgKey>, ve: Option<MsgKey>, vp: Option<MsgKey>)
    ensures EntryOf(Username, vu) + EntryOf(Email, ve) + EntryOf(Password, vp) == []
      <==> vu.None? && ve.None? && vp.None?
  {
    var u, e, p := EntryOf(Username, vu), EntryOf(Email, ve), EntryOf(Password, vp);
    assert |u + e + p| == |u| + |e| + |p|;
  }

  /** The error array is empty exactly when every field passes. */
  lemma NoErrorsIffAllPass(body: UserService.Body, env: Env)
    ensures Errors(body, env) == [] <==> forall f: Field :: Verdict(f, body, env).None?
  {
    ErrorsAreVerdicts(body, env);
    var vu, ve, vp := Verdict(Username, body, env), Verdict(Email, body, env), Verdict(Password, body, env);
    EntriesEmpty(vu, ve, vp);
    forall f: Field ensures Verdict(f, body, env) == Pick(f, vu, ve, vp) {
      VerdictIsPick(body, env, f);
    }
  }
}
