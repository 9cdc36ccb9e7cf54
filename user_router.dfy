/**
 * The handler of `POST /api/v1/users`: it turns the validation errors into
 * the `validationErrors` object and answers 400, or saves the user and
 * answers with `user_created`.
 */
module UserRouter {
  import opened Wrappers
  import opened Messages
  import opened Validation
  import UserService

  /**
   * A JavaScript object from field to message key. Its keys enumerate in
   * insertion order, so it is modelled as the list of its entries.
   */
  type ErrorObject = seq<(Field, MsgKey)>

  predicate HasKey(obj: ErrorObject, f: Field)
  {
    exists i :: 0 <= i < |obj| && obj[i].0 == f
  }

  /** Reading `obj[f]`. */
  function Get(obj: ErrorObject, f: Field): Option<MsgKey>
  {
    if obj == [] then None else if obj[0].0 == f then Some(obj[0].1) else Get(obj[1..], f)
  }

  predicate DistinctKeys(obj: ErrorObject)
  {
    forall i, j :: 0 <= i < j < |obj| ==> obj[i].0 != obj[j].0
  }

  lemma HasKeyCons(x: (Field, MsgKey), rest: ErrorObject, g: Field)
    ensures HasKey([x] + rest, g) <==> x.0 == g || HasKey(rest, g)
  {
    if x.0 == g {
      assert ([x] + rest)[0].0 == g;
    }
    if HasKey([x] + rest, g) && x.0 != g {
      var i :| 0 <= i < |rest| + 1 && ([x] + rest)[i].0 == g;
      assert rest[i - 1].0 == g;
    }
    if HasKey(rest, g) {
      var i :| 0 <= i < |rest| && rest[i].0 == g;
      assert ([x] + rest)[i + 1].0 == g;
    }
  }

  /** The assignment `obj[f] = m`. */
  function Assign(obj: ErrorObject, f: Field, m: MsgKey): ErrorObject
  {
    if obj == [] then [(f, m)]
    else if obj[0].0 == f then [(f, m)] + obj[1..]
    else [obj[0]] + Assign(obj[1..], f, m)
  }

  /** `obj[f] = m` makes `obj[f]` read `m` and leaves the value of every other key. */
  lemma {:induction false} AssignGet(obj: ErrorObject, f: Field, m: MsgKey, g: Field)
    ensures Get(Assign(obj, f, m), g) == if g == f then Some(m) else Get(obj, g)
  {
    if obj != [] && obj[0].0 != f {
      AssignGet(obj[1..], f, m, g);
    }
  }

  /** After `obj[f] = m` the keys are the old keys and `f`. */
  lemma {:induction false} AssignKeys(obj: ErrorObject, f: Field, m: MsgKey, g: Field)
    ensures HasKey(Assign(obj, f, m), g) <==> HasKey(obj, g) || g == f
  {
    if obj == [] {
      assert Assign(obj, f, m)[0].0 == f;
    } else {
      assert obj == [obj[0]] + obj[1..];
      HasKeyCons(obj[0], obj[1..], g);
      if obj[0].0 == f {
        HasKeyCons((f, m), obj[1..], g);
      } else {
        AssignKeys(obj[1..], f, m, g);
        HasKeyCons(obj[0], Assign(obj[1..], f, m), g);
      }
    }
  }

  /** A key the object lacks is added after all the others. */
  lemma {:induction false} AssignAppends(obj: ErrorObject, f: Field, m: MsgKey)
    requires !HasKey(obj, f)
    ensures Assign(obj, f, m) == obj + [(f, m)]
  {
    if obj != [] {
      assert obj == [obj[0]] + obj[1..];
      HasKeyCons(obj[0], obj[1..], f);
      AssignAppends(obj[1..], f, m);
      assert [obj[0]] + (obj[1..] + [(f, m)]) == obj + [(f, m)];
    }
  }

  /** Assignment never makes a key appear twice. */
  lemma {:induction false} AssignDistinct(obj: ErrorObject, f: Field, m: MsgKey)
    requires DistinctKeys(obj)
    ensures DistinctKeys(Assign(obj, f, m))
  {
    if obj != [] {
      if obj[0].0 == f {
        DistinctHead(obj, (f, m));
      } else {
        assert obj == [obj[0]] + obj[1..];
        assert DistinctKeys(obj[1..]);
        AssignDistinct(obj[1..], f, m);
        AssignKeys(obj[1..], f, m, obj[0].0);
        DistinctCons(obj[0], Assign(obj[1..], f, m));
      }
    }
  }

  /** Replacing the first entry by one with the same key keeps the keys distinct. */
  lemma DistinctHead(obj: ErrorObject, x: (Field, MsgKey))
    requires obj != [] && obj[0].0 == x.0
    ensures DistinctKeys(obj) ==> DistinctKeys([x] + obj[1..])
  {
  }

  /** Putting an entry whose key is new in front of distinct keys keeps them distinct. */
  lemma DistinctCons(x: (Field, MsgKey), rest: ErrorObject)
    requires DistinctKeys(rest) && !HasKey(rest, x.0)
    ensures DistinctKeys([x] + rest)
  {
  }

  /** The object after `errors.forEach((error) => { obj[error.param] = error.msg })` from an empty object. */
  function Collect(errors: seq<FieldError>): ErrorObject
  {
    if errors == [] then []
    else
      var last := errors[|errors| - 1];
      Assign(Collect(errors[..|errors| - 1]), last.param, last.msg)
  }

  /** Some error of the array is about `f`. */
  predicate Mentions(errors: seq<FieldError>, f: Field)
  {
    exists i :: 0 <= i < |errors| && errors[i].param == f
  }

  /** The message of the last error about `f`: the value the loop leaves in `obj[f]`. */
  function LastMessage(errors: seq<FieldError>, f: Field): Option<MsgKey>
  {
    if errors == [] then None
    else if errors[|errors| - 1].param == f then Some(errors[|errors| - 1].msg)
    else LastMessage(errors[..|errors| - 1], f)
  }

  /** The object has each field once, and `obj[f]` is the message of the last error about `f`. */
  lemma {:induction false} CollectLastWins(errors: seq<FieldError>)
    ensures DistinctKeys(Collect(errors))
    ensures forall f :: Get(Collect(errors), f) == LastMessage(errors, f)
    ensures forall f :: HasKey(Collect(errors), f) <==> Mentions(errors, f)
  {
    if errors != [] {
      var init := errors[..|errors| - 1];
      CollectLastWins(init);
      var last := errors[|errors| - 1];
      AssignDistinct(Collect(init), last.param, last.msg);
      forall f ensures Get(Collect(errors), f) == LastMessage(errors, f) {
        AssignGet(Collect(init), last.param, last.msg, f);
      }
      forall f ensures HasKey(Collect(errors), f) <==> HasKey(Collect(init), f) || f == last.param {
        AssignKeys(Collect(init), last.param, last.msg, f);
      }
      forall f ensures Mentions(errors, f) <==> errors[|errors| - 1].param == f || Mentions(init, f) {
        if Mentions(errors, f) {
          var i :| 0 <= i < |errors| && errors[i].param == f;
          if i < |init| { assert init[i].param == f; }
        }
        if Mentions(init, f) {
          var i :| 0 <= i < |init| && init[i].param == f;
          assert errors[i].param == f;
        }
      }
    }
  }

  function Pairs(errors: seq<FieldError>): (r: ErrorObject)
    ensures |r| == |errors|
    ensures forall i :: 0 <= i < |r| ==> r[i] == (errors[i].param, errors[i].msg)
  {
    if errors == [] then [] else Pairs(errors[..|errors| - 1]) + [(errors[|errors| - 1].param, errors[|errors| - 1].msg)]
  }

  /** When no two errors name the same field, the object lists the errors as they came. */
  lemma {:induction false} CollectDistinct(errors: seq<FieldError>)
    requires forall i, j :: 0 <= i < j < |errors| ==> errors[i].param != errors[j].param
    ensures Collect(errors) == Pairs(errors)
  {
    if errors != [] {
      var init := errors[..|errors| - 1];
      CollectDistinct(init);
      var last := errors[|errors| - 1];
      AssignAppends(Pairs(init), last.param, last.msg);
    }
  }

  /** The `forEach` loop of the handler. */
  method BuildValidationErrors(errors: seq<FieldError>) returns (obj: ErrorObject)
    ensures obj == Collect(errors)
  {
    obj := [];
    var i := 0;
    while i < |errors|
      invariant 0 <= i <= |errors|
      invariant obj == Collect(errors[..i])
    {
      assert errors[..i + 1][..i] == errors[..i];
      obj := Assign(obj, errors[i].param, errors[i].msg);
      i := i + 1;
    }
    assert errors[..i] == errors;
  }

  /** The `validationErrors` object the handler sends for `body`. */
  function ValidationErrors(body: UserService.Body, env: Env): ErrorObject
  {
    Collect(Errors(body, env))
  }

  /** The entry a field with verdict `v` contributes to the object. */
  function PairOf(f: Field, v: Option<MsgKey>): ErrorObject
  {
    if v.Some? then [(f, v.value)] else []
  }

  /** The last message about `f` in `a + b` comes from `b` when `b` has one. */
  lemma {:induction false} LastMessageConcat(a: seq<FieldError>, b: seq<FieldError>, f: Field)
    ensures LastMessage(a + b, f) == if LastMessage(b, f).Some? then LastMessage(b, f) else LastMessage(a, f)
  {
    if b == [] {
      assert a + b == a;
    } else {
      assert (a + b)[..|a + b| - 1] == a + b[..|b| - 1];
      LastMessageConcat(a, b[..|b| - 1], f);
    }
  }

  /** At most one error per field, in field order: no two errors name the same field. */
  lemma ThreeDistinct(vu: Option<MsgKey>, ve: Option<MsgKey>, vp: Option<MsgKey>)
    ensures var all := EntryOf(Username, vu) + EntryOf(Email, ve) + EntryOf(Password, vp);
      forall i, j :: 0 <= i < j < |all| ==> all[i].param != all[j].param
  {
  }

  /** Turning errors into pairs commutes with concatenation. */
  lemma PairsConcat(a: seq<FieldError>, b: seq<FieldError>)
    ensures Pairs(a + b) == Pairs(a) + Pairs(b)
  {
    var l, r := Pairs(a + b), Pairs(a) + Pairs(b);
    assert |l| == |r|;
    forall i | 0 <= i < |l| ensures l[i] == r[i] {
      if i < |a| {
        assert (a + b)[i] == a[i];
      } else {
        assert (a + b)[i] == b[i - |a|];
      }
    }
  }

  /** Collecting at most one error per field, in field order, gives one entry per failing field in that order. */
  lemma CollectThree(vu: Option<MsgKey>, ve: Option<MsgKey>, vp: Option<MsgKey>)
    ensures Collect(EntryOf(Username, vu) + EntryOf(Email, ve) + EntryOf(Password, vp))
      == PairOf(Username, vu) + PairOf(Email, ve) + PairOf(Password, vp)
  {
    var all := EntryOf(Username, vu) + EntryOf(Email, ve) + EntryOf(Password, vp);
    ThreeDistinct(vu, ve, vp);
    CollectDistinct(all);
    var u, e, p := EntryOf(Username, vu), EntryOf(Email, ve), EntryOf(Password, vp);
    PairsConcat(u + e, p);
    PairsConcat(u, e);
    assert Pairs(u) == PairOf(Username, vu) && Pairs(e) == PairOf(Email, ve) && Pairs(p) == PairOf(Password, vp);
  }

  lemma LastOfEntry(g: Field, v: Option<MsgKey>, f: Field)
    ensures LastMessage(EntryOf(g, v), f) == if g == f then v else None
  {
    if v.Some? {
      assert EntryOf(g, v)[..0] == [];
    }
  }

  /** Reading field `f` of that object gives the verdict of `f`. */
  lemma GetThree(vu: Option<MsgKey>, ve: Option<MsgKey>, vp: Option<MsgKey>, f: Field)
    ensures Get(Collect(EntryOf(Username, vu) + EntryOf(Email, ve) + EntryOf(Password, vp)), f) == Pick(f, vu, ve, vp)
  {
    var u, e, p := EntryOf(Username, vu), EntryOf(Email, ve), EntryOf(Password, vp);
    CollectLastWins(u + e + p);
    LastMessageConcat(u + e, p, f);
    LastMessageConcat(u, e, f);
    LastOfEntry(Username, vu, f);
    LastOfEntry(Email, ve, f);
    LastOfEntry(Password, vp, f);
  }

  /**
   * The object holds exactly the failing fields, each with its verdict, in
   * the order username, email, password.
   */
  lemma ValidationErrorsExact(body: UserService.Body, env: Env)
    ensures ValidationErrors(body, env) ==
      PairOf(Username, Verdict(Username, body, env))
        + PairOf(Email, Verdict(Email, body, env))
        + PairOf(Password, Verdict(Password, body, env))
    ensures forall f :: Get(ValidationErrors(body, env), f) == Verdict(f, body, env)
  {
    ErrorsAreVerdicts(body, env);
    var vu, ve, vp := Verdict(Username, body, env), Verdict(Email, body, env), Verdict(Password, body, env);
    assert Errors(body, env) == EntryOf(Username, vu) + EntryOf(Email, ve) + EntryOf(Password, vp);
    CollectThree(vu, ve, vp);
    forall f ensures Get(ValidationErrors(body, env), f) == Verdict(f, body, env) {
      VerdictIsPick(body, env, f);
      GetThree(vu, ve, vp, f);
    }
  }

  datatype Payload = ValidationFailure(validationErrors: ErrorObject) | Message(message: MsgKey)

  datatype Response = Response(status: int, payload: Payload)

  /** The route handler, run after the validation chains have looked at `body` against the current table. */
  method PostUsers(users: UserService.UserTable, body: UserService.Body, isEmail: string -> bool, hash: string -> string)
    returns (res: Response)
    requires users.Valid()
    modifies users
    ensures users.Valid()
    ensures var errors := ValidationErrors(body, Env(isEmail, old(users.rows)));
      if errors != [] then
        && res == Response(400, ValidationFailure(errors))
        && users.rows == old(users.rows) && users.nextId == old(users.nextId)
      else
        && body.password.Some?
        && res == Response(200, Message(UserCreated))
        && users.rows == old(users.rows) + [UserService.Stored(old(users.nextId), body, hash)]
        && users.nextId == old(users.nextId) + 1
  {
    var env := Env(isEmail, users.rows);
    var errors := Errors(body, env);
    var validationErrors := BuildValidationErrors(errors);
    CollectLastWins(errors);
    if errors != [] {
      assert HasKey(validationErrors, errors[0].param);
      return Response(400, ValidationFailure(validationErrors));
    }
    NoErrorsIffAllPass(body, env);
    PasswordRule(body, env);
    var saved := users.Save(body, hash);
    res := Response(200, Message(UserCreated));
  }

  // ---------------------------------------------------------------------------
  // The registration test cases

  /** The body the registration tests post. */
  const ValidUser := UserService.Body(Some("user1"), Some("user1@mail.com"), Some("P4ssword"))

  function Keys(obj: ErrorObject): (r: seq<Field>)
    ensures |r| == |obj| && forall i :: 0 <= i < |obj| ==> r[i] == obj[i].0
  {
    if obj == [] then [] else [obj[0].0] + Keys(obj[1..])
  }

  lemma FixturePasswordMatches()
    ensures PasswordPattern("P4ssword")
  {
    var s := "P4ssword";
    assert IsLower(s[2]) && IsUpper(s[0]) && IsDigit(s[1]);
  }

  /** The fixture's username `user1` passes its chain. */
  lemma FixtureUsernamePasses(body: UserService.Body, env: Env)
    requires body.username == Some("user1")
    ensures Verdict(Username, body, env) == None
  {
    UsernameRule(body, env);
  }

  /** A missing username is reported blank. */
  lemma NullUsernameBlank(body: UserService.Body, env: Env)
    requires body.username == None
    ensures Verdict(Username, body, env) == Some(Blank)
  {
    UsernameRule(body, env);
  }

  /** The fixture's email, judged by the email grammar and by the stored rows. */
  lemma FixtureEmailVerdict(body: UserService.Body, env: Env)
    requires body.email == Some("user1@mail.com")
    ensures Verdict(Email, body, env) ==
      if !env.isEmail("user1@mail.com") then Some(NotValid)
      else if UserService.EmailTaken(env.users, "user1@mail.com") then Some(BeenTaken)
      else None
  {
    EmailRule(body, env);
  }

  /** The fixture's password `P4ssword` passes its chain. */
  lemma FixturePasswordPasses(body: UserService.Body, env: Env)
    requires body.password == Some("P4ssword")
    ensures Verdict(Password, body, env) == None
  {
    PasswordRule(body, env);
    FixturePasswordMatches();
  }

  /** The fixture passes every chain when its email is well formed and not stored yet. */
  lemma ValidUserAccepted(env: Env)
    requires env.isEmail("user1@mail.com") && !UserService.EmailTaken(env.users, "user1@mail.com")
    ensures ValidationErrors(ValidUser, env) == []
  {
    FixtureUsernamePasses(ValidUser, env);
    FixtureEmailVerdict(ValidUser, env);
    FixturePasswordPasses(ValidUser, env);
    ObjectOfVerdicts(ValidUser, env, None, None, None);
  }

  /** A field whose verdict is `m` reads `m` in the object. */
  lemma FieldMessage(f: Field, body: UserService.Body, env: Env, m: MsgKey)
    requires Verdict(f, body, env) == Some(m)
    ensures Get(ValidationErrors(body, env), f) == Some(m)
  {
    ValidationErrorsExact(body, env);
  }

  /** The object, once the three verdicts are known. */
  lemma ObjectOfVerdicts(body: UserService.Body, env: Env, vu: Option<MsgKey>, ve: Option<MsgKey>, vp: Option<MsgKey>)
    requires Verdict(Username, body, env) == vu && Verdict(Email, body, env) == ve && Verdict(Password, body, env) == vp
    ensures ValidationErrors(body, env) == PairOf(Username, vu) + PairOf(Email, ve) + PairOf(Password, vp)
  {
    ValidationErrorsExact(body, env);
  }

  /** The username rows of the message table: null, "usr" and 33 times "a". */
  lemma UsernameMessages(env: Env)
    ensures Get(ValidationErrors(ValidUser.(username := None), env), Username) == Some(Blank)
    ensures Get(ValidationErrors(ValidUser.(username := Some("usr")), env), Username) == Some(UsernameSize)
    ensures Get(ValidationErrors(ValidUser.(username := Some(seq(33, _ => 'a'))), env), Username) == Some(UsernameSize)
  {
    var b1, b2, b3 := ValidUser.(username := None), ValidUser.(username := Some("usr")), ValidUser.(username := Some(seq(33, _ => 'a')));
    UsernameRule(b1, env);
    FieldMessage(Username, b1, env, Blank);
    UsernameRule(b2, env);
    FieldMessage(Username, b2, env, UsernameSize);
    UsernameRule(b3, env);
    FieldMessage(Username, b3, env, UsernameSize);
  }

  /** The email rows: null, and three addresses the email grammar rejects. */
  lemma EmailMessages(env: Env)
    requires !env.isEmail("mail.com") && !env.isEmail("user.mail.com") && !env.isEmail("user@mail")
    ensures Get(ValidationErrors(ValidUser.(email := None), env), Email) == Some(Blank)
    ensures Get(ValidationErrors(ValidUser.(email := Some("mail.com")), env), Email) == Some(NotValid)
    ensures Get(ValidationErrors(ValidUser.(email := Some("user.mail.com")), env), Email) == Some(NotValid)
    ensures Get(ValidationErrors(ValidUser.(email := Some("user@mail")), env), Email) == Some(NotValid)
  {
    var b1, b2 := ValidUser.(email := None), ValidUser.(email := Some("mail.com"));
    var b3, b4 := ValidUser.(email := Some("user.mail.com")), ValidUser.(email := Some("user@mail"));
    EmailRule(b1, env);
    FieldMessage(Email, b1, env, Blank);
    EmailRule(b2, env);
    FieldMessage(Email, b2, env, NotValid);
    EmailRule(b3, env);
    FieldMessage(Email, b3, env, NotValid);
    EmailRule(b4, env);
    FieldMessage(Email, b4, env, NotValid);
  }

  /** Each of these lacks a lowercase letter, an uppercase letter or a digit. */
  lemma TablePasswordsFailPattern()
    ensures !PasswordPattern("alllowercvase") && !PasswordPattern("lower44343")
    ensures !PasswordPattern("ALLUPPERCASE") && !PasswordPattern("UPPER44343")
    ensures !PasswordPattern("lowerUPPER")
  {
    var a, b, c, d, e := "alllowercvase", "lower44343", "ALLUPPERCASE", "UPPER44343", "lowerUPPER";
    assert forall j :: 0 <= j < |a| ==> !IsUpper(a[j]);
    assert forall j :: 0 <= j < |b| ==> !IsUpper(b[j]);
    assert forall j :: 0 <= j < |c| ==> !IsLower(c[j]);
    assert forall j :: 0 <= j < |d| ==> !IsLower(d[j]);
    assert forall j :: 0 <= j < |e| ==> !IsDigit(e[j]);
  }

  lemma PatternFailure(password: string, env: Env)
    requires |password| >= 6 && !PasswordPattern(password)
    ensures Get(ValidationErrors(ValidUser.(password := Some(password)), env), Password) == Some(PasswordChars)
  {
    PasswordRule(ValidUser.(password := Some(password)), env);
    FieldMessage(Password, ValidUser.(password := Some(password)), env, PasswordChars);
  }

  /** The password rows: null, too short, and five strings each lacking one character class. */
  lemma PasswordMessages(env: Env)
    ensures Get(ValidationErrors(ValidUser.(password := None), env), Password) == Some(Blank)
    ensures Get(ValidationErrors(ValidUser.(password := Some("p4ssw")), env), Password) == Some(PasswordSize)
    ensures Get(ValidationErrors(ValidUser.(password := Some("alllowercvase")), env), Password) == Some(PasswordChars)
    ensures Get(ValidationErrors(ValidUser.(password := Some("ALLUPPERCASE")), env), Password) == Some(PasswordChars)
    ensures Get(ValidationErrors(ValidUser.(password := Some("lowerUPPER")), env), Password) == Some(PasswordChars)
    ensures Get(ValidationErrors(ValidUser.(password := Some("lower44343")), env), Password) == Some(PasswordChars)
    ensures Get(ValidationErrors(ValidUser.(password := Some("UPPER44343")), env), Password) == Some(PasswordChars)
  {
    PasswordRule(ValidUser.(password := None), env);
    FieldMessage(Password, ValidUser.(password := None), env, Blank);
    PasswordRule(ValidUser.(password := Some("p4ssw")), env);
    FieldMessage(Password, ValidUser.(password := Some("p4ssw")), env, PasswordSize);
    TablePasswordsFailPattern();
    PatternFailure("alllowercvase", env);
    PatternFailure("ALLUPPERCASE", env);
    PatternFailure("lowerUPPER", env);
    PatternFailure("lower44343", env);
    PatternFailure("UPPER44343", env);
  }

  /** Null username and null email: the object names exactly those two fields, username first. */
  lemma NullUsernameAndEmail(env: Env)
    ensures Keys(ValidationErrors(UserService.Body(None, None, Some("P4ssword")), env)) == [Username, Email]
  {
    var body := UserService.Body(None, None, Some("P4ssword"));
    NullUsernameBlank(body, env);
    assert Verdict(Email, body, env) == Some(Blank) by { EmailRule(body, env); }
    FixturePasswordPasses(body, env);
    ObjectOfVerdicts(body, env, Some(Blank), Some(Blank), None);
  }

  /** Null username and a stored email: the object names username, then email. */
  lemma NullUsernameAndTakenEmail(env: Env)
    requires env.isEmail("user1@mail.com") && UserService.EmailTaken(env.users, "user1@mail.com")
    ensures Keys(ValidationErrors(UserService.Body(None, Some("user1@mail.com"), Some("P4ssword")), env)) == [Username, Email]
    ensures Get(ValidationErrors(UserService.Body(None, Some("user1@mail.com"), Some("P4ssword")), env), Email) == Some(BeenTaken)
  {
    var body := UserService.Body(None, Some("user1@mail.com"), Some("P4ssword"));
    NullUsernameBlank(body, env);
    FixtureEmailVerdict(body, env);
    FixturePasswordPasses(body, env);
    ObjectOfVerdicts(body, env, Some(Blank), Some(BeenTaken), None);
  }

  /** The fixture again, once its email is stored: only email fails, with `been_taken`. */
  lemma TakenFixtureRejected(env: Env)
    requires env.isEmail("user1@mail.com") && UserService.EmailTaken(env.users, "user1@mail.com")
    ensures ValidationErrors(ValidUser, env) == [(Email, BeenTaken)]
  {
    FixtureUsernamePasses(ValidUser, env);
    FixtureEmailVerdict(ValidUser, env);
    FixturePasswordPasses(ValidUser, env);
    ObjectOfVerdicts(ValidUser, env, None, Some(BeenTaken), None);
  }

  /**
   * Registering the fixture into an empty table stores one row with its
   * username, its email and the hashed password; registering it again is
   * refused with `been_taken` on email and stores nothing.
   */
  method RegisterTwice(isEmail: string -> bool, hash: string -> string)
    returns (first: Response, second: Response, stored: seq<UserService.User>)
    requires isEmail("user1@mail.com")
    ensures first == Response(200, Message(UserCreated))
    ensures |stored| == 1
    ensures stored[0].username == Some("user1") && stored[0].email == Some("user1@mail.com")
    ensures stored[0].password == Some(hash("P4ssword"))
    ensures second == Response(400, ValidationFailure([(Email, BeenTaken)]))
  {
    var users := new UserService.UserTable();
    ValidUserAccepted(Env(isEmail, []));
    first := PostUsers(users, ValidUser, isEmail, hash);
    stored := users.rows;
    assert stored == [UserService.Stored(1, ValidUser, hash)];
    assert UserService.HasEmail("user1@mail.com")(stored[0]);
    TakenFixtureRejected(Env(isEmail, stored));
    second := PostUsers(users, ValidUser, isEmail, hash);
  }
}
