/**
 * UserService: the input checks in front of the users table (name, e-mail
 * shape, password length), the e-mail conflict checks of `create` and
 * `update`, and the normalisation of what is stored. The generated id
 * (`randomUUID`) and the password hash (`hashPassword`, salted scrypt)
 * are parameters of the operations that use them.
 */
module UserService {
  import opened Common
  import Pagination
  import UserRepository

  type User = UserRepository.User

  const InvalidEmail: string := "Email inválido"
  const NameTooShort: string := "Nome muito curto"
  const PasswordTooShort: string := "Senha deve ser maior que 6 caracteres"
  const EmailExists: string := "Email já existe"
  const UserNotFound: string := "Usuário não encontrado"
  const EmptyBody: string := "Corpo da requisição deve ter ao menos um item"

  // ---------------------------------------------------------------------
  // The e-mail pattern ^[^\s@]+@[^\s@]+\.[^\s@]+$
  // ---------------------------------------------------------------------

  /** A character of the class `[^\s@]`. */
  predicate Plain(c: char) { !IsJsWhitespace(c) && c != '@' }

  /** The pattern matches s with its `@` at i and the `.` before the last
      part at j: the three runs around them are non-empty and every other
      character is in `[^\s@]`. */
  predicate EmailSplit(s: string, i: int, j: int) {
    && 0 < i && i + 1 < j && j + 1 < |s|
    && s[i] == '@' && s[j] == '.'
    && forall k :: 0 <= k < |s| && k != i ==> Plain(s[k])
  }

  /** The regular expression's language, as the existence of a split. */
  ghost predicate MatchesEmailPattern(s: string) {
    exists i, j :: EmailSplit(s, i, j)
  }

  /** The position of the first occurrence of c. */
  function IndexOf(s: string, c: char): (r: Option<nat>)
    ensures r.None? <==> c !in s
    ensures r.Some? ==> r.value < |s| && s[r.value] == c && c !in s[..r.value]
  {
    if s == [] then None
    else if s[0] == c then Some(0)
    else
      match IndexOf(s[1..], c)
      case None => None
      case Some(k) =>
        assert s[..k + 1] == [s[0]] + s[1..][..k];
        Some(k + 1)
  }

  predicate NoWhitespace(s: string) {
    forall k :: 0 <= k < |s| ==> !IsJsWhitespace(s[k])
  }

  /** A direct test of the pattern: exactly one `@`, not first, no white
      space, and a `.` with at least one character on each side between
      the `@` and the end. */
  predicate EmailOk(s: string) {
    match IndexOf(s, '@')
    case None => false
    case Some(i) =>
      && 0 < i && i + 4 <= |s|
      && NoWhitespace(s)
      && '@' !in s[i + 1..]
      && '.' in s[i + 2..|s| - 1]
  }

  /** EmailOk accepts exactly the strings the regular expression matches. */
  lemma EmailOkIff(s: string)
    ensures EmailOk(s) <==> MatchesEmailPattern(s)
  {
    if EmailOk(s) {
      var i := IndexOf(s, '@').value;
      var m :| 0 <= m < |s[i + 2..|s| - 1]| && s[i + 2..|s| - 1][m] == '.';
      var j := i + 2 + m;
      assert s[j] == '.';
      forall k | 0 <= k < |s| && k != i ensures Plain(s[k]) {
        if k < i {
          assert s[k] == s[..i][k];
        } else {
          assert s[k] == s[i + 1..][k - i - 1];
        }
      }
      assert EmailSplit(s, i, j);
    }
    if MatchesEmailPattern(s) {
      var i, j :| EmailSplit(s, i, j);
      assert '@' in s;
      var i' := IndexOf(s, '@').value;
      assert i' == i by {
        assert s[i'] == '@';
        assert !Plain(s[i']);
      }
      assert NoWhitespace(s) by {
        forall k | 0 <= k < |s| ensures !IsJsWhitespace(s[k]) {
          if k != i { assert Plain(s[k]); }
        }
      }
      var rest := s[i + 1..];
      assert '@' !in rest by {
        forall k | 0 <= k < |rest| ensures rest[k] != '@' {
          assert rest[k] == s[i + 1 + k] && Plain(s[i + 1 + k]);
        }
      }
      assert s[i + 2..|s| - 1][j - i - 2] == '.';
    }
  }

  // ---------------------------------------------------------------------
  // The three validators
  // ---------------------------------------------------------------------

  /** `validateEmail`: an empty string or one the pattern rejects is invalid. */
  function ValidateEmail(email: string): (o: Outcome)
    ensures o.Pass? <==> MatchesEmailPattern(email)
    ensures o.Fail? ==> o.error == ValidationError(InvalidEmail)
  {
    EmailOkIff(email);
    if email == "" || !EmailOk(email) then Fail(ValidationError(InvalidEmail)) else Pass
  }

  /** `validateName`: at least two characters once trimmed. */
  function ValidateName(name: string): (o: Outcome)
    ensures o.Pass? <==> |Trim(name)| >= 2
    ensures o.Fail? ==> o.error == ValidationError(NameTooShort)
  {
    if name == "" || |Trim(name)| < 2 then Fail(ValidationError(NameTooShort)) else Pass
  }

  /** `validatePassword`: at least six characters. */
  function ValidatePassword(password: string): (o: Outcome)
    ensures o.Pass? <==> |password| >= 6
    ensures o.Fail? ==> o.error == ValidationError(PasswordTooShort)
  {
    if password == "" || |password| < 6 then Fail(ValidationError(PasswordTooShort)) else Pass
  }

  /** The message says "greater than 6", but a password of exactly six
      characters is accepted and one of five is not. */
  lemma PasswordBoundIsSix()
    ensures ValidatePassword("123456").Pass?
    ensures ValidatePassword("12345").Fail?
  {
  }

  /** Lower-casing keeps a character out of the white-space set. */
  lemma LowerCharKeepsNonWhitespace(c: char)
    requires !IsJsWhitespace(c)
    ensures !IsJsWhitespace(LowerChar(c))
  {
  }

  /** A valid e-mail has no white space, so the trim the repository applies
      after lower-casing does nothing to what the service passes it. */
  lemma ValidEmailTrimIsNoop(email: string)
    requires ValidateEmail(email).Pass?
    ensures Trim(ToLower(email)) == ToLower(email)
  {
    var i, j :| EmailSplit(email, i, j);
    var l := ToLower(email);
    LowerCharKeepsNonWhitespace(email[0]);
    assert !IsJsWhitespace(email[|email| - 1]) by { assert Plain(email[|email| - 1]); }
    LowerCharKeepsNonWhitespace(email[|email| - 1]);
    TrimFixedPoint(l);
  }

  // ---------------------------------------------------------------------
  // create
  // ---------------------------------------------------------------------

  datatype CreateUserInput = CreateUserInput(name: string, email: string, password: string)

  /** What `create` checks before inserting, in order: name, e-mail,
      password, then a user already holding the e-mail exactly as given. */
  function CheckCreate(users: seq<User>, data: CreateUserInput): (o: Outcome)
    ensures ValidateName(data.name).Fail? ==> o == ValidateName(data.name)
    ensures ValidateName(data.name).Pass? && ValidateEmail(data.email).Fail? ==> o == ValidateEmail(data.email)
    ensures (ValidateName(data.name).Pass? && ValidateEmail(data.email).Pass?
             && ValidatePassword(data.password).Fail?) ==> o == ValidatePassword(data.password)
    ensures o.Pass? <==> && |Trim(data.name)| >= 2 && MatchesEmailPattern(data.email)
                         && |data.password| >= 6
                         && forall k :: 0 <= k < |users| ==> users[k].email != data.email
    ensures o.Fail? && o.error.ConflictError? ==> o.error.message == EmailExists
    ensures && ValidateName(data.name).Pass? && ValidateEmail(data.email).Pass?
            && ValidatePassword(data.password).Pass?
            && (exists k :: 0 <= k < |users| && users[k].email == data.email)
            ==> o == Fail(ConflictError(EmailExists))
  {
    if ValidateName(data.name).Fail? then ValidateName(data.name)
    else if ValidateEmail(data.email).Fail? then ValidateEmail(data.email)
    else if ValidatePassword(data.password).Fail? then ValidatePassword(data.password)
    else if UserRepository.FindByEmail(users, data.email).Some? then Fail(ConflictError(EmailExists))
    else Pass
  }

  /** The row `create` inserts: trimmed name, lower-cased e-mail. */
  function NewUser(data: CreateUserInput, id: string, passwordHash: string): (u: User)
    ensures u.id == id && u.passwordHash == passwordHash
    ensures u.name == Trim(data.name) && u.email == ToLower(data.email)
  {
    UserRepository.User(id, Trim(data.name), ToLower(data.email), passwordHash)
  }

  /** The conflict check of `create` compares the e-mail as typed while the
      row stores it lower-cased: a stored "ana@x.io" does not stop
      "Ana@x.io", and the table then holds the same stored e-mail twice. */
  lemma CreateConflictIsCaseSensitive()
    ensures var users := [UserRepository.User("1", "Ana", "ana@x.io", "h")];
            var data := CreateUserInput("Ana", "Ana@x.io", "segredo");
            && CheckCreate(users, data).Pass?
            && NewUser(data, "2", "h2").email == users[0].email
  {
    SampleCreatePasses();
    SampleEmailLowered();
  }

  lemma SampleCreatePasses()
    ensures CheckCreate([UserRepository.User("1", "Ana", "ana@x.io", "h")], CreateUserInput("Ana", "Ana@x.io", "segredo")).Pass?
  {
    SampleNameLong();
    SampleEmailMatches();
    SampleNoClash();
    CheckCreatePasses([UserRepository.User("1", "Ana", "ana@x.io", "h")], CreateUserInput("Ana", "Ana@x.io", "segredo"));
  }

  lemma SampleNameLong()
    ensures |Trim("Ana")| >= 2
  {
    TrimFixedPoint("Ana");
  }

  lemma SampleNoClash()
    ensures var users := [UserRepository.User("1", "Ana", "ana@x.io", "h")];
            forall k :: 0 <= k < |users| ==> users[k].email != "Ana@x.io"
  {
    SampleEmailsDiffer();
  }

  lemma CheckCreatePasses(users: seq<User>, data: CreateUserInput)
    requires |Trim(data.name)| >= 2 && MatchesEmailPattern(data.email) && |data.password| >= 6
    requires forall k :: 0 <= k < |users| ==> users[k].email != data.email
    ensures CheckCreate(users, data).Pass?
  {
  }

  lemma SampleEmailsDiffer()
    ensures "ana@x.io" != "Ana@x.io"
  {
    assert "ana@x.io"[0] != "Ana@x.io"[0];
  }

  lemma SampleEmailMatches()
    ensures MatchesEmailPattern("Ana@x.io")
  {
    var s := "Ana@x.io";
    forall k | 0 <= k < |s| && k != 3 ensures Plain(s[k]) {
    }
    assert EmailSplit(s, 3, 5);
  }

  lemma SampleEmailLowered()
    ensures ToLower("Ana@x.io") == "ana@x.io"
  {
    var l := ToLower("Ana@x.io");
    assert l[0] == LowerChar('A') == 'a';
    assert l == "ana@x.io";
  }

  // ---------------------------------------------------------------------
  // update
  // ---------------------------------------------------------------------

  /** The request body: the three known fields, and how many other keys it
      carries (they count for the emptiness check only). */
  datatype UpdateUserInput = UpdateUserInput(
    name: Option<string>, email: Option<string>, password: Option<string>, otherKeys: nat)

  function KeyCount(d: UpdateUserInput): nat {
    (if d.name.Some? then 1 else 0) + (if d.email.Some? then 1 else 0)
    + (if d.password.Some? then 1 else 0) + d.otherKeys
  }

  /** The e-mail step of `update`: the user must exist, and when the
      lower-cased e-mail differs from the stored one no other user may
      hold it. */
  function CheckEmailChange(users: seq<User>, id: string, email: string): (o: Outcome)
    ensures o.Pass? <==> && ValidateEmail(email).Pass?
                         && UserRepository.FindById(users, id).Some?
                         && (UserRepository.FindById(users, id).value.email != ToLower(email) ==>
                               (UserRepository.FindByEmail(users, ToLower(email)).Some? ==>
                                  UserRepository.FindByEmail(users, ToLower(email)).value.id == id))
    ensures ValidateEmail(email).Fail? ==> o == ValidateEmail(email)
    ensures ValidateEmail(email).Pass? && UserRepository.FindById(users, id).None? ==>
              o == Fail(NotFoundError(UserNotFound))
    ensures && ValidateEmail(email).Pass? && UserRepository.FindById(users, id).Some?
            && UserRepository.FindById(users, id).value.email != ToLower(email)
            && UserRepository.FindByEmail(users, ToLower(email)).Some?
            && UserRepository.FindByEmail(users, ToLower(email)).value.id != id
            ==> o == Fail(ConflictError(EmailExists))
  {
    if ValidateEmail(email).Fail? then ValidateEmail(email)
    else
      match UserRepository.FindById(users, id)
      case None => Fail(NotFoundError(UserNotFound))
      case Some(current) =>
        if current.email != ToLower(email) then
          match UserRepository.FindByEmail(users, ToLower(email))
          case Some(other) => if other.id != id then Fail(ConflictError(EmailExists)) else Pass
          case None => Pass
        else Pass
  }

  /** The checks of `update` and the patch it hands to the repository:
      an empty or missing body first, then name, e-mail and password in
      that order; the password is replaced by its hash. */
  function PlanUpdate(users: seq<User>, id: string, data: Option<UpdateUserInput>, passwordHash: string)
    : (r: Result<UserRepository.Patch>)
    ensures (data.None? || KeyCount(data.value) == 0) ==> r == Err(ValidationError(EmptyBody))
    ensures r.Ok? ==> var d := data.value;
      && KeyCount(d) > 0
      && (d.name.Some? <==> r.value.name.Some?)
      && (d.name.Some? ==> (r.value.name.value == Trim(d.name.value) && |r.value.name.value| >= 2))
      && (d.email.Some? <==> r.value.email.Some?)
      && (d.email.Some? ==> (r.value.email.value == ToLower(d.email.value) && MatchesEmailPattern(d.email.value)))
      && (d.password.Some? <==> r.value.passwordHash.Some?)
      && (d.password.Some? ==> r.value.passwordHash.value == passwordHash && |d.password.value| >= 6)
    ensures data.Some? && KeyCount(data.value) > 0 ==> var d := data.value;
      (r.Ok? <==> && (d.name.Some? ==> ValidateName(d.name.value).Pass?)
                  && (d.email.Some? ==> CheckEmailChange(users, id, d.email.value).Pass?)
                  && (d.password.Some? ==> ValidatePassword(d.password.value).Pass?))
    ensures data.Some? && KeyCount(data.value) > 0 ==> var d := data.value;
      && (d.name.Some? && ValidateName(d.name.value).Fail? ==> r == Err(ValidateName(d.name.value).error))
      && ((d.name.None? || ValidateName(d.name.value).Pass?)
          && d.email.Some? && CheckEmailChange(users, id, d.email.value).Fail?
          ==> r == Err(CheckEmailChange(users, id, d.email.value).error))
      && ((d.name.None? || ValidateName(d.name.value).Pass?)
          && (d.email.None? || CheckEmailChange(users, id, d.email.value).Pass?)
          && d.password.Some? && ValidatePassword(d.password.value).Fail?
          ==> r == Err(ValidatePassword(d.password.value).error))
  {
    if data.None? || KeyCount(data.value) == 0 then Err(ValidationError(EmptyBody))
    else
      var d := data.value;
      if d.name.Some? && ValidateName(d.name.value).Fail? then Err(ValidateName(d.name.value).error)
      else if d.email.Some? && CheckEmailChange(users, id, d.email.value).Fail? then
        Err(CheckEmailChange(users, id, d.email.value).error)
      else if d.password.Some? && ValidatePassword(d.password.value).Fail? then
        Err(ValidatePassword(d.password.value).error)
      else
        Ok(UserRepository.Patch(
          if d.name.Some? then Some(Trim(d.name.value)) else None,
          if d.email.Some? then Some(ToLower(d.email.value)) else None,
          if d.password.Some? then Some(passwordHash) else None))
  }

  /** Re-submitting one's own e-mail in another case is not a conflict,
      even though another lookup by that exact text would find oneself. */
  lemma OwnEmailIsNoConflict(users: seq<User>, id: string, email: string)
    requires ValidateEmail(email).Pass?
    requires UserRepository.FindById(users, id).Some?
    requires UserRepository.FindById(users, id).value.email == ToLower(email)
    ensures CheckEmailChange(users, id, email).Pass?
  {
  }

  /** An e-mail held by another user is a conflict. */
  lemma TakenEmailConflicts(users: seq<User>, id: string, email: string, k: nat)
    requires ValidateEmail(email).Pass?
    requires UserRepository.FindById(users, id).Some?
    requires UserRepository.FindById(users, id).value.email != ToLower(email)
    requires k < |users| && users[k].email == ToLower(email) && users[k].id != id
    requires forall m :: 0 <= m < k ==> users[m].email != ToLower(email)
    ensures CheckEmailChange(users, id, email) == Fail(ConflictError(EmailExists))
  {
    var found := UserRepository.FindByEmail(users, ToLower(email));
    var m :| 0 <= m < |users| && users[m] == found.value
             && forall j :: 0 <= j < m ==> users[j].email != ToLower(email);
    assert m == k;
  }

  /** Every accepted patch leaves, after normalisation in the repository,
      the name trimmed, the e-mail lower-cased and the hash in place; the
      columns the body did not mention keep their values. */
  lemma UpdateStoresNormalized(users: seq<User>, id: string, data: Option<UpdateUserInput>,
                               passwordHash: string, u: User)
    requires !AllWhitespace(passwordHash)
    requires PlanUpdate(users, id, data, passwordHash).Ok?
    ensures var p := PlanUpdate(users, id, data, passwordHash).value;
            var d := data.value;
            var v := UserRepository.Apply(u, UserRepository.Assignments(UserRepository.Normalize(p)));
      && v.id == u.id
      && v.name == (if d.name.Some? then Trim(d.name.value) else u.name)
      && v.email == (if d.email.Some? then ToLower(d.email.value) else u.email)
      && v.passwordHash == (if d.password.Some? then passwordHash else u.passwordHash)
  {
    var p := PlanUpdate(users, id, data, passwordHash).value;
    var d := data.value;
    var n := UserRepository.Normalize(p);
    UserRepository.ApplyAssignments(u, n);
    if d.name.Some? {
      TrimTwice(d.name.value);
    }
    if d.email.Some? {
      ValidEmailTrimIsNoop(d.email.value);
      ToLowerIdempotent(d.email.value);
      assert n.email.value == ToLower(d.email.value);
      assert !AllWhitespace(n.email.value) by {
        assert |n.email.value| == |d.email.value| > 0;
        assert Trim(n.email.value) == n.email.value;
      }
    }
  }

  /** Trimming twice is trimming once, and a name that passed validation
      is not white space only. */
  lemma TrimTwice(s: string)
    requires |Trim(s)| >= 2
    ensures Trim(Trim(s)) == Trim(s) && !AllWhitespace(Trim(s))
  {
    TrimFixedPoint(Trim(s));
  }

  // ---------------------------------------------------------------------
  // The service object
  // ---------------------------------------------------------------------

  class Service {
    const repo: UserRepository.Repository

    ghost predicate Valid()
      reads this, repo
    {
      repo.Valid()
    }

    constructor(repo: UserRepository.Repository)
      requires repo.Valid()
      ensures Valid() && this.repo == repo
    {
      this.repo := repo;
    }

    /** `create`: the checks of CheckCreate, then one insert of NewUser
        under the generated id, hashing the password first. */
    method Create(data: CreateUserInput, id: string, passwordHash: string) returns (r: Result<User>)
      requires Valid()
      modifies repo`users
      ensures Valid()
      ensures CheckCreate(old(repo.users), data).Fail? ==>
                r == Err(CheckCreate(old(repo.users), data).error) && repo.users == old(repo.users)
      ensures CheckCreate(old(repo.users), data).Pass? && UserRepository.FindById(old(repo.users), id).None? ==>
                r == Ok(NewUser(data, id, passwordHash)) && repo.users == old(repo.users) + [NewUser(data, id, passwordHash)]
      ensures CheckCreate(old(repo.users), data).Pass? && UserRepository.FindById(old(repo.users), id).Some? ==>
                r.Err? && repo.users == old(repo.users)
    {
      var check := CheckCreate(repo.users, data);
      if check.Fail? {
        return Err(check.error);
      }
      r := repo.Create(NewUser(data, id, passwordHash));
    }

    /** `getById` */
    function GetById(id: string): (r: Result<User>)
      reads repo
      ensures r.Ok? <==> exists k :: 0 <= k < |repo.users| && repo.users[k].id == id
      ensures r.Ok? ==> r.value.id == id && r.value in repo.users
      ensures r.Err? ==> r.error == NotFoundError(UserNotFound)
    {
      RequireFound(UserRepository.FindById(repo.users, id), UserNotFound)
    }

    /** `list`: the window passed to the repository. */
    function List(page: int, pageSize: int): (w: Pagination.Window)
      ensures 1 <= w.limit <= Pagination.MaxPageSize && w.offset >= 0
      ensures page >= 1 ==> w.offset == (page - 1) * w.limit
      ensures w == Pagination.Clamp(page, pageSize)
    {
      Pagination.Clamp(page, pageSize)
    }

    /** `update`: the checks and patch of PlanUpdate, then the repository
        update; a user that is not there (or no longer there) is NotFound. */
    method Update(id: string, data: Option<UpdateUserInput>, passwordHash: string) returns (r: Result<User>)
      requires Valid()
      modifies repo`users
      ensures Valid()
      ensures PlanUpdate(old(repo.users), id, data, passwordHash).Err? ==>
                r == Err(PlanUpdate(old(repo.users), id, data, passwordHash).error) && repo.users == old(repo.users)
      ensures PlanUpdate(old(repo.users), id, data, passwordHash).Ok? ==>
                var p := PlanUpdate(old(repo.users), id, data, passwordHash).value;
                && repo.users == UserRepository.ApplyToId(old(repo.users), id,
                                   UserRepository.Assignments(UserRepository.Normalize(p)))
                && (r.Ok? <==> UserRepository.FindById(old(repo.users), id).Some?)
                && (r.Ok? ==> Some(r.value) == UserRepository.FindById(repo.users, id))
                && (r.Err? ==> r.error == NotFoundError(UserNotFound))
    {
      var plan := PlanUpdate(repo.users, id, data, passwordHash);
      if plan.Err? {
        return Err(plan.error);
      }
      var updated := repo.Update(id, plan.value);
      r := RequireFound(updated, UserNotFound);
    }

    /** `delete`: NotFound unless exactly one row went. */
    method Delete(id: string) returns (r: Result<bool>)
      requires Valid()
      modifies repo`users
      ensures Valid()
      ensures repo.users == UserRepository.RemoveId(old(repo.users), id)
      ensures r.Ok? <==> UserRepository.FindById(old(repo.users), id).Some?
      ensures r.Ok? ==> r.value
      ensures r.Err? ==> r.error == NotFoundError(UserNotFound)
    {
      var ok := repo.Delete(id);
      if !ok {
        return Err(NotFoundError(UserNotFound));
      }
      r := Ok(ok);
    }
  }

  /** A body with only unknown keys passes the emptiness check but sets
      nothing: no UPDATE is issued and the stored rows stay as they are. */
  lemma UnknownKeysChangeNothing(users: seq<User>, id: string, extra: nat, passwordHash: string)
    requires extra > 0
    ensures var r := PlanUpdate(users, id, Some(UpdateUserInput(None, None, None, extra)), passwordHash);
            && r.Ok?
            && UserRepository.Assignments(UserRepository.Normalize(r.value)) == []
  {
  }
}
