/**
 * User registration (`AuthServices.Register`): the email check, the
 * duplicate-email and duplicate-name checks, and the insertion of one user
 * row whose password column holds a hash of the submitted password.
 *
 * The password hash (Argon2), the new GUID and the two clock reads are
 * parameters: `hash` stands for one call of the hashing library, about which
 * nothing is assumed; since that library draws a fresh salt on every call,
 * each registration of a run carries its own `hash`.
 */
module Auth {
  import opened Wrappers
  import opened DotNet
  import opened Users

  /** The request body of a registration. */
  datatype RegisterUserDto = RegisterUserDto(
    name: string,
    nickName: string,
    email: NullableString,
    password: string)

  /** The `(sucess, message)` pair that `Register` returns. */
  datatype RegisterResult = RegisterResult(success: bool, message: string)

  const InvalidEmailMessage := "信箱格式錯誤或空值"
  const EmailTakenMessage := "此Email已使用"
  const NameTakenMessage := "帳號已經被註冊過"
  const SuccessMessage := "註冊成功"

  /** Which of the four exits of `Register` is taken. */
  datatype Outcome = InvalidEmail | EmailTaken | NameTaken | Registered

  /** The pair returned at each exit. */
  function ResultOf(o: Outcome): (r: RegisterResult)
    ensures r.success <==> o == Registered
  {
    match o
    case InvalidEmail => RegisterResult(false, InvalidEmailMessage)
    case EmailTaken => RegisterResult(false, EmailTakenMessage)
    case NameTaken => RegisterResult(false, NameTakenMessage)
    case Registered => RegisterResult(true, SuccessMessage)
  }

  /** Every exit returns a pair of its own, so a caller can tell from the
      returned pair which check rejected the request. */
  lemma ResultsDistinct(o1: Outcome, o2: Outcome)
    ensures ResultOf(o1) == ResultOf(o2) ==> o1 == o2
  {
  }

  /** The email test, with C#'s short-circuit order: null or empty, then no
      `"@"`, then null or white space. */
  function IsValidEmail(email: NullableString): (ok: bool)
    ensures ok <==> email.Some? && '@' in email.value
  {
    if IsNullOrEmpty(email) then false
    else
      ContainsOneChar(email.value, '@');
      !(!Contains(email.value, "@") || IsNullOrWhiteSpace(email))
  }

  /** A string holding `'@'` is never null-or-white-space, so the last of
      the three email tests never rejects anything the first two pass. */
  lemma WhiteSpaceTestRedundant(s: string)
    ensures '@' in s ==> !IsNullOrWhiteSpace(Some(s))
  {
  }

  /** Some row already holds this email (`Users.AnyAsync(u => u.Email == email)`). */
  predicate EmailInUse(users: seq<User>, email: string)
    ensures EmailInUse(users, email) <==> exists u :: u in users && u.email == email
  {
    exists i :: 0 <= i < |users| && users[i].email == email
  }

  /** Some row already holds this name (`Users.AnyAsync(u => u.Name == name)`). */
  predicate NameInUse(users: seq<User>, name: string)
    ensures NameInUse(users, name) <==> exists u :: u in users && u.name == name
  {
    exists i :: 0 <= i < |users| && users[i].name == name
  }

  /** The checks of `Register`, in the order the source makes them. */
  function Decide(users: seq<User>, dto: RegisterUserDto): (o: Outcome)
    ensures o == InvalidEmail <==> dto.email.None? || '@' !in dto.email.value
    ensures o == EmailTaken ==> EmailInUse(users, dto.email.value)
    ensures o == NameTaken ==> !EmailInUse(users, dto.email.value) && NameInUse(users, dto.name)
    ensures o == Registered <==>
              dto.email.Some? && '@' in dto.email.value
              && !EmailInUse(users, dto.email.value) && !NameInUse(users, dto.name)
  {
    if !IsValidEmail(dto.email) then InvalidEmail
    else if EmailInUse(users, dto.email.value) then EmailTaken
    else if NameInUse(users, dto.name) then NameTaken
    else Registered
  }

  /** The row that a successful registration inserts. */
  function NewUser(dto: RegisterUserDto, hash: string -> string, id: Guid,
                   upNow: DateTime, createNow: DateTime): (u: User)
    requires dto.email.Some?
    ensures EmailInUse([u], dto.email.value) && NameInUse([u], dto.name)
    ensures u.password == hash(dto.password)
  {
    User(id, dto.name, dto.nickName, hash(dto.password), dto.email.value, upNow, createNow)
  }

  /** The table after a registration, and what the registration returned. */
  datatype Transition = Transition(users: seq<User>, result: RegisterResult)

  /** One registration against the table `users`. */
  function RegisterStep(users: seq<User>, dto: RegisterUserDto, hash: string -> string,
                        id: Guid, upNow: DateTime, createNow: DateTime): (t: Transition)
    ensures t.result.success <==>
              dto.email.Some? && '@' in dto.email.value
              && !EmailInUse(users, dto.email.value) && !NameInUse(users, dto.name)
    ensures |t.users| == |users| + (if t.result.success then 1 else 0)
    ensures t.users[..|users|] == users
    ensures t.result.success ==>
              && t.users[|users|].name == dto.name
              && t.users[|users|].nickName == dto.nickName
              && t.users[|users|].email == dto.email.value
              && t.users[|users|].password == hash(dto.password)
              && t.users[|users|].id == id
  {
    var o := Decide(users, dto);
    Transition(if o == Registered then users + [NewUser(dto, hash, id, upNow, createNow)] else users,
               ResultOf(o))
  }

  /** An email that fails the format test is reported whatever the table
      holds, even when its email or name is already taken. */
  lemma InvalidEmailCheckedFirst(users: seq<User>, dto: RegisterUserDto, hash: string -> string,
                                 id: Guid, upNow: DateTime, createNow: DateTime)
    requires dto.email.None? || '@' !in dto.email.value
    ensures RegisterStep(users, dto, hash, id, upNow, createNow)
            == Transition(users, RegisterResult(false, InvalidEmailMessage))
  {
  }

  /** A taken email is reported before a taken name. */
  lemma EmailCheckedBeforeName(users: seq<User>, dto: RegisterUserDto, hash: string -> string,
                               id: Guid, upNow: DateTime, createNow: DateTime)
    requires dto.email.Some? && '@' in dto.email.value
    requires EmailInUse(users, dto.email.value)
    ensures RegisterStep(users, dto, hash, id, upNow, createNow)
            == Transition(users, RegisterResult(false, EmailTakenMessage))
  {
  }

  /** A valid, unused email with a taken name is refused with the name
      message. */
  lemma NameCheckedLast(users: seq<User>, dto: RegisterUserDto, hash: string -> string,
                        id: Guid, upNow: DateTime, createNow: DateTime)
    requires dto.email.Some? && '@' in dto.email.value
    requires !EmailInUse(users, dto.email.value) && NameInUse(users, dto.name)
    ensures RegisterStep(users, dto, hash, id, upNow, createNow)
            == Transition(users, RegisterResult(false, NameTakenMessage))
  {
  }

  /** A registration that passes every check returns the success pair and
      appends exactly the new row. */
  lemma AcceptedAppendsOneRow(users: seq<User>, dto: RegisterUserDto, hash: string -> string,
                              id: Guid, upNow: DateTime, createNow: DateTime)
    requires dto.email.Some? && '@' in dto.email.value
    requires !EmailInUse(users, dto.email.value) && !NameInUse(users, dto.name)
    ensures RegisterStep(users, dto, hash, id, upNow, createNow)
            == Transition(users + [NewUser(dto, hash, id, upNow, createNow)],
                          RegisterResult(true, SuccessMessage))
  {
  }

  /** Whatever the outcome, a table with distinct emails and distinct names
      keeps both after one registration. */
  lemma StepPreservesUniqueness(users: seq<User>, dto: RegisterUserDto, hash: string -> string,
                                id: Guid, upNow: DateTime, createNow: DateTime)
    requires UniqueUsers(users)
    ensures UniqueUsers(RegisterStep(users, dto, hash, id, upNow, createNow).users)
  {
  }

  /** Once a registration succeeds, the same request (or any request with
      the same email) is refused as a duplicate email and changes nothing. */
  lemma SecondRegistrationRefused(users: seq<User>, dto: RegisterUserDto, again: RegisterUserDto,
                                  hash: string -> string, id: Guid, upNow: DateTime,
                                  createNow: DateTime, id2: Guid, upNow2: DateTime,
                                  createNow2: DateTime)
    requires RegisterStep(users, dto, hash, id, upNow, createNow).result.success
    requires again.email == dto.email
    ensures var after := RegisterStep(users, dto, hash, id, upNow, createNow).users;
            RegisterStep(after, again, hash, id2, upNow2, createNow2)
            == Transition(after, RegisterResult(false, EmailTakenMessage))
  {
  }

  /** One registration request: the body, the Argon2 call made for it (with
      its own salt), and the values the source draws from `Guid.NewGuid()`
      and the two `DateTime.Now` reads. */
  datatype Request = Request(dto: RegisterUserDto, hash: string -> string, id: Guid,
                             upNow: DateTime, createNow: DateTime)

  /** The table after a run of registrations, with each one's result. */
  datatype Run = Run(users: seq<User>, results: seq<RegisterResult>)

  /** How many results in `results` report success. */
  function Successes(results: seq<RegisterResult>): (n: nat)
    ensures n <= |results|
  {
    if |results| == 0 then 0
    else (if results[0].success then 1 else 0) + Successes(results[1..])
  }

  /** Registrations made one after another, each against the table the
      previous one left. */
  function RegisterAll(users: seq<User>, reqs: seq<Request>): (r: Run)
    ensures |r.results| == |reqs|
    ensures |r.users| == |users| + Successes(r.results)
    ensures r.users[..|users|] == users
    decreases |reqs|
  {
    if |reqs| == 0 then Run(users, [])
    else
      var q := reqs[0];
      var t := RegisterStep(users, q.dto, q.hash, q.id, q.upNow, q.createNow);
      var rest := RegisterAll(t.users, reqs[1..]);
      assert ([t.result] + rest.results)[1..] == rest.results;
      assert rest.users[..|users|] == t.users[..|t.users|][..|users|];
      Run(rest.users, [t.result] + rest.results)
  }

  /** Sequential registrations keep the table free of duplicate emails and
      duplicate names. */
  lemma {:induction false} RegisterAllPreservesUniqueness(users: seq<User>, reqs: seq<Request>)
    requires UniqueUsers(users)
    ensures UniqueUsers(RegisterAll(users, reqs).users)
    decreases |reqs|
  {
    if |reqs| > 0 {
      var q := reqs[0];
      StepPreservesUniqueness(users, q.dto, q.hash, q.id, q.upNow, q.createNow);
      var t := RegisterStep(users, q.dto, q.hash, q.id, q.upNow, q.createNow);
      RegisterAllPreservesUniqueness(t.users, reqs[1..]);
    }
  }

  /**
   * The registration service over the `Users` table. The table is the
   * service's own field here; in the source it is the database context's
   * `Users` set, which `Register` adds to and then saves.
   */
  class AuthServices {
    var users: seq<User>

    /** The service starts from whatever the table holds. */
    constructor (users: seq<User>)
      ensures this.users == users
    {
      this.users := users;
    }

    /** Register one user; `hash` is the Argon2 hash, `id` the new GUID,
        `upNow` and `createNow` the two clock reads. */
    method Register(dto: RegisterUserDto, hash: string -> string, id: Guid,
                    upNow: DateTime, createNow: DateTime) returns (r: RegisterResult)
      modifies this
      ensures Transition(users, r) == RegisterStep(old(users), dto, hash, id, upNow, createNow)
      ensures (dto.email.None? || '@' !in dto.email.value) ==>
                r == RegisterResult(false, InvalidEmailMessage) && users == old(users)
      ensures (dto.email.Some? && '@' in dto.email.value && EmailInUse(old(users), dto.email.value)) ==>
                r == RegisterResult(false, EmailTakenMessage) && users == old(users)
      ensures (dto.email.Some? && '@' in dto.email.value && !EmailInUse(old(users), dto.email.value)
               && NameInUse(old(users), dto.name)) ==>
                r == RegisterResult(false, NameTakenMessage) && users == old(users)
      ensures r.success ==>
                dto.email.Some? && r.message == SuccessMessage
                && users == old(users) + [NewUser(dto, hash, id, upNow, createNow)]
      ensures UniqueUsers(old(users)) ==> UniqueUsers(users)
    {
      if IsNullOrEmpty(dto.email) || !Contains(dto.email.value, "@") || IsNullOrWhiteSpace(dto.email) {
        return RegisterResult(false, InvalidEmailMessage);
      }
      var email := dto.email.value;
      if EmailInUse(users, email) {
        return RegisterResult(false, EmailTakenMessage);
      }
      if NameInUse(users, dto.name) {
        return RegisterResult(false, NameTakenMessage);
      }
      var hashedPassword := hash(dto.password);
      var record := User(id, dto.name, dto.nickName, hashedPassword, email, upNow, createNow);
      if UniqueUsers(users) {
        StepPreservesUniqueness(users, dto, hash, id, upNow, createNow);
      }
      users := users + [record];
      return RegisterResult(true, SuccessMessage);
    }
  }
}
