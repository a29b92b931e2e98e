# User registration, modelled in Dafny

This project models the registration service of the web API: `AuthServices.Register`
takes a registration body (`RegisterUserDto`: name, nickname, email, password) and the
current `Users` table, and either refuses the request with one of three messages or inserts
one new user row and reports success. The checks run in a fixed order:

1. the email must be non-null, non-empty, contain `"@"` and not be white space only
   (`信箱格式錯誤或空值` otherwise);
2. no row may already hold that email (`此Email已使用` otherwise);
3. no row may already hold that name (`帳號已經被註冊過` otherwise);
4. a row is appended holding the name, nickname and email from the body, the Argon2 hash of
   the password (never the password itself), a new GUID and two timestamps, and `註冊成功`
   is returned.

Files and modules:

- `wrappers.dfy` (`Wrappers`): `Option`, standing for a .NET reference that may be null.
- `dotnet.dfy` (`DotNet`): the .NET library behaviour the email test relies on:
  `string.IsNullOrEmpty`, `string.IsNullOrWhiteSpace` (with `char.IsWhiteSpace`'s
  character set), the ordinal `string.Contains`, and `Guid` / `DateTime` as bounded integers
  (128 bits; ticks up to `DateTime.MaxValue`).
- `user.dfy` (`Users`): the `User` entity, whose string columns are non-nullable, and the
  table invariant "no two rows share an email, no two share a name".
- `auth_services.dfy` (`Auth`): the request body, the result pair and its four messages,
  the email predicate, the ordered decision, a pure one-step transition `RegisterStep`,
  a fold of sequential registrations `RegisterAll`, the lemmas, and the class
  `AuthServices` whose `users` field is the table and whose `Register` method follows the
  source's early returns and appends to that field.

The Argon2 hash is a function parameter `hash` standing for one call of the library, about
which nothing is assumed; in a run of registrations each request carries its own `hash`,
since the library salts every call afresh. The new GUID and the two `DateTime.Now` reads are
parameters of `Register` (two reads, so two values, which may differ).

## Model

| member | source | states |
|---|---|---|
| `DotNet.IsWhiteSpace` | webAPI/Services/AuthServices.cs:39 | `char.IsWhiteSpace`, used by `IsNullOrWhiteSpace`: the range tests accept exactly the 25 code points the .NET documentation lists |
| `DotNet.IsNullOrEmpty` | webAPI/Services/AuthServices.cs:39 | `string.IsNullOrEmpty`: every null-or-empty string is also null-or-white-space |
| `DotNet.IsNullOrWhiteSpace` | webAPI/Services/AuthServices.cs:39 | `string.IsNullOrWhiteSpace`: a non-null string qualifies exactly when every character in it is white space |
| `DotNet.Contains` | webAPI/Services/AuthServices.cs:39 | the ordinal `string.Contains`: the empty string is found in every string, and a found string is never longer than the one searched |
| `DotNet.ContainsOneChar` | webAPI/Services/AuthServices.cs:39 | the ordinal search for the one-character string `"@"` succeeds exactly when the string holds `'@'` |
| `Auth.IsValidEmail` | webAPI/Services/AuthServices.cs:39 | the three-part email test (null/empty, no `"@"`, null/white space) accepts exactly the non-null strings that contain `'@'` |
| `Auth.WhiteSpaceTestRedundant` | webAPI/Services/AuthServices.cs:39 | a string holding `'@'` is never null-or-white-space, so the `IsNullOrWhiteSpace` test rejects nothing beyond the first two |
| `Auth.ResultOf` | webAPI/Services/AuthServices.cs:41-72 | only the path that inserts the row returns `success == true` |
| `Auth.ResultsDistinct` | webAPI/Services/AuthServices.cs:41-72 | the four exits return four different pairs, so each outcome is identifiable from the result |
| `Auth.EmailInUse` | webAPI/Services/AuthServices.cs:44 | the `AnyAsync(u => u.Email == user.Email)` query: true exactly when some row of the table has that email |
| `Auth.NameInUse` | webAPI/Services/AuthServices.cs:49 | the `AnyAsync(u => u.Name == user.Name)` query: true exactly when some row of the table has that name |
| `Auth.Decide` | webAPI/Services/AuthServices.cs:39-52 | the checks in the source's order: a bad email (null or without `'@'`) is reported first; a taken email only when the email is valid; a taken name only when the email is valid and unused; acceptance exactly when all three checks pass |
| `Auth.NewUser` | webAPI/Services/AuthServices.cs:53-67 | the inserted row carries the request's email and name, so the lookups at lines 44 and 49 find it, and its password column holds `hash(password)`, not the password |
| `Auth.RegisterStep` | webAPI/Services/AuthServices.cs:39-72 | success exactly when the email is valid and neither email nor name is in use; the table grows by one row on success and by none otherwise; existing rows are untouched; the new row copies name, nickname and the (non-null) email, stores `hash(password)` as password, and carries the given GUID |
| `Auth.InvalidEmailCheckedFirst` | webAPI/Services/AuthServices.cs:39-42 | a bad email yields `(false, "信箱格式錯誤或空值")` with the table unchanged, whatever the table holds (even if email or name collide) |
| `Auth.EmailCheckedBeforeName` | webAPI/Services/AuthServices.cs:44-49 | a valid email already in use yields `(false, "此Email已使用")` with the table unchanged, whether or not the name is also taken |
| `Auth.NameCheckedLast` | webAPI/Services/AuthServices.cs:49-52 | a valid, unused email with a taken name yields `(false, "帳號已經被註冊過")` with the table unchanged |
| `Auth.AcceptedAppendsOneRow` | webAPI/Services/AuthServices.cs:53-72 | a request passing all checks yields `(true, "註冊成功")` and the table becomes the old table plus exactly the new row |
| `Auth.StepPreservesUniqueness` | webAPI/Services/AuthServices.cs:44-68 | distinct emails and distinct names before one registration implies both after it, whatever the outcome |
| `Auth.SecondRegistrationRefused` | webAPI/Services/AuthServices.cs:44-68 | after a successful registration, any request with the same email is refused as a duplicate email and leaves the table as it is |
| `Auth.RegisterAll` | webAPI/Services/AuthServices.cs:36-73 | a run of sequential registrations returns one result per request, never changes rows that were already present, and grows the table by exactly the number of successes |
| `Auth.RegisterAllPreservesUniqueness` | webAPI/Services/AuthServices.cs:44-69 | any run of sequential registrations keeps the table free of duplicate emails and duplicate names |
| `Auth.AuthServices.constructor` | webAPI/Services/AuthServices.cs:30-34 | the service starts from the table it is given |
| `Auth.AuthServices.Register` | webAPI/Services/AuthServices.cs:36-73 | the new table and the result are those of `RegisterStep` on the old table; each of the three refusals returns its message and leaves the table unchanged; success returns `註冊成功` and appends exactly the new row; the uniqueness invariant is kept |

## Left out

- Argon2 hashing (webAPI/Services/AuthServices.cs:53-57): a foreign library that draws a random salt on every call; modelled as an arbitrary function `hash` per call (per request in `RegisterAll`), so the model shows the stored password is that call's `hash(password)` but says nothing about the hash's strength, its salt or its parameters.
- `Guid.NewGuid()` and `DateTime.Now` (webAPI/Services/AuthServices.cs:60, 65-66): nondeterministic; passed in as parameters. Uniqueness of the GUID is not claimed.
- Entity Framework, SQL Server, `async` and `SaveChangesAsync` (webAPI/Services/AuthServices.cs:44, 49, 68-69): the table is a sequence and saving is the assignment to it; database failures and exceptions are not modelled.
- Email and name comparison: modelled as exact string equality as written in C#; in the database the real comparison follows the column collation (possibly case-insensitive, and SQL Server ignores trailing spaces), which the model does not capture.
- A null `Name`, `NickName` or `Password` in the request body: the model types them as non-null strings. The source does not test them; a null there only fails inside code that is not part of this model (the Argon2 library, or `SaveChangesAsync` against a NOT NULL column).
- Column nullability: the model takes the `User` string columns (webAPI/Models/資料庫/使用者/User.cs:10-16) as non-nullable `string`, as they are under nullable reference types (which the project's use of `string?` indicates); the project file that settles this is not part of this model.
- Strings are sequences of Unicode characters rather than UTF-16 code units; this does not affect `'@'` or the white-space set, all of which lie in the Basic Multilingual Plane.
- Concurrency: two simultaneous registrations can both pass the existence checks, and the database declares no unique index, so the uniqueness invariant is only claimed for sequential calls.
- Seed data, connection configuration, the HTTP controller, dependency injection and start-up (webAPI/Context/WebAPIDbcontext.cs, webAPI/Controllers/UserController.cs, webAPI/Configuration/ServiceConfiguration.cs, webAPI/Program.cs): configuration and plumbing.
- Email sending and the HTML email template (webAPI/Services/EmailServices.cs): network and file I/O with no decision logic. The source holds no verification-code store, expiry or attempt counter, so none is modelled.
