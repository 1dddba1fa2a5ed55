# todoApp: authentication, authorization and soft-delete tables in Dafny

This project models the rules at the core of the todoApp microservices and proves properties of them:

- **User service.** Login, refresh and logout over a user table with one refresh-token slot per user (`AuthService`). Password hashing with HMAC-SHA-512, keyed by a random key that doubles as the salt (`PasswordService`). The claims of an access token, the refresh-token shape, and decoding a user id from a token (`JwtService`). The self-or-admin and admin-only authorization handlers. The `User` entity and its soft-delete repository. The user operations (`UserService`). The exception middleware, which turns exceptions into JSON error responses.
- **API gateway.** The middleware that copies the caller's role, lower-cased, into the `Client-Id` header.
- **Todo service.** The soft-delete todo repository and the todo operations (`TodoService`).

## How the system is represented

- **Modules.** Each core source file is one Dafny module:
  - `Auth`, `Passwords`, `Jwt`, `Authorization`, `UserModel`, `UserRepo`, `UserServices`, `ErrorHandling`, `Gateway`, `TodoRepo`, `TodoServices`.
  - Small support modules: `Wrappers` (Option/Result), `Bytes`, `Text` (string tests, split, ASCII lower-casing), `Utf8`, `Base64` (RFC 4648 section 4), `Int64Text` (`long.ToString` and `long.Parse`), `Claims`, `Http` (headers and bearer-token extraction), `Tables` (first match and filter over rows), `Exceptions`.
- **Tables.** Each table is a `seq` of rows in insertion order, held in a class field that the repository methods reassign:
  - `UserRepo.UserRepository.users` for users.
  - `TodoRepo.TodoRepository.todos` for todos.
  - Reads are functions over the sequence. `Valid()` says keys are unique and nonzero.
  - The database generates a key as one more than the largest key in use.
- **Services.** Classes holding the repository, with `modifies repo` on the methods that write. Every method states the whole new table in terms of the old one.
- **Library calls are parameters.**
  - HMAC-SHA-512 is a function `Passwords.Hmac`. A tag size of 64 bytes is assumed only where a lemma requires it.
  - `JwtSecurityTokenHandler` is the datatype `Jwt.TokenHandler`, with `write` and `validate` as functions. The one assumption about it, that a token it wrote validates with its own key, issuer and audience before it expires and gives back its claims, is the ghost predicate `Jwt.ReadsBackWhatItWrites`. Only lemmas require it.
  - The gateway's token decoder is a function `Gateway.Decoder`.
  - AutoMapper's two DTO-to-entity maps are `UserServices.Mapper`. The ghost predicate `UserServices.KeepsStoredFields` says the update map leaves the key, credentials, deletion flag and refresh slot alone. The ghost predicate `UserServices.MapsOntoNewUser` says the create map builds `new User()` and copies the DTO's user name and email (services/user-service/Mappings/MappingProfile.cs:14). Only lemmas and conditional postconditions require them.
- **Randomness and time are inputs.** These are explicit parameters:
  - the 128-byte HMAC key
  - the 64 random refresh-token bytes
  - the `jti` GUID text
  - `now` (whole seconds on one clock)
  - the refresh-token expiry written with a slot
- **String and number handling is defined, not abstracted.** UTF-8 encoding, Base64 encoding, `long.ToString()` and `long.Parse` (`NumberStyles.Integer`) have concrete definitions. The code calls both under the current culture; the model gives them the invariant culture's number format (see Left out). These definitions come with round-trip and injectivity lemmas.
- **The user store behind `AuthService`.** `AuthService` calls `GetUserByRefreshTokenAsync`, `UpdateRefreshTokenAsync` and `RemoveRefreshToken`, which `IUserService` does not declare. It also reads `PasswordHash`, `PasswordSalt` and `RefreshTokenExpiry` from what `GetUserByEmailAsync` returns, and the `UserDto` class has no such fields. The model therefore defines these store operations in `Auth`, over the full user rows of the repository. `RemoveRefreshToken` clears both the token and its expiry.
- **Claim-type comparison.** The user service looks claims up with `ClaimsPrincipal.FindFirst`, which ignores the letter case of the type (`Claims.FindFirst`). The gateway compares the type exactly (`Claims.FindExact`). So a role claim whose type differs from the role type only in case passes the admin handler (`Authorization.RoleTypeIgnoresCase`) but puts no `Client-Id` on the request (`Gateway.CaseVariantRoleTypeIgnored`).

Where the code departs from what its design and its tests describe, the model follows the code:

- **Order of checks in the user handler.** The id-claim check comes before the admin check, so an admin without a NameIdentifier claim is denied (`Authorization.AdminWithoutIdDenied`).
- **The middleware's catch-all.** It answers 400 through the default parameter of `HandleExceptionAsync`, not 500.
- **Updating a missing user.** It throws a plain `Exception("User not found")`, which the middleware turns into 400, not 404 (`ErrorHandling.MissingUserUpdateIsBadRequest`).
- **Deleting a missing or already deleted user.** It is a silent no-op.
- **Duplicate emails.** `CreateUserAsync` has no duplicate-email check (see Findings).
- **`VerifyUserCredentialsAsync`.** It returns the token text or null, not the `bool` of its interface declaration.

## Model

| member | source | states |
|---|---|---|
| `Auth.FindByRefreshToken` | services/user-service/Services/AuthService.cs:43 | `None` exactly when no live user's slot holds the token; otherwise a live user holding it |
| `Auth.AuthService.AuthenticateUser` | services/user-service/Services/AuthService.cs:23-39 | no live user for the email, or a wrong password: `None` and the table unchanged; otherwise the access token for that user's id, email and role, and the refresh token from the random bytes, which is exactly what is written into that user's slot, with no other change |
| `Auth.AuthService.RefreshToken` | services/user-service/Services/AuthService.cs:41-53 | no live holder of the token, or an expiry strictly before now: `UnauthorizedAccessException("Invalid or expired refresh token")` and no change; otherwise new tokens for that user, the new refresh token written into its slot |
| `Auth.AuthService.Logout` | services/user-service/Services/AuthService.cs:55-66 | a missing or empty bearer token, or one that decodes to no id: `false` and no change; otherwise `true` and exactly the decoded id's slot cleared |
| `Auth.AuthService.UpdateRefreshToken` | services/user-service/Services/AuthService.cs:32 | the slot of the user with that id holds the token and the expiry; every other row and field is unchanged; keys stay valid |
| `Auth.AuthService.RemoveRefreshToken` | services/user-service/Services/AuthService.cs:64 | the slot of the user with that id is emptied; nothing else changes |
| `Auth.WrittenTokenFindsUser` | services/user-service/Services/AuthService.cs:50 | after a token no one held is written to a live user's slot, looking it up finds exactly that user with the slot updated |
| `Auth.RotationRetiresToken` | services/user-service/Services/AuthService.cs:48-52 | once the slot holds a different token, the presented token matches no user, provided no other user held it |
| `Auth.LogoutEndsRefresh` | services/user-service/Services/AuthService.cs:61-65 | after logout no refresh token leads to the logged-out id |
| `Auth.ExpiryBoundary` | services/user-service/Services/AuthService.cs:44 | a null expiry and an expiry equal to now are accepted; one second before now is rejected |
| `Auth.LoginThenRefresh` | services/user-service/Services/AuthService.cs:29-52 | refreshing with the token login wrote, before expiry, finds the same user, and the new access token decodes to that user's id |
| `Passwords.VerifyPassword` | services/user-service/Services/PasswordService.cs:18-23 | under a salt of the key size, accepts exactly the hash `HashPassword` would store for this password with that salt as key; its partner lemma `Passwords.VerifyHashed` |
| `Passwords.HashPassword` | services/user-service/Services/PasswordService.cs:8-16 | the salt stored is the fresh HMAC key |
| `Passwords.VerifyHashed` | services/user-service/Services/PasswordService.cs:8-23 | the hash and salt from hashing a password verify that password |
| `Passwords.VerifyRejectsWrongLength` | services/user-service/Services/PasswordService.cs:22 | with 64-byte tags, a stored hash of any other length is rejected (false, not an error) |
| `Passwords.OtherPasswordNeedsCollision` | services/user-service/Services/PasswordService.cs:18-23 | a different password verifies only if its UTF-8 bytes differ and HMAC gives them the same tag under the salt |
| `Utf8.EncodeInjective` | services/user-service/Services/PasswordService.cs:13 | different strings have different UTF-8 encodings |
| `Jwt.AccessClaims` | services/user-service/Services/JwtService.cs:24-31 | five claims: `sub` and NameIdentifier both the id's decimal text, then email, role and `jti` |
| `Jwt.GenerateJwtToken` | services/user-service/Services/JwtService.cs:22-34 | with a handler that reads back what it writes, the token validates under the options' key, issuer and audience at every time before issue time plus `ExpiryMinutes`, and gives back the five access claims |
| `Jwt.Descriptor` | services/user-service/Services/JwtService.cs:81-93 | expiry is issue time plus `ExpiryMinutes`; issuer, audience and key come from the options; the algorithm is HS256 |
| `Jwt.GenerateRefreshToken` | services/user-service/Services/JwtService.cs:36-39 | 88 characters, the last two `=`, the rest from the Base64 alphabet |
| `Jwt.RefreshTokensDiffer` | services/user-service/Services/JwtService.cs:38 | different random bytes give different refresh tokens |
| `Base64.Encode` | services/user-service/Services/JwtService.cs:38 | an encoding of n bytes has 4 * ceil(n / 3) characters |
| `Base64.EncodeShape` | services/user-service/Services/JwtService.cs:38 | every character is from the alphabet except the trailing padding, whose length follows from n mod 3 |
| `Base64.EncodeInjective` | services/user-service/Services/JwtService.cs:38 | different byte strings have different encodings |
| `Jwt.IdClaim` | services/user-service/Services/JwtService.cs:62-63 | no id claim exactly when there is neither a `sub` nor a NameIdentifier claim, types compared up to letter case; the claim found is one of those two, and it is a `sub` claim whenever one is present |
| `Jwt.DecodeJwtToken` | services/user-service/Services/JwtService.cs:41-79 | a failed validation gives `None`; any id returned is a 64-bit value; every failure is `None`, never an exception |
| `Jwt.DecodePrefersSub` | services/user-service/Services/JwtService.cs:62-63 | with a `sub` claim the id is parsed from it |
| `Jwt.DecodeReadsUpperSub` | services/user-service/Services/JwtService.cs:62-72 | a leading claim of type "SUB" is the id claim, and its value is parsed |
| `Jwt.DecodeFallsBackToNameIdentifier` | services/user-service/Services/JwtService.cs:62-69 | without `sub` the id comes from NameIdentifier; without either the result is `None` |
| `Jwt.DecodeNonNumericId` | services/user-service/Services/JwtService.cs:72-78 | an id claim without a digit gives `None` |
| `Jwt.DecodeGenerated` | services/user-service/Services/JwtService.cs:22-34 | decoding a token just generated for a user, with the same options and before expiry, gives that user's id |
| `Int64Text.Format` | services/user-service/Services/JwtService.cs:26 | non-empty, and starts with `-` exactly for negative numbers |
| `Int64Text.Parse` | services/user-service/Services/JwtService.cs:72 | any parsed value is within the 64-bit range |
| `Int64Text.ParseFormat` | services/user-service/Services/JwtService.cs:72 | parsing the printed form of any 64-bit value gives it back |
| `Int64Text.FormatInjective` | services/user-service/Services/JwtService.cs:27 | different numbers print differently |
| `Int64Text.ParseNeedsDigit` | services/user-service/Services/JwtService.cs:74-77 | a string without a digit is a format error |
| `Authorization.HandleUserRequirement` | services/user-service/Authorization/Handlers/UserAuthorizationHandler.cs:20-56 | never `Fail`, at most one `Succeed`; `Succeed` exactly when there is a request, a non-empty NameIdentifier claim, and the role is exactly "Admin" or the route "id" equals the id claim |
| `Authorization.IsAdmin` | services/user-service/Authorization/Handlers/UserAuthorizationHandler.cs:64-65 | true only for a role claim whose value is exactly "Admin"; no role claim, "admin" and "ADMIN" are not admin |
| `Authorization.IsUserRequestingOwnData` | services/user-service/Authorization/Handlers/UserAuthorizationHandler.cs:67-71 | a route without an "id" value is never the caller's own data; when it is, the route's "id" is exactly the caller's id claim |
| `Authorization.NoRequestNoSuccess` | services/user-service/Authorization/Handlers/UserAuthorizationHandler.cs:22-27 | without an ambient request no call is made |
| `Authorization.AdminWithoutIdDenied` | services/user-service/Authorization/Handlers/UserAuthorizationHandler.cs:29-36 | an admin without an id claim is not granted |
| `Authorization.AdminIgnoresRoute` | services/user-service/Authorization/Handlers/UserAuthorizationHandler.cs:40-45 | an admin with an id claim succeeds, and the route values make no difference |
| `Authorization.NonAdminNeedsOwnId` | services/user-service/Authorization/Handlers/UserAuthorizationHandler.cs:47-55 | a non-admin succeeds if and only if the route "id" equals the id claim; otherwise no call at all |
| `Authorization.AdminPassesUserHandler` | services/user-service/Authorization/Handlers/UserAuthorizationHandler.cs:64-65 | whoever the admin handler grants, with an id claim, passes the user handler on every route |
| `Authorization.HandleAdminRequirement` | services/user-service/Authorization/Handlers/AdminAuthorizationHandler.cs:15-33 | exactly one call: `Succeed` if and only if the first role claim is "Admin", `Fail` otherwise, a missing role included |
| `Authorization.RoleMatchIsExact` | services/user-service/Authorization/Handlers/AdminAuthorizationHandler.cs:21 | the role "admin" is failed: the match is case-sensitive |
| `Authorization.AdminDecisionOnlyReadsFirstRole` | services/user-service/Authorization/Handlers/AdminAuthorizationHandler.cs:17 | principals that agree on the first role claim get the same decision |
| `Claims.FindFirst` | services/user-service/Authorization/Handlers/UserAuthorizationHandler.cs:58-62 | `None` exactly when no claim's type equals the given one up to ASCII letter case; otherwise the earliest such claim |
| `Claims.FindFirstIgnoresCase` | services/user-service/Authorization/Handlers/UserAuthorizationHandler.cs:62 | two types that differ only in letter case find the same claim |
| `Claims.UpperSubIsSub` | services/user-service/Services/JwtService.cs:62 | "SUB" is a different string from `sub` but the same claim type |
| `Claims.FindExact` | api-gateway/Middleware/RoleToClientIdMiddleware.cs:44 | `None` exactly when no claim's type equals the given one exactly, letter case included; otherwise the earliest such claim |
| `Claims.ExactFoundIsFound` | api-gateway/Middleware/RoleToClientIdMiddleware.cs:44 | whatever claim the gateway's exact lookup finds, `FindFirst` finds a claim too |
| `Authorization.RoleTypeIgnoresCase` | services/user-service/Authorization/Handlers/AdminAuthorizationHandler.cs:17-24 | a leading "Admin" claim whose type is the role type in any letter case is admitted |
| `UserModel.NewUser` | services/user-service/Models/User.cs:3-27 | key 0, empty name, email, hash and salt, role "User", active, not deleted, no refresh token or expiry |
| `UserModel.DtoHidesCredentials` | services/user-service/DTOs/UserDto.cs:3-11 | users differing only in credentials, deletion flag, update time or refresh slot are shown alike |
| `UserModel.DtoDeterminesShownFields` | services/user-service/DTOs/UserDto.cs:5-8 | users shown alike agree on id, email and role |
| `UserRepo.Active` | services/user-service/Repositories/UserRepository.cs:18-21 | exactly the users not deleted |
| `UserRepo.FindById` | services/user-service/Repositories/UserRepository.cs:23-26 | a user with that id that is not deleted; `None` exactly when there is none |
| `UserRepo.FindByUsername` | services/user-service/Repositories/UserRepository.cs:28-31 | exact user-name match among live users; `None` exactly when there is none |
| `UserRepo.FindByEmail` | services/user-service/Repositories/UserRepository.cs:33-36 | the first live user with exactly that email; `None` exactly when there is none |
| `UserRepo.UserRepository.Add` | services/user-service/Repositories/UserRepository.cs:38-42 | the row is appended with its generated key; an explicit key in use is rejected with no change |
| `UserRepo.UserRepository.Update` | services/user-service/Repositories/UserRepository.cs:44-48 | the stored row with the same key is overwritten; a key not stored is rejected with no change |
| `UserRepo.UserRepository.Delete` | services/user-service/Repositories/UserRepository.cs:50-59 | the live row with that id is flagged deleted; a missing or deleted id changes nothing |
| `UserRepo.DeleteIsReplace` | services/user-service/Repositories/UserRepository.cs:52-56 | flagging the row the lookup found and updating it is the delete |
| `UserRepo.DeleteOfMissing` | services/user-service/Repositories/UserRepository.cs:53 | with no live user of that id, the delete leaves the table as it was |
| `UserRepo.DeleteHides` | services/user-service/Repositories/UserRepository.cs:55 | after a delete the id is not found and not listed |
| `UserRepo.DeleteKeepsOtherRows` | services/user-service/Repositories/UserRepository.cs:55-56 | no row is removed, and only the deletion flag of that id's row changes |
| `UserRepo.DeleteIdempotent` | services/user-service/Repositories/UserRepository.cs:50-59 | deleting twice is deleting once |
| `UserRepo.AddedIsFound` | services/user-service/Repositories/UserRepository.cs:40-41 | a live user just added is found by its key |
| `UserRepo.UpdatedIsFound` | services/user-service/Repositories/UserRepository.cs:46-47 | after an update the given row is stored and reads back by id unless flagged deleted |
| `UserServices.UserService.GetAllUsers` | services/user-service/Services/UserService.cs:24-28 | one DTO per live user, in table order |
| `UserServices.UserService.GetUserById` | services/user-service/Services/UserService.cs:30-34 | `None` exactly when the repository finds no user; otherwise that user's DTO |
| `UserServices.UserService.GetUserByUsername` | services/user-service/Services/UserService.cs:36-40 | `None` exactly when the repository finds none; otherwise that user's DTO, which has that user name |
| `UserServices.UserService.GetUserByEmail` | services/user-service/Services/UserService.cs:42-46 | `None` exactly when the repository finds none; otherwise that user's DTO, which has that email |
| `UserServices.UserService.CreateUser` | services/user-service/Services/UserService.cs:48-58 | the mapped user, with hash and salt from one `HashPassword`, is added and shown; no email check; when the map builds a new `User`, it always succeeds |
| `UserServices.UserService.CreateUniqueUser` | services/user-service/Services/UserService.cs:48-58 | as above, but an email a live user has is a `DuplicateEmailException` with no change; live emails stay unique; when the map builds a new `User`, it succeeds exactly when no live user has the email |
| `UserServices.UserService.UpdateUser` | services/user-service/Services/UserService.cs:60-74 | a missing id is the generic "User not found" with nothing written; otherwise the edited user is persisted with one update |
| `UserServices.UserService.DeleteUser` | services/user-service/Services/UserService.cs:76-79 | the table ends exactly as one repository delete leaves it |
| `UserServices.UserService.VerifyUserCredentials` | services/user-service/Services/UserService.cs:81-88 | a token exactly when a live user has the email and the password verifies; that token is the one for the user's id, email and role |
| `UserServices.FreshEmailKeepsUnique` | services/user-service/Models/User.cs:9 | adding a user whose email no live user has keeps live emails unique |
| `UserServices.CreatedUserHasDefaults` | services/user-service/Services/UserService.cs:50-56 | when the map builds a new `User`, the row stored has an unset key, so it is never rejected and gets the next key; it has the DTO's name and email, role "User", is active and live, is created and updated now, has no refresh slot, and its salt is the fresh key, under which the password verifies |
| `UserServices.CreateUserAdmitsDuplicateEmail` | services/user-service/Services/UserService.cs:48-58 | as written, with the map building a new `User`, a second account with a live user's email is stored: emails are no longer unique, and lookup by email never finds the new account |
| `UserServices.BlankPasswordKeepsCredentials` | services/user-service/Services/UserService.cs:65-70 | a null or white-space password keeps the stored hash and salt |
| `UserServices.NewPasswordVerifies` | services/user-service/Services/UserService.cs:65-72 | after an update with a real password, the salt is the fresh key and the new password verifies |
| `UserServices.UpdateOverwritesFoundRow` | services/user-service/Services/UserService.cs:72-73 | the update of a found user overwrites exactly its row, and it stays found by id |
| `ErrorHandling.StatusFor` | services/user-service/MiddleWares/ExceptionMiddleware.cs:25-39 | `UserNotFoundException` is 404 and every other exception 400 |
| `ErrorHandling.ErrorBody` | services/user-service/MiddleWares/ExceptionMiddleware.cs:47-48 | the body is the message inside `{"message":"` and `"}` |
| `ErrorHandling.ErrorBodyCarriesMessage` | services/user-service/MiddleWares/ExceptionMiddleware.cs:47-50 | the message is read back intact from the body |
| `ErrorHandling.HandleException` | services/user-service/MiddleWares/ExceptionMiddleware.cs:42-51 | JSON content type, the given status, and the error body appended to the response |
| `ErrorHandling.Invoke` | services/user-service/MiddleWares/ExceptionMiddleware.cs:19-40 | no exception: the response untouched; otherwise the classified status, JSON type and the body |
| `ErrorHandling.MissingUserUpdateIsBadRequest` | services/user-service/Services/UserService.cs:63 | the generic "User not found" is a 400, the `UserNotFoundException` a 404 |
| `Http.BearerToken` | services/user-service/Services/AuthService.cs:57 | `None` exactly when there is no `Authorization` value; a token never contains a space |
| `Http.BearerTokenOfScheme` | services/user-service/Services/AuthService.cs:57 | `Authorization: <scheme> <token>` yields the token |
| `Http.BearerTokenOfBareValue` | api-gateway/Middleware/RoleToClientIdMiddleware.cs:26 | a value without a space is taken whole |
| `Http.SetHeader` | api-gateway/Middleware/RoleToClientIdMiddleware.cs:48 | the header then has exactly that one value; headers of other names are unchanged |
| `Text.LastSegment` | services/user-service/Services/AuthService.cs:57 | the last segment contains no separator |
| `Text.Split` | services/user-service/Services/AuthService.cs:57 | at least one segment, none containing the separator, and joining them gives the input back |
| `Gateway.InjectedHeaders` | api-gateway/Middleware/RoleToClientIdMiddleware.cs:26-50 | no header other than `Client-Id` changes |
| `Gateway.Invoke` | api-gateway/Middleware/RoleToClientIdMiddleware.cs:24-55 | the headers become the injected ones and the next delegate runs exactly once |
| `Gateway.NoTokenNoChange` | api-gateway/Middleware/RoleToClientIdMiddleware.cs:30 | no `Authorization` value: headers unchanged |
| `Gateway.FailedDecodeNoChange` | api-gateway/Middleware/RoleToClientIdMiddleware.cs:32-34 | a token that does not decode leaves the headers unchanged |
| `Gateway.RoleBecomesClientId` | api-gateway/Middleware/RoleToClientIdMiddleware.cs:44-49 | the value of the first claim of exactly the role type becomes `Client-Id`, lower-cased, replacing any value sent |
| `Gateway.NoRoleNoHeader` | api-gateway/Middleware/RoleToClientIdMiddleware.cs:44-46 | without a claim of exactly the role type, nothing is written |
| `Gateway.CaseVariantRoleTypeIgnored` | api-gateway/Middleware/RoleToClientIdMiddleware.cs:44-46 | a claim whose type is the role type in other letter case writes no header, though `FindFirst` returns it |
| `Gateway.BearerAdminIsClientAdmin` | api-gateway/Middleware/RoleToClientIdMiddleware.cs:26-48 | `Authorization: Bearer <jwt>` with role "Admin" gives `Client-Id: admin` |
| `TodoRepo.Active` | services/todo-service/Repositories/TodoRepository.cs:17-20 | exactly the todos not deleted |
| `TodoRepo.FindById` | services/todo-service/Repositories/TodoRepository.cs:22-26 | a todo with that id that is not deleted; `None` exactly when there is none |
| `TodoRepo.TodoRepository.Add` | services/todo-service/Repositories/TodoRepository.cs:27-32 | returns the very todo it appended, its key generated |
| `TodoRepo.TodoRepository.Update` | services/todo-service/Repositories/TodoRepository.cs:34-38 | the stored row with the same key is overwritten; a key not stored is rejected with no change |
| `TodoRepo.TodoRepository.Delete` | services/todo-service/Repositories/TodoRepository.cs:40-49 | the row with that key is flagged deleted, whether or not it already was |
| `TodoRepo.FlagIsReplace` | services/todo-service/Repositories/TodoRepository.cs:42-46 | flagging the row found by key and updating it is the delete of that key |
| `TodoRepo.DeleteIdempotent` | services/todo-service/Repositories/TodoRepository.cs:43-45 | deleting twice is deleting once; a missing key changes nothing |
| `TodoRepo.DeleteHides` | services/todo-service/Repositories/TodoRepository.cs:45 | after a delete the id is not found and not listed, and no row is removed |
| `TodoRepo.AddedIsFound` | services/todo-service/Repositories/TodoRepository.cs:29-31 | a live todo just added is found by its key |
| `TodoServices.AllTodos` | services/todo-service/Services/TodoService.cs:15-27 | one DTO per live todo, same count and order, each showing that todo's fields |
| `TodoServices.TodoById` | services/todo-service/Services/TodoService.cs:29-43 | `None` exactly when the repository finds none; otherwise that todo's DTO |
| `TodoServices.TodoService.AddTodo` | services/todo-service/Services/TodoService.cs:45-70 | a live todo of user 1 with the DTO's title, description and completion, created and updated now, under a fresh key; it reads back by id |
| `TodoServices.TodoService.UpdateTodo` | services/todo-service/Services/TodoService.cs:72-84 | `false` and nothing written when no live todo has the id; otherwise `true`, the edited todo stored and read back |
| `TodoServices.TodoService.DeleteTodo` | services/todo-service/Services/TodoService.cs:86-94 | `false` and no change when no live todo has the id; otherwise `true` and the todo flagged |
| `TodoServices.MissingIsFlagged` | services/todo-service/Services/TodoService.cs:88-89 | with no live todo of that id, every row with the id is already flagged |
| `TodoServices.EditStaysFound` | services/todo-service/Services/TodoService.cs:77-82 | the edited todo reads back by id |
| `TodoServices.UpdateTouchesOnlyEditable` | services/todo-service/Services/TodoService.cs:77-83 | only title, description, completion and update time change; creation time, owner, flag and other rows stay |
| `TodoServices.DeletedTodoIsGone` | services/todo-service/Services/TodoService.cs:86-94 | a deleted todo is not read by id and not listed |

## Left out

- **Cryptography.** HMAC-SHA-512 internals, and JWT serialisation, signing and signature checking. These are library calls, so they are parameters. `Jwt.ReadsBackWhatItWrites` is the only property assumed of the token handler.
- **Clock skew.** `ValidateToken` accepts a token within the library's default five-minute clock skew. The model only assumes acceptance before expiry.
- **Claim-type mapping.** The JWT library maps inbound and outbound claim types (`sub` to NameIdentifier and so on). The model keeps claim types as written, so `Jwt.ReadsBackWhatItWrites` is an idealisation: the default inbound mapping turns `sub` into NameIdentifier and adds `exp`, `iss` and `aud` claims, so in the real system the id of a generated token arrives through the NameIdentifier fallback of `DecodeJwtToken`. That claim holds the same id text, so the decoded id is the same.
- **Culture.** `userId.ToString()` and `long.Parse` run under the current culture. The model assumes the current culture formats and parses 64-bit integers like the invariant culture: `-` as the negative sign and ASCII digits.
- **Route-value keys.** ASP.NET's `RouteValueDictionary` looks keys up ignoring case. `Authorization.IsUserRequestingOwnData` matches the key "id" exactly, which agrees with the route templates' lower-case `{id}`.
- **Randomness.** `RandomNumberGenerator`, `new HMACSHA512()` key generation and `Guid.NewGuid` are inputs. So is where the refresh-token expiry comes from, which the code does not show.
- **Time.** `DateTime.UtcNow` is an integer `now` in seconds. Sub-second precision and `DateTime` ranges are not modelled.
- **Logging and console output.** These have no effect on results, including the `foreach` over claims in `DecodeJwtToken`.
- **Concurrency.** Asynchronous suspension, and races between concurrent refreshes, are not modelled. Each store call is one sequential step.
- **Entity Framework.** Change tracking, `SaveChangesAsync` and SQL are not modelled. The model treats `Add`, `Update` (which inserts a row whose key is unset) and key generation as operations on the sequence. Key overflow is not modelled.
- **AutoMapper profiles.** These are the `Mapper` parameter. Which fields `CreateUserDto` and `UpdateUserDto` carry is taken from their uses. The DTO classes are not part of this model. Nor is `TodoReadDto`: its fields are the ones `TodoService` fills in.
- **JSON text escaping.** `JsonSerializer.Serialize(new { message })` escapes quotes and non-ASCII characters. `ErrorHandling.ErrorBody` writes the message verbatim, so it describes messages that need no escaping.
- **Casing.** `ToLower()` in the gateway is culture-sensitive. `Text.ToLower` lower-cases ASCII letters only, and header names are matched through the same ASCII lower-casing. `ClaimsPrincipal.FindFirst` compares claim types with `OrdinalIgnoreCase`, which also folds non-ASCII letters; `Claims.FindFirst` (through `Claims.SameKind`) folds only ASCII letters. The claim types this code looks up are ASCII.
- **Strings.** C# strings with lone surrogates are not representable. Dafny `char` values are Unicode scalar values.
- **Controllers.** `UserController` and `TodoController` are HTTP plumbing, including their null-to-401 mapping. `TodoController` also calls `AddTodoAsync` with two arguments, where `ITodoService` declares one; the model follows `TodoService`.
- **The other token code.** The gateway's own `JwtService` and the todo service's `JwtService` are not modelled, beyond the gateway's decoder parameter. Nor are the `Program.cs` files, the frontend, or the tests.
- **Email uniqueness on update.** `UserServices.UserService.UpdateUser` gets no email-uniqueness check either: the update map may set an email another live user has, exactly as the code allows.
- Jwt.DecodeJwtToken: states only that a failed validation gives `None` and that ids are 64-bit. The id-claim choice and parse are stated by `Jwt.DecodePrefersSub`, `Jwt.DecodeFallsBackToNameIdentifier` and `Jwt.DecodeNonNumericId`.
- ErrorHandling.ErrorBody: the body is stated for messages that JSON leaves unescaped, as above.

## Findings

| source | as written | input that shows it | evidently intended | confidence | as-written member | corrected member |
|---|---|---|---|---|---|---|
| services/user-service/Services/UserService.cs:48-58 | `CreateUserAsync` adds the user without looking up the email, although the `User` entity marks the email unique and `DuplicateEmailException` ("This email is already in use") exists for this case | a live user with email `a@b.c`, then `CreateUserAsync` with email `a@b.c`: a second live row with that email is stored, and login by that email keeps finding the first account | throw `DuplicateEmailException` and store nothing when a live user already has the email, as tests/user-service.Tests/Services/UserServiceTests.cs:104-116 expects | not executed; high | `UserServices.UserService.CreateUser`, with `UserServices.CreateUserAdmitsDuplicateEmail` | `UserServices.UserService.CreateUniqueUser` |
