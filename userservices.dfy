/** `UserService`: the user operations over the repository. Reads hand back
    `UserDto`s; create and update set the password hash and salt on the
    entity before persisting it. AutoMapper's two DTO-to-entity maps are a
    parameter, since the DTO classes are not part of this model. */
module UserServices {
  import opened Wrappers
  import opened Bytes
  import opened UserModel
  import opened UserRepo
  import opened Exceptions
  import Text
  import Passwords
  import Jwt

  /** `CreateUserDto` and `UpdateUserDto` as the callers fill them. */
  datatype CreateUserDto = CreateUserDto(username: string, email: string, password: string)
  datatype UpdateUserDto = UpdateUserDto(username: Option<string>, email: Option<string>, password: Option<string>)

  /** `_mapper.Map<User>(createDto)` at a time, and `_mapper.Map(updateDto, user)`. */
  datatype Mapper = Mapper(fromCreate: (CreateUserDto, int) -> User, applyUpdate: (UpdateUserDto, User) -> User)

  /** The maps copy the DTO's own properties only: an update leaves the key,
      credentials, deletion flag and refresh slot alone. */
  ghost predicate KeepsStoredFields(m: Mapper) {
    forall dto, u :: (var v := m.applyUpdate(dto, u);
                      && v.id == u.id && v.passwordHash == u.passwordHash && v.passwordSalt == u.passwordSalt
                      && v.isDeleted == u.isDeleted && v.refreshToken == u.refreshToken
                      && v.refreshTokenExpiry == u.refreshTokenExpiry)
  }

  /** The create map builds `new User()` at that time and copies the DTO's
      user name and email, the only properties the two share: every other
      field keeps the entity's default. */
  ghost predicate MapsOntoNewUser(m: Mapper) {
    forall dto, now :: m.fromCreate(dto, now) == NewUser(now).(username := dto.username, email := dto.email)
  }

  /** The entity `CreateUserAsync` persists: the mapped DTO with the hash and salt of one `HashPassword`. */
  function Credentialed(u: User, hashed: Passwords.HashedPassword): User {
    u.(passwordHash := hashed.hash, passwordSalt := hashed.salt)
  }

  /** The entity `UpdateUserAsync` persists: re-hashed only for a password that is not
      null or white space, then overwritten by the mapper. */
  function Edited(m: Mapper, hmac: Passwords.Hmac, user: User, dto: UpdateUserDto, freshKey: seq<Byte>): User
    requires |freshKey| == Passwords.KeySize
  {
    var rehashed :=
      if Text.IsNullOrWhiteSpace(dto.password) then user
      else Credentialed(user, Passwords.HashPassword(hmac, freshKey, dto.password.value));
    m.applyUpdate(dto, rehashed)
  }

  /** What the database's rejection looks like to the middleware: a generic
      exception. The messages are short stand-ins for the text of EF Core's
      `DbUpdateException` and `DbUpdateConcurrencyException`, not their exact
      wording. */
  function DbException(e: DbError): Exception {
    match e
    case DuplicateKey(_) => GenericException("An error occurred while saving the entity changes.")
    case MissingRow(_) => GenericException("The database operation was expected to affect 1 row(s), but actually affected 0 row(s).")
  }

  /** No two live users share an email. */
  predicate UniqueLiveEmails(rows: seq<User>) {
    forall i, j :: 0 <= i < j < |rows| && !rows[i].isDeleted && !rows[j].isDeleted ==> rows[i].email != rows[j].email
  }

  class UserService {
    const repo: UserRepository
    const hmac: Passwords.Hmac
    const mapper: Mapper
    const options: Jwt.JwtOptions
    const tokens: Jwt.TokenHandler

    constructor (repo: UserRepository, hmac: Passwords.Hmac, mapper: Mapper, options: Jwt.JwtOptions, tokens: Jwt.TokenHandler)
      ensures this.repo == repo && this.hmac == hmac && this.mapper == mapper
      ensures this.options == options && this.tokens == tokens
    {
      this.repo := repo;
      this.hmac := hmac;
      this.mapper := mapper;
      this.options := options;
      this.tokens := tokens;
    }

    /** `GetAllUsersAsync`: every live user, shown as a DTO, in table order. */
    function GetAllUsers(): (r: seq<UserDto>)
      reads repo
      ensures |r| == |Active(repo.users)|
      ensures forall i :: 0 <= i < |r| ==> r[i] == ToDto(Active(repo.users)[i])
    {
      var live := Active(repo.users);
      seq(|live|, i requires 0 <= i < |live| => ToDto(live[i]))
    }

    /** `GetUserByIdAsync`: `None` exactly when the repository finds no user. */
    function GetUserById(id: int): (r: Option<UserDto>)
      reads repo
      ensures r.None? <==> FindById(repo.users, id).None?
      ensures r.Some? ==> r.value.id == id && r.value == ToDto(FindById(repo.users, id).value)
    {
      match FindById(repo.users, id)
      case None => None
      case Some(u) => Some(ToDto(u))
    }

    /** `GetUserByUsernameAsync`. */
    function GetUserByUsername(username: string): (r: Option<UserDto>)
      reads repo
      ensures r.None? <==> FindByUsername(repo.users, username).None?
      ensures r.Some? ==> r.value.username == username && r.value == ToDto(FindByUsername(repo.users, username).value)
    {
      match FindByUsername(repo.users, username)
      case None => None
      case Some(u) => Some(ToDto(u))
    }

    /** `GetUserByEmailAsync`. */
    function GetUserByEmail(email: string): (r: Option<UserDto>)
      reads repo
      ensures r.None? <==> FindByEmail(repo.users, email).None?
      ensures r.Some? ==> r.value.email == email && r.value == ToDto(FindByEmail(repo.users, email).value)
    {
      match FindByEmail(repo.users, email)
      case None => None
      case Some(u) => Some(ToDto(u))
    }

    /** `CreateUserAsync` as written: map, set hash and salt from one
        `HashPassword`, add. There is no check that the email is free. */
    method CreateUser(dto: CreateUserDto, freshKey: seq<Byte>, now: int) returns (r: Result<UserDto, Exception>)
      requires repo.Valid() && |freshKey| == Passwords.KeySize
      modifies repo
      ensures repo.Valid()
      ensures var u := Credentialed(mapper.fromCreate(dto, now), Passwords.HashPassword(hmac, freshKey, dto.password));
              if u.id != 0 && HasKey(old(repo.users), u.id)
              then r == Failure(DbException(DuplicateKey(u.id))) && repo.users == old(repo.users)
              else r == Success(ToDto(Keyed(old(repo.users), u))) && repo.users == old(repo.users) + [Keyed(old(repo.users), u)]
    ensures MapsOntoNewUser(mapper) ==> r.Success?
    {
      var user := mapper.fromCreate(dto, now);
      var hashedPassword := Passwords.HashPassword(hmac, freshKey, dto.password);
      user := user.(passwordHash := hashedPassword.hash, passwordSalt := hashedPassword.salt);
      if MapsOntoNewUser(mapper) {
        CreatedUserHasDefaults(mapper, hmac, freshKey, dto, now, repo.users);
      }
      var added := repo.Add(user);
      match added
      case Failure(e) => r := Failure(DbException(e));
      case Success(stored) => r := Success(ToDto(stored));
    }

    /** `CreateUserAsync` with the check its exception and its tests call for:
        an email a live user already has is a `DuplicateEmailException` and
        nothing is stored. It keeps live emails unique. */
    method CreateUniqueUser(dto: CreateUserDto, freshKey: seq<Byte>, now: int) returns (r: Result<UserDto, Exception>)
      requires repo.Valid() && |freshKey| == Passwords.KeySize
      modifies repo
      ensures repo.Valid()
      ensures UniqueLiveEmails(old(repo.users)) ==> UniqueLiveEmails(repo.users)
      ensures var u := Credentialed(mapper.fromCreate(dto, now), Passwords.HashPassword(hmac, freshKey, dto.password));
              if FindByEmail(old(repo.users), u.email).Some?
              then r == Failure(DuplicateEmailException(DuplicateEmailMessage)) && repo.users == old(repo.users)
              else if u.id != 0 && HasKey(old(repo.users), u.id)
              then r == Failure(DbException(DuplicateKey(u.id))) && repo.users == old(repo.users)
              else r == Success(ToDto(Keyed(old(repo.users), u))) && repo.users == old(repo.users) + [Keyed(old(repo.users), u)]
    ensures MapsOntoNewUser(mapper) ==> (r.Success? <==> FindByEmail(old(repo.users), dto.email).None?)
    {
      var user := mapper.fromCreate(dto, now);
      var hashedPassword := Passwords.HashPassword(hmac, freshKey, dto.password);
      user := user.(passwordHash := hashedPassword.hash, passwordSalt := hashedPassword.salt);
      if MapsOntoNewUser(mapper) {
        CreatedUserHasDefaults(mapper, hmac, freshKey, dto, now, repo.users);
      }
      if FindByEmail(repo.users, user.email).Some? {
        return Failure(DuplicateEmailException(DuplicateEmailMessage));
      }
      ghost var before := repo.users;
      var added := repo.Add(user);
      match added
      case Failure(e) => r := Failure(DbException(e));
      case Success(stored) =>
        if UniqueLiveEmails(before) {
          FreshEmailKeepsUnique(before, stored);
        }
        r := Success(ToDto(stored));
    }

    /** `UpdateUserAsync`: a missing or deleted id is the generic "User not
        found" exception, and nothing is written; otherwise the edited entity
        is persisted with one `UpdateAsync`. */
    method UpdateUser(id: int, dto: UpdateUserDto, freshKey: seq<Byte>) returns (r: Result<(), Exception>)
      requires repo.Valid() && |freshKey| == Passwords.KeySize
      modifies repo
      ensures repo.Valid()
      ensures FindById(old(repo.users), id).None? ==>
                r == Failure(GenericException(UserNotFoundMessage)) && repo.users == old(repo.users)
      ensures FindById(old(repo.users), id).Some? ==>
                var u := Edited(mapper, hmac, FindById(old(repo.users), id).value, dto, freshKey);
                && repo.users == AfterUpdate(old(repo.users), u)
                && (r.Failure? <==> UpdateRejected(old(repo.users), u))
    {
      var found := FindById(repo.users, id);
      if found.None? {
        return Failure(GenericException(UserNotFoundMessage));
      }
      var user := found.value;
      if !Text.IsNullOrWhiteSpace(dto.password) {
        var hashedPassword := Passwords.HashPassword(hmac, freshKey, dto.password.value);
        user := user.(passwordHash := hashedPassword.hash, passwordSalt := hashedPassword.salt);
      }
      user := mapper.applyUpdate(dto, user);
      var updated := repo.Update(user);
      match updated
      case Failure(e) => r := Failure(DbException(e));
      case Success(_) => r := Success(());
    }

    /** `DeleteUserAsync`: one repository delete. */
    method DeleteUser(id: int)
      requires repo.Valid()
      modifies repo
      ensures repo.Valid()
      ensures repo.users == MarkDeleted(old(repo.users), id)
    {
      repo.Delete(id);
    }

    /** `VerifyUserCredentialsAsync`: an access token for the live user with
        that email whose password matches, `None` otherwise. */
    function VerifyUserCredentials(email: string, password: string, jti: string, now: int): (r: Option<string>)
      reads repo
      ensures r.Some? <==>
                && FindByEmail(repo.users, email).Some?
                && Passwords.VerifyPassword(hmac, password, FindByEmail(repo.users, email).value.passwordHash,
                                            FindByEmail(repo.users, email).value.passwordSalt)
      ensures r.Some? ==>
                var u := FindByEmail(repo.users, email).value;
                r.value == Jwt.GenerateJwtToken(options, tokens, u.id, u.email, u.role, jti, now)
    {
      match FindByEmail(repo.users, email)
      case None => None
      case Some(user) =>
        if !Passwords.VerifyPassword(hmac, password, user.passwordHash, user.passwordSalt) then None
        else Some(Jwt.GenerateJwtToken(options, tokens, user.id, user.email, user.role, jti, now))
    }
  }

  /** Adding a user whose email no live user has keeps live emails unique. */
  lemma FreshEmailKeepsUnique(rows: seq<User>, k: User)
    requires UniqueLiveEmails(rows)
    requires FindByEmail(rows, k.email).None?
    ensures UniqueLiveEmails(rows + [k])
  {
    var all := rows + [k];
    forall i, j | 0 <= i < j < |all| && !all[i].isDeleted && !all[j].isDeleted
      ensures all[i].email != all[j].email
    {
      if j == |rows| {
        assert all[i] == rows[i];
      } else {
        assert all[i] == rows[i] && all[j] == rows[j];
      }
    }
  }

  /** The row `CreateUserAsync` stores when the create map builds a new
      entity: its key is unset, so it is never rejected and gets the next
      key; it has the DTO's name and email, the entity's defaults, created
      and updated `now`, and the fresh key as salt, under which the password
      verifies. */
  lemma CreatedUserHasDefaults(m: Mapper, hmac: Passwords.Hmac, freshKey: seq<Byte>, dto: CreateUserDto, now: int,
                               rows: seq<User>)
    requires MapsOntoNewUser(m) && |freshKey| == Passwords.KeySize
    ensures var u := Credentialed(m.fromCreate(dto, now), Passwords.HashPassword(hmac, freshKey, dto.password));
            var k := Keyed(rows, u);
            && u.id == 0 && !(u.id != 0 && HasKey(rows, u.id))
            && k.id == NextId(rows) && !HasKey(rows, k.id)
            && k.username == dto.username && k.email == dto.email
            && k.role == "User" && k.isActive && !k.isDeleted
            && k.createdDate == now && k.updatedDate == now
            && k.refreshToken.None? && k.refreshTokenExpiry.None?
            && k.passwordSalt == freshKey
            && Passwords.VerifyPassword(hmac, dto.password, k.passwordHash, k.passwordSalt)
  {
    assert m.fromCreate(dto, now) == NewUser(now).(username := dto.username, email := dto.email);
    Passwords.VerifyHashed(hmac, freshKey, dto.password);
  }

  /** As written, creating a user with the email of a live user is accepted:
      two live users then share the email, and the lookup by email that login
      uses keeps finding the older one, never the new account. */
  lemma CreateUserAdmitsDuplicateEmail(m: Mapper, hmac: Passwords.Hmac, freshKey: seq<Byte>, dto: CreateUserDto, now: int,
                                       rows: seq<User>, existing: User)
    requires MapsOntoNewUser(m) && |freshKey| == Passwords.KeySize
    requires KeysValid(rows)
    requires existing in rows && !existing.isDeleted && dto.email == existing.email
    ensures var k := Keyed(rows, Credentialed(m.fromCreate(dto, now), Passwords.HashPassword(hmac, freshKey, dto.password)));
            && !UniqueLiveEmails(rows + [k])
            && FindByEmail(rows + [k], dto.email) != Some(k)
  {
    CreatedUserHasDefaults(m, hmac, freshKey, dto, now, rows);
    var k := Keyed(rows, Credentialed(m.fromCreate(dto, now), Passwords.HashPassword(hmac, freshKey, dto.password)));
    var all := rows + [k];
    var i :| 0 <= i < |rows| && rows[i] == existing;
    assert all[i] == existing && all[|rows|] == k;
    var found := FindByEmail(all, dto.email);
    var j :| 0 <= j < |all| && all[j] == found.value
             && forall l :: 0 <= l < j ==> all[l].email != dto.email || all[l].isDeleted;
    assert j <= i;
    assert found.value.id != k.id;
  }

  /** An update with a null or white-space password keeps the stored hash and salt. */
  lemma BlankPasswordKeepsCredentials(m: Mapper, hmac: Passwords.Hmac, user: User, dto: UpdateUserDto, freshKey: seq<Byte>)
    requires KeepsStoredFields(m) && |freshKey| == Passwords.KeySize
    requires Text.IsNullOrWhiteSpace(dto.password)
    ensures Edited(m, hmac, user, dto, freshKey).passwordHash == user.passwordHash
    ensures Edited(m, hmac, user, dto, freshKey).passwordSalt == user.passwordSalt
  {
    var v := m.applyUpdate(dto, user);
    assert v.passwordHash == user.passwordHash;
  }

  /** After an update with a real password, the new password verifies against
      what is stored, and the salt is the fresh key. */
  lemma NewPasswordVerifies(m: Mapper, hmac: Passwords.Hmac, user: User, dto: UpdateUserDto, freshKey: seq<Byte>)
    requires KeepsStoredFields(m) && |freshKey| == Passwords.KeySize
    requires !Text.IsNullOrWhiteSpace(dto.password)
    ensures var e := Edited(m, hmac, user, dto, freshKey);
            e.passwordSalt == freshKey && Passwords.VerifyPassword(hmac, dto.password.value, e.passwordHash, e.passwordSalt)
  {
    var c := Credentialed(user, Passwords.HashPassword(hmac, freshKey, dto.password.value));
    var v := m.applyUpdate(dto, c);
    assert v.passwordHash == c.passwordHash && v.passwordSalt == c.passwordSalt;
    Passwords.VerifyHashed(hmac, freshKey, dto.password.value);
  }

  /** An update of a found user overwrites exactly that user's row, and it
      stays found by its id. */
  lemma UpdateOverwritesFoundRow(m: Mapper, hmac: Passwords.Hmac, rows: seq<User>, id: int, dto: UpdateUserDto, freshKey: seq<Byte>)
    requires KeepsStoredFields(m) && |freshKey| == Passwords.KeySize
    requires KeysValid(rows) && FindById(rows, id).Some?
    ensures var u := Edited(m, hmac, FindById(rows, id).value, dto, freshKey);
            && u.id == id && !UpdateRejected(rows, u)
            && AfterUpdate(rows, u) == Replace(rows, u)
            && FindById(AfterUpdate(rows, u), id) == Some(u)
  {
    var user := FindById(rows, id).value;
    var rehashed :=
      if Text.IsNullOrWhiteSpace(dto.password) then user
      else Credentialed(user, Passwords.HashPassword(hmac, freshKey, dto.password.value));
    var u := m.applyUpdate(dto, rehashed);
    assert u.id == rehashed.id && u.isDeleted == rehashed.isDeleted;
    var i :| 0 <= i < |rows| && rows[i] == user;
    assert HasKey(rows, u.id);
    UpdatedIsFound(rows, u);
  }
}
