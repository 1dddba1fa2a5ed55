/** The `User` entity of the user service and the `UserDto` it is shown as.
    Times are whole seconds on one clock. */
module UserModel {
  import opened Wrappers
  import opened Bytes

  datatype User = User(
    id: int,
    username: string,
    email: string,
    passwordHash: seq<Byte>,
    passwordSalt: seq<Byte>,
    role: string,
    isActive: bool,
    isDeleted: bool,
    createdDate: int,
    updatedDate: int,
    refreshToken: Option<string>,
    refreshTokenExpiry: Option<int>)

  /** `new User()` created at time `now`: key 0 (not yet assigned by the
      database), empty name, email and credentials, role "User", active,
      not deleted, and no refresh token. */
  function NewUser(now: int): (u: User)
    ensures u.id == 0 && u.username == "" && u.email == ""
    ensures u.passwordHash == [] && u.passwordSalt == []
    ensures u.role == "User" && u.isActive && !u.isDeleted
    ensures u.createdDate == now && u.updatedDate == now
    ensures u.refreshToken.None? && u.refreshTokenExpiry.None?
  {
    User(0, "", "", [], [], "User", true, false, now, now, None, None)
  }

  datatype UserDto = UserDto(
    id: int,
    username: string,
    email: string,
    role: string,
    isActive: bool,
    createdDate: int)

  /** The `User` to `UserDto` map: the properties of the same name. */
  function ToDto(u: User): UserDto {
    UserDto(u.id, u.username, u.email, u.role, u.isActive, u.createdDate)
  }

  /** A user's credentials, deletion flag, update time and refresh slot never
      reach the caller: users that differ only there are shown alike. */
  lemma DtoHidesCredentials(u: User, v: User)
    requires u.id == v.id && u.username == v.username && u.email == v.email
    requires u.role == v.role && u.isActive == v.isActive && u.createdDate == v.createdDate
    ensures ToDto(u) == ToDto(v)
  {
  }

  /** Two users shown alike agree on every shown property. */
  lemma DtoDeterminesShownFields(u: User, v: User)
    requires ToDto(u) == ToDto(v)
    ensures u.id == v.id && u.email == v.email && u.role == v.role
  {
  }
}
