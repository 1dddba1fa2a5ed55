/** `AuthService`: login, refresh and logout over the user table, where each
    user has one refresh-token slot (the token and its expiry). The store
    operations it calls, lookup by email and by refresh token, writing and
    clearing a slot, are defined here over the user repository; the
    expiry a slot is written with is a parameter. */
module Auth {
  import opened Wrappers
  import opened Bytes
  import opened UserModel
  import opened UserRepo
  import opened Exceptions
  import Text
  import Tables
  import Http
  import Passwords
  import Jwt
  import Int64Text

  datatype AuthResponse = AuthResponse(accessToken: string, refreshToken: string)
  datatype RefreshResponse = RefreshResponse(accessToken: string, refreshToken: string)

  const InvalidRefreshMessage: string := "Invalid or expired refresh token"

  /** `GetUserByRefreshTokenAsync`: the first live user whose slot holds the token. */
  function FindByRefreshToken(rows: seq<User>, token: string): (r: Option<User>)
    ensures r.Some? ==> r.value in rows && r.value.refreshToken == Some(token) && !r.value.isDeleted
    ensures r.None? <==> forall i :: 0 <= i < |rows| ==> rows[i].refreshToken != Some(token) || rows[i].isDeleted
  {
    Tables.FirstMatch(rows, (u: User) => u.refreshToken == Some(token) && !u.isDeleted)
  }

  /** The table after the slot of the user with that id is set; every other
      row and every other field is unchanged. */
  function WithSlot(rows: seq<User>, id: int, token: Option<string>, expiry: Option<int>): (r: seq<User>)
    ensures |r| == |rows|
    ensures forall i :: 0 <= i < |rows| ==>
              r[i] == if rows[i].id == id then rows[i].(refreshToken := token, refreshTokenExpiry := expiry) else rows[i]
  {
    seq(|rows|, i requires 0 <= i < |rows| =>
      if rows[i].id == id then rows[i].(refreshToken := token, refreshTokenExpiry := expiry) else rows[i])
  }

  /** `user.RefreshTokenExpiry < DateTime.UtcNow` on a nullable expiry: a null
      expiry is never expired, and an expiry equal to now is not. */
  predicate Expired(expiry: Option<int>, now: int) {
    expiry.Some? && expiry.value < now
  }

  lemma WithSlotKeepsKeys(rows: seq<User>, id: int, token: Option<string>, expiry: Option<int>)
    requires KeysValid(rows)
    ensures KeysValid(WithSlot(rows, id, token, expiry))
  {
  }

  class AuthService {
    const repo: UserRepository
    const hmac: Passwords.Hmac
    const options: Jwt.JwtOptions
    const tokens: Jwt.TokenHandler

    constructor (repo: UserRepository, hmac: Passwords.Hmac, options: Jwt.JwtOptions, tokens: Jwt.TokenHandler)
      ensures this.repo == repo && this.hmac == hmac && this.options == options && this.tokens == tokens
    {
      this.repo := repo;
      this.hmac := hmac;
      this.options := options;
      this.tokens := tokens;
    }

    /** Whether the password matches the stored credentials of the user found. */
    predicate PasswordMatches(user: User, password: string) {
      Passwords.VerifyPassword(hmac, password, user.passwordHash, user.passwordSalt)
    }

    /** `AuthenticateUserAsync`: with no live user for the email, or a wrong
        password, `None` and no slot is touched. Otherwise an access token for
        that user's id, email and role, and a refresh token that is exactly
        what is written to that user's slot. */
    method AuthenticateUser(email: string, password: string, jti: string, randomBytes: seq<Byte>,
                            now: int, refreshExpiry: Option<int>)
      returns (r: Option<AuthResponse>)
      requires repo.Valid() && |randomBytes| == 64
      modifies repo
      ensures repo.Valid()
      ensures var found := FindByEmail(old(repo.users), email);
              if found.None? || !PasswordMatches(found.value, password)
              then r.None? && repo.users == old(repo.users)
              else
                var u := found.value;
                && r == Some(AuthResponse(Jwt.GenerateJwtToken(options, tokens, u.id, u.email, u.role, jti, now),
                                          Jwt.GenerateRefreshToken(randomBytes)))
                && repo.users == WithSlot(old(repo.users), u.id, Some(r.value.refreshToken), refreshExpiry)
    {
      var user := FindByEmail(repo.users, email);
      if user.None? || !PasswordMatches(user.value, password) {
        return None;
      }
      var u := user.value;
      var accessToken := Jwt.GenerateJwtToken(options, tokens, u.id, u.email, u.role, jti, now);
      var refreshToken := Jwt.GenerateRefreshToken(randomBytes);
      UpdateRefreshToken(u.id, refreshToken, refreshExpiry);
      r := Some(AuthResponse(accessToken, refreshToken));
    }

    /** `RefreshTokenAsync`: no live user holding the token, or an expiry
        before now, is an `UnauthorizedAccessException` and nothing changes.
        Otherwise new tokens for that user, the new refresh token written to
        its slot. */
    method RefreshToken(presented: string, jti: string, randomBytes: seq<Byte>, now: int, refreshExpiry: Option<int>)
      returns (r: Result<RefreshResponse, Exception>)
      requires repo.Valid() && |randomBytes| == 64
      modifies repo
      ensures repo.Valid()
      ensures var found := FindByRefreshToken(old(repo.users), presented);
              if found.None? || Expired(found.value.refreshTokenExpiry, now)
              then r == Failure(UnauthorizedAccessException(InvalidRefreshMessage)) && repo.users == old(repo.users)
              else
                var u := found.value;
                && r == Success(RefreshResponse(Jwt.GenerateJwtToken(options, tokens, u.id, u.email, u.role, jti, now),
                                                Jwt.GenerateRefreshToken(randomBytes)))
                && repo.users == WithSlot(old(repo.users), u.id, Some(r.value.refreshToken), refreshExpiry)
    {
      var user := FindByRefreshToken(repo.users, presented);
      if user.None? || Expired(user.value.refreshTokenExpiry, now) {
        return Failure(UnauthorizedAccessException(InvalidRefreshMessage));
      }
      var u := user.value;
      var newAccessToken := Jwt.GenerateJwtToken(options, tokens, u.id, u.email, u.role, jti, now);
      var newRefreshToken := Jwt.GenerateRefreshToken(randomBytes);
      UpdateRefreshToken(u.id, newRefreshToken, refreshExpiry);
      r := Success(RefreshResponse(newAccessToken, newRefreshToken));
    }

    /** `LogoutAsync`: the bearer token of the request; a missing or empty one,
        or one that decodes to no id, is `false` with no change. Otherwise
        the slot of the decoded id is cleared once and the answer is `true`. */
    method Logout(headers: Http.Headers, now: int) returns (ok: bool)
      requires repo.Valid()
      modifies repo
      ensures repo.Valid()
      ensures var token := Http.BearerToken(headers);
              if Text.IsNullOrEmpty(token) || Jwt.DecodeJwtToken(options, tokens, token.value, now).None?
              then !ok && repo.users == old(repo.users)
              else ok && repo.users == WithSlot(old(repo.users), Jwt.DecodeJwtToken(options, tokens, token.value, now).value, None, None)
    {
      var token := Http.BearerToken(headers);
      if Text.IsNullOrEmpty(token) {
        return false;
      }
      var userId := Jwt.DecodeJwtToken(options, tokens, token.value, now);
      if userId.None? {
        return false;
      }
      RemoveRefreshToken(userId.value);
      ok := true;
    }

    /** `UpdateRefreshTokenAsync(id, token)`, with the expiry the store sets. */
    method UpdateRefreshToken(id: int, token: string, expiry: Option<int>)
      requires repo.Valid()
      modifies repo
      ensures repo.Valid()
      ensures repo.users == WithSlot(old(repo.users), id, Some(token), expiry)
    {
      WithSlotKeepsKeys(repo.users, id, Some(token), expiry);
      repo.users := WithSlot(repo.users, id, Some(token), expiry);
    }

    /** `RemoveRefreshToken(id)`: clears the token and its expiry. */
    method RemoveRefreshToken(id: int)
      requires repo.Valid()
      modifies repo
      ensures repo.Valid()
      ensures repo.users == WithSlot(old(repo.users), id, None, None)
    {
      WithSlotKeepsKeys(repo.users, id, None, None);
      repo.users := WithSlot(repo.users, id, None, None);
    }
  }

  /** The row with index k is the only row with its id. */
  lemma OnlyRowWithId(rows: seq<User>, k: nat)
    requires KeysValid(rows) && k < |rows|
    ensures forall i :: 0 <= i < |rows| && i != k ==> rows[i].id != rows[k].id
  {
    forall i | 0 <= i < |rows| && i != k ensures rows[i].id != rows[k].id {
      if i < k {
        assert rows[i].id != rows[k].id;
      } else {
        assert rows[k].id != rows[i].id;
      }
    }
  }

  /** After a slot is written with a token no user held, looking that token up
      finds exactly that user, the slot updated. */
  lemma {:induction false} WrittenTokenFindsUser(rows: seq<User>, k: nat, token: string, expiry: Option<int>)
    requires KeysValid(rows) && k < |rows| && !rows[k].isDeleted
    requires forall i :: 0 <= i < |rows| ==> rows[i].refreshToken != Some(token)
    ensures FindByRefreshToken(WithSlot(rows, rows[k].id, Some(token), expiry), token)
            == Some(rows[k].(refreshToken := Some(token), refreshTokenExpiry := expiry))
  {
    var w := WithSlot(rows, rows[k].id, Some(token), expiry);
    OnlyRowWithId(rows, k);
    assert forall i :: 0 <= i < |w| && i != k ==> w[i] == rows[i];
    Tables.FirstMatchOfOnly(w, (u: User) => u.refreshToken == Some(token) && !u.isDeleted, k);
  }

  /** Rotation retires the presented token: once the user's slot holds a new
      token, the old one no longer matches that user, and matches no one if
      no other user held it. */
  lemma RotationRetiresToken(rows: seq<User>, id: int, presented: string, rotated: string, expiry: Option<int>)
    requires rotated != presented
    requires forall i :: 0 <= i < |rows| && rows[i].id != id ==> rows[i].refreshToken != Some(presented)
    ensures FindByRefreshToken(WithSlot(rows, id, Some(rotated), expiry), presented).None?
  {
  }

  /** After logout the user's slot is empty: no refresh token leads to that id. */
  lemma LogoutEndsRefresh(rows: seq<User>, id: int, token: string)
    ensures var r := FindByRefreshToken(WithSlot(rows, id, None, None), token);
            r.Some? ==> r.value.id != id
  {
  }

  /** The expiry test compares strictly and lets a null expiry through. */
  lemma ExpiryBoundary(now: int)
    ensures !Expired(None, now)
    ensures !Expired(Some(now), now)
    ensures Expired(Some(now - 1), now)
  {
  }

  /** Login, then refresh with the token login returned, before the slot's
      expiry: the refresh finds the same user, and its access token decodes
      to that user's id, assuming the refresh token was new to the table. */
  lemma LoginThenRefresh(options: Jwt.JwtOptions, tokens: Jwt.TokenHandler, rows: seq<User>, k: nat,
                         randomBytes: seq<Byte>, expiry: Option<int>, jti: string, now: int)
    requires Jwt.ReadsBackWhatItWrites(tokens)
    requires KeysValid(rows) && k < |rows| && !rows[k].isDeleted
    requires |randomBytes| == 64
    requires forall i :: 0 <= i < |rows| ==> rows[i].refreshToken != Some(Jwt.GenerateRefreshToken(randomBytes))
    requires !Expired(expiry, now)
    requires Int64Text.IsLong(rows[k].id) && 0 < options.expiryMinutes
    ensures var token := Jwt.GenerateRefreshToken(randomBytes);
            var found := FindByRefreshToken(WithSlot(rows, rows[k].id, Some(token), expiry), token);
            && found.Some? && found.value.id == rows[k].id && !Expired(found.value.refreshTokenExpiry, now)
            && Jwt.DecodeJwtToken(options, tokens,
                 Jwt.GenerateJwtToken(options, tokens, found.value.id, found.value.email, found.value.role, jti, now), now)
               == Some(rows[k].id)
  {
    var token := Jwt.GenerateRefreshToken(randomBytes);
    WrittenTokenFindsUser(rows, k, token, expiry);
    var u := rows[k];
    Jwt.DecodeGenerated(options, tokens, u.id, u.email, u.role, jti, now, now);
  }
}
