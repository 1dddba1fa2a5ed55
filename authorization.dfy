/** The two authorization handlers of the user service. A handler's only
    effect is the calls it makes on the authorization context, so each is
    a function from what it reads to the list of those calls. */
module Authorization {
  import opened Wrappers
  import opened Claims
  import Text

  datatype Call = Succeed | Fail

  /** The part of the ambient `HttpContext` the user handler reads: the
      signed-in user's claims and the route values, as text. */
  datatype RequestContext = RequestContext(user: seq<Claim>, routeValues: map<string, string>)

  /** `IsAdmin`: the role is exactly "Admin", letter case included; a
      caller without a role claim is not an admin. */
  function IsAdmin(role: Option<string>): (b: bool)
    ensures role.None? ==> !b
    ensures b ==> role.value == "Admin"
    ensures role == Some("admin") || role == Some("ADMIN") ==> !b
  {
    role == Some("Admin")
  }

  /** `IsUserRequestingOwnData`: the route has an "id" and it is the caller's
      id; a route without an "id" is never the caller's own data. */
  function IsUserRequestingOwnData(request: RequestContext, userIdClaim: string): (b: bool)
    ensures "id" !in request.routeValues ==> !b
    ensures b ==> request.routeValues["id"] == userIdClaim
    ensures b ==> userIdClaim in request.routeValues.Values
  {
    "id" in request.routeValues && request.routeValues["id"] == userIdClaim
  }

  /** `UserAuthorizationHandler.HandleRequirementAsync`, self-or-admin. The
      caller must have a non-empty NameIdentifier claim, checked before the
      role; then an admin, or a user whose id is the route's "id", succeeds.
      It never fails explicitly and succeeds at most once. */
  function HandleUserRequirement(httpContext: Option<RequestContext>): (calls: seq<Call>)
    ensures |calls| <= 1 && Fail !in calls
    ensures calls == [Succeed] <==>
              && httpContext.Some?
              && !Text.IsNullOrEmpty(FirstValue(httpContext.value.user, NameIdentifier))
              && (|| IsAdmin(FirstValue(httpContext.value.user, Role))
                  || IsUserRequestingOwnData(httpContext.value, FirstValue(httpContext.value.user, NameIdentifier).value))
  {
    match httpContext
    case None => []
    case Some(request) =>
      var userIdClaim := FirstValue(request.user, NameIdentifier);
      var userRole := FirstValue(request.user, Role);
      if Text.IsNullOrEmpty(userIdClaim) then []
      else if IsAdmin(userRole) then [Succeed]
      else if IsUserRequestingOwnData(request, userIdClaim.value) then [Succeed]
      else []
  }

  /** `AdminAuthorizationHandler.HandleRequirementAsync`: exactly one call,
      `Succeed` when the first role claim is "Admin" and `Fail` otherwise,
      a missing role claim included. */
  function HandleAdminRequirement(user: seq<Claim>): (calls: seq<Call>)
    ensures |calls| == 1
    ensures calls == [Succeed] <==> FirstValue(user, Role) == Some("Admin")
    ensures calls == [Fail] <==> FirstValue(user, Role) != Some("Admin")
  {
    if FirstValue(user, Role) == Some("Admin") then [Succeed] else [Fail]
  }

  /** With no ambient request the user handler decides nothing. */
  lemma NoRequestNoSuccess()
    ensures HandleUserRequirement(None) == []
  {
  }

  /** An admin without an id claim is denied by the user handler, because
      the id check comes first. */
  lemma AdminWithoutIdDenied(request: RequestContext)
    requires IsAdmin(FirstValue(request.user, Role))
    requires FindFirst(request.user, NameIdentifier).None?
    ensures HandleUserRequirement(Some(request)) == []
  {
  }

  /** An admin with an id claim succeeds whatever the route says. */
  lemma AdminIgnoresRoute(user: seq<Claim>, routes: map<string, string>, others: map<string, string>)
    requires IsAdmin(FirstValue(user, Role))
    requires !Text.IsNullOrEmpty(FirstValue(user, NameIdentifier))
    ensures HandleUserRequirement(Some(RequestContext(user, routes))) == [Succeed]
    ensures HandleUserRequirement(Some(RequestContext(user, routes))) == HandleUserRequirement(Some(RequestContext(user, others)))
  {
  }

  /** A user who is not an admin passes exactly on their own id. */
  lemma NonAdminNeedsOwnId(request: RequestContext, id: string)
    requires !IsAdmin(FirstValue(request.user, Role))
    requires FirstValue(request.user, NameIdentifier) == Some(id) && id != ""
    ensures HandleUserRequirement(Some(request)) == [Succeed] <==> "id" in request.routeValues && request.routeValues["id"] == id
    ensures HandleUserRequirement(Some(request)) != [Succeed] ==> HandleUserRequirement(Some(request)) == []
  {
  }

  /** The role match is case-sensitive: "admin" is not an admin. */
  lemma RoleMatchIsExact(user: seq<Claim>)
    requires FirstValue(user, Role) == Some("admin")
    ensures HandleAdminRequirement(user) == [Fail]
  {
  }

  /** The claim type is matched ignoring letter case: a leading claim
      "Admin" of any case variant of the role type passes. */
  lemma RoleTypeIgnoresCase(user: seq<Claim>, kind: string)
    requires |user| > 0 && user[0] == Claim(kind, "Admin") && SameKind(kind, Role)
    ensures HandleAdminRequirement(user) == [Succeed]
  {
    FindFirstCons(user[0], user[1..]);
    assert [user[0]] + user[1..] == user;
  }

  /** The admin handler reads only the first role claim: two principals that
      agree on it are treated alike, whatever their other claims. */
  lemma AdminDecisionOnlyReadsFirstRole(a: seq<Claim>, b: seq<Claim>)
    requires FirstValue(a, Role) == FirstValue(b, Role)
    ensures HandleAdminRequirement(a) == HandleAdminRequirement(b)
  {
  }

  /** Whoever passes the admin handler and carries an id claim passes the
      user handler on every route. */
  lemma AdminPassesUserHandler(user: seq<Claim>, routes: map<string, string>)
    requires HandleAdminRequirement(user) == [Succeed]
    requires !Text.IsNullOrEmpty(FirstValue(user, NameIdentifier))
    ensures HandleUserRequirement(Some(RequestContext(user, routes))) == [Succeed]
  {
  }
}
