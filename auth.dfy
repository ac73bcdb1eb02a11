/** The authentication gate in front of the routes: bearer-token extraction
    and the role checks. Token verification (signature, expiry, secret) is a
    parameter: `verify(token)` is the decoded payload, or `None` where the
    verifier throws. */
module Auth {
  import opened Wrappers
  import opened Text

  const SUPER_ADMIN := "SUPER_ADMIN"
  const SECRETARY := "SECRETARY"

  const BEARER := "Bearer "
  const UNAUTHORIZED := "Unauthorized"
  const FORBIDDEN := "Forbidden"

  /** The decoded token: the user's id and role. */
  datatype AuthPayload = AuthPayload(sub: string, role: string)

  /** What `requireAuth` does: call `next` with `auth` set, or answer 401. */
  datatype AuthVerdict = Authenticated(auth: AuthPayload) | Unauthenticated(status: nat, message: string)

  /** What a role check does: call `next`, or answer 403. */
  datatype Gate = Pass | Block(status: nat, message: string)

  /** The token after the `Bearer ` prefix, if the header has that prefix. */
  function BearerToken(header: string): (t: Option<string>)
    ensures t.Some? <==> StartsWith(header, BEARER)
    ensures t.Some? ==> header == BEARER + t.value
  {
    if StartsWith(header, BEARER) then Some(header[|BEARER|..]) else None
  }

  /** `requireAuth`: a missing header counts as empty; no prefix, an empty
      token or a token the verifier rejects gives 401. */
  function RequireAuth(authorization: Option<string>, verify: string -> Option<AuthPayload>): (r: AuthVerdict)
    ensures r.Unauthenticated? ==> r == Unauthenticated(401, UNAUTHORIZED)
    ensures r.Authenticated? <==>
      (authorization.Some? && StartsWith(authorization.value, BEARER)
       && |authorization.value| > |BEARER| && verify(authorization.value[|BEARER|..]).Some?)
    ensures r.Authenticated? ==> r.auth == verify(authorization.value[|BEARER|..]).value
  {
    var header := authorization.GetOr("");
    match BearerToken(header)
    case None => Unauthenticated(401, UNAUTHORIZED)
    case Some(token) =>
      if token == "" then Unauthenticated(401, UNAUTHORIZED)
      else match verify(token)
        case None => Unauthenticated(401, UNAUTHORIZED)
        case Some(payload) => Authenticated(payload)
  }

  /** A header built from a token gives that token to the verifier. */
  lemma BearerRoundTrip(token: string, verify: string -> Option<AuthPayload>)
    ensures RequireAuth(Some(BEARER + token), verify) ==
      if token != "" && verify(token).Some? then Authenticated(verify(token).value)
      else Unauthenticated(401, UNAUTHORIZED)
  {
    assert (BEARER + token)[|BEARER|..] == token;
  }

  /** `requireRole(role)` */
  function RequireRole(role: string, auth: Option<AuthPayload>): (g: Gate)
    ensures g.Pass? <==> auth.Some? && auth.value.role == role
    ensures g.Block? ==> g == Block(403, FORBIDDEN)
  {
    if auth.None? || auth.value.role != role then Block(403, FORBIDDEN) else Pass
  }

  /** `requireRoles(...roles)` */
  function RequireRoles(roles: seq<string>, auth: Option<AuthPayload>): (g: Gate)
    ensures g.Pass? <==> auth.Some? && auth.value.role in roles
    ensures g.Block? ==> g == Block(403, FORBIDDEN)
  {
    if auth.None? || auth.value.role !in roles then Block(403, FORBIDDEN) else Pass
  }

  /** An empty role list lets nobody through. */
  lemma NoRolesBlocksAll(auth: Option<AuthPayload>)
    ensures RequireRoles([], auth) == Block(403, FORBIDDEN)
  {
  }

  /** One listed role is the same check as `requireRole`. */
  lemma SingleRoleAgrees(role: string, auth: Option<AuthPayload>)
    ensures RequireRoles([role], auth) == RequireRole(role, auth)
  {
  }

  /** Listing more roles never turns a request away that was let through. */
  lemma MoreRolesPassMore(roles: seq<string>, more: seq<string>, auth: Option<AuthPayload>)
    requires forall x :: x in roles ==> x in more
    ensures RequireRoles(roles, auth).Pass? ==> RequireRoles(more, auth).Pass?
  {
  }

  /** The gate a protected route puts up: `requireAuth` then
      `requireRole(role)`; 401 comes before 403. */
  function Guard(authorization: Option<string>, verify: string -> Option<AuthPayload>, role: string): Gate {
    match RequireAuth(authorization, verify)
    case Unauthenticated(status, message) => Block(status, message)
    case Authenticated(auth) => RequireRole(role, Some(auth))
  }

  /** A request gets through exactly with a bearer token the verifier
      accepts whose role is the route's; otherwise 401 without a valid token,
      403 with one of another role. */
  lemma GuardDecides(token: string, verify: string -> Option<AuthPayload>, role: string)
    ensures var g := Guard(Some(BEARER + token), verify, role);
      && (g.Pass? <==> token != "" && verify(token).Some? && verify(token).value.role == role)
      && (g == Block(401, UNAUTHORIZED) <==> token == "" || verify(token).None?)
      && (g == Block(403, FORBIDDEN) <==> token != "" && verify(token).Some? && verify(token).value.role != role)
  {
    BearerRoundTrip(token, verify);
  }
}
