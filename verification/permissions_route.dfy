/** `GET /api/permissions` (app/api/permissions/route.ts): the caller's own
    permission names, resolved afresh from the store through the session's
    user id. The role snapshot inside the token is never read. */
module PermissionsRoute {
  import opened Wrappers
  import opened Store
  import opened Auth
  import opened Permissions

  const Unauthorized := "Unauthorized"

  datatype Body = ErrorBody(error: string) | PermissionsBody(permissions: seq<string>)

  /** A `NextResponse.json(body, { status })`; the default status is 200. */
  datatype Response = Response(status: int, body: Body)

  /** `GET()`, given what `getSession()` returned for the request. */
  method Get(st: Store, session: Option<UserSession>) returns (response: Response)
    ensures session.None? <==> response == Response(401, ErrorBody(Unauthorized))
    ensures session.Some? ==>
      && response.status == 200
      && response.body.PermissionsBody?
      && forall n :: n in response.body.permissions <==> n in EffectivePermissions(st, session.value.user.id)
    ensures session.Some? && UniquePermissionNames(st) ==> NoDuplicates(response.body.permissions)
  {
    if session.None? {
      return Response(401, ErrorBody(Unauthorized));
    }
    var permissions := GetUserPermissions(st, session.value.user.id);
    response := Response(200, PermissionsBody(permissions));
  }
}
