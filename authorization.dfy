/**
 * Role and ownership checks shared by the controllers: the admin gate and `can_manage?`,
 * which decides ownership by the first owner column a record has.
 */
module Authorization {
  import opened Wrappers
  import Users

  /** An owner column: the record may not have it at all, or have it with a nil value. */
  datatype Column = Absent | Present(value: Option<nat>)

  /** The owner columns `can_manage?` looks at, in the order it looks at them. */
  datatype Resource = Resource(userId: Column, createdById: Column, uploadedById: Column)

  /** How a refused request is answered. */
  datatype Response = Allowed | Forbidden | RedirectToDashboard(alert: string)

  /** The owner id of the first column the record has; `None` when it has none or the value is nil. */
  function DecidingOwner(r: Resource): (owner: Option<nat>)
    ensures r.userId.Present? ==> owner == r.userId.value
    ensures r.userId.Absent? && r.createdById.Present? ==> owner == r.createdById.value
    ensures r.userId.Absent? && r.createdById.Absent? && r.uploadedById.Present? ==> owner == r.uploadedById.value
    ensures r.userId.Absent? && r.createdById.Absent? && r.uploadedById.Absent? ==> owner.None?
  {
    if r.userId.Present? then r.userId.value
    else if r.createdById.Present? then r.createdById.value
    else if r.uploadedById.Present? then r.uploadedById.value
    else None
  }

  /** `can_manage?`: nobody without a user; every admin; otherwise exactly the owner. */
  function CanManage(user: Option<Users.User>, r: Resource): (ok: bool)
    ensures user.None? ==> !ok
    ensures user.Some? && user.value.IsAdmin() ==> ok
    ensures user.Some? && !user.value.IsAdmin() ==> (ok <==> DecidingOwner(r) == Some(user.value.id))
  {
    match user
    case None => false
    case Some(u) => u.IsAdmin() || DecidingOwner(r) == Some(u.id)
  }

  /** The refusal shape shared by `require_admin` and `authorize_resource`. */
  function Refusal(xhrOrJson: bool, alert: string): (resp: Response)
    ensures resp != Allowed
    ensures resp == Forbidden <==> xhrOrJson
  {
    if xhrOrJson then Forbidden else RedirectToDashboard(alert)
  }

  /** `require_admin`: admins pass; anyone else gets 403 on XHR/JSON, a redirect otherwise. */
  function RequireAdmin(user: Option<Users.User>, xhrOrJson: bool): (resp: Response)
    ensures resp == Allowed <==> user.Some? && user.value.IsAdmin()
    ensures resp != Allowed ==> (resp == Forbidden <==> xhrOrJson)
  {
    if user.Some? && user.value.IsAdmin() then Allowed
    else Refusal(xhrOrJson, "You don't have permission to access this page.")
  }

  /** `authorize_resource`: passes exactly when `can_manage?` holds. */
  function AuthorizeResource(user: Option<Users.User>, r: Resource, xhrOrJson: bool): (resp: Response)
    ensures resp == Allowed <==> CanManage(user, r)
    ensures resp != Allowed ==> (resp == Forbidden <==> xhrOrJson)
  {
    if CanManage(user, r) then Allowed
    else Refusal(xhrOrJson, "You don't have permission to perform this action.")
  }
}
