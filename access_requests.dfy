/**
 * Requests to join the family hub: creation rules (a well-formed, normalised e-mail with no
 * pending request and no account yet) and the pending -> approved | denied review machine.
 */
module AccessRequests {
  import opened Wrappers
  import opened Text
  import Users

  const RequestStatuses: seq<string> := ["pending", "approved", "denied"]

  datatype AccessRequest = AccessRequest(
    id: nat,
    email: string,
    firstName: string,
    lastName: string,
    dateOfBirth: Option<int>,
    city: string,
    status: string,
    reviewedBy: Option<nat>,
    reviewedAt: Option<int>)
  {
    predicate IsPending() { status == "pending" }
  }

  /** The fields a visitor fills in. */
  datatype RequestForm = RequestForm(email: string, firstName: string, lastName: string, dateOfBirth: Option<int>, city: string)

  /** Some pending request already uses exactly this e-mail. */
  predicate PendingFor(rows: seq<AccessRequest>, email: string) {
    exists r | r in rows :: r.IsPending() && r.email == email
  }

  /** Some user already has exactly this e-mail. */
  predicate Registered(users: seq<Users.User>, email: string) {
    exists u | u in users :: u.email == email
  }

  /**
   * The attributes that fail validation when a request is created, by name. `f.email` is
   * already normalised.
   */
  function RequestErrors(f: RequestForm, rows: seq<AccessRequest>, users: seq<Users.User>): (errs: set<string>)
    ensures errs == {} ==>
      !IsBlank(f.email) && IsEmailAddress(f.email) && !PendingFor(rows, f.email) && !Registered(users, f.email)
      && 1 <= |f.firstName| <= 50 && !IsBlank(f.firstName) && 1 <= |f.lastName| <= 50 && !IsBlank(f.lastName)
      && f.dateOfBirth.Some? && 1 <= |f.city| <= 100 && !IsBlank(f.city)
    ensures PendingFor(rows, f.email) || Registered(users, f.email) ==> "email" in errs
  {
    (if IsBlank(f.email) || !IsEmailAddress(f.email) || PendingFor(rows, f.email) || Registered(users, f.email)
     then {"email"} else {})
    + (if IsBlank(f.firstName) || !(1 <= |f.firstName| <= 50) then {"first_name"} else {})
    + (if IsBlank(f.lastName) || !(1 <= |f.lastName| <= 50) then {"last_name"} else {})
    + (if f.dateOfBirth.None? then {"date_of_birth"} else {})
    + (if IsBlank(f.city) || !(1 <= |f.city| <= 100) then {"city"} else {})
  }

  /** A stored request passes the validations that run on every save. */
  predicate WellFormed(r: AccessRequest) {
    !IsBlank(r.email) && IsEmailAddress(r.email)
    && 1 <= |r.firstName| <= 50 && 1 <= |r.lastName| <= 50 && r.dateOfBirth.Some?
    && 1 <= |r.city| <= 100 && r.status in RequestStatuses
  }

  /** The user an approval creates: the request's fields, the given password, `password_changed` false. */
  function UserFromRequest(r: AccessRequest, password: string): Users.NewUser {
    Users.NewUser(r.email, password, r.firstName, r.lastName, r.dateOfBirth, r.city,
                  "member", "active", "system", false)
  }

  class AccessRequestTable {
    var rows: seq<AccessRequest>
    var nextId: nat

    ghost predicate Valid()
      reads this
    {
      TableInvariant(rows, nextId)
    }

    constructor ()
      ensures Valid() && rows == []
    {
      rows := [];
      nextId := 1;
    }

    function IndexOf(id: nat): (r: Option<nat>)
      reads this
      ensures r.Some? ==> r.value < |rows| && rows[r.value].id == id
      ensures r.None? ==> forall i :: 0 <= i < |rows| ==> rows[i].id != id
    {
      IndexIn(rows, id)
    }

    /** Files a new pending request, unless the normalised form fails validation. */
    method Create(form: RequestForm, users: seq<Users.User>) returns (r: Result<AccessRequest, set<string>>)
      requires Valid()
      modifies this
      ensures Valid()
      ensures var f := form.(email := Users.NormalizeEmail(form.email));
        if RequestErrors(f, old(rows), users) == {} then
          r.Ok? && rows == old(rows) + [r.value]
          && r.value == AccessRequest(r.value.id, f.email, f.firstName, f.lastName, f.dateOfBirth, f.city,
                                      "pending", None, None)
        else
          r == Err(RequestErrors(f, old(rows), users)) && rows == old(rows)
    {
      var f := form.(email := Users.NormalizeEmail(form.email));
      var errs := RequestErrors(f, rows, users);
      if errs != {} {
        return Err(errs);
      }
      var req := AccessRequest(nextId, f.email, f.firstName, f.lastName, f.dateOfBirth, f.city, "pending", None, None);
      AcceptedRequest(f, rows, users, req);
      AppendKeepsInvariant(rows, nextId, req);
      rows := rows + [req];
      nextId := nextId + 1;
      assert TableInvariant(rows, nextId);
      return Ok(req);
    }

    /**
     * `deny!`: refused (false) unless the request is pending; otherwise it becomes denied,
     * with the reviewing admin and the time.
     */
    method Deny(id: nat, admin: nat, now: int) returns (ok: bool)
      requires Valid()
      modifies this
      ensures Valid() && nextId == old(nextId)
      ensures match old(IndexOf(id))
        case None => !ok && rows == old(rows)
        case Some(i) =>
          if old(rows)[i].IsPending() then
            ok && rows == old(rows)[i := old(rows)[i].(status := "denied", reviewedBy := Some(admin), reviewedAt := Some(now))]
          else
            !ok && rows == old(rows)
    {
      var k := IndexOf(id);
      if k.None? || !rows[k.value].IsPending() {
        return false;
      }
      var i := k.value;
      rows := rows[i := rows[i].(status := "denied", reviewedBy := Some(admin), reviewedAt := Some(now))];
      return true;
    }

    /** Marks a pending request approved; a helper of `Approve`. */
    method SetApproved(i: nat, admin: nat, now: int)
      requires Valid() && i < |rows| && rows[i].IsPending()
      modifies this
      ensures Valid() && nextId == old(nextId)
      ensures rows == old(rows)[i := old(rows)[i].(status := "approved", reviewedBy := Some(admin), reviewedAt := Some(now))]
    {
      rows := rows[i := rows[i].(status := "approved", reviewedBy := Some(admin), reviewedAt := Some(now))];
    }
  }

  /** Ids are unique, rows are well formed, and no two pending requests share an e-mail. */
  ghost predicate TableInvariant(rows: seq<AccessRequest>, nextId: nat) {
    (forall i :: 0 <= i < |rows| ==> WellFormed(rows[i]) && rows[i].id < nextId)
    && (forall i, j :: 0 <= i < j < |rows| ==> rows[i].id != rows[j].id)
    && (forall i, j :: 0 <= i < j < |rows| && rows[i].IsPending() && rows[j].IsPending() ==>
          rows[i].email != rows[j].email)
  }

  lemma AppendKeepsInvariant(rows: seq<AccessRequest>, nextId: nat, req: AccessRequest)
    requires TableInvariant(rows, nextId) && WellFormed(req) && req.id == nextId
    requires forall i :: 0 <= i < |rows| && rows[i].IsPending() ==> rows[i].email != req.email
    ensures TableInvariant(rows + [req], nextId + 1)
  {
    var r := rows + [req];
    forall i, j | 0 <= i < j < |r| && r[i].IsPending() && r[j].IsPending() ensures r[i].email != r[j].email {
      if j < |rows| { assert r[i] == rows[i] && r[j] == rows[j]; }
    }
  }

  /** A form that passed validation gives a well-formed request whose e-mail no pending request uses. */
  lemma AcceptedRequest(f: RequestForm, rows: seq<AccessRequest>, users: seq<Users.User>, req: AccessRequest)
    requires RequestErrors(f, rows, users) == {}
    requires req == AccessRequest(req.id, f.email, f.firstName, f.lastName, f.dateOfBirth, f.city, "pending", None, None)
    ensures WellFormed(req)
    ensures forall i :: 0 <= i < |rows| && rows[i].IsPending() ==> rows[i].email != req.email
  {
    forall i | 0 <= i < |rows| && rows[i].IsPending() ensures rows[i].email != req.email {
      assert rows[i] in rows;
    }
  }

  function IndexIn(rows: seq<AccessRequest>, id: nat): (r: Option<nat>)
    ensures r.Some? ==> r.value < |rows| && rows[r.value].id == id
    ensures r.None? ==> forall i :: 0 <= i < |rows| ==> rows[i].id != id
  {
    if rows == [] then None
    else if rows[|rows| - 1].id == id then Some(|rows| - 1)
    else IndexIn(rows[..|rows| - 1], id)
  }

  /**
   * `approve!`: nothing unless the request is pending. Otherwise, in one transaction, a user
   * is created from the request and the request becomes approved; when the user is refused
   * by validation, nothing changes and there is no result.
   */
  method Approve(requests: AccessRequestTable, users: Users.UserTable, id: nat, admin: nat, password: string, now: int)
    returns (r: Option<Users.User>)
    requires requests.Valid() && users.Valid()
    modifies requests, users
    ensures requests.Valid() && users.Valid()
    ensures match old(requests.IndexOf(id))
      case None => r.None? && requests.rows == old(requests.rows) && users.rows == old(users.rows)
      case Some(i) =>
        var req := old(requests.rows)[i];
        var attrs := UserFromRequest(req, password);
        if !req.IsPending() || Users.UserErrors(attrs.(email := Users.NormalizeEmail(attrs.email)), old(users.rows)) != {} then
          r.None? && requests.rows == old(requests.rows) && users.rows == old(users.rows)
        else
          r.Some? && users.rows == old(users.rows) + [r.value]
          && r.value.email == Users.NormalizeEmail(req.email) && r.value.firstName == req.firstName
          && r.value.lastName == req.lastName && r.value.city == req.city && !r.value.passwordChanged
          && requests.rows == old(requests.rows)[i := req.(status := "approved", reviewedBy := Some(admin), reviewedAt := Some(now))]
  {
    var k := requests.IndexOf(id);
    if k.None? || !requests.rows[k.value].IsPending() {
      return None;
    }
    var i := k.value;
    var created := users.Create(UserFromRequest(requests.rows[i], password));
    if created.Err? {
      return None;
    }
    requests.SetApproved(i, admin, now);
    return Some(created.value);
  }
}
