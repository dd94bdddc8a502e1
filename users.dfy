/**
 * Family members: the account record, the validations every save runs, e-mail
 * normalisation and lookup, the first-user-becomes-admin rule, log-in, and the
 * status and role transitions.
 */
module Users {
  import opened Wrappers
  import opened Text

  const Roles: seq<string> := ["admin", "member"]
  const Statuses: seq<string> := ["active", "inactive", "removed"]
  const ColorModes: seq<string> := ["light", "dark", "system"]

  /**
   * A stored user. `password` stands for the bcrypt digest: the model compares it for
   * equality where the application compares digests. A missing date of birth is `None`.
   */
  datatype User = User(
    id: nat,
    email: string,
    password: string,
    firstName: string,
    lastName: string,
    dateOfBirth: Option<int>,
    city: string,
    role: string,
    status: string,
    colorMode: string,
    passwordChanged: bool)
  {
    predicate IsAdmin() { role == "admin" }
    predicate IsMember() { role == "member" }
    predicate IsActive() { status == "active" }
    predicate IsInactive() { status == "inactive" }
    predicate IsRemoved() { status == "removed" }
  }

  /** The attributes a new user is created from (the id is assigned on insert). */
  datatype NewUser = NewUser(
    email: string,
    password: string,
    firstName: string,
    lastName: string,
    dateOfBirth: Option<int>,
    city: string,
    role: string,
    status: string,
    colorMode: string,
    passwordChanged: bool)

  /** "first last". */
  function FullName(first: string, last: string): (r: string)
    ensures |r| == |first| + 1 + |last|
    ensures r[..|first|] == first && r[|first|] == ' ' && r[|first| + 1..] == last
  {
    first + " " + last
  }

  /** The upcased first letters of both names; a missing letter is left out. */
  function Initials(first: string, last: string): (r: string)
    ensures |r| <= 2
    ensures first != [] && last != [] ==> r == [UpperChar(first[0]), UpperChar(last[0])]
    ensures first == [] && last == [] ==> r == []
  {
    Upcase((if first == [] then [] else [first[0]]) + (if last == [] then [] else [last[0]]))
  }

  /** The `before_validation` hook: a present e-mail is lowercased and stripped. */
  function NormalizeEmail(email: string): (r: string)
    ensures IsBlank(email) ==> r == email
    ensures !IsBlank(email) ==> r == Strip(Downcase(email)) && Downcase(r) == r
  {
    if IsBlank(email) then email
    else
      var r := Strip(Downcase(email));
      DowncaseOfStripDowncase(email);
      r
  }

  lemma DowncaseOfStripDowncase(s: string)
    ensures Downcase(Strip(Downcase(s))) == Strip(Downcase(s))
  {
    var d := Downcase(s);
    var l := StripLeft(d);
    var t := StripRight(l);
    DowncaseIsLower(s);
    LowerSlice(d, |d| - |l|, t);
    DowncaseFixed(t);
  }

  /** Every character of a downcased string is left alone by downcasing. */
  lemma DowncaseIsLower(s: string)
    ensures forall j :: 0 <= j < |s| ==> LowerChar(Downcase(s)[j]) == Downcase(s)[j]
  {
    forall j | 0 <= j < |s| ensures LowerChar(Downcase(s)[j]) == Downcase(s)[j] {
      LowerCharIdempotent(s[j]);
    }
  }

  /** A piece of a lower-case string is lower case. */
  lemma LowerSlice(d: string, k: nat, t: string)
    requires forall j :: 0 <= j < |d| ==> LowerChar(d[j]) == d[j]
    requires k + |t| <= |d| && t == d[k..k + |t|]
    ensures forall i :: 0 <= i < |t| ==> LowerChar(t[i]) == t[i]
  {
    forall i | 0 <= i < |t| ensures LowerChar(t[i]) == t[i] {
      assert t[i] == d[k + i];
    }
  }

  lemma LowerCharIdempotent(c: char)
    ensures LowerChar(LowerChar(c)) == LowerChar(c)
  {
  }

  /** Downcasing a string of characters that downcasing leaves alone changes nothing. */
  lemma DowncaseFixed(t: string)
    requires forall i :: 0 <= i < |t| ==> LowerChar(t[i]) == t[i]
    ensures Downcase(t) == t
  {
    var r := Downcase(t);
    assert forall i :: 0 <= i < |t| ==> r[i] == t[i];
  }

  /** Normalising an already normalised e-mail changes nothing. */
  lemma NormalizeEmailIdempotent(email: string)
    ensures NormalizeEmail(NormalizeEmail(email)) == NormalizeEmail(email)
  {
    if !IsBlank(email) {
      var n := NormalizeEmail(email);
      if !IsBlank(n) {
        StripIdempotent(Downcase(email));
      }
    }
  }

  /** `LOWER(email) = ?` with the query downcased and stripped: the first matching user. */
  function FindByEmail(rows: seq<User>, query: string): (r: Option<User>)
    ensures r.Some? ==> r.value in rows && Downcase(r.value.email) == Strip(Downcase(query))
    ensures r.None? ==> forall u | u in rows :: Downcase(u.email) != Strip(Downcase(query))
  {
    FindByKey(rows, Strip(Downcase(query)))
  }

  /** The first user whose lowercased e-mail is `key`. */
  function FindByKey(rows: seq<User>, key: string): (r: Option<User>)
    ensures r.Some? ==> r.value in rows && Downcase(r.value.email) == key
    ensures r.None? ==> forall u | u in rows :: Downcase(u.email) != key
  {
    if rows == [] then None
    else if Downcase(rows[0].email) == key then Some(rows[0])
    else FindByKey(rows[1..], key)
  }

  /** `find_by_email` applies the same normalisation as saving: a normalised query finds the same user. */
  lemma FindByNormalizedEmail(rows: seq<User>, query: string)
    ensures FindByEmail(rows, NormalizeEmail(query)) == FindByEmail(rows, query)
  {
    if !IsBlank(query) {
      var n := NormalizeEmail(query);
      assert Downcase(n) == n;
      StripIdempotent(Downcase(query));
      assert Strip(Downcase(n)) == Strip(Downcase(query));
    }
  }

  /** Some stored e-mail equals `email` ignoring case (the case-insensitive uniqueness query). */
  predicate EmailTaken(rows: seq<User>, email: string) {
    exists u | u in rows :: Downcase(u.email) == Downcase(email)
  }

  /**
   * The attributes that fail validation, by name. `password` is the plain password given
   * with the save, if any: `has_secure_password` demands a non-empty one on create, and a
   * non-blank one must have at least 8 characters.
   */
  function UserErrors(u: NewUser, others: seq<User>): (errs: set<string>)
    ensures errs == {} ==>
      !IsBlank(u.email) && IsEmailAddress(u.email) && !EmailTaken(others, u.email)
      && 1 <= |u.firstName| <= 50 && !IsBlank(u.firstName) && 1 <= |u.lastName| <= 50 && !IsBlank(u.lastName)
      && 1 <= |u.city| <= 100 && !IsBlank(u.city)
      && u.dateOfBirth.Some? && u.role in Roles && u.status in Statuses && u.colorMode in ColorModes
      && u.password != [] && (IsBlank(u.password) || |u.password| >= 8)
  {
    (if IsBlank(u.email) || EmailTaken(others, u.email) || !IsEmailAddress(u.email) then {"email"} else {})
    + (if IsBlank(u.firstName) || !(1 <= |u.firstName| <= 50) then {"first_name"} else {})
    + (if IsBlank(u.lastName) || !(1 <= |u.lastName| <= 50) then {"last_name"} else {})
    + (if u.dateOfBirth.None? then {"date_of_birth"} else {})
    + (if IsBlank(u.city) || !(1 <= |u.city| <= 100) then {"city"} else {})
    + (if u.role !in Roles then {"role"} else {})
    + (if u.status !in Statuses then {"status"} else {})
    + (if u.colorMode !in ColorModes then {"color_mode"} else {})
    + (if u.password == [] || (!IsBlank(u.password) && |u.password| < 8) then {"password"} else {})
  }

  /** A stored user passes every per-record rule (uniqueness is the table's invariant). */
  predicate WellFormed(u: User) {
    !IsBlank(u.email) && IsEmailAddress(u.email) && Downcase(u.email) == u.email
    && 1 <= |u.firstName| <= 50 && !IsBlank(u.firstName)
    && 1 <= |u.lastName| <= 50 && !IsBlank(u.lastName)
    && u.dateOfBirth.Some? && 1 <= |u.city| <= 100 && !IsBlank(u.city)
    && u.role in Roles && u.status in Statuses && u.colorMode in ColorModes
  }

  /**
   * `User.authenticate`: nobody unless the e-mail finds an active user whose password matches.
   */
  function Authenticate(rows: seq<User>, email: string, password: string): (r: Option<User>)
    ensures r.Some? <==> FindByEmail(rows, email).Some? && FindByEmail(rows, email).value.IsActive()
                         && FindByEmail(rows, email).value.password == password
    ensures r.Some? ==> r == FindByEmail(rows, email)
  {
    var user := FindByEmail(rows, email);
    if user.None? || !user.value.IsActive() then None
    else if user.value.password == password then user
    else None
  }

  /** The users table. */
  class UserTable {
    var rows: seq<User>
    var nextId: nat

    ghost predicate Valid()
      reads this
    {
      RowsValid(rows, nextId)
    }

    constructor ()
      ensures Valid() && rows == []
    {
      rows := [];
      nextId := 1;
    }

    /**
     * Saves a new user: the e-mail is normalised, the record validated, and the first user
     * ever created is made admin (a `before_create` hook, so only after validation passes).
     */
    method Create(attrs: NewUser) returns (r: Result<User, set<string>>)
      requires Valid()
      modifies this
      ensures Valid()
      ensures var a := attrs.(email := NormalizeEmail(attrs.email));
        if UserErrors(a, old(rows)) == {} then
          r.Ok? && rows == old(rows) + [r.value] && (forall v | v in old(rows) :: v.id != r.value.id)
          && r.value == User(r.value.id, a.email, a.password, a.firstName, a.lastName, a.dateOfBirth,
                             a.city, if old(rows) == [] then "admin" else a.role, a.status, a.colorMode,
                             a.passwordChanged)
        else
          r == Err(UserErrors(a, old(rows))) && rows == old(rows)
    {
      var a := attrs.(email := NormalizeEmail(attrs.email));
      var errs := UserErrors(a, rows);
      if errs != {} {
        return Err(errs);
      }
      var role := if rows == [] then "admin" else a.role;
      var u := User(nextId, a.email, a.password, a.firstName, a.lastName, a.dateOfBirth,
                    a.city, role, a.status, a.colorMode, a.passwordChanged);
      CreatedKeepsValid(attrs, rows, nextId, u);
      rows := rows + [u];
      nextId := nextId + 1;
      assert RowsValid(rows, nextId);
      return Ok(u);
    }

    /** The position of the user with this id, if stored. */
    function IndexOf(id: nat): (r: Option<nat>)
      reads this
      ensures r.Some? ==> r.value < |rows| && rows[r.value].id == id
      ensures r.None? ==> forall i :: 0 <= i < |rows| ==> rows[i].id != id
    {
      IndexIn(rows, id)
    }

    /** Replaces the stored user `id` by `f` of it; every other row is unchanged. */
    method Update(id: nat, role: Option<string>, status: Option<string>)
      requires Valid()
      requires role.Some? ==> role.value in Roles
      requires status.Some? ==> status.value in Statuses
      modifies this
      ensures Valid() && nextId == old(nextId)
      ensures match old(IndexOf(id))
        case None => rows == old(rows)
        case Some(i) => rows == old(rows)[i := old(rows)[i].(role := role.GetOr(old(rows)[i].role),
                                                           status := status.GetOr(old(rows)[i].status))]
    {
      var k := IndexOf(id);
      if k.Some? {
        var i := k.value;
        rows := rows[i := rows[i].(role := role.GetOr(rows[i].role), status := status.GetOr(rows[i].status))];
      }
    }

    /** `activate!`: the status becomes active and nothing else changes. */
    method Activate(id: nat)
      requires Valid()
      modifies this
      ensures Valid() && nextId == old(nextId)
      ensures match old(IndexOf(id))
        case None => rows == old(rows)
        case Some(i) => rows == old(rows)[i := old(rows)[i].(status := "active")]
    {
      Update(id, None, Some("active"));
    }

    /** `deactivate!`: the status becomes inactive and nothing else changes. */
    method Deactivate(id: nat)
      requires Valid()
      modifies this
      ensures Valid() && nextId == old(nextId)
      ensures match old(IndexOf(id))
        case None => rows == old(rows)
        case Some(i) => rows == old(rows)[i := old(rows)[i].(status := "inactive")]
    {
      Update(id, None, Some("inactive"));
    }

    /** `remove!`: a soft removal; the status becomes removed and nothing else changes. */
    method Remove(id: nat)
      requires Valid()
      modifies this
      ensures Valid() && nextId == old(nextId)
      ensures match old(IndexOf(id))
        case None => rows == old(rows)
        case Some(i) => rows == old(rows)[i := old(rows)[i].(status := "removed")]
    {
      Update(id, None, Some("removed"));
    }

    /** `make_admin!`: the role becomes admin and nothing else changes. */
    method MakeAdmin(id: nat)
      requires Valid()
      modifies this
      ensures Valid() && nextId == old(nextId)
      ensures match old(IndexOf(id))
        case None => rows == old(rows)
        case Some(i) => rows == old(rows)[i := old(rows)[i].(role := "admin")]
    {
      Update(id, Some("admin"), None);
    }

    /** `make_member!`: the role becomes member and nothing else changes. */
    method MakeMember(id: nat)
      requires Valid()
      modifies this
      ensures Valid() && nextId == old(nextId)
      ensures match old(IndexOf(id))
        case None => rows == old(rows)
        case Some(i) => rows == old(rows)[i := old(rows)[i].(role := "member")]
    {
      Update(id, Some("member"), None);
    }
  }

  /** Every stored user is well formed and below the next id; ids and e-mails are unique. */
  ghost predicate RowsValid(rows: seq<User>, nextId: nat) {
    (forall i :: 0 <= i < |rows| ==> WellFormed(rows[i]) && rows[i].id < nextId)
    && (forall i, j :: 0 <= i < j < |rows| ==> rows[i].id != rows[j].id && rows[i].email != rows[j].email)
  }

  /** Appending a well-formed record under the next id, with an e-mail new to the table, keeps it valid. */
  lemma AppendKeepsValid(rows: seq<User>, nextId: nat, u: User)
    requires RowsValid(rows, nextId) && WellFormed(u) && u.id == nextId
    requires forall v | v in rows :: v.email != u.email
    ensures RowsValid(rows + [u], nextId + 1)
  {
    var r := rows + [u];
    forall i, j | 0 <= i < j < |r| ensures r[i].id != r[j].id && r[i].email != r[j].email {
      if j == |rows| {
        assert r[i] in rows;
      }
    }
  }

  lemma CreatedKeepsValid(attrs: NewUser, rows: seq<User>, nextId: nat, u: User)
    requires RowsValid(rows, nextId)
    requires UserErrors(attrs.(email := NormalizeEmail(attrs.email)), rows) == {}
    requires var a := attrs.(email := NormalizeEmail(attrs.email));
      u == User(nextId, a.email, a.password, a.firstName, a.lastName, a.dateOfBirth,
                a.city, if rows == [] then "admin" else a.role, a.status, a.colorMode, a.passwordChanged)
    ensures RowsValid(rows + [u], nextId + 1)
    ensures forall v | v in rows :: v.id != u.id
  {
    AcceptedIsWellFormed(attrs, rows, u);
    AppendKeepsValid(rows, nextId, u);
  }

  lemma AcceptedIsWellFormed(attrs: NewUser, rows: seq<User>, u: User)
    requires forall v | v in rows :: Downcase(v.email) == v.email
    requires UserErrors(attrs.(email := NormalizeEmail(attrs.email)), rows) == {}
    requires var a := attrs.(email := NormalizeEmail(attrs.email));
      u == User(u.id, a.email, a.password, a.firstName, a.lastName, a.dateOfBirth,
                a.city, u.role, a.status, a.colorMode, a.passwordChanged)
    requires u.role in Roles
    ensures WellFormed(u)
    ensures forall v | v in rows :: v.email != u.email
  {
    var a := attrs.(email := NormalizeEmail(attrs.email));
    assert !IsBlank(a.email);
    assert !IsBlank(attrs.email);
    assert Downcase(a.email) == a.email;
    assert !EmailTaken(rows, a.email);
  }

  function IndexIn(rows: seq<User>, id: nat): (r: Option<nat>)
    ensures r.Some? ==> r.value < |rows| && rows[r.value].id == id
    ensures r.None? ==> forall i :: 0 <= i < |rows| ==> rows[i].id != id
  {
    if rows == [] then None
    else if rows[|rows| - 1].id == id then Some(|rows| - 1)
    else IndexIn(rows[..|rows| - 1], id)
  }

  /** The user with this id, if stored. */
  function FindById(rows: seq<User>, id: nat): (r: Option<User>)
    ensures r.Some? ==> r.value in rows && r.value.id == id
    ensures r.None? ==> forall u | u in rows :: u.id != id
  {
    match IndexIn(rows, id)
    case Some(i) => Some(rows[i])
    case None => None
  }

  /** A user just created is the one `find_by_email` returns for the e-mail it was created with. */
  lemma CreatedUserIsFound(rows: seq<User>, u: User, email: string)
    requires forall v | v in rows :: Downcase(v.email) == v.email && v.email != u.email
    requires !IsBlank(email) && u.email == NormalizeEmail(email)
    ensures FindByEmail(rows + [u], email) == Some(u)
  {
    FindAppended(rows, u, email);
  }

  lemma FindAppended(rows: seq<User>, u: User, email: string)
    requires forall v | v in rows :: Downcase(v.email) == v.email && v.email != u.email
    requires !IsBlank(email) && u.email == NormalizeEmail(email)
    ensures FindByEmail(rows + [u], email) == Some(u)
  {
    FindKeyAppended(rows, u, Strip(Downcase(email)));
  }

  lemma {:induction false} FindKeyAppended(rows: seq<User>, u: User, key: string)
    requires forall v | v in rows :: Downcase(v.email) == v.email && v.email != u.email
    requires Downcase(u.email) == key && u.email == key
    ensures FindByKey(rows + [u], key) == Some(u)
  {
    if rows != [] {
      assert (rows + [u])[1..] == rows[1..] + [u];
      FindKeyAppended(rows[1..], u, key);
    }
  }
}
