/** The user table (app/crud/crud_user.py, `CRUDUser`) and its partial-update schema. */
module Users {
  import opened Wrappers
  import Crud

  /** The columns of a user besides its key. */
  datatype UserData = UserData(
    yandexId: string,
    email: Option<string>,
    firstName: Option<string>,
    lastName: Option<string>,
    isActive: bool,
    isSuperuser: bool)

  type User = Crud.Row<UserData>

  /** One item of an update dictionary: a column name with its new value. The external
      identity has no item, so no update can change it. */
  datatype UserAttr =
    | SetEmail(email: Option<string>)
    | SetFirstName(firstName: Option<string>)
    | SetLastName(lastName: Option<string>)
    | SetIsActive(isActive: bool)
    | SetIsSuperuser(isSuperuser: bool)

  /** `setattr(db_obj, key, value)` for one item. */
  function SetAttr(u: UserData, a: UserAttr): UserData {
    match a
    case SetEmail(v) => u.(email := v)
    case SetFirstName(v) => u.(firstName := v)
    case SetLastName(v) => u.(lastName := v)
    case SetIsActive(v) => u.(isActive := v)
    case SetIsSuperuser(v) => u.(isSuperuser := v)
  }

  /** The update applied to a user by a dictionary of items. */
  function Apply(u: UserData, data: seq<UserAttr>): UserData {
    Crud.Merge(u, data, SetAttr)
  }

  // The value the last item for each column assigns, if any item assigns it.

  function LastEmail(data: seq<UserAttr>): Option<Option<string>> {
    if data == [] then None
    else if data[|data| - 1].SetEmail? then Some(data[|data| - 1].email)
    else LastEmail(data[..|data| - 1])
  }

  function LastFirstName(data: seq<UserAttr>): Option<Option<string>> {
    if data == [] then None
    else if data[|data| - 1].SetFirstName? then Some(data[|data| - 1].firstName)
    else LastFirstName(data[..|data| - 1])
  }

  function LastLastName(data: seq<UserAttr>): Option<Option<string>> {
    if data == [] then None
    else if data[|data| - 1].SetLastName? then Some(data[|data| - 1].lastName)
    else LastLastName(data[..|data| - 1])
  }

  function LastIsActive(data: seq<UserAttr>): Option<bool> {
    if data == [] then None
    else if data[|data| - 1].SetIsActive? then Some(data[|data| - 1].isActive)
    else LastIsActive(data[..|data| - 1])
  }

  function LastIsSuperuser(data: seq<UserAttr>): Option<bool> {
    if data == [] then None
    else if data[|data| - 1].SetIsSuperuser? then Some(data[|data| - 1].isSuperuser)
    else LastIsSuperuser(data[..|data| - 1])
  }

  /** The update changes exactly the columns named in the dictionary, each to the value of its
      last item, and keeps every other column, the external identity included. */
  lemma {:induction false} ApplyByColumn(u: UserData, data: seq<UserAttr>)
    ensures Apply(u, data) == UserData(
      u.yandexId,
      LastEmail(data).GetOr(u.email),
      LastFirstName(data).GetOr(u.firstName),
      LastLastName(data).GetOr(u.lastName),
      LastIsActive(data).GetOr(u.isActive),
      LastIsSuperuser(data).GetOr(u.isSuperuser))
  {
    if data != [] {
      ApplyByColumn(u, data[..|data| - 1]);
    }
  }

  /** Applying the same update twice gives the same user as applying it once. */
  lemma ApplyIdempotent(u: UserData, data: seq<UserAttr>)
    ensures Apply(Apply(u, data), data) == Apply(u, data)
  {
    ApplyByColumn(u, data);
    ApplyByColumn(Apply(u, data), data);
  }

  /** The update schema `UserUpdate`; `None` is a field the request left unset. */
  datatype UserUpdate = UserUpdate(
    email: Option<Option<string>>,
    firstName: Option<Option<string>>,
    lastName: Option<Option<string>>,
    isActive: Option<bool>,
    isSuperuser: Option<bool>)

  /** `model_dump(exclude_unset=True)`: the set fields, in declaration order. */
  function Dump(x: UserUpdate): seq<UserAttr> {
    DumpProfile(x)
    + (if x.isActive.Some? then [SetIsActive(x.isActive.value)] else [])
    + (if x.isSuperuser.Some? then [SetIsSuperuser(x.isSuperuser.value)] else [])
  }

  /** `model_dump(exclude_unset=True, exclude={"is_superuser", "is_active"})`. */
  function DumpProfile(x: UserUpdate): seq<UserAttr> {
    (if x.email.Some? then [SetEmail(x.email.value)] else [])
    + (if x.firstName.Some? then [SetFirstName(x.firstName.value)] else [])
    + (if x.lastName.Some? then [SetLastName(x.lastName.value)] else [])
  }

  /** Updating with a schema sets exactly its set fields and keeps the unset ones. */
  lemma ApplyDump(u: UserData, x: UserUpdate)
    ensures Apply(u, Dump(x)) == UserData(
      u.yandexId,
      x.email.GetOr(u.email),
      x.firstName.GetOr(u.firstName),
      x.lastName.GetOr(u.lastName),
      x.isActive.GetOr(u.isActive),
      x.isSuperuser.GetOr(u.isSuperuser))
  {
    var d := Dump(x);
    ApplyByColumn(u, d);
    LastsOfDump(x);
  }

  lemma LastsOfDump(x: UserUpdate)
    ensures LastEmail(Dump(x)) == x.email && LastFirstName(Dump(x)) == x.firstName
    ensures LastLastName(Dump(x)) == x.lastName && LastIsActive(Dump(x)) == x.isActive
    ensures LastIsSuperuser(Dump(x)) == x.isSuperuser
    ensures LastEmail(DumpProfile(x)) == x.email && LastFirstName(DumpProfile(x)) == x.firstName
    ensures LastLastName(DumpProfile(x)) == x.lastName
    ensures LastIsActive(DumpProfile(x)) == None && LastIsSuperuser(DumpProfile(x)) == None
  {
    var e: seq<UserAttr> := if x.email.Some? then [SetEmail(x.email.value)] else [];
    var f: seq<UserAttr> := if x.firstName.Some? then [SetFirstName(x.firstName.value)] else [];
    var l: seq<UserAttr> := if x.lastName.Some? then [SetLastName(x.lastName.value)] else [];
    var a: seq<UserAttr> := if x.isActive.Some? then [SetIsActive(x.isActive.value)] else [];
    var s: seq<UserAttr> := if x.isSuperuser.Some? then [SetIsSuperuser(x.isSuperuser.value)] else [];
    LastsOfConcat(e, f);
    LastsOfConcat(e + f, l);
    LastsOfConcat(e + f + l, a);
    LastsOfConcat(e + f + l + a, s);
  }

  /** The last assignment of a concatenation comes from its second part when that assigns. */
  lemma {:induction false} LastsOfConcat(d: seq<UserAttr>, e: seq<UserAttr>)
    ensures LastEmail(d + e) == if LastEmail(e).Some? then LastEmail(e) else LastEmail(d)
    ensures LastFirstName(d + e) == if LastFirstName(e).Some? then LastFirstName(e) else LastFirstName(d)
    ensures LastLastName(d + e) == if LastLastName(e).Some? then LastLastName(e) else LastLastName(d)
    ensures LastIsActive(d + e) == if LastIsActive(e).Some? then LastIsActive(e) else LastIsActive(d)
    ensures LastIsSuperuser(d + e) == if LastIsSuperuser(e).Some? then LastIsSuperuser(e) else LastIsSuperuser(d)
  {
    if e == [] {
      assert d + e == d;
    } else {
      assert (d + e)[..|d + e| - 1] == d + e[..|e| - 1];
      LastsOfConcat(d, e[..|e| - 1]);
    }
  }

  /** The self-service update never touches the two flags and keeps unset fields. */
  lemma ApplyDumpProfile(u: UserData, x: UserUpdate)
    ensures Apply(u, DumpProfile(x)) == UserData(
      u.yandexId,
      x.email.GetOr(u.email),
      x.firstName.GetOr(u.firstName),
      x.lastName.GetOr(u.lastName),
      u.isActive,
      u.isSuperuser)
  {
    ApplyByColumn(u, DumpProfile(x));
    LastsOfDump(x);
  }

  /** External identities are unique among users. */
  ghost predicate YandexIdsUnique(rows: seq<User>) {
    forall x, y :: x in rows && y in rows && x.rec.yandexId == y.rec.yandexId ==> x == y
  }

  /** The user table's invariant: the store's own, and unique external identities. */
  ghost predicate Valid(users: Crud.Table<UserData>)
    reads users
  {
    users.Valid() && YandexIdsUnique(users.rows)
  }

  /** `get_by_email`: the first user whose email is `email`, or `None` if there is none. */
  function GetByEmail(users: Crud.Table<UserData>, email: string): (r: Option<User>)
    reads users
    ensures r.Some? ==> r.value in users.rows && r.value.rec.email == Some(email)
    ensures r.None? <==> forall i :: 0 <= i < |users.rows| ==> users.rows[i].rec.email != Some(email)
  {
    Crud.First(users.rows, (u: User) => u.rec.email == Some(email))
  }

  /** `get_by_yandex_id`: the user with that external identity, or `None` if there is none. */
  function GetByYandexId(users: Crud.Table<UserData>, yandexId: string): (r: Option<User>)
    reads users
    ensures r.Some? ==> r.value in users.rows && r.value.rec.yandexId == yandexId
    ensures r.None? <==> forall i :: 0 <= i < |users.rows| ==> users.rows[i].rec.yandexId != yandexId
  {
    Crud.First(users.rows, (u: User) => u.rec.yandexId == yandexId)
  }

  /** With unique identities, the lookup finds a user exactly when it has that identity. */
  lemma GetByYandexIdFinds(users: Crud.Table<UserData>, u: User)
    requires Valid(users) && u in users.rows
    ensures GetByYandexId(users, u.rec.yandexId) == Some(u)
  {
  }

  /** `create_with_yandex`: one new user, active, with the given identity, profile and flag. */
  method CreateWithYandex(users: Crud.Table<UserData>, yandexId: string, email: Option<string>,
                          firstName: Option<string>, lastName: Option<string>, isSuperuser: bool)
    returns (user: User)
    requires Valid(users) && GetByYandexId(users, yandexId).None?
    modifies users
    ensures Valid(users)
    ensures user == Crud.Row(old(users.nextId), UserData(yandexId, email, firstName, lastName, true, isSuperuser))
    ensures users.rows == old(users.rows) + [user] && users.nextId == old(users.nextId) + 1
  {
    user := users.Create(UserData(yandexId, email, firstName, lastName, true, isSuperuser));
  }

  /** `update`: the base partial update with the user setter; identities stay unique. */
  method Update(users: Crud.Table<UserData>, user: User, data: seq<UserAttr>) returns (updated: User)
    requires Valid(users) && user in users.rows
    modifies users
    ensures Valid(users)
    ensures updated == Crud.Row(user.id, Apply(user.rec, data))
    ensures users.rows == Crud.Replace(old(users.rows), updated) && users.nextId == old(users.nextId)
  {
    ApplyByColumn(user.rec, data);
    updated := users.Update(user, data, SetAttr);
  }

  /** `is_active`. */
  function IsActive(user: User): bool {
    user.rec.isActive
  }

  /** `is_superuser`. */
  function IsSuperuser(user: User): bool {
    user.rec.isSuperuser
  }
}
