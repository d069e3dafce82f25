/** The User document of the database schema: its fields, the three required
    ones, the unique phone number and the defaults of the optional fields,
    together with what saving a document to the users collection checks. */
module UserSchema {
  import opened Base

  const DefaultProfilePhoto: string := ""
  const DefaultAbout: string := "Available"

  /** `password` holds the stored password hash; `contacts` the ids of other users. */
  datatype User = User(
    id: UserId,
    fullName: string,
    phone: string,
    password: string,
    profilePhoto: string,
    about: string,
    contacts: seq<UserId>)

  /** `new User({ fullName, phone, password })`: the fields not given take their defaults. */
  function NewUser(id: UserId, fullName: string, phone: string, password: string): (u: User)
    ensures u.id == id && u.fullName == fullName && u.phone == phone && u.password == password
    ensures u.profilePhoto == DefaultProfilePhoto && u.about == DefaultAbout && u.contacts == []
  {
    User(id, fullName, phone, password, DefaultProfilePhoto, DefaultAbout, [])
  }

  /** A `required` String field rejects both a missing value and the empty string. */
  predicate HasRequired(u: User) {
    u.fullName != "" && u.phone != "" && u.password != ""
  }

  predicate UniqueIds(users: seq<User>) {
    forall i, j :: 0 <= i < j < |users| ==> users[i].id != users[j].id
  }

  /** The unique index on `phone`. */
  predicate UniquePhones(users: seq<User>) {
    forall i, j :: 0 <= i < j < |users| ==> users[i].phone != users[j].phone
  }

  /** What the collection guarantees about the documents it holds. */
  predicate CollectionValid(users: seq<User>) {
    && UniqueIds(users)
    && UniquePhones(users)
    && forall i :: 0 <= i < |users| ==> HasRequired(users[i])
  }

  datatype SaveError = ValidationFailed | DuplicateKey

  /** Saving a new document: schema validation first, then the unique indexes
      on `_id` and `phone`. */
  function Insert(users: seq<User>, u: User): (r: Result<seq<User>, SaveError>)
    ensures !HasRequired(u) ==> r == Err(ValidationFailed)
    ensures HasRequired(u) && (exists i :: 0 <= i < |users| && (users[i].id == u.id || users[i].phone == u.phone))
      ==> r == Err(DuplicateKey)
    ensures HasRequired(u) && (forall i :: 0 <= i < |users| ==> users[i].id != u.id && users[i].phone != u.phone)
      ==> r == Ok(users + [u])
    ensures r.Ok? ==> r.value == users + [u]
    ensures r.Ok? && CollectionValid(users) ==> CollectionValid(r.value)
  {
    if !HasRequired(u) then Err(ValidationFailed)
    else if exists i :: 0 <= i < |users| && (users[i].id == u.id || users[i].phone == u.phone) then Err(DuplicateKey)
    else Ok(users + [u])
  }

  /** Saving the document at position `i` again after changing it in place; its
      `_id` stays the same. */
  function Replace(users: seq<User>, i: nat, u: User): (r: Result<seq<User>, SaveError>)
    requires i < |users| && u.id == users[i].id
    ensures !HasRequired(u) ==> r == Err(ValidationFailed)
    ensures HasRequired(u) && u.phone == users[i].phone && UniquePhones(users) ==> r == Ok(users[i := u])
    ensures r.Ok? ==> r.value == users[i := u]
    ensures r.Ok? && CollectionValid(users) ==> CollectionValid(r.value)
  {
    if !HasRequired(u) then Err(ValidationFailed)
    else if exists j :: 0 <= j < |users| && j != i && users[j].phone == u.phone then Err(DuplicateKey)
    else Ok(users[i := u])
  }

  /** Deleting the document at position `i` keeps the others in order. */
  function RemoveAt(users: seq<User>, i: nat): (r: seq<User>)
    requires i < |users|
    ensures |r| == |users| - 1
    ensures forall j :: 0 <= j < i ==> r[j] == users[j]
    ensures forall j :: i <= j < |r| ==> r[j] == users[j + 1]
    ensures CollectionValid(users) ==> CollectionValid(r)
  {
    users[..i] + users[i + 1..]
  }

  /** Position of the document with id `id` (`findById`). */
  function FindById(users: seq<User>, id: UserId): (r: Option<nat>)
    ensures r.Some? ==> r.value < |users| && users[r.value].id == id
    ensures r.Some? ==> forall j :: 0 <= j < r.value ==> users[j].id != id
    ensures r.None? <==> forall j :: 0 <= j < |users| ==> users[j].id != id
  {
    if users == [] then None
    else if users[0].id == id then Some(0)
    else match FindById(users[1..], id)
      case None => None
      case Some(k) => Some(k + 1)
  }

  /** Position of the first document with phone `phone` (`findOne({ phone })`). */
  function FindByPhone(users: seq<User>, phone: string): (r: Option<nat>)
    ensures r.Some? ==> r.value < |users| && users[r.value].phone == phone
    ensures r.None? <==> forall j :: 0 <= j < |users| ==> users[j].phone != phone
  {
    if users == [] then None
    else if users[0].phone == phone then Some(0)
    else match FindByPhone(users[1..], phone)
      case None => None
      case Some(k) => Some(k + 1)
  }
}
