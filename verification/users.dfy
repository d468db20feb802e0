/**
 * The user table as the user repository sees it: records in insertion
 * order, ids handed out by the store, email and id both unique.
 */
module Users {
  import opened Results
  import opened Lookup

  type UserId = nat

  /** The closed set of account roles; registration only ever grants the first. */
  datatype Role = UserRole | Moderator | Admin

  /** The string a stored role reads as: the database enum's member name. */
  function RoleName(r: Role): (name: string)
    ensures name == "USER" <==> r == UserRole
  {
    match r
    case UserRole => "USER"
    case Moderator => "MODERATOR"
    case Admin => "ADMIN"
  }

  datatype User = User(id: UserId, email: string, passwordHash: string, role: Role, createdAt: int)

  datatype UserStore = UserStore(records: seq<User>, nextId: nat)

  /** Ids are unique and below the next id; emails are unique. */
  predicate ValidUsers(s: UserStore) {
    && (forall i :: 0 <= i < |s.records| ==> s.records[i].id < s.nextId)
    && (forall i, j :: 0 <= i < j < |s.records| ==> s.records[i].id != s.records[j].id)
    && (forall i, j :: 0 <= i < j < |s.records| ==> s.records[i].email != s.records[j].email)
  }

  function EmailOf(u: User): string { u.email }
  function IdOf(u: User): UserId { u.id }

  /** `findByEmail`: the record with exactly this email (no normalisation here), if any. */
  function FindByEmail(s: UserStore, email: string): (r: Option<User>)
    ensures r.Some? ==> r.value in s.records && r.value.email == email
    ensures r.None? <==> forall i :: 0 <= i < |s.records| ==> s.records[i].email != email
  {
    FirstWithKey(s.records, EmailOf, email)
  }

  /** `findById`: the record with this id, if any. */
  function FindById(s: UserStore, id: UserId): (r: Option<User>)
    ensures r.Some? ==> r.value in s.records && r.value.id == id
    ensures r.None? <==> forall i :: 0 <= i < |s.records| ==> s.records[i].id != id
  {
    FirstWithKey(s.records, IdOf, id)
  }

  /** In a valid store a record is the one its own email finds. */
  lemma FindByEmailOfMember(s: UserStore, n: nat)
    requires ValidUsers(s) && n < |s.records|
    ensures FindByEmail(s, s.records[n].email) == Some(s.records[n])
  {
    FirstWithKeyAt(s.records, EmailOf, n);
  }

  /** In a valid store a record is the one its own id finds. */
  lemma FindByIdOfMember(s: UserStore, n: nat)
    requires ValidUsers(s) && n < |s.records|
    ensures FindById(s, s.records[n].id) == Some(s.records[n])
  {
    FirstWithKeyAt(s.records, IdOf, n);
  }

  /** `create`: appends a record under a fresh id and returns it. */
  function Create(s: UserStore, email: string, passwordHash: string, role: Role, now: int): (r: (UserStore, User))
    ensures r.0.records == s.records + [r.1]
    ensures r.1 == User(s.nextId, email, passwordHash, role, now)
    ensures FindById(s, r.1.id).None? || !ValidUsers(s)
    ensures ValidUsers(s) && FindByEmail(s, email).None? ==> ValidUsers(r.0)
  {
    var u := User(s.nextId, email, passwordHash, role, now);
    (UserStore(s.records + [u], s.nextId + 1), u)
  }
}
