/**
 * The account routes over the stored users: registration with its
 * required values, duplicate email and role-dependent identifiers; login
 * with its four refusals; the profile update restricted to four paths; and
 * the two reads that join a user's transaction identities with the ledger.
 *
 * Password hashing, password comparison and token signing are library
 * cryptography and are taken as parameters: `hash` maps a password to the
 * text stored for it, `verify(password, stored)` is the comparison, and
 * `sign(id)` is the token issued for a user.
 */
module Auth {
  import opened Wrappers
  import opened Seqs
  import Js
  import opened Store
  import Users
  import TransactionSchema

  type User = Users.User

  /** The value a stored user holds under `key`, `undefined` when it holds none. */
  function Get(u: User, key: string): Js.Value {
    if key in u.fields then u.fields[key] else Js.Undefined
  }

  /** The first stored user whose email is the given value (`findOne({ email })`). */
  function IndexOfEmail(users: seq<User>, email: Js.Value): (r: Option<nat>)
    ensures r.None? <==> forall i :: 0 <= i < |users| ==> !Js.StrictEquals(Get(users[i], "email"), email)
    ensures r.Some? ==> r.value < |users| && Js.StrictEquals(Get(users[r.value], "email"), email)
    ensures r.Some? ==> forall j :: 0 <= j < r.value ==> !Js.StrictEquals(Get(users[j], "email"), email)
  {
    FindFirst(users, (u: User) => Js.StrictEquals(Get(u, "email"), email))
  }

  /** The paths of a new document: a key given `undefined` is not set. */
  function Defined(init: map<string, Js.Value>): (r: map<string, Js.Value>)
    ensures forall k :: k in r <==> k in init && !init[k].Undefined?
    ensures forall k :: k in r ==> r[k] == init[k]
  {
    map k | k in init && !init[k].Undefined? :: init[k]
  }

  // ---------------------------------------------------------------- register

  /** The body of `POST /register`. */
  datatype RegisterRequest = RegisterRequest(
    userFullName: Js.Value, admissionId: Js.Value, employeeId: Js.Value, email: Js.Value,
    password: Js.Value, mobileNumber: Js.Value, userType: Js.Value, gender: Js.Value,
    age: Js.Value, dob: Js.Value, address: Js.Value)

  /** The eight values registration demands. */
  predicate HasRequired(req: RegisterRequest) {
    Js.Truthy(req.userFullName) && Js.Truthy(req.email) && Js.Truthy(req.password) &&
    Js.Truthy(req.mobileNumber) && Js.Truthy(req.userType) && Js.Truthy(req.gender) &&
    Js.Truthy(req.age) && Js.Truthy(req.dob)
  }

  /** A value kept only for the named role; every other role gets the empty string. */
  function ForRole(userType: Js.Value, role: string, v: Js.Value): Js.Value {
    if Js.StrictEquals(userType, Js.Str(role)) then v else Js.Str("")
  }

  /** The initial values of a new user; the password is the stored text for it, and a path given `undefined` stays unset. */
  function Initial(req: RegisterRequest, stored: string): map<string, Js.Value> {
    map["userFullName" := req.userFullName,
        "admissionId" := ForRole(req.userType, "Student", req.admissionId),
        "employeeId" := ForRole(req.userType, "Staff", req.employeeId),
        "email" := req.email,
        "password" := Js.Str(stored),
        "mobileNumber" := req.mobileNumber,
        "userType" := req.userType,
        "gender" := req.gender,
        "age" := req.age,
        "dob" := req.dob,
        "address" := if Js.Truthy(req.address) then req.address else Js.Str("")]
  }

  /** The user registration creates with identity `id`, holding no transactions yet. */
  function NewUser(id: ObjectId, req: RegisterRequest, stored: string): (u: User)
    ensures u.id == id && u.activeTransactions == [] && u.prevTransactions == []
  {
    Users.User(id, Initial(req, stored), [], [])
  }

  /** A new user holds the stored hash text as its password, and the given identity values. */
  lemma NewUserCredentials(id: ObjectId, req: RegisterRequest, stored: string)
    requires HasRequired(req)
    ensures var u := NewUser(id, req, stored);
      && Get(u, "password") == Js.Str(stored)
      && Get(u, "email") == req.email && Get(u, "userType") == req.userType
      && Get(u, "userFullName") == req.userFullName && Get(u, "mobileNumber") == req.mobileNumber
  {
  }

  /** A new user's address is the given one when truthy and otherwise the empty string. */
  lemma NewUserAddress(id: ObjectId, req: RegisterRequest, stored: string)
    ensures Js.Truthy(req.address) ==> Get(NewUser(id, req, stored), "address") == req.address
    ensures !Js.Truthy(req.address) ==> Get(NewUser(id, req, stored), "address") == Js.Str("")
  {
  }

  /** The student identifier is kept only for a Student and the staff identifier only for Staff; other roles get the empty string for both. */
  lemma NewUserRoleIds(id: ObjectId, req: RegisterRequest, stored: string)
    ensures var u := NewUser(id, req, stored);
      && (req.userType == Js.Str("Student") ==> Get(u, "admissionId") == req.admissionId && Get(u, "employeeId") == Js.Str(""))
      && (req.userType == Js.Str("Staff") ==> Get(u, "employeeId") == req.employeeId && Get(u, "admissionId") == Js.Str(""))
      && (req.userType != Js.Str("Student") && req.userType != Js.Str("Staff") ==>
            Get(u, "admissionId") == Js.Str("") && Get(u, "employeeId") == Js.Str(""))
  {
  }

  datatype RegisterOutcome = Registered(user: User) | RegisterMissingFields | EmailTaken | RegisterFailed

  /**
   * `POST /register`: 400 when a demanded value is missing, 409 when a
   * stored user has the email, a failure when the password is not a string
   * (hashing refuses it), and otherwise the new user is saved.
   */
  method Register(store: Users.UserStore, req: RegisterRequest, hash: string -> string) returns (o: RegisterOutcome)
    requires store.Valid()
    modifies store
    ensures store.Valid()
    ensures o.RegisterMissingFields? <==> !HasRequired(req)
    ensures o.EmailTaken? <==> HasRequired(req) && IndexOfEmail(old(store.users), req.email).Some?
    ensures o.RegisterFailed? <==> HasRequired(req) && IndexOfEmail(old(store.users), req.email).None? && !req.password.Str?
    ensures o.Registered? ==> req.password.Str? && o.user == NewUser(old(store.nextId), req, hash(req.password.s))
    ensures o.Registered? ==> store.users == old(store.users) + [o.user] && store.nextId == old(store.nextId) + 1
    ensures !o.Registered? ==> store.users == old(store.users) && store.nextId == old(store.nextId)
  {
    if !HasRequired(req) {
      return RegisterMissingFields;
    }
    if IndexOfEmail(store.users, req.email).Some? {
      return EmailTaken;
    }
    if !req.password.Str? {
      return RegisterFailed;
    }
    var u := NewUser(store.nextId, req, hash(req.password.s));
    store.Insert(u);
    o := Registered(u);
  }

  // ---------------------------------------------------------------- login

  /** The paths the login response shows, besides the identity. */
  const ViewKeys: set<string> := {"userFullName", "email", "userType", "isAdmin", "mobileNumber"}

  /** The user part of a login response. */
  datatype LoginView = LoginView(id: ObjectId, fields: map<string, Js.Value>)

  function ViewOf(u: User): (v: LoginView)
    ensures v.id == u.id
    ensures forall k :: k in v.fields <==> k in ViewKeys && k in u.fields
    ensures forall k :: k in v.fields ==> v.fields[k] == u.fields[k]
  {
    LoginView(u.id, map k | k in u.fields && k in ViewKeys :: u.fields[k])
  }

  /** The login response never carries the stored password. */
  lemma ViewHidesPassword(u: User)
    ensures "password" !in ViewOf(u).fields
  {
    assert "password" !in ViewKeys;
  }

  datatype LoginOutcome = LoggedIn(token: string, user: LoginView) | LoginMissingFields | NoAccount | IncorrectPassword | LoginFailed

  /**
   * `POST /login`: 400 when the email or password is missing, 401 when no
   * user has the email, a failure when the password or the stored text is
   * not a string (the comparison refuses it), 401 when the comparison says
   * no, and otherwise the signed token and the user's view.
   */
  function Login(users: seq<User>, email: Js.Value, password: Js.Value,
                 verify: (string, string) -> bool, sign: ObjectId -> string): (r: LoginOutcome)
    ensures r.LoginMissingFields? <==> !Js.Truthy(email) || !Js.Truthy(password)
    ensures r.NoAccount? <==> Js.Truthy(email) && Js.Truthy(password) && IndexOfEmail(users, email).None?
    ensures Js.Truthy(email) && Js.Truthy(password) && IndexOfEmail(users, email).Some? ==>
      var u := users[IndexOfEmail(users, email).value];
      && (r.LoginFailed? <==> !(password.Str? && Get(u, "password").Str?))
      && (r.IncorrectPassword? <==> password.Str? && Get(u, "password").Str? && !verify(password.s, Get(u, "password").s))
      && (r.LoggedIn? ==> r.token == sign(u.id) && r.user == ViewOf(u))
  {
    if !Js.Truthy(email) || !Js.Truthy(password) then LoginMissingFields
    else match IndexOfEmail(users, email)
      case None => NoAccount
      case Some(i) =>
        var stored := Get(users[i], "password");
        if !password.Str? || !stored.Str? then LoginFailed
        else if !verify(password.s, stored.s) then IncorrectPassword
        else LoggedIn(sign(users[i].id), ViewOf(users[i]))
  }

  /**
   * A user registered with a string password can log in with it exactly
   * when the comparison accepts the password against the stored text,
   * provided no earlier user has the same email.
   */
  lemma LoginAfterRegister(users: seq<User>, id: ObjectId, req: RegisterRequest,
                           hash: string -> string, verify: (string, string) -> bool, sign: ObjectId -> string)
    requires HasRequired(req) && req.password.Str? && !req.email.Obj?
    requires IndexOfEmail(users, req.email).None?
    ensures var u := NewUser(id, req, hash(req.password.s));
      var r := Login(users + [u], req.email, req.password, verify, sign);
      && (r.LoggedIn? <==> verify(req.password.s, hash(req.password.s)))
      && (r.LoggedIn? ==> r.token == sign(id) && r.user == ViewOf(u))
      && (!r.LoggedIn? ==> r.IncorrectPassword?)
  {
    var u := NewUser(id, req, hash(req.password.s));
    NewUserCredentials(id, req, hash(req.password.s));
    var all := users + [u];
    assert all[|users|] == u;
    assert Js.StrictEquals(Get(u, "email"), req.email);
    assert forall j :: 0 <= j < |users| ==> all[j] == users[j];
    assert IndexOfEmail(all, req.email) == Some(|users|);
  }

  // ---------------------------------------------------------------- profile update

  /** The four paths of `PUT /update/:id`. */
  datatype ProfileRequest = ProfileRequest(age: Js.Value, gender: Js.Value, dob: Js.Value, address: Js.Value)

  const ProfileKeys: set<string> := {"age", "gender", "dob", "address"}

  /** The `$set` of the update: the four paths, without those the body leaves undefined. */
  function ProfileSet(p: ProfileRequest): (r: map<string, Js.Value>)
    ensures r.Keys <= ProfileKeys
  {
    Defined(map["age" := p.age, "gender" := p.gender, "dob" := p.dob, "address" := p.address])
  }

  /** The profile update of one user. */
  function ApplyProfile(u: User, p: ProfileRequest): User {
    u.(fields := u.fields + ProfileSet(p))
  }

  /**
   * The update touches only the four profile paths: each set one takes the
   * body's value (null included), each undefined one and every other path
   * is kept, and the transaction lists are kept.
   */
  lemma ProfileOnlyFour(u: User, p: ProfileRequest)
    ensures var r := ApplyProfile(u, p);
      && r.id == u.id && r.activeTransactions == u.activeTransactions && r.prevTransactions == u.prevTransactions
      && (forall k :: k !in ProfileKeys ==> Get(r, k) == Get(u, k))
      && (!p.age.Undefined? ==> Get(r, "age") == p.age) && (p.age.Undefined? ==> Get(r, "age") == Get(u, "age"))
      && (!p.gender.Undefined? ==> Get(r, "gender") == p.gender) && (p.gender.Undefined? ==> Get(r, "gender") == Get(u, "gender"))
      && (!p.dob.Undefined? ==> Get(r, "dob") == p.dob) && (p.dob.Undefined? ==> Get(r, "dob") == Get(u, "dob"))
      && (!p.address.Undefined? ==> Get(r, "address") == p.address) && (p.address.Undefined? ==> Get(r, "address") == Get(u, "address"))
  {
  }

  datatype ProfileOutcome = ProfileUpdated(user: User) | ProfileNotFound | ProfileFailed

  /**
   * `PUT /update/:id`: a key that denotes no identity fails, an
   * unknown identity is 404, and otherwise the four paths are set.
   */
  method UpdateProfile(store: Users.UserStore, key: string, p: ProfileRequest) returns (o: ProfileOutcome)
    requires store.Valid()
    modifies store
    ensures store.Valid() && store.nextId == old(store.nextId)
    ensures CastId(key).None? ==> o == ProfileFailed
    ensures CastId(key).Some? && Users.IndexOfUser(old(store.users), CastId(key).value).None? ==> o == ProfileNotFound
    ensures CastId(key).Some? && Users.IndexOfUser(old(store.users), CastId(key).value).Some? ==>
      var i := Users.IndexOfUser(old(store.users), CastId(key).value).value;
      o == ProfileUpdated(ApplyProfile(old(store.users)[i], p)) && store.users == old(store.users)[i := o.user]
    ensures !o.ProfileUpdated? ==> store.users == old(store.users)
  {
    var id := CastId(key);
    if id.None? {
      return ProfileFailed;
    }
    var found := Users.IndexOfUser(store.users, id.value);
    if found.None? {
      return ProfileNotFound;
    }
    var u := ApplyProfile(store.users[found.value], p);
    store.Replace(found.value, u);
    o := ProfileUpdated(u);
  }

  // ---------------------------------------------------------------- reads joined with the ledger

  /**
   * `populate` of a list of transaction identities: each identity in turn
   * is replaced by the ledger record with it, and an identity with no
   * record is dropped.
   */
  function Populate(ids: seq<ObjectId>, records: seq<TransactionSchema.Transaction>): (r: seq<TransactionSchema.Transaction>)
    ensures |r| <= |ids|
    ensures forall i :: 0 <= i < |r| ==> r[i] in records && r[i].id in ids
  {
    if ids == [] then []
    else
      (match TransactionSchema.IndexOfId(records, ids[0])
       case Some(k) => [records[k]]
       case None => []) + Populate(ids[1..], records)
  }

  /** When every identity has a record, populating keeps them all, in order. */
  lemma {:induction false} PopulateResolved(ids: seq<ObjectId>, records: seq<TransactionSchema.Transaction>)
    requires forall i :: 0 <= i < |ids| ==> TransactionSchema.IndexOfId(records, ids[i]).Some?
    ensures |Populate(ids, records)| == |ids|
    ensures forall i :: 0 <= i < |ids| ==> Populate(ids, records)[i].id == ids[i]
  {
    if ids != [] {
      PopulateResolved(ids[1..], records);
      var rest := Populate(ids[1..], records);
      var k := TransactionSchema.IndexOfId(records, ids[0]).value;
      assert Populate(ids, records) == [records[k]] + rest;
    }
  }

  /** A user as the two reads return it, with both lists joined with the ledger. */
  datatype UserView = UserView(id: ObjectId, fields: map<string, Js.Value>,
                               activeTransactions: seq<TransactionSchema.Transaction>,
                               prevTransactions: seq<TransactionSchema.Transaction>)

  function Populated(u: User, records: seq<TransactionSchema.Transaction>): UserView {
    UserView(u.id, u.fields, Populate(u.activeTransactions, records), Populate(u.prevTransactions, records))
  }

  datatype GetOutcome = Found(user: UserView) | UserNotFound | GetFailed

  /** `GET /getuser/:id`: a key that denotes no identity fails, an unknown identity is 404, and otherwise the user joined with the ledger. */
  function GetUser(users: seq<User>, key: string, records: seq<TransactionSchema.Transaction>): (r: GetOutcome)
    ensures r.GetFailed? <==> CastId(key).None?
    ensures r.UserNotFound? <==> CastId(key).Some? && Users.IndexOfUser(users, CastId(key).value).None?
    ensures r.Found? ==> exists i :: 0 <= i < |users| && Some(users[i].id) == CastId(key) && r.user == Populated(users[i], records)
  {
    match CastId(key)
    case None => GetFailed
    case Some(id) =>
      match Users.IndexOfUser(users, id)
      case None => UserNotFound
      case Some(i) => Found(Populated(users[i], records))
  }

  /** A member is a user whose role is exactly Student or Staff. */
  predicate IsMember(u: User) {
    Get(u, "userType") == Js.Str("Student") || Get(u, "userType") == Js.Str("Staff")
  }

  /** A member as the listing shows it: without its password, joined with the ledger. */
  function MemberView(u: User, records: seq<TransactionSchema.Transaction>): (v: UserView)
    ensures "password" !in v.fields
  {
    Populated(u.(fields := u.fields - {"password"}), records)
  }

  /** `GET /allmembers`: the members in stored order, each shown without its password. */
  function Members(users: seq<User>, records: seq<TransactionSchema.Transaction>): (r: seq<UserView>)
    ensures forall i :: 0 <= i < |r| ==> "password" !in r[i].fields
  {
    var m := Filter(users, IsMember);
    seq(|m|, i requires 0 <= i < |m| => MemberView(m[i], records))
  }

  /** The listing shows exactly the members: every member is in it, and everything in it is a member. */
  lemma MembersExactly(users: seq<User>, records: seq<TransactionSchema.Transaction>)
    ensures forall u :: u in users && IsMember(u) ==> MemberView(u, records) in Members(users, records)
    ensures forall v :: v in Members(users, records) ==> exists u :: u in users && IsMember(u) && v == MemberView(u, records)
  {
    var m := Filter(users, IsMember);
    var r := Members(users, records);
    FilterCounts(users, IsMember);
    forall u | u in users && IsMember(u) ensures MemberView(u, records) in r {
      assert multiset(m)[u] > 0;
      var k :| 0 <= k < |m| && m[k] == u;
      assert r[k] == MemberView(u, records);
    }
    forall v | v in r ensures exists u :: u in users && IsMember(u) && v == MemberView(u, records) {
      var k :| 0 <= k < |r| && r[k] == v;
      assert m[k] in multiset(m);
      assert v == MemberView(m[k], records);
    }
  }
}
