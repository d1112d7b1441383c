/**
 * The borrower routes: an in-memory account list with its own register and
 * login, and, over the stored user documents, the shallow-merge update and
 * the move of a transaction from a user's active list to the previous one.
 *
 * A stored user is its identity, the scalar paths it holds (by JSON key,
 * since the user schema is not part of this model) and the two lists of
 * transaction identities.
 */
module Users {
  import opened Wrappers
  import opened Seqs
  import Js
  import opened Store

  // ---------------------------------------------------------------- the in-memory accounts

  /** An entry of the module-level account list, holding the request's values as given. */
  datatype Account = Account(name: Js.Value, rollNo: Js.Value, email: Js.Value, password: Js.Value)

  datatype RegisterOutcome = Registered | MissingFields | AlreadyExists

  /** The account with this email, compared with `===`. */
  function FindByEmail(accounts: seq<Account>, email: Js.Value): (r: Option<nat>)
    ensures r.None? <==> forall i :: 0 <= i < |accounts| ==> !Js.StrictEquals(accounts[i].email, email)
    ensures r.Some? ==> r.value < |accounts| && Js.StrictEquals(accounts[r.value].email, email)
  {
    FindFirst(accounts, (a: Account) => Js.StrictEquals(a.email, email))
  }

  /** What register guarantees of the list: the four values are set, and no two entries share an email. */
  predicate Registry(accounts: seq<Account>) {
    (forall i :: 0 <= i < |accounts| ==>
      Js.Truthy(accounts[i].name) && Js.Truthy(accounts[i].rollNo) &&
      Js.Truthy(accounts[i].email) && Js.Truthy(accounts[i].password)) &&
    (forall i, j :: 0 <= i < j < |accounts| ==> !Js.StrictEquals(accounts[i].email, accounts[j].email))
  }

  /** `POST /login` on the list: the first entry whose email and password are both `===` to the request's. */
  function Login(accounts: seq<Account>, email: Js.Value, password: Js.Value): (r: Option<Account>)
    ensures r.Some? <==> exists i :: 0 <= i < |accounts| && Js.StrictEquals(accounts[i].email, email) && Js.StrictEquals(accounts[i].password, password)
    ensures r.Some? ==> exists i :: (0 <= i < |accounts| && r.value == accounts[i] &&
      Js.StrictEquals(accounts[i].email, email) && Js.StrictEquals(accounts[i].password, password) &&
      forall j :: 0 <= j < i ==> !(Js.StrictEquals(accounts[j].email, email) && Js.StrictEquals(accounts[j].password, password)))
  {
    match FindFirst(accounts, (a: Account) => Js.StrictEquals(a.email, email) && Js.StrictEquals(a.password, password))
    case None => None
    case Some(i) => Some(accounts[i])
  }

  /**
   * In a registry the email decides which entry a login can return: login
   * succeeds exactly when the entry with that email has that password.
   */
  lemma LoginByEmail(accounts: seq<Account>, email: Js.Value, password: Js.Value)
    requires Registry(accounts)
    ensures Login(accounts, email, password).Some? <==>
      (FindByEmail(accounts, email).Some? && Js.StrictEquals(accounts[FindByEmail(accounts, email).value].password, password))
    ensures Login(accounts, email, password).Some? ==> Login(accounts, email, password).value == accounts[FindByEmail(accounts, email).value]
  {
    var r := Login(accounts, email, password);
    if r.Some? {
      var i :| 0 <= i < |accounts| && r.value == accounts[i] &&
        Js.StrictEquals(accounts[i].email, email) && Js.StrictEquals(accounts[i].password, password);
    }
  }

  /** The module-level `users` array. */
  class AccountList {
    var accounts: seq<Account>

    predicate Valid()
      reads this
    {
      Registry(accounts)
    }

    constructor ()
      ensures Valid() && accounts == []
    {
      accounts := [];
    }

    /**
     * `POST /register` on the list: 400 when a value is missing, 409 when
     * an entry has the email, and otherwise the entry is appended at the end.
     */
    method Register(name: Js.Value, rollNo: Js.Value, email: Js.Value, password: Js.Value) returns (o: RegisterOutcome)
      requires Valid()
      modifies this
      ensures Valid()
      ensures o == MissingFields <==> !(Js.Truthy(name) && Js.Truthy(rollNo) && Js.Truthy(email) && Js.Truthy(password))
      ensures o == AlreadyExists <==> o != MissingFields && FindByEmail(old(accounts), email).Some?
      ensures o == Registered ==> accounts == old(accounts) + [Account(name, rollNo, email, password)]
      ensures o != Registered ==> accounts == old(accounts)
    {
      if !Js.Truthy(name) || !Js.Truthy(rollNo) || !Js.Truthy(email) || !Js.Truthy(password) {
        return MissingFields;
      }
      if FindByEmail(accounts, email).Some? {
        return AlreadyExists;
      }
      accounts := accounts + [Account(name, rollNo, email, password)];
      o := Registered;
    }
  }

  // ---------------------------------------------------------------- stored users

  /**
   * A stored user: its scalar paths by key, and its active and previous
   * transaction identities. A key holding `undefined` is a path not set.
   */
  datatype User = User(id: ObjectId, fields: map<string, Js.Value>, activeTransactions: seq<ObjectId>, prevTransactions: seq<ObjectId>)

  /** The keys of a body that are not scalar paths: the identity and the two lists. */
  const ReservedKeys: set<string> := {"_id", "activeTransactions", "prevTransactions"}

  /** A value of a request body: a JSON array, by its elements, or any other value. */
  datatype BodyValue = Scalar(v: Js.Value) | Array(items: seq<Js.Value>)

  /** The first stored user with this identity (`findById`). */
  function IndexOfUser(users: seq<User>, id: ObjectId): (r: Option<nat>)
    ensures r.None? <==> forall i :: 0 <= i < |users| ==> users[i].id != id
    ensures r.Some? ==> r.value < |users| && users[r.value].id == id
  {
    FindFirst(users, (u: User) => u.id == id)
  }

  /** Casting the elements of an array to identities: each must be a string that denotes one. */
  function CastIds(items: seq<Js.Value>): (r: Option<seq<ObjectId>>)
    ensures r.Some? <==> forall i :: 0 <= i < |items| ==> items[i].Str? && CastId(items[i].s).Some?
    ensures r.Some? ==> |r.value| == |items| && forall i :: 0 <= i < |items| ==> items[i].Str? && CastId(items[i].s) == Some(r.value[i])
  {
    if items == [] then Some([])
    else if !items[0].Str? || CastId(items[0].s).None? then None
    else match CastIds(items[1..])
      case None => None
      case Some(rest) => Some([CastId(items[0].s).value] + rest)
  }

  /** A body value every element of which casts to an identity. */
  predicate ListCasts(v: BodyValue) {
    v.Array? && forall i :: 0 <= i < |v.items| ==> v.items[i].Str? && CastId(v.items[i].s).Some?
  }

  /** The list `ids` is the body value cast element by element. */
  predicate ListOf(v: BodyValue, ids: seq<ObjectId>) {
    v.Array? && |ids| == |v.items| && forall i :: 0 <= i < |ids| ==> v.items[i].Str? && CastId(v.items[i].s) == Some(ids[i])
  }

  /** A body value that denotes the identity `id`. */
  predicate NamesId(v: BodyValue, id: ObjectId) {
    v.Scalar? && v.v.Str? && CastId(v.v.s) == Some(id)
  }

  /** The list a merge leaves under `key`: the old one when the body does not give the key, otherwise the body's cast array. */
  function AssignList(body: map<string, BodyValue>, key: string, current: seq<ObjectId>): Option<seq<ObjectId>> {
    if key !in body then Some(current)
    else if body[key].Array? then CastIds(body[key].items)
    else None
  }

  /** A scalar path given an array holds an object. */
  function ScalarOf(v: BodyValue): Js.Value {
    match v
    case Scalar(x) => x
    case Array(_) => Js.Obj
  }

  /**
   * `Object.assign(user, body)` followed by `save()`: every scalar key of the
   * body is overwritten and every other key is kept; a list the body gives
   * is replaced by its cast elements, and the save fails when an element
   * does not cast, when the value is not an array, or when `_id` names
   * another identity.
   */
  function Merge(u: User, body: map<string, BodyValue>): (r: Option<User>)
    ensures r.None? <==>
      || ("_id" in body && !NamesId(body["_id"], u.id))
      || ("activeTransactions" in body && !ListCasts(body["activeTransactions"]))
      || ("prevTransactions" in body && !ListCasts(body["prevTransactions"]))
    ensures r.Some? ==> r.value.id == u.id
    ensures r.Some? ==>
      && ("activeTransactions" in body ==> ListOf(body["activeTransactions"], r.value.activeTransactions))
      && ("activeTransactions" !in body ==> r.value.activeTransactions == u.activeTransactions)
      && ("prevTransactions" in body ==> ListOf(body["prevTransactions"], r.value.prevTransactions))
      && ("prevTransactions" !in body ==> r.value.prevTransactions == u.prevTransactions)
    ensures r.Some? ==> forall k :: k in body && k !in ReservedKeys ==> k in r.value.fields && r.value.fields[k] == ScalarOf(body[k])
    ensures r.Some? ==> forall k :: k !in body || k in ReservedKeys ==> (k in r.value.fields <==> k in u.fields)
    ensures r.Some? ==> forall k :: (k !in body || k in ReservedKeys) && k in u.fields ==> r.value.fields[k] == u.fields[k]
  {
    if "_id" in body && !NamesId(body["_id"], u.id) then None
    else match (AssignList(body, "activeTransactions", u.activeTransactions), AssignList(body, "prevTransactions", u.prevTransactions))
      case (Some(active), Some(prev)) =>
        Some(User(u.id, u.fields + map k | k in body.Keys && k !in ReservedKeys :: ScalarOf(body[k]), active, prev))
      case _ => None
  }

  /** An identity list as JSON: the array of the identities' texts. */
  function IdArray(ids: seq<ObjectId>): BodyValue {
    Array(seq(|ids|, i requires 0 <= i < |ids| => Js.Str(IdText(ids[i]))))
  }

  /** The user as the route answers it, read back as a body. */
  function Echo(u: User): map<string, BodyValue> {
    (map k | k in u.fields.Keys - ReservedKeys :: Scalar(u.fields[k])) +
      map["_id" := Scalar(Js.Str(IdText(u.id))), "activeTransactions" := IdArray(u.activeTransactions),
          "prevTransactions" := IdArray(u.prevTransactions)]
  }

  /** The text array of a list casts back to the list. */
  lemma CastIdArray(ids: seq<ObjectId>)
    ensures CastIds(IdArray(ids).items) == Some(ids)
  {
    var items := IdArray(ids).items;
    forall i | 0 <= i < |items| ensures items[i].Str? && CastId(items[i].s) == Some(ids[i]) {
      CastIdOfIdText(ids[i]);
    }
    var r := CastIds(items);
    assert r.Some?;
    assert forall i :: 0 <= i < |ids| ==> r.value[i] == ids[i] by {
      forall i | 0 <= i < |ids| ensures r.value[i] == ids[i] {
        assert CastId(items[i].s) == Some(r.value[i]);
      }
    }
    assert |r.value| == |items| == |ids|;
    assert r.value == ids;
  }

  /** Sending back the user the route answered changes nothing, its identity and lists included. */
  lemma MergeOwnFields(u: User)
    ensures Merge(u, Echo(u)) == Some(u)
  {
    var body := Echo(u);
    assert NamesId(body["_id"], u.id) by {
      CastIdOfIdText(u.id);
    }
    assert AssignList(body, "activeTransactions", u.activeTransactions) == Some(u.activeTransactions) by {
      CastIdArray(u.activeTransactions);
    }
    assert AssignList(body, "prevTransactions", u.prevTransactions) == Some(u.prevTransactions) by {
      CastIdArray(u.prevTransactions);
    }
    EchoFields(u);
  }

  lemma EchoFields(u: User)
    ensures u.fields + (map k | k in Echo(u).Keys && k !in ReservedKeys :: ScalarOf(Echo(u)[k])) == u.fields
  {
    var body := Echo(u);
    var m := map k | k in body.Keys && k !in ReservedKeys :: ScalarOf(body[k]);
    forall k | k in m ensures k in u.fields && m[k] == u.fields[k] {
      assert k in u.fields.Keys - ReservedKeys;
    }
    assert u.fields + m == u.fields;
  }

  /** A body with an empty `activeTransactions` array clears the active list and nothing else. */
  lemma MergeClearsActive(u: User)
    ensures Merge(u, map["activeTransactions" := Array([])]) == Some(u.(activeTransactions := []))
  {
    var body := map["activeTransactions" := Array([])];
    assert (map k | k in body.Keys && k !in ReservedKeys :: ScalarOf(body[k])) == map[];
    assert u.fields + map[] == u.fields;
  }

  /** An element that denotes no identity fails the save. */
  lemma MergeRejectsBadElement(u: User, s: string)
    requires !Numeral(s)
    ensures Merge(u, map["activeTransactions" := Array([Js.Str(s)])]) == None
  {
    var v := Array([Js.Str(s)]);
    assert CastId(v.items[0].s).None?;
    assert !ListCasts(v);
  }

  /** The test of the move's filter: an identity stays active unless its text is the key. */
  function KeepsOther(txKey: string): ObjectId -> bool {
    (id: ObjectId) => IdText(id) != txKey
  }

  /**
   * The move of `PUT /:userId/transactions/:transactionId` on one user: the
   * active list loses every identity whose text is the key, and the
   * identity the key denotes is appended to the previous list whether or
   * not it was active.
   */
  function Move(u: User, txKey: string, tx: ObjectId): User {
    u.(activeTransactions := Filter(u.activeTransactions, KeepsOther(txKey)),
       prevTransactions := u.prevTransactions + [tx])
  }

  /** After a move the identity is no longer active, every other active identity stays as often as it was, and `prev` grows by it. */
  lemma MoveEffect(u: User, tx: ObjectId)
    ensures tx !in Move(u, IdText(tx), tx).activeTransactions
    ensures forall id :: id != tx ==> multiset(Move(u, IdText(tx), tx).activeTransactions)[id] == multiset(u.activeTransactions)[id]
    ensures multiset(Move(u, IdText(tx), tx).prevTransactions)[tx] == multiset(u.prevTransactions)[tx] + 1
  {
    var p := KeepsOther(IdText(tx));
    FilterCounts(u.activeTransactions, p);
    forall id | id != tx ensures p(id) {
      IdTextInjective(id, tx);
    }
    assert multiset(Filter<ObjectId>(u.activeTransactions, p))[tx] == 0;
  }

  /** The list without any occurrence of `tx`, the rest in order. */
  function Without(s: seq<ObjectId>, tx: ObjectId): seq<ObjectId> {
    if s == [] then [] else (if s[0] == tx then [] else [s[0]]) + Without(s[1..], tx)
  }

  /** The move removes exactly the occurrences of the identity, however many, and keeps the other active identities in order. */
  lemma MoveKeepsOrder(u: User, tx: ObjectId)
    ensures Move(u, IdText(tx), tx).activeTransactions == Without(u.activeTransactions, tx)
  {
    FilterWithout(u.activeTransactions, tx);
  }

  lemma {:induction false} FilterWithout(s: seq<ObjectId>, tx: ObjectId)
    ensures Filter(s, KeepsOther(IdText(tx))) == Without(s, tx)
  {
    if s != [] {
      IdTextInjective(s[0], tx);
      FilterWithout(s[1..], tx);
    }
  }

  /** Moving an identity that is not active leaves the active list as it was. */
  lemma MoveOfInactive(u: User, tx: ObjectId)
    requires tx !in u.activeTransactions
    ensures Move(u, IdText(tx), tx).activeTransactions == u.activeTransactions
  {
    var p := KeepsOther(IdText(tx));
    forall i | 0 <= i < |u.activeTransactions| ensures p(u.activeTransactions[i]) {
      IdTextInjective(u.activeTransactions[i], tx);
    }
    FilterKeepsPassing(u.activeTransactions, p);
  }

  /** Dropping the one occurrence of `tx` between `a` and `b` leaves `a + b`. */
  lemma MoveDropsOne(u: User, tx: ObjectId, a: seq<ObjectId>, b: seq<ObjectId>)
    requires u.activeTransactions == a + [tx] + b
    requires tx !in a && tx !in b
    ensures Move(u, IdText(tx), tx).activeTransactions == a + b
  {
    var p := KeepsOther(IdText(tx));
    forall i | 0 <= i < |a| ensures p(a[i]) {
      IdTextInjective(a[i], tx);
    }
    forall i | 0 <= i < |b| ensures p(b[i]) {
      IdTextInjective(b[i], tx);
    }
    FilterDropsOne(a, tx, b, p);
  }

  /**
   * A key that denotes the identity without being its own text (`"07"` for
   * 7) passes every active identity through the filter, yet the
   * identity is still appended to the previous list: it ends up in both.
   */
  lemma MoveByOtherSpelling(u: User, txKey: string, tx: ObjectId)
    requires CastId(txKey) == Some(tx) && txKey != IdText(tx)
    ensures Move(u, txKey, tx).activeTransactions == u.activeTransactions
    ensures Move(u, txKey, tx).prevTransactions == u.prevTransactions + [tx]
  {
    var p := KeepsOther(txKey);
    forall i | 0 <= i < |u.activeTransactions| ensures p(u.activeTransactions[i]) {
      CastIdOfIdText(u.activeTransactions[i]);
    }
    FilterKeepsPassing(u.activeTransactions, p);
  }

  /** Moving twice appends the identity twice: the previous list is not deduplicated. */
  lemma MoveTwiceDuplicates(u: User, tx: ObjectId)
    ensures Move(Move(u, IdText(tx), tx), IdText(tx), tx).prevTransactions == u.prevTransactions + [tx, tx]
  {
  }

  datatype UpdateOutcome = Updated(user: User) | UserNotFound | UpdateFailed
  datatype MoveOutcome = Moved(user: User) | Forbidden | MoveUserNotFound | MoveFailed

  /** Identities are distinct and below the next one to be issued. */
  predicate Directory(users: seq<User>, nextId: ObjectId) {
    (forall i :: 0 <= i < |users| ==> users[i].id < nextId) &&
    (forall i, j :: 0 <= i < j < |users| ==> users[i].id != users[j].id)
  }

  /** Replacing a user by one with its identity keeps the directory. */
  lemma DirectoryReplace(users: seq<User>, nextId: ObjectId, i: nat, u: User)
    requires Directory(users, nextId) && i < |users| && u.id == users[i].id
    ensures Directory(users[i := u], nextId)
  {
  }

  /** The user collection. */
  class UserStore {
    var users: seq<User>
    var nextId: ObjectId

    predicate Valid()
      reads this
    {
      Directory(users, nextId)
    }

    constructor ()
      ensures Valid() && users == [] && nextId == 0
    {
      users := [];
      nextId := 0;
    }

    /** `save()` of a new user: it takes the next identity. */
    method Insert(u: User)
      requires Valid() && u.id == nextId
      modifies this
      ensures Valid()
      ensures users == old(users) + [u] && nextId == old(nextId) + 1
    {
      users := users + [u];
      nextId := nextId + 1;
    }

    /** `save()` of a user already stored at position `i`. */
    method Replace(i: nat, u: User)
      requires Valid() && i < |users| && u.id == users[i].id
      modifies this
      ensures Valid()
      ensures users == old(users)[i := u] && nextId == old(nextId)
    {
      DirectoryReplace(users, nextId, i, u);
      users := users[i := u];
    }

    /**
     * `PUT /:id`: a key that denotes no identity fails, an
     * unknown identity is 404, and otherwise the body is merged into the
     * user's scalar paths and saved.
     */
    method Update(key: string, body: map<string, BodyValue>) returns (o: UpdateOutcome)
      requires Valid()
      modifies this
      ensures Valid() && nextId == old(nextId)
      ensures CastId(key).None? ==> o == UpdateFailed
      ensures CastId(key).Some? && IndexOfUser(old(users), CastId(key).value).None? ==> o == UserNotFound
      ensures CastId(key).Some? && IndexOfUser(old(users), CastId(key).value).Some? ==>
        var i := IndexOfUser(old(users), CastId(key).value).value;
        && (Merge(old(users)[i], body).None? ==> o == UpdateFailed)
        && (Merge(old(users)[i], body).Some? ==> o == Updated(Merge(old(users)[i], body).value) && users == old(users)[i := o.user])
      ensures !o.Updated? ==> users == old(users)
    {
      var id := CastId(key);
      if id.None? {
        return UpdateFailed;
      }
      var found := IndexOfUser(users, id.value);
      if found.None? {
        return UserNotFound;
      }
      var merged := Merge(users[found.value], body);
      if merged.None? {
        return UpdateFailed;
      }
      Replace(found.value, merged.value);
      o := Updated(merged.value);
    }

    /**
     * `PUT /:userId/transactions/:transactionId`: 403 unless the body's
     * `isAdmin` is truthy; then a user key that denotes no identity, or
     * a transaction key that does not cast to an identity, fails; an unknown
     * user is 404; otherwise the move is saved.
     */
    method MoveTransaction(userKey: string, txKey: string, isAdmin: Js.Value) returns (o: MoveOutcome)
      requires Valid()
      modifies this
      ensures Valid() && nextId == old(nextId)
      ensures !Js.Truthy(isAdmin) ==> o == Forbidden
      ensures Js.Truthy(isAdmin) && CastId(userKey).None? ==> o == MoveFailed
      ensures Js.Truthy(isAdmin) && CastId(userKey).Some? && IndexOfUser(old(users), CastId(userKey).value).None? ==>
        o == MoveUserNotFound
      ensures Js.Truthy(isAdmin) && CastId(userKey).Some? && IndexOfUser(old(users), CastId(userKey).value).Some? ==>
        var i := IndexOfUser(old(users), CastId(userKey).value).value;
        && (CastId(txKey).None? ==> o == MoveFailed)
        && (CastId(txKey).Some? ==>
              o == Moved(Move(old(users)[i], txKey, CastId(txKey).value)) && users == old(users)[i := o.user])
      ensures !o.Moved? ==> users == old(users)
    {
      if !Js.Truthy(isAdmin) {
        return Forbidden;
      }
      var id := CastId(userKey);
      if id.None? {
        return MoveFailed;
      }
      var found := IndexOfUser(users, id.value);
      if found.None? {
        return MoveUserNotFound;
      }
      var tx := CastId(txKey);
      if tx.None? {
        return MoveFailed;
      }
      var u := Move(users[found.value], txKey, tx.value);
      Replace(found.value, u);
      o := Moved(u);
    }
  }
}
