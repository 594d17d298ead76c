/**
 * The decisions the user controller takes: the validation and hashing of a batch
 * of new users, the sign-in decision by full name and password with the record it
 * sends back, and the "User not found" outcomes of the lookups by `id`.
 *
 * Users live in a store modelled as a sequence of records; a query such as
 * `findOne({ id })` returns the first record that matches. Password hashing,
 * salt generation and hash comparison are opaque: they are passed in as
 * functions and the model decides nothing about what they compute.
 */
module UserController {
  import opened Js
  import opened Results

  // ---------------------------------------------------------------------------
  // Records and responses
  // ---------------------------------------------------------------------------

  /**
   * A stored user. `password` holds the hash. `mentor` is the reference that
   * `getByMentor` queries, and `others` holds every other stored field, such as
   * `email` and the version key `__v`; the handlers modelled here never read them.
   */
  datatype User = User(
    oid: string,             // `_id`
    id: string,
    fullname: string,
    domain: string,
    password: string,
    taskDone: seq<string>,
    taskAssign: seq<string>,
    mentor: Option<string>,
    others: map<string, JsValue>)

  /** The user record a successful sign-in sends back. It has no password field. */
  datatype PublicUser = PublicUser(
    oid: string,
    id: string,
    fullname: string,
    domain: string,
    taskDone: seq<string>,
    taskAssign: seq<string>)

  /** The JSON bodies the controller sends. */
  datatype Body =
    | Message(message: string)                  // `{ message }`
    | Failure(message: string)                  // `{ success: false, message }`
    | SignedIn(user: PublicUser)                // `{ success: true, user }`
    | Document(doc: User)                       // one stored user
    | Documents(docs: seq<JsValue>)             // the inserted users

  /** An HTTP status and its JSON body. */
  datatype Response = Response(status: nat, body: Body)

  const AllFieldsRequired: string := "All fields (fullname, email, password) are required for each user"
  const NotIterable: string := "users is not iterable"
  const CredentialsRequired: string := "Fullname and password is required"
  const UserNotFound: string := "User not found"
  const WrongCredentials: string := "Fullname or password is incorrect"
  const UserDeleted: string := "User deleted successfully"

  // ---------------------------------------------------------------------------
  // Lookup in the store
  // ---------------------------------------------------------------------------

  /** `i` is the position of the first user satisfying `p`. */
  predicate IsFirstMatch(store: seq<User>, p: User -> bool, i: int) {
    0 <= i < |store| && p(store[i]) && forall j | 0 <= j < i :: !p(store[j])
  }

  /** There is at most one first match. */
  lemma FirstMatchUnique(store: seq<User>, p: User -> bool, i: int, j: int)
    requires IsFirstMatch(store, p, i) && IsFirstMatch(store, p, j)
    ensures i == j
  {
  }

  /** The position `findOne` returns: the first user satisfying `p`, if any. */
  function FirstMatch(store: seq<User>, p: User -> bool): (r: Option<nat>)
    ensures r.None? <==> forall i | 0 <= i < |store| :: !p(store[i])
    ensures r.Some? ==> IsFirstMatch(store, p, r.value)
  {
    if store == [] then None
    else if p(store[0]) then Some(0)
    else
      var rest := FirstMatch(store[1..], p);
      assert forall i | 1 <= i < |store| :: store[i] == store[1..][i - 1];
      if rest.None? then None else Some(rest.value + 1)
  }

  /** The query `{ id }`. */
  function HasId(id: string): User -> bool {
    (u: User) => u.id == id
  }

  /** The query `{ fullname }` with the value taken from the request body. */
  function HasFullname(fullname: JsValue): User -> bool {
    (u: User) => Str(u.fullname) == fullname
  }

  // ---------------------------------------------------------------------------
  // createMany
  // ---------------------------------------------------------------------------

  /** The number of bcrypt rounds the salt is generated with. */
  const SaltRounds: nat := 10

  /** A bcrypt salt: its cost and the random part `genSalt` draws. */
  datatype Salt = Salt(rounds: nat, nonce: string)

  /** `bcrypt.hash(data, salt)`: the hash, or the message of the error it raises. */
  type Hasher = (JsValue, Salt) -> Result<string, string>

  /** What `createMany` answers, and the batch it hands to `insertMany` (none when it is not called). */
  datatype CreateManyResult = CreateManyResult(response: Response, inserted: Option<seq<JsValue>>)

  /** The validation loop's test of one element: a truthy `password`. */
  predicate HasPassword(user: JsValue) {
    Truthy(Get(user, "password"))
  }

  /**
   * The 400 message for an element that fails the test: reading `password` of
   * `null` or `undefined` throws a TypeError whose message is sent; any other
   * element gets the fixed message.
   */
  function RejectionMessage(user: JsValue): string {
    if user.Null? then "Cannot read properties of null (reading 'password')"
    else if user.Undefined? then "Cannot read properties of undefined (reading 'password')"
    else AllFieldsRequired
  }

  /** The validation loop: the message of the first element without a password, if any. */
  function ValidationError(users: seq<JsValue>): (r: Option<string>)
    ensures r.None? <==> forall i | 0 <= i < |users| :: HasPassword(users[i])
    ensures r.Some? ==> exists i :: 0 <= i < |users| && !HasPassword(users[i])
                          && (forall j | 0 <= j < i :: HasPassword(users[j]))
                          && r.value == RejectionMessage(users[i])
  {
    if users == [] then None
    else if !HasPassword(users[0]) then Some(RejectionMessage(users[0]))
    else
      var rest := ValidationError(users[1..]);
      assert forall i | 1 <= i < |users| :: users[i] == users[1..][i - 1];
      if rest.Some? then
        var k :| 0 <= k < |users[1..]| && !HasPassword(users[1..][k])
                 && (forall j | 0 <= j < k :: HasPassword(users[1..][j]))
                 && rest.value == RejectionMessage(users[1..][k]);
        assert !HasPassword(users[k + 1]);
        rest
      else rest
  }

  /** `{ ...user, password: hash }`. */
  function WithPassword(user: JsValue, hash: string): JsValue {
    Obj(OwnFields(user)["password" := Str(hash)])
  }

  /** `doc` is `user` with only its password replaced by `hash`. */
  predicate SameExceptPassword(user: JsValue, doc: JsValue, hash: string) {
    && user.Obj? && doc.Obj?
    && "password" in doc.fields && doc.fields["password"] == Str(hash)
    && (forall k | k in user.fields && k != "password" :: k in doc.fields && doc.fields[k] == user.fields[k])
    && (forall k | k in doc.fields && k != "password" :: k in user.fields)
  }

  /**
   * The `Promise.all` over the batch: every user with its password hashed under
   * the one salt, or the error of the first element whose hashing fails.
   */
  function HashAll(users: seq<JsValue>, salt: Salt, hash: Hasher): (r: Result<seq<JsValue>, string>)
    requires forall i | 0 <= i < |users| :: users[i].Obj?
    ensures r.Ok? <==> forall i | 0 <= i < |users| :: hash(Get(users[i], "password"), salt).Ok?
    ensures r.Ok? ==> |r.value| == |users|
    ensures r.Ok? ==> forall i | 0 <= i < |users| ::
                        SameExceptPassword(users[i], r.value[i], hash(Get(users[i], "password"), salt).value)
    ensures r.Err? ==> exists i :: 0 <= i < |users| && hash(Get(users[i], "password"), salt) == Err(r.error)
                                   && forall j | 0 <= j < i :: hash(Get(users[j], "password"), salt).Ok?
  {
    if users == [] then Ok([])
    else
      var h := hash(Get(users[0], "password"), salt);
      var rest := HashAll(users[1..], salt, hash);
      assert forall i | 1 <= i < |users| :: users[i] == users[1..][i - 1];
      if h.Err? then Err(h.error)
      else if rest.Err? then
        var k :| 0 <= k < |users[1..]| && hash(Get(users[1..][k], "password"), salt) == Err(rest.error)
                 && forall j | 0 <= j < k :: hash(Get(users[1..][j], "password"), salt).Ok?;
        assert hash(Get(users[k + 1], "password"), salt) == Err(rest.error);
        Err(rest.error)
      else
        var r := [WithPassword(users[0], h.value)] + rest.value;
        assert forall i | 1 <= i < |users| :: r[i] == rest.value[i - 1];
        Ok(r)
  }

  /**
   * `createMany`: the request body must be an array whose every element has a
   * truthy `password`; otherwise 400 and nothing is hashed or inserted. A valid
   * batch is hashed with one freshly generated salt (`nonce` stands for its
   * random part) and handed to `insertMany` in the order received.
   */
  function CreateMany(body: JsValue, nonce: string, hash: Hasher): (r: CreateManyResult)
    ensures r.response.status == 201 || r.response.status == 400
    ensures r.inserted.None? <==> r.response.status == 400
    ensures !body.Arr? ==> r == CreateManyResult(Response(400, Message(NotIterable)), None)
    ensures body.Arr? && (exists i :: 0 <= i < |body.items| && !HasPassword(body.items[i])) ==>
              && r.inserted.None?
              && exists i :: 0 <= i < |body.items| && !HasPassword(body.items[i])
                             && (forall j | 0 <= j < i :: HasPassword(body.items[j]))
                             && r.response == Response(400, Message(RejectionMessage(body.items[i])))
    ensures body.Arr? && (forall i | 0 <= i < |body.items| :: HasPassword(body.items[i])) ==>
              ((forall i | 0 <= i < |body.items| :: hash(Get(body.items[i], "password"), Salt(SaltRounds, nonce)).Ok?)
               <==> r.inserted.Some?)
    ensures body.Arr? && (forall i | 0 <= i < |body.items| :: HasPassword(body.items[i])) && r.inserted.None? ==>
              exists i :: 0 <= i < |body.items|
                          && hash(Get(body.items[i], "password"), Salt(SaltRounds, nonce)).Err?
                          && (forall j | 0 <= j < i :: hash(Get(body.items[j], "password"), Salt(SaltRounds, nonce)).Ok?)
                          && r.response == Response(400, Message(hash(Get(body.items[i], "password"), Salt(SaltRounds, nonce)).error))
    ensures r.inserted.Some? ==>
              && body.Arr?
              && r.response == Response(201, Documents(r.inserted.value))
              && |r.inserted.value| == |body.items|
              && forall i | 0 <= i < |body.items| ::
                   && HasPassword(body.items[i])
                   && hash(Get(body.items[i], "password"), Salt(SaltRounds, nonce)).Ok?
                   && SameExceptPassword(body.items[i], r.inserted.value[i],
                                         hash(Get(body.items[i], "password"), Salt(SaltRounds, nonce)).value)
  {
    if !body.Arr? then CreateManyResult(Response(400, Message(NotIterable)), None)
    else
      match ValidationError(body.items)
      case Some(m) => CreateManyResult(Response(400, Message(m)), None)
      case None =>
        var salt := Salt(SaltRounds, nonce);
        match HashAll(body.items, salt, hash)
        case Err(e) => CreateManyResult(Response(400, Message(e)), None)
        case Ok(docs) => CreateManyResult(Response(201, Documents(docs)), Some(docs))
  }

  /**
   * A rejected batch is rejected before the salt is generated or anything is
   * hashed: the answer is the same whatever the salt and the hash function.
   */
  lemma RejectedBatchIgnoresHashing(body: JsValue, n1: string, h1: Hasher, n2: string, h2: Hasher)
    requires !body.Arr? || exists i :: 0 <= i < |body.items| && !HasPassword(body.items[i])
    ensures CreateMany(body, n1, h1) == CreateMany(body, n2, h2)
    ensures CreateMany(body, n1, h1).inserted.None?
  {
  }

  /**
   * Only the password is checked, whatever the message says: an element with
   * nothing but a password is accepted when hashing succeeds.
   */
  lemma OnlyPasswordIsRequired(password: string, nonce: string, hash: Hasher)
    requires password != ""
    requires hash(Str(password), Salt(SaltRounds, nonce)).Ok?
    ensures var user := Obj(map["password" := Str(password)]);
            var r := CreateMany(Arr([user]), nonce, hash);
            && r.response.status == 201
            && r.inserted == Some([Obj(map["password" := Str(hash(Str(password), Salt(SaltRounds, nonce)).value)])])
  {
    var user := Obj(map["password" := Str(password)]);
    assert Get(user, "password") == Str(password);
    var h := hash(Str(password), Salt(SaltRounds, nonce)).value;
    assert HasPassword(user);
    assert ValidationError([user]).None?;
    assert WithPassword(user, h) == Obj(map["password" := Str(h)]);
    assert [user][1..] == [];
    assert HashAll([user][1..], Salt(SaltRounds, nonce), hash) == Ok([]);
    assert [WithPassword(user, h)] + [] == [WithPassword(user, h)];
    assert HashAll([user], Salt(SaltRounds, nonce), hash) == Ok([WithPassword(user, h)]);
  }

  // ---------------------------------------------------------------------------
  // getOneUser
  // ---------------------------------------------------------------------------

  /** `bcrypt.compare(plain, hash)`: whether they match, or the message of the error it raises. */
  type Comparer = (JsValue, string) -> Result<bool, string>

  /** The record sent back on a successful sign-in. */
  function Project(u: User): PublicUser {
    PublicUser(u.oid, u.id, u.fullname, u.domain, u.taskDone, u.taskAssign)
  }

  /**
   * The sign-in record is determined by exactly six stored fields. It drops the
   * password hash, the mentor and every other stored field.
   */
  lemma ProjectionKeepsPublicFields(u: User, w: User)
    ensures Project(u) == Project(w) <==>
              u.oid == w.oid && u.id == w.id && u.fullname == w.fullname &&
              u.domain == w.domain && u.taskDone == w.taskDone && u.taskAssign == w.taskAssign
    ensures u.(password := w.password, mentor := w.mentor, others := w.others) == w ==> Project(u) == Project(w)
  {
  }

  /**
   * The TypeError raised by `const { fullname, password } = req.body` when the
   * body is `null` or `undefined`.
   */
  function DestructureMessage(body: JsValue): string {
    if body.Null? then "Cannot destructure property 'fullname' of 'req.body' as it is null."
    else "Cannot destructure property 'fullname' of 'req.body' as it is undefined."
  }

  /**
   * `getOneUser`: a `null` or missing body makes the destructuring throw (500);
   * both `fullname` and `password` must be truthy (400, no lookup); the first
   * user with that full name is looked up (404 when there is none); the
   * password is compared with that user's hash (400 when it does not match, 500
   * when the comparison raises); and only then is the public part of the record
   * sent.
   */
  function GetOneUser(store: seq<User>, body: JsValue, compare: Comparer): (r: Response)
    ensures Nullish(body) ==> r == Response(500, Failure(DestructureMessage(body)))
    ensures !Nullish(body) && (!Truthy(Get(body, "fullname")) || !Truthy(Get(body, "password"))) ==>
              r == Response(400, Failure(CredentialsRequired))
    ensures Truthy(Get(body, "fullname")) && Truthy(Get(body, "password")) ==>
              ((forall i | 0 <= i < |store| :: !HasFullname(Get(body, "fullname"))(store[i]))
               <==> r == Response(404, Failure(UserNotFound)))
    ensures Truthy(Get(body, "fullname")) && Truthy(Get(body, "password")) ==>
              forall i | IsFirstMatch(store, HasFullname(Get(body, "fullname")), i) ::
                var verdict := compare(Get(body, "password"), store[i].password);
                && (verdict == Ok(false) ==> r == Response(400, Failure(WrongCredentials)))
                && (verdict == Ok(true) ==> r == Response(200, SignedIn(Project(store[i]))))
                && (verdict.Err? ==> r == Response(500, Failure(verdict.error)))
    ensures r.status == 200 <==> r.body.SignedIn?
    ensures r.status in {200, 400, 404, 500}
    ensures r.body.SignedIn? ==>
              exists i :: IsFirstMatch(store, HasFullname(Get(body, "fullname")), i)
                          && compare(Get(body, "password"), store[i].password) == Ok(true)
                          && r.body.user == Project(store[i])
    ensures r == Response(400, Failure(WrongCredentials)) ==>
              exists i :: IsFirstMatch(store, HasFullname(Get(body, "fullname")), i)
                          && compare(Get(body, "password"), store[i].password) == Ok(false)
    ensures r.status == 500 ==> r.body.Failure?
    ensures r.status == 500 && !Nullish(body) ==>
              exists i :: IsFirstMatch(store, HasFullname(Get(body, "fullname")), i)
                          && compare(Get(body, "password"), store[i].password) == Err(r.body.message)
  {
    if Nullish(body) then
      Response(500, Failure(DestructureMessage(body)))
    else
      var fullname := Get(body, "fullname");
      var password := Get(body, "password");
      if !Truthy(fullname) || !Truthy(password) then
        Response(400, Failure(CredentialsRequired))
      else
        match FirstMatch(store, HasFullname(fullname))
        case None => Response(404, Failure(UserNotFound))
        case Some(i) =>
          match compare(password, store[i].password)
          case Err(e) => Response(500, Failure(e))
          case Ok(matched) =>
            if !matched then Response(400, Failure(WrongCredentials))
            else Response(200, SignedIn(Project(store[i])))
  }

  /**
   * A request without a body or missing either credential is answered without
   * reading the store or comparing: the answer is the same for every store and
   * every compare function.
   */
  lemma MissingCredentialsSkipLookup(s1: seq<User>, c1: Comparer, s2: seq<User>, c2: Comparer, body: JsValue)
    requires !Truthy(Get(body, "fullname")) || !Truthy(Get(body, "password"))
    ensures GetOneUser(s1, body, c1) == GetOneUser(s2, body, c2)
    ensures !Nullish(body) ==> GetOneUser(s1, body, c1) == Response(400, Failure(CredentialsRequired))
  {
  }

  /** The unknown-name check comes first: a 404 answer does not depend on the password comparison. */
  lemma UnknownNameSkipsCompare(store: seq<User>, body: JsValue, c1: Comparer, c2: Comparer)
    requires GetOneUser(store, body, c1) == Response(404, Failure(UserNotFound))
    ensures GetOneUser(store, body, c2) == Response(404, Failure(UserNotFound))
  {
  }

  /**
   * The answer never reveals the stored hash: changing a user's hash while the
   * comparison still agrees leaves the answer unchanged.
   */
  lemma SignInHidesHash(store: seq<User>, body: JsValue, compare: Comparer, k: nat, hash: string)
    requires k < |store|
    requires compare(Get(body, "password"), hash) == compare(Get(body, "password"), store[k].password)
    ensures GetOneUser(store[k := store[k].(password := hash)], body, compare) == GetOneUser(store, body, compare)
  {
    var store' := store[k := store[k].(password := hash)];
    var p := HasFullname(Get(body, "fullname"));
    assert forall i | 0 <= i < |store| :: p(store'[i]) == p(store[i]);
    var m := FirstMatch(store, p);
    if m.Some? {
      assert IsFirstMatch(store', p, m.value);
      FirstMatchUnique(store', p, m.value, FirstMatch(store', p).value);
    }
  }

  // ---------------------------------------------------------------------------
  // getById, update, delete
  // ---------------------------------------------------------------------------

  /** `getById`: the first user with that `id`, whole (password hash included), or 404. */
  function GetById(store: seq<User>, id: string): (r: Response)
    ensures r.status == 404 <==> forall i | 0 <= i < |store| :: store[i].id != id
    ensures r.status == 404 ==> r.body == Message(UserNotFound)
    ensures r.status != 404 ==>
              r.status == 200 && exists i :: IsFirstMatch(store, HasId(id), i) && r.body == Document(store[i])
  {
    match FirstMatch(store, HasId(id))
    case None => Response(404, Message(UserNotFound))
    case Some(i) => Response(200, Document(store[i]))
  }

  /**
   * `update`: the first user with that `id` is replaced by `patch` applied to it
   * and the updated record is sent; when there is none, 404 and the store is
   * unchanged. `patch` stands for the update document of the request.
   */
  function Update(store: seq<User>, id: string, patch: User -> User): (r: (Response, seq<User>))
    ensures r.0.status == 404 <==> forall i | 0 <= i < |store| :: store[i].id != id
    ensures r.0.status == 404 ==> r.0.body == Message(UserNotFound) && r.1 == store
    ensures r.0.status != 404 ==>
              && r.0.status == 200
              && |r.1| == |store|
              && exists i :: IsFirstMatch(store, HasId(id), i)
                             && r.1[i] == patch(store[i])
                             && r.0.body == Document(patch(store[i]))
                             && (forall j | 0 <= j < |store| && j != i :: r.1[j] == store[j])
  {
    match FirstMatch(store, HasId(id))
    case None => (Response(404, Message(UserNotFound)), store)
    case Some(i) => (Response(200, Document(patch(store[i]))), store[i := patch(store[i])])
  }

  /**
   * `delete`: the first user with that `id` is removed, the others keep their
   * order; when there is none, 404 and the store is unchanged.
   */
  function Delete(store: seq<User>, id: string): (r: (Response, seq<User>))
    ensures r.0.status == 404 <==> forall i | 0 <= i < |store| :: store[i].id != id
    ensures r.0.status == 404 ==> r.0.body == Message(UserNotFound) && r.1 == store
    ensures r.0.status != 404 ==>
              && r.0 == Response(200, Message(UserDeleted))
              && |r.1| == |store| - 1
              && exists i :: IsFirstMatch(store, HasId(id), i)
                             && (forall j | 0 <= j < i :: r.1[j] == store[j])
                             && (forall j | i < j < |store| :: r.1[j - 1] == store[j])
  {
    match FirstMatch(store, HasId(id))
    case None => (Response(404, Message(UserNotFound)), store)
    case Some(i) => (Response(200, Message(UserDeleted)), store[..i] + store[i + 1..])
  }

  /** The three lookups by `id` agree on when a user is not found. */
  lemma NotFoundAgrees(store: seq<User>, id: string, patch: User -> User)
    ensures GetById(store, id).status == 404 <==> Update(store, id, patch).0.status == 404
    ensures GetById(store, id).status == 404 <==> Delete(store, id).0.status == 404
  {
  }

  /** No two users share an `id`. */
  predicate UniqueIds(store: seq<User>) {
    forall i, j | 0 <= i < j < |store| :: store[i].id != store[j].id
  }

  /** After a successful delete in a store with unique ids, the user is no longer found. */
  lemma DeleteThenGetById(store: seq<User>, id: string)
    requires UniqueIds(store)
    requires Delete(store, id).0.status == 200
    ensures GetById(Delete(store, id).1, id).status == 404
  {
  }

  /**
   * After a successful update whose patch keeps the `id`, looking the user up
   * again returns exactly what the update sent.
   */
  lemma UpdateThenGetById(store: seq<User>, id: string, patch: User -> User)
    requires Update(store, id, patch).0.status == 200
    requires forall u: User :: u.id == id ==> patch(u).id == id
    ensures GetById(Update(store, id, patch).1, id) == Update(store, id, patch).0
  {
  }
}
