/** The records of the users, cafes and reviews collections, the getters of
    the session's `User` wrapper and the user loader that resolves a session id. */
module Documents {
  import opened Options
  import opened ObjectIds
  import Text

  /** What `werkzeug.security.generate_password_hash` produced; never interpreted here. */
  type Hash = string

  /** A document field: missing, stored as `null`, or holding a value. */
  datatype Field<T> = Absent | Null | Present(value: T)

  /** `doc.get(key, default)`: the default only when the key is missing; a stored
      `null` reads as `None`. */
  function Get<T>(f: Field<T>, default: T): Option<T> {
    match f
    case Absent => Some(default)
    case Null => None
    case Present(v) => Some(v)
  }

  /** The field written by `{"$set": {key: value}}` for a value that may be `None`. */
  function Assigned<T>(v: Option<T>): Field<T> {
    match v
    case None => Null
    case Some(x) => Present(x)
  }

  datatype Role = Customer | Owner

  /** The role-selection whitelist: only the strings "customer" and "owner" name a role. */
  function ParseRole(v: Option<string>): (r: Option<Role>)
    ensures r == Some(Customer) <==> v == Some("customer")
    ensures r == Some(Owner) <==> v == Some("owner")
    ensures r.None? <==> v != Some("customer") && v != Some("owner")
  {
    if v == Some("customer") then Some(Customer)
    else if v == Some("owner") then Some(Owner)
    else None
  }

  datatype UserDoc = UserDoc(
    username: Field<string>,
    email: string,
    passwordHash: Hash,
    role: Field<Role>,
    phone: Field<string>,
    shopLocation: Field<string>,
    operationHours: Field<string>)

  /** The record signup inserts: normalised username and email, the hash, role `None`. */
  function NewUser(username: string, email: string, hash: Hash): UserDoc {
    UserDoc(Present(username), email, hash, Null, Absent, Absent, Absent)
  }

  /** `User.username`: the stored name, "" when the key is missing, `None` when a
      null is stored. */
  function UserName(u: UserDoc): (r: Option<string>)
    ensures r.None? <==> u.username.Null?
    ensures u.username.Absent? ==> r == Some("")
    ensures u.username.Present? ==> r == Some(u.username.value)
  {
    Get(u.username, "")
  }

  /** `User.role`: a record without a role key counts as a customer; the `None`
      that signup stores stays `None` until a role is selected. */
  function UserRole(u: UserDoc): (r: Option<Role>)
    ensures r == Some(Owner) <==> u.role == Present(Owner)
    ensures r == Some(Customer) <==> u.role == Absent || u.role == Present(Customer)
    ensures r == None <==> u.role == Null
  {
    Get(u.role, Customer)
  }

  /** `load_user(user_id)`: the session's id resolves to a user only when it parses
      and the record exists; every other case reads as anonymous. */
  function LoadUser(users: map<ObjectId, UserDoc>, sessionId: string): (r: Option<ObjectId>)
    ensures r.Some? <==> ParseObjectId(sessionId).Some? && ParseObjectId(sessionId).value in users
    ensures r.Some? ==> r == ParseObjectId(sessionId) && r.value in users
  {
    match ParseObjectId(sessionId)
    case None => None
    case Some(id) => if id in users then Some(id) else None
  }

  /** `login_user` stores `str(_id)` in the session: loading it finds the same user again. */
  lemma SessionRoundTrip(users: map<ObjectId, UserDoc>, id: ObjectId)
    requires id in users
    ensures LoadUser(users, IdString(id)) == Some(id)
  {
    ParseIdString(id);
  }

  /** `users_col.find_one({"email": email})` finds something. */
  predicate EmailTaken(users: map<ObjectId, UserDoc>, email: string) {
    exists id :: id in users && users[id].email == email
  }

  /** `users_col.find_one({"username": username})` finds something. */
  predicate UsernameTaken(users: map<ObjectId, UserDoc>, username: string) {
    exists id :: id in users && users[id].username == Present(username)
  }

  ghost predicate EmailsUnique(users: map<ObjectId, UserDoc>) {
    forall a, b :: a in users && b in users && a != b ==> users[a].email != users[b].email
  }

  ghost predicate UsernamesUnique(users: map<ObjectId, UserDoc>) {
    forall a, b :: a in users && b in users && a != b && users[a].username.Present? ==>
      users[a].username != users[b].username
  }

  ghost predicate Unique(users: map<ObjectId, UserDoc>) {
    EmailsUnique(users) && UsernamesUnique(users)
  }

  /** The profile form's update of one record: username and phone always, the shop
      fields only for an owner; email, password hash and role never change. */
  function ProfileUpdate(u: UserDoc, username: Option<string>, phone: Option<string>,
                         shopLocation: Option<string>, operationHours: Option<string>): (r: UserDoc)
    ensures r.username == Assigned(username) && r.phone == Assigned(phone)
    ensures r.email == u.email && r.passwordHash == u.passwordHash && r.role == u.role
    ensures UserRole(u) == Some(Owner) ==>
      r.shopLocation == Assigned(shopLocation) && r.operationHours == Assigned(operationHours)
    ensures UserRole(u) != Some(Owner) ==>
      r.shopLocation == u.shopLocation && r.operationHours == u.operationHours
  {
    var r := u.(username := Assigned(username), phone := Assigned(phone));
    if UserRole(u) == Some(Owner) then
      r.(shopLocation := Assigned(shopLocation), operationHours := Assigned(operationHours))
    else r
  }

  /** The name signup stores reads back as that name; a profile save whose form has no
      username field stores null, which reads back as `None` (and is what a review
      posted afterwards records as its author name). */
  lemma UserNameWrites(n: string, e: string, h: Hash, u: UserDoc, phone: Option<string>,
                       shopLocation: Option<string>, operationHours: Option<string>)
    ensures UserName(NewUser(n, e, h)) == Some(n)
    ensures UserName(ProfileUpdate(u, None, phone, shopLocation, operationHours)) == None
    ensures UserName(ProfileUpdate(u, Some(n), phone, shopLocation, operationHours)) == Some(n)
  {
  }

  /** The profile form has no uniqueness check: a user can take another user's name. */
  lemma ProfileMayDuplicateUsername(a: ObjectId, b: ObjectId, users: map<ObjectId, UserDoc>)
    requires a != b && a in users && b in users && users[a].username.Present?
    ensures !UsernamesUnique(users[b := ProfileUpdate(users[b], Some(users[a].username.value), None, None, None)])
  {
    var after := users[b := ProfileUpdate(users[b], Some(users[a].username.value), None, None, None)];
    assert after[a].username == after[b].username;
  }

  datatype Cafe = Cafe(name: string)

  /** A review record; `username` is the author's name as it was when the review was posted. */
  datatype ReviewDoc = ReviewDoc(cafeId: ObjectId, userId: ObjectId, username: Option<string>,
                                 rating: int, text: string)

  /** A review as the cafe page receives it, with the author's id as a string once annotated. */
  datatype ReviewView = ReviewView(id: ObjectId, review: ReviewDoc, userIdStr: Option<string>)

  /** `str(review["user_id"]) == str(current_user.get_id())` */
  predicate IsAuthor(r: ReviewDoc, me: ObjectId) {
    IdString(r.userId) == IdString(me)
  }

  /** The string comparison the handlers use decides authorship exactly. */
  lemma IsAuthorIff(r: ReviewDoc, me: ObjectId)
    ensures IsAuthor(r, me) <==> r.userId == me
  {
    IdStringInjective(r.userId, me);
  }

  /** What the review handlers keep true of a stored review: a rating in [1, 5] and a
      non-empty text that neither starts nor ends with whitespace. */
  ghost predicate WellFormedReview(r: ReviewDoc) {
    1 <= r.rating <= 5 && r.text != [] && Text.Stripped(r.text)
  }

  ghost predicate ReviewsWellFormed(reviews: map<ObjectId, ReviewDoc>) {
    forall id :: id in reviews ==> WellFormedReview(reviews[id])
  }
}
