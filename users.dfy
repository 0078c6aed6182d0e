/**
 * The user documents the authentication handlers read and write, and the
 * document-store queries they issue.
 *
 * The store is a sequence of documents in natural (insertion) order; the
 * index of a document is its id.  `findOne` returns the first document in
 * that order that satisfies the query filter.
 */
module Users {
  import opened Wrappers

  /** A user document, restricted to the fields the handlers touch.
      `password` stands for the stored credential; comparing a supplied
      password with it is modelled as equality. */
  datatype User = User(
    name: string,
    email: string,
    phone: string,
    password: string,
    resetPasswordOtp: Option<string>,
    resetPasswordToken: Option<string>,
    resetPasswordExpire: Option<int>)

  /** The document `User.create` inserts: no reset flow in progress. */
  function NewUser(name: string, email: string, phone: string, password: string): (u: User)
    ensures u.resetPasswordOtp == None && u.resetPasswordToken == None && u.resetPasswordExpire == None
  {
    User(name, email, phone, password, None, None, None)
  }

  /** The query filters the handlers pass to `findOne`. */
  datatype Query =
    | ByEmail(email: string)                          // { email }
    | ByPhone(phone: string)                          // { phone }
    | ByEmailUnexpired(email: string, now: int)       // { email, resetPasswordExpire: { $gt: now } }
    | ByTokenUnexpired(tokenHash: string, now: int)   // { resetPasswordToken, resetPasswordExpire: { $gt: now } }

  /** `resetPasswordExpire: { $gt: now }`: a document without the field never matches. */
  predicate Unexpired(u: User, now: int)
  {
    u.resetPasswordExpire.Some? && u.resetPasswordExpire.value > now
  }

  predicate Matches(u: User, q: Query)
  {
    match q
    case ByEmail(e) => u.email == e
    case ByPhone(p) => u.phone == p
    case ByEmailUnexpired(e, now) => u.email == e && Unexpired(u, now)
    case ByTokenUnexpired(h, now) => u.resetPasswordToken == Some(h) && Unexpired(u, now)
  }

  /** `findOne(q)`: the id of the first document matching `q`, if any. */
  function FindOne(users: seq<User>, q: Query): (r: Option<nat>)
    ensures r.Some? ==> r.value < |users| && Matches(users[r.value], q)
    ensures r.Some? ==> forall j :: 0 <= j < r.value ==> !Matches(users[j], q)
    ensures r.None? <==> forall j :: 0 <= j < |users| ==> !Matches(users[j], q)
  {
    if |users| == 0 then None
    else if Matches(users[0], q) then Some(0)
    else match FindOne(users[1..], q)
      case None => None
      case Some(k) => Some(k + 1)
  }

  predicate EmailTaken(users: seq<User>, email: string)
  {
    exists j :: 0 <= j < |users| && users[j].email == email
  }

  /** No two documents share an email address. */
  predicate EmailsUnique(users: seq<User>)
  {
    forall j, k :: 0 <= j < |users| && 0 <= k < |users| && j != k ==> users[j].email != users[k].email
  }

  /** No two documents share a phone number. */
  predicate PhonesUnique(users: seq<User>)
  {
    forall j, k :: 0 <= j < |users| && 0 <= k < |users| && j != k ==> users[j].phone != users[k].phone
  }

  /** `after` is `before` with at most the document at `i` replaced. */
  predicate OnlyAt(before: seq<User>, after: seq<User>, i: nat)
  {
    |after| == |before| && i < |before| &&
    forall j :: 0 <= j < |before| && j != i ==> after[j] == before[j]
  }

  /** The account fields the password-reset flow never touches. */
  predicate SameAccount(u: User, v: User)
  {
    u.name == v.name && u.email == v.email && u.phone == v.phone
  }

  /** With unique emails, the document found by email is the one owning it. */
  lemma FindByEmailIsOwner(users: seq<User>, i: nat, q: Query)
    requires EmailsUnique(users)
    requires i < |users|
    requires q.ByEmail? || q.ByEmailUnexpired?
    requires q.email == users[i].email
    ensures Matches(users[i], q) ==> FindOne(users, q) == Some(i)
    ensures !Matches(users[i], q) ==> FindOne(users, q) == None
  {
    var r := FindOne(users, q);
    if r.Some? {
      assert users[r.value].email == users[i].email;
    }
  }

  /** Replacing one document but keeping its email keeps emails unique. */
  lemma SameEmailKeepsUnique(before: seq<User>, after: seq<User>, i: nat)
    requires OnlyAt(before, after, i)
    requires after[i].email == before[i].email
    ensures EmailsUnique(before) ==> EmailsUnique(after)
  {
    if EmailsUnique(before) {
      forall j, k | 0 <= j < |after| && 0 <= k < |after| && j != k
        ensures after[j].email != after[k].email
      {
        assert after[j].email == before[j].email;
        assert after[k].email == before[k].email;
      }
    }
  }
}
