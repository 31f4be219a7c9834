/** The user collection the controllers read and write. Its schema file,
    server/models/User.js, is not part of this model: the record below holds the
    fields the controllers use. */
module UserModel {
  import opened Common
  import opened Sequences

  /** A user document: `password` holds the salted hash, `followers` and
      `following` hold user ids. */
  datatype User = User(
    id: Id,
    username: string,
    email: string,
    password: string,
    followers: seq<Id>,
    following: seq<Id>,
    createdAt: int)

  function UserId(u: User): Id { u.id }

  /** The user collection, its documents in natural (insertion) order. */
  class UserCollection {
    var docs: seq<User>

    /** Every user has its own id. */
    predicate Valid()
      reads this
    {
      UniqueKeys(docs, UserId)
    }

    constructor ()
      ensures Valid() && docs == []
    {
      docs := [];
    }
  }

  /** `User.findById(id)`: the position of the user with that id. */
  function FindUser(docs: seq<User>, id: Id): (r: Option<nat>)
    ensures r.None? <==> forall k :: 0 <= k < |docs| ==> docs[k].id != id
    ensures r.Some? ==> r.value < |docs| && docs[r.value].id == id
  {
    FirstIndex(docs, (u: User) => u.id == id)
  }

  /** `User.findOne({ username })`: the first user with that username. */
  function FindByUsername(docs: seq<User>, username: string): (r: Option<nat>)
    ensures r.None? <==> forall k :: 0 <= k < |docs| ==> docs[k].username != username
    ensures r.Some? ==> r.value < |docs| && docs[r.value].username == username
    ensures r.Some? ==> forall k :: 0 <= k < r.value ==> docs[k].username != username
  {
    FirstIndex(docs, (u: User) => u.username == username)
  }

  /** The filter `{ $or: [{ email }, { username }] }`. */
  predicate MatchesEither(u: User, email: string, username: string)
  {
    u.email == email || u.username == username
  }

  /** `User.findOne({ $or: [{ email }, { username }] })`: the first user whose
      email or username matches. */
  function FindEither(docs: seq<User>, email: string, username: string): (r: Option<nat>)
    ensures r.None? <==> forall k :: 0 <= k < |docs| ==> !MatchesEither(docs[k], email, username)
    ensures r.Some? ==> r.value < |docs| && MatchesEither(docs[r.value], email, username)
    ensures r.Some? ==> forall k :: 0 <= k < r.value ==> !MatchesEither(docs[k], email, username)
  {
    FirstIndex(docs, (u: User) => MatchesEither(u, email, username))
  }

  /** Some user has the id `x`. */
  predicate IsUser(docs: seq<User>, x: Id)
  {
    exists k :: 0 <= k < |docs| && docs[k].id == x
  }

  /** The follow graph is consistent: nobody follows themselves, every edge
      points at an existing user, and `b` is in `a.following` exactly when `a`
      is in `b.followers`. */
  predicate FollowGraph(docs: seq<User>)
  {
    && (forall i :: 0 <= i < |docs| ==> docs[i].id !in docs[i].following)
    && (forall i, x :: 0 <= i < |docs| && x in docs[i].following ==> IsUser(docs, x))
    && (forall i, x :: 0 <= i < |docs| && x in docs[i].followers ==> IsUser(docs, x))
    && (forall i, j :: 0 <= i < |docs| && 0 <= j < |docs| ==>
          (docs[j].id in docs[i].following <==> docs[i].id in docs[j].followers))
  }

  /** Distinct positions hold users with distinct ids. */
  lemma IdsDiffer(docs: seq<User>, i: nat, j: nat)
    requires UniqueKeys(docs, UserId)
    requires i < |docs| && j < |docs| && i != j
    ensures docs[i].id != docs[j].id
  {
    if i < j { assert UserId(docs[i]) != UserId(docs[j]); }
    else { assert UserId(docs[j]) != UserId(docs[i]); }
  }

  /** Rewriting users without touching their ids keeps the ids unique. */
  lemma SameIdsKeepUnique(a: seq<User>, b: seq<User>)
    requires UniqueKeys(a, UserId)
    requires |a| == |b| && forall k :: 0 <= k < |a| ==> a[k].id == b[k].id
    ensures UniqueKeys(b, UserId)
  {
    forall i, j | 0 <= i < j < |b| ensures UserId(b[i]) != UserId(b[j]) {
      assert UserId(a[i]) != UserId(a[j]);
    }
  }
}
