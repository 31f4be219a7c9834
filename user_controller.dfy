/** The handlers of server/controllers/userController.js: the public profile
    and the follow graph kept on both ends of every edge. */
module UserController {
  import opened Common
  import opened Sequences
  import opened UserModel

  /** The public profile `getUserProfile` sends. */
  datatype Profile = Profile(id: Id, username: string, followersCount: nat, followingCount: nat, createdAt: int)

  /** Does a profile request for `identifier` name user `u`? A valid ObjectId is
      looked up as an id, anything else as a username. */
  predicate Names(u: User, identifier: string, isObjectId: bool)
  {
    if isObjectId then u.id == identifier else u.username == identifier
  }

  /** `getUserProfile`: 404 when no user is named by `identifier`; otherwise the
      named user's id, username, creation time and the sizes of both edge lists.
      `isObjectId` is the store's ObjectId syntax check. */
  function GetUserProfile(docs: seq<User>, identifier: string, isObjectId: string -> bool): (r: Response<Profile>)
    ensures r.status == OK || r.status == NOT_FOUND
    ensures r.status == NOT_FOUND <==>
              forall k :: 0 <= k < |docs| ==> !Names(docs[k], identifier, isObjectId(identifier))
    ensures r.status == NOT_FOUND ==> r.body == Message("User not found")
    ensures r.status == OK ==>
              && r.body.Data?
              && exists k :: && 0 <= k < |docs| && Names(docs[k], identifier, isObjectId(identifier))
                             && r.body.value.id == docs[k].id && r.body.value.username == docs[k].username
                             && r.body.value.followersCount == |docs[k].followers|
                             && r.body.value.followingCount == |docs[k].following|
                             && r.body.value.createdAt == docs[k].createdAt
  {
    var found := if isObjectId(identifier) then FindUser(docs, identifier) else FindByUsername(docs, identifier);
    match found
    case None => Response(NOT_FOUND, Message("User not found"))
    case Some(k) =>
      var u := docs[k];
      Response(OK, Data(Profile(u.id, u.username, |u.followers|, |u.following|, u.createdAt)))
  }

  /** One user after `current` follows `target`: `$addToSet` on the follower's
      `following` and on the followed user's `followers`. */
  function FollowDoc(u: User, current: Id, target: Id): User
  {
    if u.id == current then u.(following := AddToSet(u.following, target))
    else if u.id == target then u.(followers := AddToSet(u.followers, current))
    else u
  }

  /** The collection after `current` follows `target`. */
  function AfterFollow(docs: seq<User>, current: Id, target: Id): (r: seq<User>)
    ensures |r| == |docs|
    ensures forall k :: 0 <= k < |r| ==> r[k].id == docs[k].id
  {
    seq(|docs|, k requires 0 <= k < |docs| => FollowDoc(docs[k], current, target))
  }

  /** One user after `current` unfollows `target`: `$pull` on the follower's
      `following`, and on the other user's `followers` if that user exists. */
  function UnfollowDoc(u: User, current: Id, target: Id, targetExists: bool): User
  {
    var pruned := if u.id == current then u.(following := Pull(u.following, target)) else u;
    if targetExists && u.id == target then pruned.(followers := Pull(pruned.followers, current)) else pruned
  }

  /** The collection after `current` unfollows `target`. */
  function AfterUnfollow(docs: seq<User>, current: Id, target: Id): (r: seq<User>)
    ensures |r| == |docs|
    ensures forall k :: 0 <= k < |r| ==> r[k].id == docs[k].id
  {
    var targetExists := FindUser(docs, target).Some?;
    seq(|docs|, k requires 0 <= k < |docs| => UnfollowDoc(docs[k], current, target, targetExists))
  }

  /** `followUser`: following oneself is 400 before any lookup; a missing user on
      either end is 404; otherwise both edge lists gain the edge. */
  method FollowUser(users: UserCollection, currentUserId: Id, targetUserId: Id) returns (r: Response<()>)
    requires users.Valid()
    modifies users
    ensures users.Valid()
    ensures targetUserId == currentUserId ==>
              r == Response(BAD_REQUEST, Message("You cannot follow yourself")) && users.docs == old(users.docs)
    ensures targetUserId != currentUserId
            && (FindUser(old(users.docs), targetUserId).None? || FindUser(old(users.docs), currentUserId).None?) ==>
              r == Response(NOT_FOUND, Message("User not found")) && users.docs == old(users.docs)
    ensures targetUserId != currentUserId
            && FindUser(old(users.docs), targetUserId).Some? && FindUser(old(users.docs), currentUserId).Some? ==>
              && r == Response(OK, Message("Successfully followed " + old(users.docs)[FindUser(old(users.docs), targetUserId).value].username))
              && users.docs == AfterFollow(old(users.docs), currentUserId, targetUserId)
  {
    if targetUserId == currentUserId {
      return Response(BAD_REQUEST, Message("You cannot follow yourself"));
    }
    var targetAt := FindUser(users.docs, targetUserId);
    var currentAt := FindUser(users.docs, currentUserId);
    if targetAt.None? || currentAt.None? {
      return Response(NOT_FOUND, Message("User not found"));
    }
    var ti, ci := targetAt.value, currentAt.value;
    ghost var before := users.docs;
    var targetName := users.docs[ti].username;
    var current := users.docs[ci];
    users.docs := users.docs[ci := current.(following := AddToSet(current.following, targetUserId))];
    var target := users.docs[ti];
    users.docs := users.docs[ti := target.(followers := AddToSet(target.followers, currentUserId))];
    forall k | 0 <= k < |before| ensures users.docs[k] == FollowDoc(before[k], currentUserId, targetUserId) {
      if k != ci { IdsDiffer(before, k, ci); }
      if k != ti { IdsDiffer(before, k, ti); }
    }
    assert users.docs == AfterFollow(before, currentUserId, targetUserId);
    SameIdsKeepUnique(before, users.docs);
    r := Response(OK, Message("Successfully followed " + targetName));
  }

  /** `unfollowUser`: a missing current user is 404; a missing target is
      tolerated; the current user's `following` loses every occurrence of the
      target and, when the target exists, the target's `followers` loses every
      occurrence of the current user. */
  method UnfollowUser(users: UserCollection, currentUserId: Id, targetUserId: Id) returns (r: Response<()>)
    requires users.Valid()
    modifies users
    ensures users.Valid()
    ensures FindUser(old(users.docs), currentUserId).None? ==>
              r == Response(NOT_FOUND, Message("Current user not found")) && users.docs == old(users.docs)
    ensures FindUser(old(users.docs), currentUserId).Some? ==>
              && r == Response(OK, Message("Successfully unfollowed user"))
              && users.docs == AfterUnfollow(old(users.docs), currentUserId, targetUserId)
  {
    var targetAt := FindUser(users.docs, targetUserId);
    var currentAt := FindUser(users.docs, currentUserId);
    if currentAt.None? {
      return Response(NOT_FOUND, Message("Current user not found"));
    }
    var ci := currentAt.value;
    ghost var before := users.docs;
    var current := users.docs[ci];
    users.docs := users.docs[ci := current.(following := Pull(current.following, targetUserId))];
    if targetAt.Some? {
      var target := users.docs[targetAt.value];
      users.docs := users.docs[targetAt.value := target.(followers := Pull(target.followers, currentUserId))];
    }
    forall k | 0 <= k < |before|
      ensures users.docs[k] == UnfollowDoc(before[k], currentUserId, targetUserId, targetAt.Some?)
    {
      if k != ci { IdsDiffer(before, k, ci); }
      if targetAt.Some? && k != targetAt.value { IdsDiffer(before, k, targetAt.value); }
    }
    assert users.docs == AfterUnfollow(before, currentUserId, targetUserId);
    SameIdsKeepUnique(before, users.docs);
    r := Response(OK, Message("Successfully unfollowed user"));
  }

  /** After a follow the edge is on both ends: the target is in the follower's
      `following` and the follower in the target's `followers`; users other than
      the two are untouched. */
  lemma FollowAddsEdge(docs: seq<User>, current: Id, target: Id)
    requires current != target
    ensures var r := AfterFollow(docs, current, target);
            && (forall k :: 0 <= k < |r| && docs[k].id == current ==> target in r[k].following)
            && (forall k :: 0 <= k < |r| && docs[k].id == target ==> current in r[k].followers)
            && (forall k :: 0 <= k < |r| && docs[k].id != current && docs[k].id != target ==> r[k] == docs[k])
  {
  }

  /** Following is idempotent: a second follow leaves the lists as the first did. */
  lemma FollowIdempotent(docs: seq<User>, current: Id, target: Id)
    requires current != target
    ensures AfterFollow(AfterFollow(docs, current, target), current, target) == AfterFollow(docs, current, target)
  {
    var once := AfterFollow(docs, current, target);
    var twice := AfterFollow(once, current, target);
    forall k | 0 <= k < |docs| ensures twice[k] == once[k] {
      var u := once[k];
      if docs[k].id == current {
        assert target in u.following;
        assert AddToSet(u.following, target) == u.following;
      } else if docs[k].id == target {
        assert current in u.followers;
        assert AddToSet(u.followers, current) == u.followers;
      }
    }
  }

  /** After an unfollow the edge is gone from the follower's side, and from the
      target's side when the target exists. */
  lemma UnfollowRemovesEdge(docs: seq<User>, current: Id, target: Id)
    ensures var r := AfterUnfollow(docs, current, target);
            && (forall k :: 0 <= k < |r| && docs[k].id == current ==> target !in r[k].following)
            && (IsUser(docs, target) ==>
                  forall k :: 0 <= k < |r| && docs[k].id == target ==> current !in r[k].followers)
  {
    var r := AfterUnfollow(docs, current, target);
    if IsUser(docs, target) {
      assert FindUser(docs, target).Some?;
    }
  }

  /** `unfollowUser` with a missing target still prunes the current user's list
      and changes no one else. */
  lemma UnfollowMissingTarget(docs: seq<User>, current: Id, target: Id)
    requires !IsUser(docs, target)
    ensures var r := AfterUnfollow(docs, current, target);
            forall k :: 0 <= k < |r| ==>
              r[k] == if docs[k].id == current then docs[k].(following := Pull(docs[k].following, target)) else docs[k]
  {
    assert FindUser(docs, target).None?;
  }

  /** What a follow does to the edge lists of a single user. */
  lemma FollowDocEdges(u: User, current: Id, target: Id)
    requires current != target
    ensures FollowDoc(u, current, target).id == u.id
    ensures forall x :: x in FollowDoc(u, current, target).following <==>
                          x in u.following || (u.id == current && x == target)
    ensures forall x :: x in FollowDoc(u, current, target).followers <==>
                          x in u.followers || (u.id == target && x == current)
  {
  }

  /** What an unfollow does to the edge lists of a single user. */
  lemma UnfollowDocEdges(u: User, current: Id, target: Id, targetExists: bool)
    ensures UnfollowDoc(u, current, target, targetExists).id == u.id
    ensures forall x :: x in UnfollowDoc(u, current, target, targetExists).following <==>
                          x in u.following && !(u.id == current && x == target)
    ensures forall x :: x in UnfollowDoc(u, current, target, targetExists).followers <==>
                          x in u.followers && !(targetExists && u.id == target && x == current)
  {
  }

  /** Two collections with the same ids, position by position, have the same users. */
  lemma SameIdsSameUsers(a: seq<User>, b: seq<User>, x: Id)
    requires |a| == |b| && forall k :: 0 <= k < |a| ==> a[k].id == b[k].id
    ensures IsUser(a, x) <==> IsUser(b, x)
  {
    if IsUser(a, x) {
      var k :| 0 <= k < |a| && a[k].id == x;
      assert b[k].id == x;
    }
    if IsUser(b, x) {
      var k :| 0 <= k < |b| && b[k].id == x;
      assert a[k].id == x;
    }
  }

  /** A follow keeps the follow graph consistent. */
  lemma FollowKeepsGraph(docs: seq<User>, current: Id, target: Id)
    requires FollowGraph(docs)
    requires current != target && IsUser(docs, current) && IsUser(docs, target)
    ensures FollowGraph(AfterFollow(docs, current, target))
  {
    var r := AfterFollow(docs, current, target);
    forall i | 0 <= i < |r| ensures r[i].id !in r[i].following {
      FollowDocEdges(docs[i], current, target);
    }
    forall i, x | 0 <= i < |r| && x in r[i].following ensures IsUser(r, x) {
      FollowDocEdges(docs[i], current, target);
      SameIdsSameUsers(docs, r, x);
    }
    forall i, x | 0 <= i < |r| && x in r[i].followers ensures IsUser(r, x) {
      FollowDocEdges(docs[i], current, target);
      SameIdsSameUsers(docs, r, x);
    }
    forall i, j | 0 <= i < |r| && 0 <= j < |r|
      ensures r[j].id in r[i].following <==> r[i].id in r[j].followers
    {
      FollowDocEdges(docs[i], current, target);
      FollowDocEdges(docs[j], current, target);
      assert docs[j].id in docs[i].following <==> docs[i].id in docs[j].followers;
    }
  }

  /** An unfollow keeps the follow graph consistent, whether or not the target
      exists and even when a user unfollows themselves. */
  lemma UnfollowKeepsGraph(docs: seq<User>, current: Id, target: Id)
    requires FollowGraph(docs)
    ensures FollowGraph(AfterUnfollow(docs, current, target))
  {
    var r := AfterUnfollow(docs, current, target);
    var targetExists := FindUser(docs, target).Some?;
    forall i | 0 <= i < |r| ensures r[i].id !in r[i].following {
      UnfollowDocEdges(docs[i], current, target, targetExists);
    }
    forall i, x | 0 <= i < |r| && x in r[i].following ensures IsUser(r, x) {
      UnfollowDocEdges(docs[i], current, target, targetExists);
      SameIdsSameUsers(docs, r, x);
    }
    forall i, x | 0 <= i < |r| && x in r[i].followers ensures IsUser(r, x) {
      UnfollowDocEdges(docs[i], current, target, targetExists);
      SameIdsSameUsers(docs, r, x);
    }
    forall i, j | 0 <= i < |r| && 0 <= j < |r|
      ensures r[j].id in r[i].following <==> r[i].id in r[j].followers
    {
      UnfollowDocEdges(docs[i], current, target, targetExists);
      UnfollowDocEdges(docs[j], current, target, targetExists);
      assert docs[j].id in docs[i].following <==> docs[i].id in docs[j].followers;
    }
  }

  /** On a single user, unfollowing undoes a follow that added a new edge. */
  lemma UnfollowUndoesFollowDoc(u: User, current: Id, target: Id)
    requires current != target
    requires u.id == current ==> target !in u.following
    requires u.id == target ==> current !in u.followers
    ensures UnfollowDoc(FollowDoc(u, current, target), current, target, true) == u
  {
    if u.id == current {
      PullUndoesAddToSet(u.following, target);
    } else if u.id == target {
      PullUndoesAddToSet(u.followers, current);
    }
  }

  /** Following and unfollowing again restores the whole collection when the
      edge was on neither end before. */
  lemma FollowThenUnfollowRestoresEdge(docs: seq<User>, current: Id, target: Id)
    requires current != target && IsUser(docs, target)
    requires forall k :: 0 <= k < |docs| && docs[k].id == current ==> target !in docs[k].following
    requires forall k :: 0 <= k < |docs| && docs[k].id == target ==> current !in docs[k].followers
    ensures AfterUnfollow(AfterFollow(docs, current, target), current, target) == docs
  {
    var once := AfterFollow(docs, current, target);
    var ti := FindUser(docs, target).value;
    assert once[ti].id == target;
    var back := AfterUnfollow(once, current, target);
    forall k | 0 <= k < |docs| ensures back[k] == docs[k] {
      RestoredAt(docs, current, target, k);
    }
    assert |back| == |docs|;
  }

  /** The round trip, at one position of a collection that holds the target. */
  lemma RestoredAt(docs: seq<User>, current: Id, target: Id, k: nat)
    requires current != target && k < |docs|
    requires FindUser(AfterFollow(docs, current, target), target).Some?
    requires docs[k].id == current ==> target !in docs[k].following
    requires docs[k].id == target ==> current !in docs[k].followers
    ensures AfterUnfollow(AfterFollow(docs, current, target), current, target)[k] == docs[k]
  {
    var once := AfterFollow(docs, current, target);
    assert once[k] == FollowDoc(docs[k], current, target);
    assert AfterUnfollow(once, current, target)[k] == UnfollowDoc(once[k], current, target, true);
    UnfollowUndoesFollowDoc(docs[k], current, target);
  }

  /** In a consistent graph, following a user not yet followed and unfollowing
      again restores the whole collection. */
  lemma FollowThenUnfollowRestores(docs: seq<User>, current: Id, target: Id)
    requires FollowGraph(docs)
    requires current != target && IsUser(docs, current) && IsUser(docs, target)
    requires forall k :: 0 <= k < |docs| && docs[k].id == current ==> target !in docs[k].following
    ensures AfterUnfollow(AfterFollow(docs, current, target), current, target) == docs
  {
    var ci := FindUser(docs, current).value;
    forall k | 0 <= k < |docs| && docs[k].id == target ensures current !in docs[k].followers {
      assert docs[k].id in docs[ci].following <==> docs[ci].id in docs[k].followers;
    }
    FollowThenUnfollowRestoresEdge(docs, current, target);
  }
}
