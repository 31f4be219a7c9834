/** The handlers of server/controllers/postController.js: listing posts,
    creating a post, toggling a like and adding a comment. */
module PostController {
  import opened Common
  import opened Sequences
  import opened PostModel

  /** `getPosts`: every stored post, newest first. */
  function GetPosts(docs: seq<Post>): (r: Response<seq<Post>>)
    ensures r.status == OK && r.body.Data?
    ensures multiset(r.body.value) == multiset(docs)
    ensures SortedDesc(r.body.value, Timestamp)
  {
    Response(OK, Data(SortDesc(docs, Timestamp)))
  }

  /** `createPost`: both `authorName` and `content` are required; the new post
      takes the request's author name as its author, the time `now` and the
      schema's defaults, and is appended to the collection. `newId` is the id the
      store generates for it. */
  method CreatePost(store: PostCollection, authorName: Option<string>, content: Option<string>,
                    newId: Id, now: int) returns (r: Response<Post>)
    requires store.Valid()
    requires FindPost(store.docs, newId).None?
    modifies store
    ensures store.Valid()
    ensures !(Truthy(authorName) && Truthy(content)) ==>
              && r == Response(BAD_REQUEST, Message("Author name and content are required"))
              && store.docs == old(store.docs)
    ensures Truthy(authorName) && Truthy(content) ==>
              && r.status == CREATED && r.body.Data?
              && var p := r.body.value;
                 && p.id == newId && p.author == authorName.value && p.content == content.value
                 && p.timestamp == now && p.likes == [] && p.comments == []
                 && store.docs == old(store.docs) + [p]
  {
    if !Truthy(authorName) || !Truthy(content) {
      return Response(BAD_REQUEST, Message("Author name and content are required"));
    }
    var post := NewPost(newId, authorName.value, content.value, now);
    AppendKeepsValid(store.docs, post);
    store.docs := store.docs + [post];
    r := Response(CREATED, Data(post));
  }

  /** Removes the first occurrence of `u`. */
  function RemoveFirst(s: seq<Id>, u: Id): (r: seq<Id>)
    requires u in s
    ensures |r| == |s| - 1
    ensures multiset(r) == multiset(s) - multiset{u}
  {
    assert s == [s[0]] + s[1..];
    if s[0] == u then s[1..] else [s[0]] + RemoveFirst(s[1..], u)
  }

  /** The like toggle: a user not among `likes` is appended, otherwise the first
      occurrence of the user is removed. */
  function ToggleLike(likes: seq<Id>, u: Id): (r: seq<Id>)
    ensures u !in likes ==> r == likes + [u]
    ensures u in likes ==> |r| == |likes| - 1 && multiset(r) == multiset(likes) - multiset{u}
  {
    if u in likes then RemoveFirst(likes, u) else likes + [u]
  }

  /** Splicing out position `k`, the first occurrence of `u`, is removing the
      first occurrence of `u`. */
  lemma {:induction false} SpliceFirst(s: seq<Id>, u: Id, k: nat)
    requires k < |s| && s[k] == u && u !in s[..k]
    ensures s[..k] + s[k + 1..] == RemoveFirst(s, u)
  {
    if k == 0 {
      assert s[..0] + s[1..] == s[1..];
    } else {
      var t := s[1..];
      SliceAfterHead(s, k);
      assert s[0] != u && t[k - 1] == u;
      SpliceFirst(t, u, k - 1);
      assert RemoveFirst(s, u) == [s[0]] + RemoveFirst(t, u);
    }
  }

  /** How the slices around position `k` of `s` look from its tail. */
  lemma SliceAfterHead(s: seq<Id>, k: nat)
    requires 0 < k < |s|
    ensures s[..k] == [s[0]] + s[1..][..k - 1]
    ensures s[k + 1..] == s[1..][k..]
    ensures s[..k] + s[k + 1..] == [s[0]] + (s[1..][..k - 1] + s[1..][k..])
  {
  }

  /** The first occurrence is the one removed: what precedes it stays in place
      and what follows it moves up by one. */
  lemma RemovesFirstOccurrence(likes: seq<Id>, u: Id)
    requires u in likes
    ensures exists k :: 0 <= k < |likes| && likes[k] == u && u !in likes[..k]
              && ToggleLike(likes, u) == likes[..k] + likes[k + 1..]
  {
    var k := IndexOf(likes, u);
    SpliceFirst(likes, u, k);
  }

  /** Liking and then unliking, from a list without the user, restores the list. */
  lemma ToggleTwiceRestores(likes: seq<Id>, u: Id)
    requires u !in likes
    ensures ToggleLike(ToggleLike(likes, u), u) == likes
  {
    var t := likes + [u];
    assert t[..|likes|] == likes;
    SpliceFirst(t, u, |likes|);
  }

  /** A duplicate-free list stays duplicate-free, and the user's membership flips
      while every other user's stays as it was. */
  lemma ToggleOnSet(likes: seq<Id>, u: Id)
    requires NoDup(likes)
    ensures NoDup(ToggleLike(likes, u))
    ensures u in ToggleLike(likes, u) <==> u !in likes
    ensures forall v :: v != u ==> (v in ToggleLike(likes, u) <==> v in likes)
  {
    var r := ToggleLike(likes, u);
    if u in likes {
      assert multiset(likes)[u] == 1 by {
        var k :| 0 <= k < |likes| && likes[k] == u;
        MultisetOneOfNoDup(likes, k);
      }
      assert u !in r by { assert multiset(r)[u] == 0; }
      forall v | v != u ensures v in r <==> v in likes {
        assert multiset(r)[v] == multiset(likes)[v];
      }
      forall i, j | 0 <= i < j < |r| ensures r[i] != r[j] {
        if r[i] == r[j] {
          TwiceInMultiset(r, i, j);
          assert multiset(likes)[r[i]] >= 2;
          var k :| 0 <= k < |likes| && likes[k] == r[i];
          MultisetOneOfNoDup(likes, k);
        }
      }
    } else {
      assert r == likes + [u];
      forall i, j | 0 <= i < j < |r| ensures r[i] != r[j] {
        if j == |likes| { assert r[i] == likes[i]; }
      }
    }
  }

  lemma {:induction false} MultisetOneOfNoDup(s: seq<Id>, k: nat)
    requires NoDup(s) && k < |s|
    ensures multiset(s)[s[k]] == 1
  {
    if k == 0 {
      assert s == [s[0]] + s[1..];
      assert forall j :: 0 <= j < |s[1..]| ==> s[1..][j] == s[j + 1];
      assert s[0] !in s[1..];
    } else {
      assert s == [s[0]] + s[1..];
      assert s[1..][k - 1] == s[k];
      assert NoDup(s[1..]) by {
        forall i, j | 0 <= i < j < |s[1..]| ensures s[1..][i] != s[1..][j] {
          assert s[1..][i] == s[i + 1] && s[1..][j] == s[j + 1];
        }
      }
      MultisetOneOfNoDup(s[1..], k - 1);
      assert s[0] != s[k];
    }
  }

  lemma TwiceInMultiset(s: seq<Id>, i: nat, j: nat)
    requires i < j < |s| && s[i] == s[j]
    ensures multiset(s)[s[i]] >= 2
  {
    assert s == s[..j] + s[j..];
    assert s[i] in s[..j];
    assert s[j] in s[j..];
  }

  /** `likePost`: the user id comes from the request body and is required; an
      unknown post is 404; otherwise only that post's likes change, by the
      toggle, and the updated post is returned. */
  method LikePost(store: PostCollection, postId: Id, userId: Option<string>) returns (r: Response<Post>)
    requires store.Valid()
    modifies store
    ensures store.Valid()
    ensures !Truthy(userId) ==>
              && r == Response(BAD_REQUEST, Message("User ID is required to like/unlike a post"))
              && store.docs == old(store.docs)
    ensures Truthy(userId) && FindPost(old(store.docs), postId).None? ==>
              r == Response(NOT_FOUND, Message("Post not found")) && store.docs == old(store.docs)
    ensures Truthy(userId) && FindPost(old(store.docs), postId).Some? ==>
              && var i := FindPost(old(store.docs), postId).value;
                 var before := old(store.docs)[i];
                 var after := before.(likes := ToggleLike(before.likes, userId.value));
                 && r == Response(OK, Data(after))
                 && store.docs == old(store.docs)[i := after]
  {
    if !Truthy(userId) {
      return Response(BAD_REQUEST, Message("User ID is required to like/unlike a post"));
    }
    var found := FindPost(store.docs, postId);
    if found.None? {
      return Response(NOT_FOUND, Message("Post not found"));
    }
    var post := store.docs[found.value];
    var likes := post.likes;
    var index := IndexOf(likes, userId.value);
    if index == -1 {
      likes := likes + [userId.value];
    } else {
      SpliceFirst(likes, userId.value, index);
      likes := likes[..index] + likes[index + 1..];
    }
    post := post.(likes := likes);
    ReplaceKeepsValid(store.docs, found.value, post);
    store.docs := store.docs[found.value := post];
    r := Response(OK, Data(post));
  }

  /** `addComment`: `authorName` and `text` are required; an unknown post is 404;
      a comment the schema rejects (a blank name after trimming) is 400; otherwise
      that post's comments grow by the new comment at the end. */
  method AddComment(store: PostCollection, postId: Id, authorName: Option<string>,
                    text: Option<string>, now: int) returns (r: Response<Post>)
    requires store.Valid()
    modifies store
    ensures store.Valid()
    ensures !(Truthy(authorName) && Truthy(text)) ==>
              && r == Response(BAD_REQUEST, Message("Author name and comment text are required"))
              && store.docs == old(store.docs)
    ensures Truthy(authorName) && Truthy(text) && FindPost(old(store.docs), postId).None? ==>
              r == Response(NOT_FOUND, Message("Post not found")) && store.docs == old(store.docs)
    ensures Truthy(authorName) && Truthy(text) && FindPost(old(store.docs), postId).Some?
            && MakeComment(authorName.value, text.value, now).None? ==>
              r.status == BAD_REQUEST && r.body.Message? && store.docs == old(store.docs)
    ensures Truthy(authorName) && Truthy(text) && FindPost(old(store.docs), postId).Some?
            && MakeComment(authorName.value, text.value, now).Some? ==>
              && var i := FindPost(old(store.docs), postId).value;
                 var before := old(store.docs)[i];
                 var c := MakeComment(authorName.value, text.value, now).value;
                 var after := before.(comments := before.comments + [c]);
                 && r == Response(CREATED, Data(after))
                 && store.docs == old(store.docs)[i := after]
  {
    if !Truthy(authorName) || !Truthy(text) {
      return Response(BAD_REQUEST, Message("Author name and comment text are required"));
    }
    var found := FindPost(store.docs, postId);
    if found.None? {
      return Response(NOT_FOUND, Message("Post not found"));
    }
    var comment := MakeComment(authorName.value, text.value, now);
    if comment.None? {
      return Response(BAD_REQUEST, Message("Post validation failed: comments.authorName is required"));
    }
    var post := store.docs[found.value];
    CommentKeepsStored(post, comment.value);
    post := post.(comments := post.comments + [comment.value]);
    ReplaceKeepsValid(store.docs, found.value, post);
    store.docs := store.docs[found.value := post];
    r := Response(CREATED, Data(post));
  }
}
