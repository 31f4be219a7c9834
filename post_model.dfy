/** The post collection of server/models/Post.js: posts with their embedded
    likes and comments, the schema's required fields and defaults. */
module PostModel {
  import opened Common
  import opened Sequences

  /** An embedded comment (CommentSchema). */
  datatype Comment = Comment(authorName: string, text: string, timestamp: int)

  /** A post document. `likes` holds user ids as strings. */
  datatype Post = Post(
    id: Id,
    author: string,
    content: string,
    timestamp: int,
    likes: seq<Id>,
    comments: seq<Comment>)

  function PostId(p: Post): Id { p.id }

  function Timestamp(p: Post): int { p.timestamp }

  /** Some of the characters JavaScript's `String.prototype.trim` removes: the
      ASCII white space, the line and paragraph separators, no-break space and
      the byte-order mark. The other Unicode space separators it also removes
      are not included. */
  predicate IsWhitespace(c: char)
  {
    c == ' ' || c == '\t' || c == '\n' || c == '\r' || c == '\U{000B}' || c == '\U{000C}'
    || c == '\U{00A0}' || c == '\U{FEFF}' || c == '\U{2028}' || c == '\U{2029}'
  }

  function TrimStart(s: string): (r: string)
    ensures |r| <= |s| && r == s[|s| - |r|..]
    ensures r != [] ==> !IsWhitespace(r[0])
    ensures forall i :: 0 <= i < |s| - |r| ==> IsWhitespace(s[i])
  {
    if s != [] && IsWhitespace(s[0]) then
      var r := TrimStart(s[1..]);
      assert forall i :: 1 <= i < |s| - |r| ==> s[i] == s[1..][i - 1];
      r
    else s
  }

  function TrimEnd(s: string): (r: string)
    ensures |r| <= |s| && r == s[..|r|]
    ensures r != [] ==> !IsWhitespace(r[|r| - 1])
    ensures forall i :: |r| <= i < |s| ==> IsWhitespace(s[i])
  {
    if s != [] && IsWhitespace(s[|s| - 1]) then
      var r := TrimEnd(s[..|s| - 1]);
      assert forall i :: |r| <= i < |s| - 1 ==> s[i] == s[..|s| - 1][i];
      r
    else s
  }

  /** The schema's `trim: true` setter: `r` is the slice of `s` left after
      removing white space at both ends. */
  function Trim(s: string): (r: string)
    ensures exists i, j ::
              && 0 <= i <= j <= |s| && r == s[i..j]
              && (forall k :: 0 <= k < i ==> IsWhitespace(s[k]))
              && (forall k :: j <= k < |s| ==> IsWhitespace(s[k]))
    ensures r != [] ==> !IsWhitespace(r[0]) && !IsWhitespace(r[|r| - 1])
  {
    var t := TrimStart(s);
    var r := TrimEnd(t);
    TrimSlices(s, t, r);
    r
  }

  /** Trimming the end of a suffix of `s` leaves a slice of `s`, and what the
      end trim removed is white space of `s`. */
  lemma TrimSlices(s: string, t: string, r: string)
    requires |t| <= |s| && t == s[|s| - |t|..]
    requires forall i :: 0 <= i < |s| - |t| ==> IsWhitespace(s[i])
    requires |r| <= |t| && r == t[..|r|]
    requires forall i :: |r| <= i < |t| ==> IsWhitespace(t[i])
    ensures exists i, j ::
              && 0 <= i <= j <= |s| && r == s[i..j]
              && (forall k :: 0 <= k < i ==> IsWhitespace(s[k]))
              && (forall k :: j <= k < |s| ==> IsWhitespace(s[k]))
  {
    var i := |s| - |t|;
    assert r == s[i..i + |r|];
    forall k | i + |r| <= k < |s| ensures IsWhitespace(s[k]) {
      assert s[k] == t[k - i];
    }
  }

  /** Trimming twice is trimming once. */
  lemma TrimIdempotent(s: string)
    ensures Trim(Trim(s)) == Trim(s)
  {
    var r := Trim(s);
    if r != [] {
      assert TrimStart(r) == r;
      assert TrimEnd(r) == r;
    }
  }

  /** The trimmed name is empty exactly when the name is all white space. */
  lemma TrimEmptyIffBlank(s: string)
    ensures Trim(s) == [] <==> forall k :: 0 <= k < |s| ==> IsWhitespace(s[k])
  {
    if forall k :: 0 <= k < |s| ==> IsWhitespace(s[k]) {
      BlankTrimStart(s);
    }
  }

  lemma {:induction false} BlankTrimStart(s: string)
    requires forall k :: 0 <= k < |s| ==> IsWhitespace(s[k])
    ensures TrimStart(s) == []
  {
    if s != [] {
      assert forall k :: 0 <= k < |s[1..]| ==> s[1..][k] == s[k + 1];
      BlankTrimStart(s[1..]);
    }
  }

  /** A comment as the schema accepts it: a non-empty author name with no
      surrounding white space, and non-empty text. */
  predicate ValidComment(c: Comment)
  {
    c.authorName != "" && Trim(c.authorName) == c.authorName && c.text != ""
  }

  /** Casting `{ authorName, text }` to a comment sub-document and validating it:
      the name is trimmed, both fields are required (an empty string fails), and
      the timestamp defaults to the creation time `now`. */
  function MakeComment(authorName: string, text: string, now: int): (r: Option<Comment>)
    ensures r.Some? <==> Trim(authorName) != "" && text != ""
    ensures r.Some? ==> ValidComment(r.value)
    ensures r.Some? ==> r.value.authorName == Trim(authorName) && r.value.text == text
    ensures r.Some? ==> r.value.timestamp == now
  {
    var name := Trim(authorName);
    TrimIdempotent(authorName);
    if name == "" || text == "" then None else Some(Comment(name, text, now))
  }

  /** A post as the schema accepts it: an author reference and non-empty content. */
  predicate ValidPost(p: Post)
  {
    p.author != "" && p.content != ""
  }

  /** A new post: the timestamp defaults to `now`, and likes and comments to the
      empty list. */
  function NewPost(id: Id, author: string, content: string, now: int): (r: Post)
    ensures r.id == id && r.author == author && r.content == content
    ensures r.timestamp == now && r.likes == [] && r.comments == []
    ensures ValidPost(r) <==> author != "" && content != ""
  {
    Post(id, author, content, now, [], [])
  }

  /** A post as it is stored: the post and each of its comments pass the schema. */
  predicate StoredPost(p: Post)
  {
    ValidPost(p) && forall c :: c in p.comments ==> ValidComment(c)
  }

  /** A stored post stays valid when it gains a comment the schema accepts. */
  lemma CommentKeepsStored(p: Post, c: Comment)
    requires StoredPost(p) && ValidComment(c)
    ensures StoredPost(p.(comments := p.comments + [c]))
  {
    forall d | d in p.comments + [c] ensures ValidComment(d) {
      if d != c {
        assert d in p.comments;
      }
    }
  }

  predicate AllStored(docs: seq<Post>)
  {
    forall i :: 0 <= i < |docs| ==> StoredPost(docs[i])
  }

  /** The post collection, its documents in natural (insertion) order. */
  class PostCollection {
    var docs: seq<Post>

    /** Every post has its own id, and every post and comment stored passed the
        schema's validation on `save()`. */
    predicate Valid()
      reads this
    {
      UniqueKeys(docs, PostId) && AllStored(docs)
    }

    constructor ()
      ensures Valid() && docs == []
    {
      docs := [];
    }
  }

  /** `Post.findById(id)`: the position of the post with that id. */
  function FindPost(docs: seq<Post>, id: Id): (r: Option<nat>)
    ensures r.None? <==> forall k :: 0 <= k < |docs| ==> docs[k].id != id
    ensures r.Some? ==> r.value < |docs| && docs[r.value].id == id
  {
    FirstIndex(docs, (p: Post) => p.id == id)
  }

  /** Rewriting a post in place under its own id with a post the schema accepts
      keeps the ids unique and every stored post valid. */
  lemma ReplaceKeepsValid(docs: seq<Post>, i: nat, p: Post)
    requires UniqueKeys(docs, PostId) && AllStored(docs)
    requires i < |docs| && p.id == docs[i].id && StoredPost(p)
    ensures UniqueKeys(docs[i := p], PostId)
    ensures AllStored(docs[i := p])
  {
    var d := docs[i := p];
    forall j, k | 0 <= j < k < |d| ensures PostId(d[j]) != PostId(d[k]) {
      assert PostId(d[j]) == PostId(docs[j]) && PostId(d[k]) == PostId(docs[k]);
    }
  }

  /** Appending a post with a fresh id that the schema accepts keeps the ids
      unique and every stored post valid. */
  lemma AppendKeepsValid(docs: seq<Post>, p: Post)
    requires UniqueKeys(docs, PostId) && AllStored(docs)
    requires forall k :: 0 <= k < |docs| ==> docs[k].id != p.id
    requires StoredPost(p)
    ensures UniqueKeys(docs + [p], PostId)
    ensures AllStored(docs + [p])
  {
    var d := docs + [p];
    forall j, k | 0 <= j < k < |d| ensures PostId(d[j]) != PostId(d[k]) {
      if k < |docs| {
        assert PostId(docs[j]) != PostId(docs[k]);
      }
    }
  }
}
