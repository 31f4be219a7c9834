# NFACT server core in Dafny

This project models the server side of NFACT, a small social feed. The server
keeps three MongoDB collections:

- posts, which embed their likes and comments;
- users, who carry both ends of every follow edge;
- notifications.

Its Express handlers register and log in users, list and create posts, toggle
likes, add comments, follow and unfollow users, show a public profile, and
list notifications and mark them read.

Each collection is a class holding its documents as a sequence in natural
(insertion) order. `Valid()` on each class says that document ids are unique.
For posts it also says that every stored post and comment passes the schema's
validation, which every `save()` enforces.

- A handler that writes is a method over its collection. Its postcondition
  states the state afterwards exactly, in terms of the state before.
- A handler that only reads is a function over the documents.
- A request-body field is an `Option<string>`. `Truthy` is JavaScript's test
  `!field`: a field that is absent or the empty string fails it.
- A reply is a status plus either data or a message. Where a handler sends
  JSON `{ message }`, the model carries the source's own text. The error
  replies of `markAsRead` are thrown rather than sent (see "## Left out").

Modules, one file each:

- `Common`: ids, options, replies, and the decimal rendering of a count.
- `Sequences`: the array operations the handlers rely on.
  - `indexOf` and `findOne` (first match).
  - Filtering.
  - A stable sort, newest first.
  - `limit`.
  - `$addToSet` and `$pull`.
- `PostModel`, `NotificationModel`, `UserModel`: the documents, the schemas'
  required fields and defaults, and the lookups by id.
- `PostController`, `UserController`, `NotificationController`,
  `AuthController`: the handlers and the properties proved about them.

Outside code that the handlers call becomes a parameter:

- the clock: `now`;
- ids the store generates: `newId`, fresh in the collection;
- bcrypt's salt, `hash` and `compare`;
- the JSON Web Token signer `sign`;
- Mongoose's ObjectId syntax check: `isObjectId`;
- the id the authentication middleware attaches to a request.

## Model

| member | source | states |
|---|---|---|
| PostController.GetPosts | server/controllers/postController.js:6-14 | The reply is 200 with exactly the stored posts (same multiset), ordered by timestamp, newest first. |
| Sequences.SortDesc | server/controllers/postController.js:8 | Sorting on a key gives a permutation of the input that is sorted descending on that key. |
| PostController.CreatePost | server/controllers/postController.js:19-39 | A missing or empty `authorName` or `content` gives 400 and stores nothing. Otherwise the reply is 201 with a new post holding those fields, the time `now`, and empty likes and comments. The new post is appended to the collection and every other post is kept. |
| PostController.ToggleLike | server/controllers/postController.js:59-68 | A user not among the likes is appended at the end. Otherwise one occurrence of the user is removed: the result is one shorter and has the same multiset minus that user. |
| PostController.RemovesFirstOccurrence | server/controllers/postController.js:60-67 | The like removed is the first occurrence: the toggle splices out the position `indexOf` finds, so the elements before it stay and the rest move up by one. |
| PostController.SpliceFirst | server/controllers/postController.js:60-67 | Splicing out the first occurrence of a user is the same as removing the first occurrence. |
| PostController.ToggleTwiceRestores | server/controllers/postController.js:59-68 | Liking, then unliking, from a likes list without the user restores the list exactly. |
| PostController.ToggleOnSet | server/controllers/postController.js:59-68 | A duplicate-free likes list stays duplicate-free. The user's membership flips and no other user's changes. |
| PostController.LikePost | server/controllers/postController.js:44-80 | A missing `userId` gives 400, and an unknown post id gives 404; in both cases the store is unchanged. Otherwise only that post's likes change, by the toggle. The reply is 200 with the updated post, and every other post and field is kept. |
| PostController.AddComment | server/controllers/postController.js:85-122 | A missing `authorName` or `text` gives 400 and an unknown post gives 404, with nothing changed. A comment the schema rejects (the name is blank after trimming) gives 400 with nothing changed. Otherwise that post's comments gain the new validated comment at the end. The reply is 201 with the post, and everything else is kept. |
| PostModel.Trim | server/models/Post.js:7 | The result is the slice left after removing white space at both ends: what was removed is all white space, and the result neither starts nor ends with white space. |
| PostModel.TrimIdempotent | server/models/Post.js:7 | Trimming twice is trimming once. |
| PostModel.TrimEmptyIffBlank | server/models/Post.js:4-8 | The trimmed name is empty exactly when the name is all white space, so the required check rejects exactly the blank names. |
| PostModel.MakeComment | server/models/Post.js:3-17 | A comment is created exactly when the trimmed author name and the text are non-empty. It then holds the trimmed name, the text and the creation time, and satisfies the schema. |
| PostModel.NewPost | server/models/Post.js:19-41 | A new post has its id, author and content, the creation time, and empty likes and comments. It satisfies the schema's required `author` and `content` exactly when both are non-empty. |
| UserModel.FindUser | server/controllers/userController.js:53-54 | `User.findById` gives a position holding a user with that id, or `None` exactly when no user has it. The same lookup serves unfollowUser and verifyToken. |
| NotificationModel.FindNotification | server/controllers/notificationController.js:21 | `Notification.findById` gives a position holding a notification with that id, or `None` exactly when there is none. |
| Sequences.IndexOf | server/controllers/postController.js:60 | `indexOf` is -1 exactly when the element is absent. Otherwise it is a position holding the element, with no earlier occurrence. |
| Sequences.Take | server/controllers/notificationController.js:12 | `limit(n)` keeps the first min(length, n) elements, position by position, and everything when there are at most n. |
| Sequences.Filter | server/controllers/notificationController.js:8 | A query filter keeps each element satisfying the condition exactly as often as it occurs, and drops every other one. It never lengthens the sequence and keeps duplicate-freedom. When every element satisfies the condition the sequence is unchanged. |
| NotificationController.Addressed | server/controllers/notificationController.js:8 | `find({ recipient })` keeps every notification addressed to the user, each as often as it is stored, and no other. |
| UserController.AfterFollow | server/controllers/userController.js:63-64 | The two `$addToSet` writes keep the collection's length and every user's id. The follow-graph lemmas state what they do to the edges. |
| UserController.AfterUnfollow | server/controllers/userController.js:96-99 | The two `$pull` writes keep the collection's length and every user's id. The follow-graph lemmas state what they do to the edges. |
| PostModel.FindPost | server/controllers/postController.js:53-57 | `findById` finds a post with that id, or reports that none has it. |
| UserController.GetUserProfile | server/controllers/userController.js:7-38 | The reply is 404 "User not found" exactly when no user is named by the identifier (an ObjectId is looked up by id, anything else by username). Otherwise it is 200 with a named user's id, username, creation time and the lengths of both edge lists. |
| UserController.FollowUser | server/controllers/userController.js:44-74 | Following oneself gives 400 before any lookup. A missing user on either end gives 404. In both cases nothing changes. Otherwise the follower's `following` and the target's `followers` are updated with set-insert and nothing else changes. |
| UserController.UnfollowUser | server/controllers/userController.js:79-107 | A missing current user gives 404 with nothing changed. Otherwise the current user's `following` loses the target and, when the target exists, the target's `followers` loses the current user. |
| UserController.FollowAddsEdge | server/controllers/userController.js:63-64 | After a follow, the target is in the follower's `following` and the follower is in the target's `followers`. Every other user is untouched. |
| UserController.FollowIdempotent | server/controllers/userController.js:63-64 | Following twice leaves the same collection as following once. |
| UserController.UnfollowRemovesEdge | server/controllers/userController.js:96-99 | After an unfollow the target is in no `following` of the current user. When the target exists, the current user is in none of its `followers`. |
| UserController.UnfollowMissingTarget | server/controllers/userController.js:87-99 | With the target gone, the current user's `following` is still pruned and no one else changes. |
| UserController.FollowKeepsGraph | server/controllers/userController.js:63-64 | A follow preserves the consistency of the follow graph: no self-edges, every edge points at an existing user, and `following` and `followers` mirror each other. |
| UserController.UnfollowKeepsGraph | server/controllers/userController.js:96-99 | An unfollow preserves the follow graph's consistency, whether or not the target exists. |
| UserController.FollowThenUnfollowRestoresEdge | server/controllers/userController.js:44-107 | If the edge is on neither end, following and then unfollowing restores the whole collection. |
| UserController.FollowThenUnfollowRestores | server/controllers/userController.js:44-107 | In a consistent graph, following a user not yet followed and then unfollowing again restores the whole collection. |
| UserController.UnfollowUndoesFollowDoc | server/controllers/userController.js:63-64 | On one user, `$pull` undoes an `$addToSet` that added a new element. |
| Sequences.AddToSet | server/controllers/userController.js:63-64 | `$addToSet` keeps the list as a prefix and appends the element only when it is absent. Afterwards the element is present, and duplicate-freedom is preserved. |
| Sequences.Pull | server/controllers/userController.js:96-98 | `$pull` removes every occurrence of the element and keeps the count of every other element. A list without the element stays as it is. |
| Sequences.PullUndoesAddToSet | server/controllers/userController.js:63-64 | Pulling an element that was just added to a list without it gives back the list. |
| UserModel.FindEither | server/controllers/authController.js:18 | `findOne` with an `$or` of email and username returns the first user matching either, or reports that no user matches. |
| UserModel.FindByUsername | server/controllers/userController.js:17 | `findOne({ username })` returns the first user with that username, or reports that none has it. |
| NotificationController.GetNotifications | server/controllers/notificationController.js:7-15 | The reply is 200 with exactly min(n, 20) notifications, where n is how many are addressed to the caller. Each is a stored notification addressed to the caller, listed at most as often as it is stored. The list is ordered by creation time, newest first. |
| NotificationController.ListingIsNewest | server/controllers/notificationController.js:9-12 | Any notification of the caller left out of the listing is no newer than every listed one. |
| NotificationController.ListingIsComplete | server/controllers/notificationController.js:8-12 | A caller with at most 20 notifications gets all of them. |
| NotificationController.SortedInbox | server/controllers/notificationController.js:8-9 | The caller's notifications, sorted, are a permutation of the ones addressed to the caller, newest first. |
| NotificationController.MarkAsRead | server/controllers/notificationController.js:20-41 | An unknown id gives 404, and a notification addressed to someone else gives 401; in both cases nothing changes. For the recipient the notification ends up read and nothing else changes. An already-read notification is left exactly as it was. |
| NotificationController.ReadAll | server/controllers/notificationController.js:47-50 | After the update only read flags change, every notification of the user is read, and all others are untouched. |
| NotificationController.ReadAllCounts | server/controllers/notificationController.js:47-50 | After marking all read the user has no unread notification, and every other user's unread count is what it was. |
| NotificationController.UnreadCountIsChanged | server/controllers/notificationController.js:47-52 | The number of the user's unread notifications equals the number of documents the update modifies. |
| NotificationController.MarkAllAsRead | server/controllers/notificationController.js:46-53 | The collection becomes the update's result and stays valid. The reply is 200 with the message naming the user's unread count beforehand. |
| NotificationController.CountUnread | server/controllers/notificationController.js:48 | The count is zero exactly when the user has no unread notification. |
| NotificationModel.NewNotification | server/models/Notification.js:4-35 | A notification is created exactly when recipient, sender, type and post are present and the type is "like" or "comment". It then holds those fields, is unread, and has the creation time. |
| NotificationModel.ParseType | server/models/Notification.js:16-20 | Exactly "like" and "comment" pass the enum, and each maps back to the same string. |
| AuthController.Register | server/controllers/authController.js:8-53 | A missing field gives 400 and nothing is stored. An email or username already taken gives 400 and nothing changes. Otherwise one user is appended: password stored as `hash(password, salt)`, no edges, creation time. The reply is 201 with the id, username and email only. |
| AuthController.NewUser | server/controllers/authController.js:24-32 | The stored password is `hash(password, salt)`. The account has its id, username and email, no edges, and creation time `now`. |
| AuthController.RegisterKeepsAccountsUnique | server/controllers/authController.js:18-21 | When every email and username belongs to one account, a registration that passes the duplicate check keeps it so. |
| AuthController.RegisterKeepsGraph | server/controllers/authController.js:28-34 | Appending a new account with a fresh id and no edges keeps the follow graph consistent. |
| AuthController.Login | server/controllers/authController.js:58-108 | A missing field gives 400. The login succeeds exactly when the first account whose email or username is the identifier exists and the password compares equal. The reply then holds the signed claims of that account's id, issued now and expiring seven days later. Every other failure is 401 "Invalid credentials". |
| AuthController.LoginFailuresAlike | server/controllers/authController.js:73-83 | An unknown identifier and a wrong password give identical replies, so a failed login does not reveal whether the account exists. |
| AuthController.LoginAfterRegister | server/controllers/authController.js:8-108 | A newly registered user, whose username is no older account's email, logs in with it and the token names the new account. |
| AuthController.VerifyToken | server/controllers/authController.js:113-137 | A caller without an id gives 401, and an id with no account gives 404. Otherwise the reply is 200 with that account's fields apart from the password. |
| AuthController.LoginThenVerify | server/controllers/authController.js:86-131 | The id inside a login's token leads `verifyToken` back to the account that logged in. |
| Common.DecimalRoundTrip | server/controllers/notificationController.js:52 | The decimal count in the `markAllAsRead` message reads back as the count itself. |
| Common.Truthy | server/controllers/postController.js:22 | JavaScript's `!field` on a request-body field: the field passes exactly when it is present and not the empty string. This is the test behind every 400 and 401 for a missing field. |
| Common.Decimal | server/controllers/notificationController.js:52 | A count in a template literal is written as a non-empty string of decimal digits, with no leading zero unless the count is zero, and one digit exactly when the count is below ten. |
| NotificationController.MarkedMessage | server/controllers/notificationController.js:52 | The `markAllAsRead` reply reads "Marked ", then the count in decimal digits, then " notifications as read."; the digits read back as the count. |

## Left out

- I/O, the database connection and the Express routing are not modelled. The
  `protect` middleware becomes the caller id passed to a handler.
- Every `catch` reply with status 500 for a store failure is left out: stores
  here do not fail.
- The Mongoose details are left out:
  - `CastError` on an id that is not an ObjectId: an unknown id is simply not
    found;
  - the text of `ValidationError` messages: only the status and that a message
    is sent are stated;
  - `populate` of sender and post in the notification listing;
  - `select('-password -email')`: the profile and account views list the
    fields they keep.
- bcrypt and jsonwebtoken are parameters. The error callback of `jwt.sign` and
  token expiry checks live outside the model.
- `PostController.CreatePost`: the model stores the request's `authorName` in
  the post's `author`. The source does not: `Post.create` receives
  `authorName`, a field the schema does not have and drops, while `author` is
  required (server/models/Post.js:20-24). In the source, therefore, every
  request that passes the check for both fields gets the schema's 400
  `ValidationError`, and the 201 path of the model never happens. The model
  states the evidently intended behaviour instead.
- Ids are taken in one canonical spelling and compared as exact strings. The
  store's casting of an id string to an ObjectId, under which the hex digits'
  case does not matter, is not modelled. In the source, `findById` finds a user
  under an upper-cased spelling of the id where the model answers 404 (for
  example in `getUserProfile`). The self-follow guard of `followUser`
  (server/controllers/userController.js:48) compares the raw strings, so a
  user who follows their own id spelled in upper case gets past it, and the
  two `$addToSet` writes then give that user a self-edge on both lists. The
  "no self-edges" part of the graph invariant that
  `UserController.FollowKeepsGraph` proves holds only for ids in canonical
  spelling.
- Each request is one atomic step. The two `updateOne` writes of follow and
  unfollow and the read-then-save of `likePost` are not interleaved with other
  requests.
- `Date.now` is the parameter `now`, and timestamps are integers.
- `AuthController.Login`: here `now` is in seconds, the unit of the token's
  issue and expiry times. A caller must convert `Date.now` milliseconds
  before passing them in.
- `NotificationController.MarkAsRead`: the 404 and 401 replies are thrown
  inside `asyncHandler`, and server/server.js installs no error middleware.
  Express's default handler therefore sends an HTML error page, not JSON.
  The model keeps the status and the thrown error's text as its message.
- server/server.js mounts only the post routes. The model treats every
  handler as reachable.
- The order of posts or notifications with equal timestamps is left
  unspecified by the database. The model keeps natural order (a stable sort),
  but the contracts state only the newest-first order.
- `PostModel.IsWhitespace`: covers ASCII white space, the line and paragraph
  separators, no-break space and the byte-order mark. The other Unicode space
  separators that JavaScript's `trim` also removes are not included.
- No handler in these files creates notifications. The notification that a
  like or comment would send is not part of the code modelled.
- `updatePost` and `deletePost` are imported by the post routes but defined
  nowhere in the post controller, so they are not modelled.
- server/models/User.js is not part of this model. The user record holds the
  fields the controllers use.
- The code has no feed by followed authors: `getPosts` lists every post.
- `AuthController.LoginAfterRegister`: assumes `compare(p, hash(p, s))` for
  every password and salt. It is stated for a username that is no older
  account's email, because `findOne` with an `$or` filter returns the first
  match in natural order.
