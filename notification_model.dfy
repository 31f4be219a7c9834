/** The notification collection of server/models/Notification.js. */
module NotificationModel {
  import opened Common
  import opened Sequences

  /** The schema's `type` enum. */
  datatype NotificationType = Like | Comment

  /** The enum value as stored. */
  function TypeName(t: NotificationType): (r: string)
    ensures r == "like" || r == "comment"
  {
    match t
    case Like => "like"
    case Comment => "comment"
  }

  /** Validating a stored `type` string against the enum: exactly "like" and
      "comment" are accepted. */
  function ParseType(s: string): (r: Option<NotificationType>)
    ensures r.Some? <==> s == "like" || s == "comment"
    ensures r.Some? ==> TypeName(r.value) == s
  {
    if s == "like" then Some(Like)
    else if s == "comment" then Some(Comment)
    else None
  }

  /** Every enum value survives being stored and validated again. */
  lemma ParseTypeName(t: NotificationType)
    ensures ParseType(TypeName(t)) == Some(t)
  {
  }

  datatype Notification = Notification(
    id: Id,
    recipient: Id,
    sender: Id,
    kind: NotificationType,
    post: Id,
    read: bool,
    createdAt: int)

  function NotificationId(n: Notification): Id { n.id }

  function CreatedAt(n: Notification): int { n.createdAt }

  /** Creating a notification document: `recipient`, `sender`, `type` and `post`
      are required and `type` must be in the enum; `read` defaults to false and
      `createdAt` to the creation time `now`. */
  function NewNotification(id: Id, recipient: Option<Id>, sender: Option<Id>, kind: Option<string>,
                           post: Option<Id>, now: int): (r: Option<Notification>)
    ensures r.Some? <==> && recipient.Some? && sender.Some? && post.Some?
                         && kind.Some? && (kind.value == "like" || kind.value == "comment")
    ensures r.Some? ==> && r.value.id == id && r.value.recipient == recipient.value
                        && r.value.sender == sender.value && r.value.post == post.value
                        && TypeName(r.value.kind) == kind.value
    ensures r.Some? ==> !r.value.read && r.value.createdAt == now
  {
    if recipient.None? || sender.None? || post.None? || kind.None? then None
    else
      match ParseType(kind.value)
      case None => None
      case Some(t) => Some(Notification(id, recipient.value, sender.value, t, post.value, false, now))
  }

  /** The notification collection, its documents in natural (insertion) order. */
  class NotificationCollection {
    var docs: seq<Notification>

    /** Every notification has its own id. */
    predicate Valid()
      reads this
    {
      UniqueKeys(docs, NotificationId)
    }

    constructor ()
      ensures Valid() && docs == []
    {
      docs := [];
    }
  }

  /** `Notification.findById(id)`: the position of the notification with that id. */
  function FindNotification(docs: seq<Notification>, id: Id): (r: Option<nat>)
    ensures r.None? <==> forall k :: 0 <= k < |docs| ==> docs[k].id != id
    ensures r.Some? ==> r.value < |docs| && docs[r.value].id == id
  {
    FirstIndex(docs, (n: Notification) => n.id == id)
  }
}
