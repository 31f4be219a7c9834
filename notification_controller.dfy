/** The handlers of server/controllers/notificationController.js: listing a
    user's notifications and marking them read. */
module NotificationController {
  import opened Common
  import opened Sequences
  import opened NotificationModel

  /** The listing returns at most this many notifications. */
  const PAGE_LIMIT: nat := 20

  /** The notifications addressed to `user`, in natural order. */
  function Addressed(docs: seq<Notification>, user: Id): (r: seq<Notification>)
    ensures forall n :: multiset(r)[n] == if n.recipient == user then multiset(docs)[n] else 0
  {
    Filter(docs, (n: Notification) => n.recipient == user)
  }

  /** Every notification addressed to `user` is one of the collection's. */
  lemma InAddressed(docs: seq<Notification>, user: Id, n: Notification)
    requires n in Addressed(docs, user)
    ensures n.recipient == user && n in docs
  {
    var a := Addressed(docs, user);
    assert multiset(a)[n] > 0;
    assert multiset(docs)[n] > 0;
  }

  /** The listing in full: the user's notifications sorted newest first. */
  function SortedInbox(docs: seq<Notification>, user: Id): (r: seq<Notification>)
    ensures SortedDesc(r, CreatedAt)
    ensures multiset(r) == multiset(Addressed(docs, user))
    ensures forall i :: 0 <= i < |r| ==> r[i].recipient == user && r[i] in docs
  {
    var r := SortDesc(Addressed(docs, user), CreatedAt);
    forall i | 0 <= i < |r| ensures r[i].recipient == user && r[i] in docs {
      assert r[i] in multiset(r);
      InAddressed(docs, user, r[i]);
    }
    r
  }

  /** `getNotifications`: the user's notifications, newest first, each at most
      as often as stored, and exactly PAGE_LIMIT of them when the user has that
      many or more. */
  function GetNotifications(docs: seq<Notification>, user: Id): (r: Response<seq<Notification>>)
    ensures r.status == OK && r.body.Data?
    ensures |r.body.value| <= PAGE_LIMIT
    ensures forall i :: 0 <= i < |r.body.value| ==> r.body.value[i].recipient == user && r.body.value[i] in docs
    ensures SortedDesc(r.body.value, CreatedAt)
    ensures |r.body.value| == if |Addressed(docs, user)| < PAGE_LIMIT then |Addressed(docs, user)| else PAGE_LIMIT
    ensures multiset(r.body.value) <= multiset(Addressed(docs, user))
  {
    var sorted := SortedInbox(docs, user);
    assert |sorted| == |Addressed(docs, user)| by {
      assert |multiset(sorted)| == |multiset(Addressed(docs, user))|;
    }
    TakeSorted(sorted, CreatedAt, PAGE_LIMIT);
    TakeIsSubMultiset(sorted, PAGE_LIMIT);
    Response(OK, Data(Take(sorted, PAGE_LIMIT)))
  }

  /** The listing is a top PAGE_LIMIT: a notification of the user left out of
      it is no newer than any listed one. */
  lemma ListingIsNewest(docs: seq<Notification>, user: Id)
    ensures var page := GetNotifications(docs, user).body.value;
            forall n, m :: n in docs && n.recipient == user && n !in page && m in page ==>
              m.createdAt >= n.createdAt
  {
    var sorted := SortedInbox(docs, user);
    var page := GetNotifications(docs, user).body.value;
    assert page == Take(sorted, PAGE_LIMIT);
    forall n, m | n in docs && n.recipient == user && n !in page && m in page
      ensures m.createdAt >= n.createdAt
    {
      AddressedHas(docs, user, n);
      assert n in multiset(sorted);
      TakeDominates(sorted, n, m);
    }
  }

  /** In a sorted listing, what the limit cuts off is no newer than what it keeps. */
  lemma TakeDominates(sorted: seq<Notification>, n: Notification, m: Notification)
    requires SortedDesc(sorted, CreatedAt)
    requires n in sorted && n !in Take(sorted, PAGE_LIMIT) && m in Take(sorted, PAGE_LIMIT)
    ensures m.createdAt >= n.createdAt
  {
    var page := Take(sorted, PAGE_LIMIT);
    var j :| 0 <= j < |sorted| && sorted[j] == n;
    var i :| 0 <= i < |page| && page[i] == m;
    assert sorted[i] == m;
    assert CreatedAt(sorted[i]) >= CreatedAt(sorted[j]);
  }

  /** A user with at most PAGE_LIMIT notifications sees all of them. */
  lemma ListingIsComplete(docs: seq<Notification>, user: Id)
    requires |Addressed(docs, user)| <= PAGE_LIMIT
    ensures multiset(GetNotifications(docs, user).body.value) == multiset(Addressed(docs, user))
  {
    var sorted := SortedInbox(docs, user);
    assert |sorted| == |Addressed(docs, user)| by {
      assert |multiset(sorted)| == |multiset(Addressed(docs, user))|;
    }
    assert Take(sorted, PAGE_LIMIT) == sorted;
  }

  lemma AddressedHas(docs: seq<Notification>, user: Id, n: Notification)
    requires n in docs && n.recipient == user
    ensures multiset(Addressed(docs, user))[n] > 0
  {
    assert multiset(docs)[n] > 0;
  }

  /** `markAsRead`: an unknown id is 404; a notification addressed to someone
      else is 401 and stays as it is; otherwise it ends up read, nothing else
      changes, and an already-read notification is left untouched. */
  method MarkAsRead(store: NotificationCollection, id: Id, user: Id) returns (r: Response<Notification>)
    requires store.Valid()
    modifies store
    ensures store.Valid()
    ensures FindNotification(old(store.docs), id).None? ==>
              r == Response(NOT_FOUND, Message("Notification not found")) && store.docs == old(store.docs)
    ensures FindNotification(old(store.docs), id).Some? ==>
              && var i := FindNotification(old(store.docs), id).value;
                 var before := old(store.docs)[i];
                 && (before.recipient != user ==>
                       && r == Response(UNAUTHORIZED, Message("User not authorized to update this notification"))
                       && store.docs == old(store.docs))
                 && (before.recipient == user ==>
                       && r == Response(OK, Data(before.(read := true)))
                       && store.docs == old(store.docs)[i := before.(read := true)])
                 && (before.recipient == user && before.read ==> store.docs == old(store.docs))
  {
    var found := FindNotification(store.docs, id);
    if found.None? {
      return Response(NOT_FOUND, Message("Notification not found"));
    }
    var notification := store.docs[found.value];
    if notification.recipient != user {
      return Response(UNAUTHORIZED, Message("User not authorized to update this notification"));
    }
    if !notification.read {
      notification := notification.(read := true);
      ReplaceKeepsUnique(store.docs, found.value, notification);
      store.docs := store.docs[found.value := notification];
    }
    assert store.docs == old(store.docs)[found.value := notification];
    r := Response(OK, Data(notification));
  }

  /** Rewriting a notification in place under its own id keeps the ids unique. */
  lemma ReplaceKeepsUnique(docs: seq<Notification>, i: nat, n: Notification)
    requires UniqueKeys(docs, NotificationId)
    requires i < |docs| && n.id == docs[i].id
    ensures UniqueKeys(docs[i := n], NotificationId)
  {
    var d := docs[i := n];
    forall j, k | 0 <= j < k < |d| ensures NotificationId(d[j]) != NotificationId(d[k]) {
      assert NotificationId(d[j]) == NotificationId(docs[j]);
      assert NotificationId(d[k]) == NotificationId(docs[k]);
    }
  }

  /** The filter of `markAllAsRead`: addressed to `user` and not yet read. */
  predicate UnreadFor(n: Notification, user: Id)
  {
    n.recipient == user && !n.read
  }

  /** The number of notifications of `user` that are unread. */
  function CountUnread(docs: seq<Notification>, user: Id): (r: nat)
    ensures r <= |docs|
    ensures r == 0 <==> forall k :: 0 <= k < |docs| ==> !UnreadFor(docs[k], user)
  {
    if docs == [] then 0
    else
      var init := docs[..|docs| - 1];
      assert forall k :: 0 <= k < |init| ==> init[k] == docs[k];
      CountUnread(init, user) + if UnreadFor(docs[|docs| - 1], user) then 1 else 0
  }

  /** The collection after `updateMany({ recipient: user, read: false }, { $set: { read: true } })`:
      every notification of `user` is read, only the read flag of a notification
      can change, and the notifications of other users are untouched. */
  function ReadAll(docs: seq<Notification>, user: Id): (r: seq<Notification>)
    ensures |r| == |docs|
    ensures forall k :: 0 <= k < |r| ==> r[k] == docs[k].(read := r[k].read)
    ensures forall k :: 0 <= k < |r| && r[k].recipient == user ==> r[k].read
    ensures forall k :: 0 <= k < |r| && !UnreadFor(docs[k], user) ==> r[k] == docs[k]
  {
    seq(|docs|, k requires 0 <= k < |docs| =>
      if UnreadFor(docs[k], user) then docs[k].(read := true) else docs[k])
  }

  /** Once all are marked read none is unread, and another user's unread count is
      what it was. */
  lemma {:induction false} ReadAllCounts(docs: seq<Notification>, user: Id, other: Id)
    requires other != user
    ensures CountUnread(ReadAll(docs, user), user) == 0
    ensures CountUnread(ReadAll(docs, user), other) == CountUnread(docs, other)
  {
    if docs != [] {
      var init := docs[..|docs| - 1];
      ReadAllPrefix(docs, user);
      ReadAllCounts(init, user, other);
    }
  }

  lemma ReadAllPrefix(docs: seq<Notification>, user: Id)
    requires docs != []
    ensures ReadAll(docs, user)[..|docs| - 1] == ReadAll(docs[..|docs| - 1], user)
  {
  }

  /** The number of positions where two collections of equal length differ. */
  function Changed(a: seq<Notification>, b: seq<Notification>): (r: nat)
    requires |a| == |b|
    ensures r <= |a|
  {
    if a == [] then 0
    else Changed(a[..|a| - 1], b[..|b| - 1]) + if a[|a| - 1] != b[|b| - 1] then 1 else 0
  }

  /** The count `markAllAsRead` reports is the number of notifications it changed. */
  lemma {:induction false} UnreadCountIsChanged(docs: seq<Notification>, user: Id)
    ensures CountUnread(docs, user) == Changed(docs, ReadAll(docs, user))
  {
    if docs != [] {
      var n := |docs|;
      ReadAllPrefix(docs, user);
      UnreadCountIsChanged(docs[..n - 1], user);
      assert UnreadFor(docs[n - 1], user) <==> docs[n - 1] != ReadAll(docs, user)[n - 1];
    }
  }

  /** The reply of `markAllAsRead`, naming how many notifications it modified. */
  function MarkedMessage(count: nat): (r: string)
    ensures |r| > 30 && r[..7] == "Marked " && r[|r| - 23..] == " notifications as read."
    ensures AllDigits(r[7..|r| - 23]) && DecimalValue(r[7..|r| - 23]) == count
  {
    var digits := Decimal(count);
    var r := "Marked " + digits + " notifications as read.";
    assert r[7..|r| - 23] == digits;
    DecimalRoundTrip(count);
    r
  }

  /** `markAllAsRead`: marks every unread notification of `user` read and reports
      how many it modified. */
  method MarkAllAsRead(store: NotificationCollection, user: Id) returns (r: Response<()>)
    requires store.Valid()
    modifies store
    ensures store.Valid()
    ensures store.docs == ReadAll(old(store.docs), user)
    ensures r == Response(OK, Message(MarkedMessage(CountUnread(old(store.docs), user))))
  {
    var i := 0;
    var modified := 0;
    while i < |store.docs|
      invariant 0 <= i <= |store.docs| == |old(store.docs)|
      invariant forall k :: 0 <= k < i ==> store.docs[k] == ReadAll(old(store.docs), user)[k]
      invariant forall k :: i <= k < |store.docs| ==> store.docs[k] == old(store.docs)[k]
      invariant modified == CountUnread(old(store.docs)[..i], user)
    {
      var n := store.docs[i];
      CountUnreadStep(old(store.docs), user, i);
      if UnreadFor(n, user) {
        store.docs := store.docs[i := n.(read := true)];
        modified := modified + 1;
      }
      i := i + 1;
    }
    assert old(store.docs)[..i] == old(store.docs);
    ReadAllKeepsUnique(old(store.docs), user);
    r := Response(OK, Message(MarkedMessage(modified)));
  }

  /** Counting one more position adds one exactly when it is unread. */
  lemma CountUnreadStep(docs: seq<Notification>, user: Id, i: nat)
    requires i < |docs|
    ensures CountUnread(docs[..i + 1], user) == CountUnread(docs[..i], user) + if UnreadFor(docs[i], user) then 1 else 0
  {
    assert docs[..i + 1][..i] == docs[..i];
  }

  lemma ReadAllKeepsUnique(docs: seq<Notification>, user: Id)
    requires UniqueKeys(docs, NotificationId)
    ensures UniqueKeys(ReadAll(docs, user), NotificationId)
  {
    var d := ReadAll(docs, user);
    forall j, k | 0 <= j < k < |d| ensures NotificationId(d[j]) != NotificationId(d[k]) {
      assert NotificationId(d[j]) == NotificationId(docs[j]);
      assert NotificationId(d[k]) == NotificationId(docs[k]);
    }
  }
}
