/** The notification list: records, their messages, and the pure updates applied to the list. */
module Notices {
  import opened Seqs
  import opened Delta

  /** Server ids and client ids (`Date.now() + Math.random()` for a sync, `Date.now()` for an
      announcement) are both modelled as integers. */
  type NotificationId = int

  datatype Notification = Notification(id: NotificationId, message: string, timestamp: string, read: bool)

  /** `list.some(n => !n.read)`: the bell's unread dot. */
  predicate AnyUnread(ns: seq<Notification>) {
    exists i :: 0 <= i < |ns| && !ns[i].read
  }

  /** `list.some(n => !n.read && n.id !== id)`. */
  predicate UnreadOtherThan(ns: seq<Notification>, id: NotificationId) {
    exists i :: 0 <= i < |ns| && !ns[i].read && ns[i].id != id
  }

  /** Message of a TEXTBOX-change notification. */
  function TextboxMessage(e: ChangeEvent): string {
    "New message for ticket " + e.ticketId + ": " + e.text
  }

  /** Message of an announcement notification ("new announcement: " in Thai). */
  function AnnouncementMessage(text: string): string {
    "ประกาศใหม่: " + text
  }

  /** One unread notification per detected event, in event order; the k-th takes `ids[k]`
      and the clock reading `stamps[k]`. */
  function FromEvents(events: seq<ChangeEvent>, ids: seq<NotificationId>, stamps: seq<string>): seq<Notification>
    requires |events| <= |ids| && |events| <= |stamps|
  {
    seq(|events|, k requires 0 <= k < |events| => Notification(ids[k], TextboxMessage(events[k]), stamps[k], false))
  }

  /** The notifications made by a sync are all unread, one per event, and there is an unread
      one exactly when some event was detected. */
  lemma FromEventsUnread(events: seq<ChangeEvent>, ids: seq<NotificationId>, stamps: seq<string>)
    requires |events| <= |ids| && |events| <= |stamps|
    ensures |FromEvents(events, ids, stamps)| == |events|
    ensures forall n :: n in FromEvents(events, ids, stamps) ==> !n.read
    ensures AnyUnread(FromEvents(events, ids, stamps)) <==> events != []
  {
    if events != [] {
      assert !FromEvents(events, ids, stamps)[0].read;
    }
  }

  /** Prepending keeps every unread entry visible to the unread check. */
  lemma AnyUnreadAppend(a: seq<Notification>, b: seq<Notification>)
    ensures AnyUnread(a + b) <==> AnyUnread(a) || AnyUnread(b)
  {
    if AnyUnread(a) {
      var i :| 0 <= i < |a| && !a[i].read;
      assert (a + b)[i] == a[i];
    }
    if AnyUnread(b) {
      var i :| 0 <= i < |b| && !b[i].read;
      assert (a + b)[|a| + i] == b[i];
    }
    if AnyUnread(a + b) {
      var i :| 0 <= i < |a + b| && !(a + b)[i].read;
      if i < |a| { assert a[i] == (a + b)[i]; } else { assert b[i - |a|] == (a + b)[i]; }
    }
  }

  /** `prev.map(n => n.id === id ? {...n, read: true} : n)`. */
  function MarkRead(ns: seq<Notification>, id: NotificationId): seq<Notification> {
    seq(|ns|, i requires 0 <= i < |ns| => if ns[i].id == id then ns[i].(read := true) else ns[i])
  }

  /** `prev.map(n => ({...n, read: true}))`. */
  function MarkAllRead(ns: seq<Notification>): seq<Notification> {
    seq(|ns|, i requires 0 <= i < |ns| => ns[i].(read := true))
  }

  /** Marking one id read sets `read` on exactly the entries with that id, changes nothing
      else, and leaves something unread exactly when another entry was unread before. */
  lemma MarkReadSpec(ns: seq<Notification>, id: NotificationId)
    ensures |MarkRead(ns, id)| == |ns|
    ensures forall i :: 0 <= i < |ns| ==>
      var m := MarkRead(ns, id)[i];
      && m.(read := ns[i].read) == ns[i]
      && m.read == (ns[i].read || ns[i].id == id)
    ensures AnyUnread(MarkRead(ns, id)) <==> UnreadOtherThan(ns, id)
  {
    var r := MarkRead(ns, id);
    if UnreadOtherThan(ns, id) {
      var i :| 0 <= i < |ns| && !ns[i].read && ns[i].id != id;
      assert !r[i].read;
    }
  }

  /** Marking all read leaves nothing unread and changes only the read flags. */
  lemma MarkAllReadSpec(ns: seq<Notification>)
    ensures |MarkAllRead(ns)| == |ns|
    ensures forall i :: 0 <= i < |ns| ==> MarkAllRead(ns)[i] == ns[i].(read := true)
    ensures !AnyUnread(MarkAllRead(ns))
  {
  }

  /** Two unread out of three, one of them `id`: afterwards exactly the other one is
      unread, so the dot stays on. */
  lemma MarkReadExample()
    ensures var ns := [Notification(1, "a", "t", false), Notification(2, "b", "t", false),
                       Notification(3, "c", "t", true)];
      var r := MarkRead(ns, 1);
      && r == [Notification(1, "a", "t", true), Notification(2, "b", "t", false),
               Notification(3, "c", "t", true)]
      && UnreadOtherThan(ns, 1)
  {
    var ns := [Notification(1, "a", "t", false), Notification(2, "b", "t", false),
               Notification(3, "c", "t", true)];
    assert !ns[1].read && ns[1].id != 1;
  }

  /** The filter predicate of a notification delete. */
  function OtherThan(id: NotificationId): Notification -> bool {
    (n: Notification) => n.id != id
  }

  /** `list.filter(n => n.id !== id)`. */
  function Without(ns: seq<Notification>, id: NotificationId): seq<Notification> {
    Select(ns, OtherThan(id))
  }

  /** Deleting removes exactly the entries with that id and keeps the rest in order. */
  lemma WithoutSpec(ns: seq<Notification>, id: NotificationId)
    ensures forall n :: n in Without(ns, id) <==> n in ns && n.id != id
    ensures forall n :: multiset(Without(ns, id))[n] == if n.id != id then multiset(ns)[n] else 0
    ensures IsSubsequence(Without(ns, id), ns)
  {
    forall n ensures multiset(Without(ns, id))[n] == if n.id != id then multiset(ns)[n] else 0 {
      SelectCount(ns, OtherThan(id), n);
    }
    forall n ensures n in Without(ns, id) <==> n in ns && n.id != id {
      SelectMembers(ns, OtherThan(id), n);
    }
    SelectIsSubsequence(ns, OtherThan(id));
  }

  /** No two notifications share an id. */
  ghost predicate UniqueNotificationIds(ns: seq<Notification>) {
    forall i, j :: 0 <= i < j < |ns| ==> ns[i].id != ns[j].id
  }

  function IdsOf(ns: seq<Notification>): seq<NotificationId> {
    seq(|ns|, i requires 0 <= i < |ns| => ns[i].id)
  }

  /** Deleting the entry at position `j` of a list with unique ids removes that entry alone. */
  lemma {:induction false} WithoutOne(ns: seq<Notification>, j: nat)
    requires UniqueNotificationIds(ns) && j < |ns|
    ensures Without(ns, ns[j].id) == ns[..j] + ns[j + 1..]
  {
    var p := OtherThan(ns[j].id);
    assert ns == ns[..j] + [ns[j]] + ns[j + 1..];
    SelectAppend(ns[..j] + [ns[j]], ns[j + 1..], p);
    SelectAppend(ns[..j], [ns[j]], p);
    assert Select([ns[j]], p) == [] by {
      assert [ns[j]][..0] == [];
    }
    SelectKeepsAll(ns[..j], p);
    SelectKeepsAll(ns[j + 1..], p);
  }

  /** As written, "delete all" runs one delete per entry and every completion stores the
      render-time list minus ITS id; the last completion wins, so with two or more entries
      (unique ids) one delete's worth is all that is applied locally. */
  lemma DeleteAllFromRenderedKeepsOthers(rendered: seq<Notification>, last: nat)
    requires UniqueNotificationIds(rendered) && last < |rendered|
    ensures |Without(rendered, rendered[last].id)| == |rendered| - 1
    ensures forall i :: 0 <= i < |rendered| && i != last ==> rendered[i] in Without(rendered, rendered[last].id)
  {
    WithoutOne(rendered, last);
    forall i | 0 <= i < |rendered| && i != last
      ensures rendered[i] in Without(rendered, rendered[last].id)
    {
      if i < last {
        assert rendered[..last][i] == rendered[i];
      } else {
        assert rendered[last + 1..][i - last - 1] == rendered[i];
      }
    }
  }

  /** Deleting the ids one after another, each from the list as it is at that moment. */
  function WithoutEach(ns: seq<Notification>, ids: seq<NotificationId>): seq<Notification>
    decreases |ids|
  {
    if ids == [] then ns else WithoutEach(Without(ns, ids[0]), ids[1..])
  }

  /** Deleting from the current list removes exactly the entries whose id was deleted. */
  lemma {:induction false} WithoutEachRemovesExactly(ns: seq<Notification>, ids: seq<NotificationId>)
    ensures forall n :: n in WithoutEach(ns, ids) <==> n in ns && n.id !in ids
    decreases |ids|
  {
    if ids != [] {
      WithoutSpec(ns, ids[0]);
      WithoutEachRemovesExactly(Without(ns, ids[0]), ids[1..]);
      assert forall x :: x in ids <==> x == ids[0] || x in ids[1..];
    }
  }

  /** With each completion filtering the CURRENT list, "delete all" leaves no entry behind. */
  lemma DeleteAllFromCurrentEmpties(ns: seq<Notification>)
    ensures forall n :: n !in WithoutEach(ns, IdsOf(ns))
  {
    forall i | 0 <= i < |ns| ensures ns[i].id in IdsOf(ns) {
      assert IdsOf(ns)[i] == ns[i].id;
    }
    WithoutEachRemovesExactly(ns, IdsOf(ns));
  }
}
