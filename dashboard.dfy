/** The dashboard component's reconciliation state: the ticket snapshot, the notification
    list and the unread indicator, and the callbacks that replace them. Each method is one
    callback running to completion; network replies arrive as parameters. */
module Dashboard {
  import opened Wrappers
  import opened Tickets
  import opened Delta
  import opened Notices

  /** Outcome of a GET: the request failed, or it returned a body that is an array
      (`Some`) or is not (`None`). */
  datatype Fetched<T> = Failed | Received(body: Option<T>)

  /** `Array.isArray(body) ? body : []`. */
  function RowsOf(body: Option<seq<Ticket>>): seq<Ticket> {
    body.GetOr([])
  }

  /** What the first-load and reset fetches store: the rows, or [] on any failure. */
  function RowsOrEmpty(response: Fetched<seq<Ticket>>): seq<Ticket> {
    match response
    case Failed => []
    case Received(body) => RowsOf(body)
  }

  /** JavaScript truthiness of the optional id argument of `markAsRead`: 0 is falsy. */
  predicate GivenId(id: Option<NotificationId>) {
    id.Some? && id.value != 0
  }

  class Dashboard {
    var data: seq<Ticket>
    var notifications: seq<Notification>
    var hasUnread: bool

    /** The unread indicator agrees with the list. */
    ghost predicate UnreadAccurate()
      reads this
    {
      hasUnread == AnyUnread(notifications)
    }

    /** The component's initial state. */
    constructor ()
      ensures data == [] && notifications == [] && !hasUnread
      ensures UnreadAccurate()
    {
      data := [];
      notifications := [];
      hasUnread := false;
    }

    /** The first-load fetch and the fetch after resetting the date filter: the snapshot
        becomes the rows received, or empty if the request fails or the body is not an array. */
    method LoadAll(response: Fetched<seq<Ticket>>)
      modifies this
      ensures data == RowsOrEmpty(response)
      ensures notifications == old(notifications) && hasUnread == old(hasUnread)
    {
      data := RowsOrEmpty(response);
    }

    /** `fetchDataByDate`: nothing happens without a date; otherwise as `LoadAll`. */
    method LoadByDate(startDate: string, response: Fetched<seq<Ticket>>)
      modifies this
      ensures data == if startDate == "" then old(data) else RowsOrEmpty(response)
      ensures notifications == old(notifications) && hasUnread == old(hasUnread)
    {
      if startDate != "" {
        data := RowsOrEmpty(response);
      }
    }

    /** One completion of the ticket sync. On failure nothing changes. On success the previous
        snapshot is diffed against the received one, one unread notification per changed
        TEXTBOX is put in front of the list (the k-th taking `ids[k]` and `stamps[k]`), the
        indicator is set if there was any, and the snapshot is replaced. */
    method Sync(response: Fetched<seq<Ticket>>, ids: seq<NotificationId>, stamps: seq<string>)
      requires |ids| >= |RowsOrEmpty(response)| && |stamps| >= |RowsOrEmpty(response)|
      modifies this
      ensures response.Failed? ==>
        data == old(data) && notifications == old(notifications) && hasUnread == old(hasUnread)
      ensures response.Received? ==>
        var events := TextboxEvents(old(data), RowsOf(response.body));
        && data == RowsOf(response.body)
        && notifications == FromEvents(events, ids, stamps) + old(notifications)
        && hasUnread == (old(hasUnread) || events != [])
      ensures old(UnreadAccurate()) ==> UnreadAccurate()
    {
      if response.Received? {
        var newData := RowsOf(response.body);
        var events := DetectTextboxUpdates(data, newData);
        if |events| > 0 {
          var emitted := FromEvents(events, ids, stamps);
          FromEventsUnread(events, ids, stamps);
          AnyUnreadAppend(emitted, notifications);
          notifications := emitted + notifications;
          hasUnread := true;
        }
        data := newData;
      }
    }

    /** One completion of the notification poll: the list becomes exactly the fetched one
        and the indicator says whether any of it is unread. */
    method PollNotifications(ok: bool, fetched: seq<Notification>)
      modifies this
      ensures ok ==> notifications == fetched && hasUnread == AnyUnread(fetched)
      ensures !ok ==> notifications == old(notifications) && hasUnread == old(hasUnread)
      ensures ok ==> UnreadAccurate()
      ensures data == old(data)
    {
      if ok {
        notifications := fetched;
        hasUnread := AnyUnread(fetched);
      }
    }

    /** `markAsRead(id)`, applied once the backend call succeeds. With an id, the entries with
        that id become read and the indicator is computed from `rendered` (the list the
        handler closed over) minus that id; without one (or with the falsy id 0), every entry
        becomes read and the indicator goes off. */
    method MarkAsRead(id: Option<NotificationId>, rendered: seq<Notification>, ok: bool)
      modifies this
      ensures !ok ==> notifications == old(notifications) && hasUnread == old(hasUnread)
      ensures ok && GivenId(id) ==>
        notifications == MarkRead(old(notifications), id.value) && hasUnread == UnreadOtherThan(rendered, id.value)
      ensures ok && !GivenId(id) ==> notifications == MarkAllRead(old(notifications)) && !hasUnread
      ensures ok && rendered == old(notifications) ==> UnreadAccurate()
      ensures data == old(data)
    {
      if ok {
        if GivenId(id) {
          MarkReadSpec(notifications, id.value);
          notifications := MarkRead(notifications, id.value);
          hasUnread := UnreadOtherThan(rendered, id.value);
        } else {
          MarkAllReadSpec(notifications);
          notifications := MarkAllRead(notifications);
          hasUnread := false;
        }
      }
    }

    /** `deleteNotification(id)` as written: once the backend call succeeds the list becomes
        the render-time list `rendered` without `id`; the indicator is left alone. */
    method DeleteNotification(id: NotificationId, rendered: seq<Notification>, ok: bool)
      modifies this
      ensures notifications == if ok then Without(rendered, id) else old(notifications)
      ensures hasUnread == old(hasUnread) && data == old(data)
    {
      if ok {
        notifications := Without(rendered, id);
      }
    }

    /** The delete as the "delete all" button needs it: filter the list as it is when the
        backend call completes. */
    method DeleteNotificationFromCurrent(id: NotificationId, ok: bool)
      modifies this
      ensures notifications == if ok then Without(old(notifications), id) else old(notifications)
      ensures hasUnread == old(hasUnread) && data == old(data)
    {
      if ok {
        notifications := Without(notifications, id);
      }
    }

    /** A successful announcement: unless the message is blank, the confirmation is
        declined or the backend does not report success, an unread notification quoting
        the message goes in front of the list and the indicator is set. */
    method Announce(message: string, confirmed: bool, delivered: bool, id: NotificationId, stamp: string)
      modifies this
      ensures var sent := !IsBlank(message) && confirmed && delivered;
        && notifications == (if sent then [Notification(id, AnnouncementMessage(message), stamp, false)] + old(notifications)
                             else old(notifications))
        && hasUnread == (sent || old(hasUnread))
      ensures old(UnreadAccurate()) ==> UnreadAccurate()
      ensures data == old(data)
    {
      if !IsBlank(message) && confirmed && delivered {
        var n := Notification(id, AnnouncementMessage(message), stamp, false);
        AnyUnreadAppend([n], notifications);
        assert AnyUnread([n]) by { assert ![n][0].read; }
        notifications := [n] + notifications;
        hasUnread := true;
      }
    }

    /** `handleStatusChange`, applied once the backend call succeeds. */
    method ChangeStatus(ticketId: TicketId, newStatus: string, ok: bool)
      modifies this
      ensures data == if ok then WithStatus(old(data), ticketId, newStatus) else old(data)
      ensures old(UniqueIds(data)) ==> UniqueIds(data)
      ensures notifications == old(notifications) && hasUnread == old(hasUnread)
    {
      if ok {
        if UniqueIds(data) {
          WithStatusKeepsIds(data, ticketId, newStatus);
        }
        data := WithStatus(data, ticketId, newStatus);
      }
    }

    /** `handleDeleteTicket`, applied once the user confirmed and the backend call succeeded. */
    method DeleteTicket(ticketId: TicketId, confirmed: bool, ok: bool)
      modifies this
      ensures data == if confirmed && ok then WithoutTicket(old(data), ticketId) else old(data)
      ensures old(UniqueIds(data)) ==> UniqueIds(data)
      ensures notifications == old(notifications) && hasUnread == old(hasUnread)
    {
      if confirmed && ok {
        if UniqueIds(data) {
          WithoutTicketRemovesExactly(data, ticketId);
        }
        data := WithoutTicket(data, ticketId);
      }
    }
  }

  /** The characters `String.prototype.trim` removes: ECMAScript WhiteSpace and LineTerminator. */
  predicate IsJsSpace(c: char) {
    || c == '\t' || c == '\n' || c == '\U{000B}' || c == '\U{000C}' || c == '\r' || c == ' '
    || c == '\U{00A0}' || c == '\U{1680}' || ('\U{2000}' <= c <= '\U{200A}')
    || c == '\U{2028}' || c == '\U{2029}' || c == '\U{202F}' || c == '\U{205F}'
    || c == '\U{3000}' || c == '\U{FEFF}'
  }

  /** `!s.trim()`: nothing but white space. */
  predicate IsBlank(s: string) {
    forall i :: 0 <= i < |s| ==> IsJsSpace(s[i])
  }
}
