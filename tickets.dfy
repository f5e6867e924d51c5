/** The ticket snapshot held by the dashboard, and the local patches applied to it. */
module Tickets {
  import opened Wrappers
  import opened Seqs

  type TicketId = string

  /** One row of the snapshot. A column the backend leaves out (or sends as null) is `None`. */
  datatype Ticket = Ticket(
    id: TicketId,                // "Ticket ID"
    email: Option<string>,
    name: Option<string>,
    phone: Option<string>,
    department: Option<string>,
    ticketType: Option<string>,  // "Type"
    status: Option<string>,
    textbox: Option<string>,     // "TEXTBOX": staged outbound message
    createdAt: Option<int>)      // creation time in ms since the epoch; None when absent or unparsable

  /** The five statuses the dashboard knows, in display order. */
  const Statuses: seq<string> := ["Pending", "Scheduled", "In Progress", "Waiting", "Completed"]

  /** JavaScript's `v || fallback` on an optional string: the empty string is falsy too. */
  function OrDefault(v: Option<string>, fallback: string): string {
    if v.Some? && v.value != "" then v.value else fallback
  }

  /** Grouping key of the type histogram and of the type-filter options. */
  function TypeKey(t: Ticket): string {
    OrDefault(t.ticketType, "None")
  }

  /** Grouping key of the department ranking ("not specified" in Thai). */
  function DeptKey(t: Ticket): string {
    OrDefault(t.department, "ไม่ระบุ")
  }

  /** `data.map(t => t["Type"] || "None")`. */
  function TypeKeys(data: seq<Ticket>): seq<string> {
    seq(|data|, i requires 0 <= i < |data| => TypeKey(data[i]))
  }

  /** The department key of every row, in snapshot order. */
  function DeptKeys(data: seq<Ticket>): seq<string> {
    seq(|data|, i requires 0 <= i < |data| => DeptKey(data[i]))
  }

  /** No two rows of the snapshot share a ticket id. */
  ghost predicate UniqueIds(s: seq<Ticket>) {
    forall i, j :: 0 <= i < j < |s| ==> s[i].id != s[j].id
  }

  /** `Array.prototype.find` by ticket id: the first row whose id is `id`. */
  function FindById(s: seq<Ticket>, id: TicketId): (r: Option<Ticket>)
    ensures r.None? <==> forall i :: 0 <= i < |s| ==> s[i].id != id
    ensures r.Some? ==> r.value in s && r.value.id == id
  {
    if s == [] then None
    else if s[0].id == id then Some(s[0])
    else FindById(s[1..], id)
  }

  /** `FindById` returns the row at the first position carrying the id. */
  lemma {:induction false} FindByIdFirst(s: seq<Ticket>, id: TicketId, i: nat)
    requires i < |s| && s[i].id == id
    requires forall j :: 0 <= j < i ==> s[j].id != id
    ensures FindById(s, id) == Some(s[i])
  {
    if i > 0 {
      FindByIdFirst(s[1..], id, i - 1);
    }
  }

  /** In a snapshot with unique ids, every row is found by its own id. */
  lemma FindByIdUnique(s: seq<Ticket>, i: nat)
    requires UniqueIds(s) && i < |s|
    ensures FindById(s, s[i].id) == Some(s[i])
  {
    FindByIdFirst(s, s[i].id, i);
  }

  /** The local patch after a successful status update: rows with `id` get `status`. */
  function WithStatus(s: seq<Ticket>, id: TicketId, status: string): seq<Ticket> {
    seq(|s|, i requires 0 <= i < |s| => if s[i].id == id then s[i].(status := Some(status)) else s[i])
  }

  /** The status patch touches only the status column, and only of the rows carrying `id`. */
  lemma WithStatusChangesOnlyStatus(s: seq<Ticket>, id: TicketId, status: string)
    ensures |WithStatus(s, id, status)| == |s|
    ensures forall i :: 0 <= i < |s| ==>
      var r := WithStatus(s, id, status)[i];
      && r.(status := s[i].status) == s[i]
      && r.status == (if s[i].id == id then Some(status) else s[i].status)
  {
  }

  /** The status patch keeps the ids, so it keeps them unique and keeps lookups by id working. */
  lemma WithStatusKeepsIds(s: seq<Ticket>, id: TicketId, status: string)
    requires UniqueIds(s)
    ensures UniqueIds(WithStatus(s, id, status))
    ensures forall i :: 0 <= i < |s| && s[i].id == id ==>
      FindById(WithStatus(s, id, status), id) == Some(s[i].(status := Some(status)))
  {
    var r := WithStatus(s, id, status);
    assert forall i :: 0 <= i < |s| ==> r[i].id == s[i].id;
    forall i | 0 <= i < |s| && s[i].id == id
      ensures FindById(r, id) == Some(s[i].(status := Some(status)))
    {
      FindByIdUnique(r, i);
    }
  }

  /** The filter predicate of the local delete: keep rows whose id differs. */
  function KeepOtherThan(id: TicketId): Ticket -> bool {
    (t: Ticket) => t.id != id
  }

  /** The local patch after a successful ticket delete: drop the rows carrying `id`. */
  function WithoutTicket(s: seq<Ticket>, id: TicketId): seq<Ticket> {
    Select(s, KeepOtherThan(id))
  }

  /** A filtered snapshot with unique ids still has unique ids. */
  lemma SelectKeepsUniqueIds(s: seq<Ticket>, p: Ticket -> bool)
    requires UniqueIds(s)
    ensures UniqueIds(Select(s, p))
  {
    SelectEmbeds(s, p);
  }

  /** The delete removes exactly the rows carrying `id`, keeps the others in order,
      and afterwards nothing carries `id`. */
  lemma WithoutTicketRemovesExactly(s: seq<Ticket>, id: TicketId)
    ensures forall t :: t in WithoutTicket(s, id) <==> t in s && t.id != id
    ensures forall t :: multiset(WithoutTicket(s, id))[t] == if t.id != id then multiset(s)[t] else 0
    ensures IsSubsequence(WithoutTicket(s, id), s)
    ensures FindById(WithoutTicket(s, id), id) == None
    ensures UniqueIds(s) ==> UniqueIds(WithoutTicket(s, id))
  {
    forall t ensures t in WithoutTicket(s, id) <==> t in s && t.id != id {
      SelectMembers(s, KeepOtherThan(id), t);
    }
    forall t ensures multiset(WithoutTicket(s, id))[t] == if t.id != id then multiset(s)[t] else 0 {
      SelectCount(s, KeepOtherThan(id), t);
    }
    SelectIsSubsequence(s, KeepOtherThan(id));
    if UniqueIds(s) {
      SelectKeepsUniqueIds(s, KeepOtherThan(id));
    }
  }
}
