/** The delta detector of the ticket sync: which tickets received new TEXTBOX text. */
module Delta {
  import opened Wrappers
  import opened Tickets
  import opened Seqs

  /** A ticket whose staged TEXTBOX text changed to a non-empty value. */
  datatype ChangeEvent = TextboxChanged(ticketId: TicketId, text: string)

  /** `t` of the fetched snapshot emits an event against `prev`: the first previous row with
      the same id exists, `t`'s TEXTBOX is a non-empty string, and it differs from the old one. */
  predicate Emits(prev: seq<Ticket>, t: Ticket) {
    match FindById(prev, t.id)
    case None => false
    case Some(before) => t.textbox.Some? && t.textbox.value != "" && t.textbox != before.textbox
  }

  /** The event (zero or one) that `t` contributes. */
  function EventFor(prev: seq<Ticket>, t: Ticket): seq<ChangeEvent> {
    if Emits(prev, t) then [TextboxChanged(t.id, t.textbox.value)] else []
  }

  /** The events of a whole fetched snapshot, in the snapshot's order. */
  function TextboxEvents(prev: seq<Ticket>, next: seq<Ticket>): (events: seq<ChangeEvent>)
    ensures |events| <= |next|
  {
    FlatMapShort(next, EventsAgainst(prev));
    FlatMap(next, EventsAgainst(prev))
  }

  function EventsAgainst(prev: seq<Ticket>): Ticket -> seq<ChangeEvent> {
    (t: Ticket) => EventFor(prev, t)
  }

  /** The `forEach` over the fetched tickets that pushes one update per changed TEXTBOX. */
  method DetectTextboxUpdates(prev: seq<Ticket>, next: seq<Ticket>) returns (events: seq<ChangeEvent>)
    ensures events == TextboxEvents(prev, next)
  {
    events := [];
    for i := 0 to |next|
      invariant events == TextboxEvents(prev, next[..i])
    {
      var newTicket := next[i];
      var oldTicket := FindById(prev, newTicket.id);
      if oldTicket.Some? && newTicket.textbox.Some? && newTicket.textbox.value != ""
         && newTicket.textbox != oldTicket.value.textbox {
        events := events + [TextboxChanged(newTicket.id, newTicket.textbox.value)];
      }
      assert next[..i + 1][..i] == next[..i];
    }
    assert next[..|next|] == next;
  }

  /** Events of consecutive parts of a snapshot are emitted part after part. */
  lemma TextboxEventsAppend(prev: seq<Ticket>, a: seq<Ticket>, b: seq<Ticket>)
    ensures TextboxEvents(prev, a + b) == TextboxEvents(prev, a) + TextboxEvents(prev, b)
  {
    FlatMapAppend(a, b, EventsAgainst(prev));
  }

  /** The last fetched ticket contributes its event after those of the tickets before it. */
  lemma TextboxEventsLast(prev: seq<Ticket>, next: seq<Ticket>)
    requires next != []
    ensures TextboxEvents(prev, next)
      == TextboxEvents(prev, next[..|next| - 1]) + EventFor(prev, next[|next| - 1])
  {
  }

  /** An event is emitted exactly for each fetched ticket that satisfies `Emits`, carrying
      that ticket's id and new text. */
  lemma {:induction false} TextboxEventsExactly(prev: seq<Ticket>, next: seq<Ticket>)
    ensures forall i :: 0 <= i < |next| && Emits(prev, next[i]) ==>
      TextboxChanged(next[i].id, next[i].textbox.value) in TextboxEvents(prev, next)
    ensures forall e :: e in TextboxEvents(prev, next) ==>
      exists i :: 0 <= i < |next| && Emits(prev, next[i]) && e == TextboxChanged(next[i].id, next[i].textbox.value)
    decreases |next|
  {
    if next != [] {
      var init := next[..|next| - 1];
      TextboxEventsExactly(prev, init);
      TextboxEventsLast(prev, next);
      assert forall i :: 0 <= i < |init| ==> init[i] == next[i];
    }
  }

  /** A ticket that is new (no previous row with its id) or whose TEXTBOX is absent or
      empty never emits. */
  lemma QuietTickets(prev: seq<Ticket>, t: Ticket)
    requires FindById(prev, t.id).None? || t.textbox == None || t.textbox == Some("")
    ensures EventFor(prev, t) == []
  {
  }

  /** Diffing a snapshot with unique ids against itself emits nothing. */
  lemma {:induction false} NoEventsAgainstItself(s: seq<Ticket>)
    requires UniqueIds(s)
    ensures TextboxEvents(s, s) == []
  {
    forall i | 0 <= i < |s| ensures !Emits(s, s[i]) {
      FindByIdUnique(s, i);
    }
    NoEventsWhenNoneEmit(s, s);
  }

  lemma {:induction false} NoEventsWhenNoneEmit(prev: seq<Ticket>, next: seq<Ticket>)
    requires forall i :: 0 <= i < |next| ==> !Emits(prev, next[i])
    ensures TextboxEvents(prev, next) == []
    decreases |next|
  {
    if next != [] {
      NoEventsWhenNoneEmit(prev, next[..|next| - 1]);
    }
  }

  /** Uniqueness is needed: with a repeated id the second row is compared with the first. */
  lemma RepeatedIdsCanEmitAgainstItself()
    ensures var a := Ticket("7", None, None, None, None, None, None, Some("hi"), None);
      var b := a.(textbox := Some("bye"));
      TextboxEvents([a, b], [a, b]) == [TextboxChanged("7", "bye")]
  {
    var a := Ticket("7", None, None, None, None, None, None, Some("hi"), None);
    var b := a.(textbox := Some("bye"));
    TextboxEventsLast([a, b], [a, b]);
    TextboxEventsLast([a, b], [a]);
    assert [a, b][..1] == [a];
  }

  /** Staging "urgent" on ticket 1 emits exactly one event; clearing a TEXTBOX emits none. */
  lemma TextboxScenario(created: int)
    ensures var a := Ticket("1", None, None, None, None, None, Some("Pending"), Some(""), Some(created));
      var b := a.(textbox := Some("urgent"));
      && TextboxEvents([a], [b]) == [TextboxChanged("1", "urgent")]
      && TextboxEvents([b], [a]) == []
  {
    var a := Ticket("1", None, None, None, None, None, Some("Pending"), Some(""), Some(created));
    var b := a.(textbox := Some("urgent"));
    TextboxEventsLast([a], [b]);
    TextboxEventsLast([b], [a]);
  }
}
