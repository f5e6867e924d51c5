/** The list view's search box and status/type drop-downs, and the type options offered. */
module TicketFilter {
  import opened Wrappers
  import opened Seqs
  import opened Tickets

  /** `s.includes(sub)`: `sub` occurs in `s` as a contiguous piece. */
  predicate Includes(s: string, sub: string)
    decreases |s|
  {
    sub <= s || (s != [] && Includes(s[1..], sub))
  }

  /** `field?.toLowerCase().includes(needle)`: an absent column matches nothing.
      `lower` stands for `String.prototype.toLowerCase`. */
  predicate FieldIncludes(field: Option<string>, needle: string, lower: string -> string) {
    field.Some? && Includes(lower(field.value), needle)
  }

  /** The search test: an empty term matches everything; otherwise the lower-cased term must
      occur in the lower-cased email, name, phone or department, or the raw term in the id. */
  predicate MatchesSearch(t: Ticket, term: string, lower: string -> string) {
    || term == ""
    || FieldIncludes(t.email, lower(term), lower)
    || FieldIncludes(t.name, lower(term), lower)
    || FieldIncludes(t.phone, lower(term), lower)
    || FieldIncludes(t.department, lower(term), lower)
    || Includes(t.id, term)
  }

  predicate MatchesStatus(t: Ticket, statusFilter: string) {
    statusFilter == "all" || t.status == Some(statusFilter)
  }

  /** The type test as the list view performs it: on the raw "Type" column. */
  predicate MatchesType(t: Ticket, typeFilter: string) {
    typeFilter == "all" || t.ticketType == Some(typeFilter)
  }

  function RowFilter(term: string, statusFilter: string, typeFilter: string, lower: string -> string): Ticket -> bool {
    (t: Ticket) => MatchesSearch(t, term, lower) && MatchesStatus(t, statusFilter) && MatchesType(t, typeFilter)
  }

  /** `filteredData`: the rows passing all three tests. */
  function FilteredData(data: seq<Ticket>, term: string, statusFilter: string, typeFilter: string,
                        lower: string -> string): seq<Ticket> {
    Select(data, RowFilter(term, statusFilter, typeFilter, lower))
  }

  /** The filtered rows are exactly the rows passing the tests, in snapshot order; with an
      empty search and both drop-downs on "all" the whole snapshot is shown. */
  lemma FilteredDataSpec(data: seq<Ticket>, term: string, statusFilter: string, typeFilter: string,
                         lower: string -> string)
    ensures var r := FilteredData(data, term, statusFilter, typeFilter, lower);
      && IsSubsequence(r, data)
      && (forall t :: t in r <==> (t in data && MatchesSearch(t, term, lower)
                                   && MatchesStatus(t, statusFilter) && MatchesType(t, typeFilter)))
      && (forall t :: multiset(r)[t] == if MatchesSearch(t, term, lower) && MatchesStatus(t, statusFilter)
                                           && MatchesType(t, typeFilter) then multiset(data)[t] else 0)
      && (term == "" && statusFilter == "all" && typeFilter == "all" ==> r == data)
  {
    var p := RowFilter(term, statusFilter, typeFilter, lower);
    SelectIsSubsequence(data, p);
    forall t ensures t in Select(data, p) <==> t in data && p(t) {
      SelectMembers(data, p, t);
    }
    forall t ensures multiset(Select(data, p))[t] == if p(t) then multiset(data)[t] else 0 {
      SelectCount(data, p, t);
    }
    if term == "" && statusFilter == "all" && typeFilter == "all" {
      SelectKeepsAll(data, p);
    }
  }

  /** `uniqueTypes`: the type drop-down's options, each key once, in first-seen order. */
  function UniqueTypes(data: seq<Ticket>): seq<string> {
    Distinct(TypeKeys(data))
  }

  /** The type test the drop-down's options call for: on the same `Type || "None"` key. */
  predicate MatchesTypeKey(t: Ticket, typeFilter: string) {
    typeFilter == "all" || TypeKey(t) == typeFilter
  }

  function RowFilterByTypeKey(term: string, statusFilter: string, typeFilter: string, lower: string -> string): Ticket -> bool {
    (t: Ticket) => MatchesSearch(t, term, lower) && MatchesStatus(t, statusFilter) && MatchesTypeKey(t, typeFilter)
  }

  /** The filter with the type test corrected to the option key. */
  function FilteredDataByTypeKey(data: seq<Ticket>, term: string, statusFilter: string, typeFilter: string,
                                 lower: string -> string): seq<Ticket> {
    Select(data, RowFilterByTypeKey(term, statusFilter, typeFilter, lower))
  }

  /** As written: a ticket without a "Type" makes the drop-down offer "None", and choosing
      "None" then shows no row at all. */
  lemma NoneTypeOptionMatchesNothing(lower: string -> string)
    ensures var t := Ticket("1", None, None, None, None, None, Some("Pending"), None, None);
      && UniqueTypes([t]) == ["None"]
      && FilteredData([t], "", "all", "None", lower) == []
  {
  }

  /** Corrected: choosing any offered type shows every row of that type, so no option
      leads to an empty list. */
  lemma TypeOptionsShowTheirRows(data: seq<Ticket>, k: string, lower: string -> string)
    requires k in UniqueTypes(data)
    ensures forall t :: t in data && TypeKey(t) == k ==> t in FilteredDataByTypeKey(data, "", "all", k, lower)
    ensures FilteredDataByTypeKey(data, "", "all", k, lower) != []
  {
    var p := RowFilterByTypeKey("", "all", k, lower);
    forall t | t in data && TypeKey(t) == k ensures t in Select(data, p) {
      SelectMembers(data, p, t);
    }
    DistinctSpec(TypeKeys(data));
    var i :| 0 <= i < |data| && TypeKeys(data)[i] == k;
    assert data[i] in Select(data, p);
  }
}
