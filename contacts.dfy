/** The chat panel's recipient list: one "Information" ticket per email address. */
module Contacts {
  import opened Wrappers
  import opened Seqs
  import opened Tickets

  /** `row["Type"] === "Information"`. */
  function IsInformation(t: Ticket): bool {
    t.ticketType == Some("Information")
  }

  /** `unique.some(item => item["อีเมล"] === row["อีเมล"])`; two absent emails are equal. */
  predicate HasEmail(unique: seq<Ticket>, email: Option<string>) {
    exists i :: 0 <= i < |unique| && unique[i].email == email
  }

  /** The reduce's result: each row is kept unless an earlier kept row has its email. */
  function FirstPerEmail(rows: seq<Ticket>): seq<Ticket>
    decreases |rows|
  {
    if rows == [] then []
    else
      var kept := FirstPerEmail(rows[..|rows| - 1]);
      if HasEmail(kept, rows[|rows| - 1].email) then kept else kept + [rows[|rows| - 1]]
  }

  /** The filter to "Information" rows followed by the reduce that pushes each row whose
      email is not yet in `unique`. */
  method InformationContacts(data: seq<Ticket>) returns (unique: seq<Ticket>)
    ensures unique == FirstPerEmail(Select(data, IsInformation))
  {
    var rows := Select(data, IsInformation);
    unique := [];
    for i := 0 to |rows|
      invariant unique == FirstPerEmail(rows[..i])
    {
      var row := rows[i];
      var seen := false;
      for j := 0 to |unique|
        invariant seen <==> exists k :: 0 <= k < j && unique[k].email == row.email
      {
        if unique[j].email == row.email {
          seen := true;
        }
      }
      if !seen {
        unique := unique + [row];
      }
      assert rows[..i + 1][..i] == rows[..i];
    }
    assert rows[..|rows|] == rows;
  }

  /** The kept rows have pairwise different emails. */
  lemma {:induction false} FirstPerEmailDistinct(rows: seq<Ticket>)
    ensures forall i, j :: 0 <= i < j < |FirstPerEmail(rows)| ==>
      FirstPerEmail(rows)[i].email != FirstPerEmail(rows)[j].email
    decreases |rows|
  {
    if rows != [] {
      var init := rows[..|rows| - 1];
      var last := rows[|rows| - 1];
      FirstPerEmailDistinct(init);
      var kept := FirstPerEmail(init);
      assert forall i, j :: 0 <= i < j < |kept| ==> kept[i].email != kept[j].email;
      if !HasEmail(kept, last.email) {
        var u := kept + [last];
        assert FirstPerEmail(rows) == u;
        forall i, j | 0 <= i < j < |u| ensures u[i].email != u[j].email {
          assert u[i] == kept[i];
          if j < |kept| {
            assert u[j] == kept[j];
          } else {
            assert u[j] == last;
            assert !(0 <= i < |kept| && kept[i].email == last.email);
          }
        }
      } else {
        assert FirstPerEmail(rows) == kept;
      }
    }
  }

  /** Every row's email is represented among the kept rows. */
  lemma {:induction false} FirstPerEmailCovers(rows: seq<Ticket>)
    ensures forall i :: 0 <= i < |rows| ==> HasEmail(FirstPerEmail(rows), rows[i].email)
    decreases |rows|
  {
    if rows != [] {
      var init := rows[..|rows| - 1];
      var last := rows[|rows| - 1];
      var kept := FirstPerEmail(init);
      FirstPerEmailCovers(init);
      var u := FirstPerEmail(rows);
      forall i | 0 <= i < |rows| ensures HasEmail(u, rows[i].email) {
        if i < |init| {
          assert init[i] == rows[i];
          var k :| 0 <= k < |kept| && kept[k].email == init[i].email;
          assert u[k] == kept[k];
        } else if !HasEmail(kept, last.email) {
          assert u[|kept|] == last;
        }
      }
    }
  }

  /** The kept rows appear in the input, in the same order. */
  lemma {:induction false} FirstPerEmailSubsequence(rows: seq<Ticket>)
    ensures IsSubsequence(FirstPerEmail(rows), rows)
    decreases |rows|
  {
    if rows == [] {
      assert Embeds<Ticket>([], [], []);
    } else {
      var init := rows[..|rows| - 1];
      var last := rows[|rows| - 1];
      FirstPerEmailSubsequence(init);
      assert rows == init + [last];
      if HasEmail(FirstPerEmail(init), last.email) {
        SubsequenceSkip(FirstPerEmail(init), init, last);
      } else {
        SubsequenceTake(FirstPerEmail(init), init, last);
      }
    }
  }

  /** A row whose email no earlier row has is kept. */
  lemma {:induction false} FirstPerEmailKeepsFirst(rows: seq<Ticket>)
    ensures forall i :: (0 <= i < |rows| && (forall j :: 0 <= j < i ==> rows[j].email != rows[i].email))
                        ==> rows[i] in FirstPerEmail(rows)
    decreases |rows|
  {
    if rows != [] {
      var init := rows[..|rows| - 1];
      var last := rows[|rows| - 1];
      var kept := FirstPerEmail(init);
      FirstPerEmailKeepsFirst(init);
      var u := FirstPerEmail(rows);
      forall i | 0 <= i < |rows| && (forall j :: 0 <= j < i ==> rows[j].email != rows[i].email)
        ensures rows[i] in u
      {
        if i < |init| {
          assert init[i] == rows[i];
          assert forall j :: 0 <= j < i ==> init[j] == rows[j];
          assert rows[i] in kept;
        } else {
          assert !HasEmail(kept, last.email) by {
            KeptRowsComeFromInput(init);
            assert forall j :: 0 <= j < |init| ==> init[j] == rows[j];
          }
          assert u[|kept|] == rows[i];
        }
      }
    }
  }

  /** Every email among the kept rows is the email of some input row. */
  lemma {:induction false} KeptRowsComeFromInput(rows: seq<Ticket>)
    ensures forall e :: HasEmail(FirstPerEmail(rows), e) ==> exists j :: 0 <= j < |rows| && rows[j].email == e
    decreases |rows|
  {
    if rows != [] {
      var init := rows[..|rows| - 1];
      KeptRowsComeFromInput(init);
      var kept := FirstPerEmail(init);
      forall e | HasEmail(FirstPerEmail(rows), e) ensures exists j :: 0 <= j < |rows| && rows[j].email == e {
        var u := FirstPerEmail(rows);
        var k :| 0 <= k < |u| && u[k].email == e;
        if k < |kept| {
          assert kept[k] == u[k];
          assert HasEmail(kept, e);
          var j :| 0 <= j < |init| && init[j].email == e;
          assert rows[j] == init[j];
        } else {
          assert rows[|rows| - 1].email == e;
        }
      }
    }
  }
}
