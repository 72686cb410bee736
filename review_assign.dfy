/** The local rewrite the screen applies after a successful "Assign to Me", and the
    reviewer cell of each row, which shows either the reviewer or the assign button. */
module ReviewAssign {
  import opened Text
  import opened Reviews
  import opened ReviewFilter
  import opened StableFilter

  /** `a` and `b` differ at most in their reviewer. */
  predicate SameExceptReviewer(a: Review, b: Review) {
    a.(reviewedBy := b.reviewedBy) == b
  }

  /** The callback of `filteredData.map`: the row with the target id gets the acting
      user as reviewer; any other row is returned as it is. */
  function AssignRow(row: Review, reviewId: ReviewId, name: string): Review {
    if row.reviewId == reviewId then row.(reviewedBy := Some(name)) else row
  }

  /** `filteredData.map(...)`: same length and order; every row with the target id gets
      `name` as its reviewer and nothing else of it changes; every other row is untouched. */
  function AssignRows(rows: seq<Review>, reviewId: ReviewId, name: string): (r: seq<Review>)
    ensures |r| == |rows|
    ensures forall i :: 0 <= i < |rows| ==> SameExceptReviewer(r[i], rows[i])
    ensures forall i :: 0 <= i < |rows| && rows[i].reviewId == reviewId ==> r[i].reviewedBy == Some(name)
    ensures forall i :: 0 <= i < |rows| && rows[i].reviewId != reviewId ==> r[i] == rows[i]
  {
    if rows == [] then [] else [AssignRow(rows[0], reviewId, name)] + AssignRows(rows[1..], reviewId, name)
  }

  /** Assigning the same review to the same user twice is assigning it once. */
  lemma AssignIdempotent(rows: seq<Review>, reviewId: ReviewId, name: string)
    ensures AssignRows(AssignRows(rows, reviewId, name), reviewId, name) == AssignRows(rows, reviewId, name)
  {
    var once := AssignRows(rows, reviewId, name);
    var twice := AssignRows(once, reviewId, name);
    forall i | 0 <= i < |rows| ensures twice[i] == once[i] {
      assert once[i].reviewId == rows[i].reviewId;
    }
  }

  /** The review ids, in order, are those of the list before the assignment. */
  lemma AssignKeepsIds(rows: seq<Review>, reviewId: ReviewId, name: string)
    ensures forall i :: 0 <= i < |rows| ==> AssignRows(rows, reviewId, name)[i].reviewId == rows[i].reviewId
  {
    var r := AssignRows(rows, reviewId, name);
    forall i | 0 <= i < |rows| ensures r[i].reviewId == rows[i].reviewId {
      assert SameExceptReviewer(r[i], rows[i]);
    }
  }

  /** What the reviewer cell of a row shows. */
  datatype ReviewerCell = Reviewer(text: string) | AssignButton(disabled: bool)

  /** The reviewer cell: a non-admin, or a row with a (truthy) reviewer, sees the reviewer
      name or `N/A`; an admin on a row without one sees the assign button, disabled while an
      assignment is in flight. */
  function ReviewerCellOf(r: Review, isAdmin: bool, isAssigning: bool): (cell: ReviewerCell)
    ensures cell.AssignButton? <==> isAdmin && (r.reviewedBy.None? || r.reviewedBy.value == "")
    ensures cell.AssignButton? ==> cell.disabled == isAssigning
    ensures cell.Reviewer? && r.reviewedBy.Some? && r.reviewedBy.value != "" ==> cell.text == r.reviewedBy.value
    ensures cell.Reviewer? && (r.reviewedBy.None? || r.reviewedBy.value == "") ==> cell.text == "N/A"
  {
    if Truthy(r.reviewedBy) || !isAdmin then
      Reviewer(if Truthy(r.reviewedBy) then r.reviewedBy.value else "N/A")
    else
      AssignButton(isAssigning)
  }

  /** After a successful assignment with a non-empty name, the target rows show that name
      instead of the button, to every viewer. */
  lemma AssignHidesButton(rows: seq<Review>, reviewId: ReviewId, name: string, i: int, isAdmin: bool, isAssigning: bool)
    requires name != "" && 0 <= i < |rows| && rows[i].reviewId == reviewId
    ensures ReviewerCellOf(AssignRows(rows, reviewId, name)[i], isAdmin, isAssigning) == Reviewer(name)
  {
  }

  /** Assigning a row whose reviewer was empty keeps it matching the criteria it matched:
      its username match came from the author, and nothing else the filter reads changes. */
  lemma AssignRowKeepsMatch(row: Review, reviewId: ReviewId, name: string, c: Criteria)
    requires Matches(row, c) && !Truthy(row.reviewedBy)
    ensures Matches(AssignRow(row, reviewId, name), c)
  {
    var after := AssignRow(row, reviewId, name);
    assert after.createdBy == row.createdBy && after.barcode == row.barcode;
    assert UsernameMatches(row, c.username) ==> UsernameMatches(after, c.username);
  }

  /** When the assign button was offered for the target (its rows had no reviewer), the
      locally updated list still satisfies the criteria that produced it: refiltering it
      would keep every row. */
  lemma AssignStaysFiltered(reviews: seq<Review>, c: Criteria, reviewId: ReviewId, name: string)
    requires forall i :: 0 <= i < |reviews| && reviews[i].reviewId == reviewId ==> !Truthy(reviews[i].reviewedBy)
    ensures Filter(AssignRows(Filter(reviews, c), reviewId, name), c) == AssignRows(Filter(reviews, c), reviewId, name)
  {
    var shown := Filter(reviews, c);
    var after := AssignRows(shown, reviewId, name);
    forall k | 0 <= k < |after| ensures Matches(after[k], c) {
      if shown[k].reviewId == reviewId {
        FilterMembership(reviews, c, shown[k]);
        var j :| 0 <= j < |reviews| && reviews[j] == shown[k];
        AssignRowKeepsMatch(shown[k], reviewId, name, c);
        assert after[k] == AssignRow(shown[k], reviewId, name);
      }
    }
    FilterAllMatch(after, c);
  }

  /** Without that condition the local update can leave a row that no longer matches: a
      row found through its reviewer's name loses that match when another name is written. */
  lemma AssignCanBreakUsernameMatch()
    ensures
      var row := Review(1, "7", "B1", None, Some("bob"), 0, None, "Pending");
      var c := Criteria("", "", "bob", None, None);
      Matches(row, c) && !Matches(AssignRow(row, 1, "al"), c)
  {
    var row := Review(1, "7", "B1", None, Some("bob"), 0, None, "Pending");
    var c := Criteria("", "", "bob", None, None);
    assert OccursAt(Lower("bob"), Lower("bob"), 0);
    EmptyContained(Lower("B1"));
    EmptyContained(Lower("7"));
    assert Matches(row, c);
    assert |Lower("al")| < |Lower("bob")|;
    assert !Contains(Lower("al"), Lower("bob"));
  }
}
