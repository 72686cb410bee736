/** The mutable state of the equipment-review screen: the list it displays
    (`filteredData`). The effect that refilters it and the assign handler that rewrites it
    are its two methods. */
module EquipmentReviewScreen {
  import opened Reviews
  import opened ReviewFilter
  import opened ReviewAssign

  /** The assign request succeeded: it produced a body whose `success` is true. */
  predicate AssignSucceeded(response: AssignResponse) {
    response.AssignData? && response.success
  }

  class ReviewScreen {
    /** The rows shown in the table. */
    var filteredData: seq<Review>

    /** The screen starts with an empty list. */
    constructor ()
      ensures filteredData == []
    {
      filteredData := [];
    }

    /** The effect run when the response or a criterion changes: with a response whose
        `success` is true the list becomes the filtered response; otherwise (still loading,
        failed) the list keeps its previous value. */
    method Refilter(response: Option<ListResponse>, c: Criteria)
      modifies this
      ensures response.Some? && response.value.success ==> filteredData == Filter(response.value.data, c)
      ensures !(response.Some? && response.value.success) ==> filteredData == old(filteredData)
    {
      if response.Some? && response.value.success {
        filteredData := Filter(response.value.data, c);
      }
    }

    /** Rendering the table creates each row's click handler, which closes over the list
        shown at that render. */
    method RenderedRows() returns (snapshot: seq<Review>)
      ensures snapshot == filteredData
    {
      snapshot := filteredData;
    }

    /** The assign handler once the request has been answered. On success it writes the
        rewrite of `snapshot`, the list its closure captured when the button was rendered,
        whatever the list has become meanwhile: the rows with the target id get
        `actingUser` as reviewer, and length and order are those of the snapshot. On a
        failure body or an error the list is left as it is now. */
    method Assign(snapshot: seq<Review>, reviewId: ReviewId, actingUser: string, response: AssignResponse)
      modifies this
      ensures AssignSucceeded(response) ==> filteredData == AssignRows(snapshot, reviewId, actingUser)
      ensures AssignSucceeded(response) ==>
        |filteredData| == |snapshot| &&
        forall i :: 0 <= i < |snapshot| ==> SameExceptReviewer(filteredData[i], snapshot[i])
      ensures !AssignSucceeded(response) ==> filteredData == old(filteredData)
    {
      if AssignSucceeded(response) {
        filteredData := AssignRows(snapshot, reviewId, actingUser);
      }
    }
  }

  /** The usual sequence: the button is clicked on the current list and the answer arrives
      before anything else changes it. Only reviewers change, row for row. */
  method ClickAssign(screen: ReviewScreen, reviewId: ReviewId, actingUser: string, answer: AssignResponse)
    modifies screen
    ensures |screen.filteredData| == |old(screen.filteredData)|
    ensures forall i :: 0 <= i < |screen.filteredData| ==>
      SameExceptReviewer(screen.filteredData[i], old(screen.filteredData)[i])
    ensures AssignSucceeded(answer) ==>
      screen.filteredData == AssignRows(old(screen.filteredData), reviewId, actingUser)
  {
    var snapshot := screen.RenderedRows();
    screen.Assign(snapshot, reviewId, actingUser, answer);
  }

  /** A search field edited while the request is in flight: the effect refilters, then the
      late successful answer writes the rewrite of the list captured at the click, so the
      refiltered list is lost until the next refilter. */
  method RefilterDuringAssign(screen: ReviewScreen, reviewId: ReviewId, actingUser: string,
                              answer: AssignResponse, response: ListResponse, c: Criteria)
    requires AssignSucceeded(answer) && response.success
    modifies screen
    ensures screen.filteredData == AssignRows(old(screen.filteredData), reviewId, actingUser)
  {
    var snapshot := screen.RenderedRows();
    screen.Refilter(Some(response), c);
    screen.Assign(snapshot, reviewId, actingUser, answer);
  }

  /** A successful assignment followed by the next refilter: the refilter starts again from
      the response, so the local rewrite does not survive it. */
  method AssignThenRefilter(screen: ReviewScreen, reviewId: ReviewId, actingUser: string,
                            answer: AssignResponse, response: ListResponse, c: Criteria)
    requires response.success
    modifies screen
    ensures screen.filteredData == Filter(response.data, c)
  {
    var snapshot := screen.RenderedRows();
    screen.Assign(snapshot, reviewId, actingUser, answer);
    screen.Refilter(Some(response), c);
  }
}
