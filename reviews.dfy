/** The records the equipment-review screen works on: a review as the listing endpoint
    returns it, the five filter criteria typed into the screen, and the two responses the
    screen reacts to. Timestamps are already-parsed integers. An absent text is `None`
    and an empty one `Some("")`; an absent or empty date is `None`. */
module Reviews {

  datatype Option<+T> = None | Some(value: T)

  type ReviewId = int

  /** One row of the review list. `equipmentId` is the text the source obtains with
      `toString()`; `status` is shown as is. */
  datatype Review = Review(
    reviewId: ReviewId,
    equipmentId: string,
    barcode: string,
    createdBy: Option<string>,
    reviewedBy: Option<string>,
    createdAt: int,
    reviewedAt: Option<int>,
    status: string)

  /** The five search fields of the screen; an empty date field is `None`. */
  datatype Criteria = Criteria(
    barcode: string,
    equipmentId: string,
    username: string,
    startDate: Option<int>,
    endDate: Option<int>)

  /** All five fields left empty, as when the screen is first shown. */
  const NoCriteria := Criteria("", "", "", None, None)

  /** The listing endpoint's body: a success flag and the reviews. */
  datatype ListResponse = ListResponse(success: bool, data: seq<Review>)

  /** What awaiting the assign mutation yields: a body with a success flag and a message,
      or an error (a rejected request, or a result without a body whose `success` cannot
      be read). */
  datatype AssignResponse = AssignData(success: bool, message: string) | AssignError

  /** JavaScript truthiness of an optional text: present and not the empty string. */
  predicate Truthy(s: Option<string>) {
    s.Some? && s.value != ""
  }
}
