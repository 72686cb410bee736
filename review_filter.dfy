/** The review filter of the equipment-review screen: five per-review predicates, each
    with its exact truthiness semantics, combined by AND and applied to the fetched list
    as a stable filter. */
module ReviewFilter {
  import opened Text
  import opened Reviews
  import opened StableFilter

  /** `review.barcode` lower-cased contains the criterion lower-cased. */
  function BarcodeMatches(r: Review, barcode: string): (m: bool)
    ensures m <==> Contains(Lower(r.barcode), Lower(barcode))
  {
    Includes(Lower(r.barcode), Lower(barcode))
  }

  /** The equipment identifier, as text and lower-cased, contains the criterion lower-cased. */
  function EquipmentIdMatches(r: Review, equipmentId: string): (m: bool)
    ensures m <==> Contains(Lower(r.equipmentId), Lower(equipmentId))
  {
    Includes(Lower(r.equipmentId), Lower(equipmentId))
  }

  /** An OR over the author and the reviewer. The author side uses optional chaining, so a
      present but empty author is still searched; the reviewer side is guarded by
      truthiness, so an absent or empty reviewer never matches. */
  function UsernameMatches(r: Review, username: string): (m: bool)
    ensures m <==>
      (r.createdBy.Some? && Contains(Lower(r.createdBy.value), Lower(username))) ||
      (r.reviewedBy.Some? && r.reviewedBy.value != "" && Contains(Lower(r.reviewedBy.value), Lower(username)))
  {
    (r.createdBy.Some? && Includes(Lower(r.createdBy.value), Lower(username))) ||
    (Truthy(r.reviewedBy) && Includes(Lower(r.reviewedBy.value), Lower(username)))
  }

  /** The later of a review's two timestamps; the creation time when it has no review time. */
  function Latest(r: Review): (t: int)
    ensures t >= r.createdAt && (r.reviewedAt.Some? ==> t >= r.reviewedAt.value)
    ensures t == r.createdAt || (r.reviewedAt.Some? && t == r.reviewedAt.value)
  {
    if r.reviewedAt.Some? && r.reviewedAt.value > r.createdAt then r.reviewedAt.value else r.createdAt
  }

  /** The earlier of a review's two timestamps; the creation time when it has no review time. */
  function Earliest(r: Review): (t: int)
    ensures t <= r.createdAt && (r.reviewedAt.Some? ==> t <= r.reviewedAt.value)
    ensures t == r.createdAt || (r.reviewedAt.Some? && t == r.reviewedAt.value)
  {
    if r.reviewedAt.Some? && r.reviewedAt.value < r.createdAt then r.reviewedAt.value else r.createdAt
  }

  /** An empty start date is always satisfied; otherwise either timestamp may reach it, so
      the test is on the later of the two. */
  function StartDateMatches(r: Review, startDate: Option<int>): (m: bool)
    ensures startDate.None? ==> m
    ensures startDate.Some? ==> (m <==> Latest(r) >= startDate.value)
  {
    match startDate
    case None => true
    case Some(d) => r.createdAt >= d || (r.reviewedAt.Some? && r.reviewedAt.value >= d)
  }

  /** An empty end date is always satisfied; otherwise either timestamp may be within it, so
      the test is on the earlier of the two. */
  function EndDateMatches(r: Review, endDate: Option<int>): (m: bool)
    ensures endDate.None? ==> m
    ensures endDate.Some? ==> (m <==> Earliest(r) <= endDate.value)
  {
    match endDate
    case None => true
    case Some(d) => r.createdAt <= d || (r.reviewedAt.Some? && r.reviewedAt.value <= d)
  }

  /** With both date fields filled, a review passes iff its later timestamp is not before the
      start and its earlier timestamp is not after the end. */
  lemma DateRangeMatches(r: Review, start: int, end: int)
    ensures StartDateMatches(r, Some(start)) && EndDateMatches(r, Some(end)) <==>
      Latest(r) >= start && Earliest(r) <= end
  {
  }

  /** The two bounds may be met by different timestamps: a review created before the range
      and reviewed after it passes, though neither of its timestamps lies in the range. */
  lemma DateRangeAcceptsGap()
    ensures
      var r := Review(1, "7", "B1", Some("ann"), Some("bob"), 0, Some(100), "Approved");
      StartDateMatches(r, Some(10)) && EndDateMatches(r, Some(20)) &&
      !(10 <= r.createdAt <= 20) && !(10 <= r.reviewedAt.value <= 20)
  {
  }

  /** The filter callback: all five predicates at once. */
  predicate Matches(r: Review, c: Criteria) {
    BarcodeMatches(r, c.barcode) && EquipmentIdMatches(r, c.equipmentId) &&
    UsernameMatches(r, c.username) && StartDateMatches(r, c.startDate) &&
    EndDateMatches(r, c.endDate)
  }

  /** The callback handed to `filter` for the given search fields. */
  function Callback(c: Criteria): Review -> bool {
    r => Matches(r, c)
  }

  /** `data.data.filter(...)`: the matching reviews, in their original order. */
  function Filter(reviews: seq<Review>, c: Criteria): (r: seq<Review>)
    ensures |r| <= |reviews|
    ensures forall k :: 0 <= k < |r| ==> Matches(r[k], c)
  {
    FilterBy(reviews, Callback(c))
  }

  /** The filtered list is a subsequence of the input in the original order, and the
      positions it keeps are exactly those of the matching reviews. */
  lemma FilterEmbedding(reviews: seq<Review>, c: Criteria) returns (idx: seq<int>)
    ensures Embeds(idx, Filter(reviews, c), reviews)
    ensures forall i :: 0 <= i < |reviews| ==> (i in idx <==> Matches(reviews[i], c))
  {
    idx := FilterByEmbedding(reviews, Callback(c));
  }

  /** A review occurs in the filtered list exactly as often as in the input when it
      matches, and not at all otherwise. */
  lemma FilterCount(reviews: seq<Review>, c: Criteria, x: Review)
    ensures multiset(Filter(reviews, c))[x] == if Matches(x, c) then multiset(reviews)[x] else 0
  {
    FilterByCount(reviews, Callback(c), x);
  }

  /** A review appears in the result iff it is in the input and all five predicates hold. */
  lemma FilterMembership(reviews: seq<Review>, c: Criteria, x: Review)
    ensures x in Filter(reviews, c) <==> x in reviews && Matches(x, c)
  {
    FilterCount(reviews, c, x);
    assert x in Filter(reviews, c) <==> x in multiset(Filter(reviews, c));
    assert x in reviews <==> x in multiset(reviews);
  }

  /** Filtering a concatenation filters each part. */
  lemma FilterAppend(a: seq<Review>, b: seq<Review>, c: Criteria)
    ensures Filter(a + b, c) == Filter(a, c) + Filter(b, c)
  {
    FilterByAppend(a, b, Callback(c));
  }

  /** The filter leaves a list unchanged iff every review in it matches. */
  lemma FilterAllMatch(reviews: seq<Review>, c: Criteria)
    ensures Filter(reviews, c) == reviews <==> forall i :: 0 <= i < |reviews| ==> Matches(reviews[i], c)
  {
    FilterByAllKept(reviews, Callback(c));
  }

  /** Filtering twice with the same criteria is filtering once. */
  lemma FilterIdempotent(reviews: seq<Review>, c: Criteria)
    ensures Filter(Filter(reviews, c), c) == Filter(reviews, c)
  {
    FilterAllMatch(Filter(reviews, c), c);
  }

  /** A review can pass the username predicate for an empty username only through a
      present author or a non-empty reviewer. */
  predicate HasNamedUser(r: Review) {
    r.createdBy.Some? || Truthy(r.reviewedBy)
  }

  lemma EmptyCriteriaMatch(r: Review)
    ensures Matches(r, NoCriteria) <==> HasNamedUser(r)
  {
    EmptyContained(Lower(r.barcode));
    EmptyContained(Lower(r.equipmentId));
    if r.createdBy.Some? {
      EmptyContained(Lower(r.createdBy.value));
    }
    if r.reviewedBy.Some? {
      EmptyContained(Lower(r.reviewedBy.value));
    }
  }

  /** The identity law as the code has it: with every search field empty the list comes
      back unchanged iff every review has an author or a non-empty reviewer. */
  lemma FilterIdentity(reviews: seq<Review>)
    ensures Filter(reviews, NoCriteria) == reviews <==>
      forall i :: 0 <= i < |reviews| ==> HasNamedUser(reviews[i])
  {
    forall i | 0 <= i < |reviews| ensures Matches(reviews[i], NoCriteria) <==> HasNamedUser(reviews[i]) {
      EmptyCriteriaMatch(reviews[i]);
    }
    FilterAllMatch(reviews, NoCriteria);
  }

  /** A review with neither author nor reviewer is dropped whatever username is typed,
      even the empty one. */
  lemma NoUserNeverMatches(r: Review, c: Criteria)
    requires r.createdBy.None? && r.reviewedBy.None?
    ensures !Matches(r, c)
  {
  }

  /** With no reviewer the username predicate depends on the author alone. */
  lemma AbsentReviewerUsesAuthor(r: Review, username: string)
    requires !Truthy(r.reviewedBy)
    ensures UsernameMatches(r, username) <==>
      r.createdBy.Some? && Contains(Lower(r.createdBy.value), Lower(username))
  {
  }

  /** Two criteria that agree on every review of the list give the same result. */
  lemma FilterEquivalent(reviews: seq<Review>, c1: Criteria, c2: Criteria)
    requires forall i :: 0 <= i < |reviews| ==> (Matches(reviews[i], c1) <==> Matches(reviews[i], c2))
    ensures Filter(reviews, c1) == Filter(reviews, c2)
  {
    FilterByEquivalent(reviews, Callback(c1), Callback(c2));
  }

  /** The criteria with their three text fields lower-cased. */
  function LowerCriteria(c: Criteria): Criteria {
    c.(barcode := Lower(c.barcode), equipmentId := Lower(c.equipmentId), username := Lower(c.username))
  }

  /** Matching is case-insensitive in the criteria: lower-casing what was typed changes
      nothing in the result. */
  lemma FilterCaseInsensitive(reviews: seq<Review>, c: Criteria)
    ensures Filter(reviews, LowerCriteria(c)) == Filter(reviews, c)
  {
    LowerIdempotent(c.barcode);
    LowerIdempotent(c.equipmentId);
    LowerIdempotent(c.username);
    FilterEquivalent(reviews, LowerCriteria(c), c);
  }

  /** `narrow` is `wide` with more text typed after each text criterion and with date
      bounds that are at least as tight. */
  predicate Narrows(narrow: Criteria, wide: Criteria) {
    wide.barcode <= narrow.barcode &&
    wide.equipmentId <= narrow.equipmentId &&
    wide.username <= narrow.username &&
    (wide.startDate.Some? ==> narrow.startDate.Some? && narrow.startDate.value >= wide.startDate.value) &&
    (wide.endDate.Some? ==> narrow.endDate.Some? && narrow.endDate.value <= wide.endDate.value)
  }

  lemma NarrowingMatch(r: Review, narrow: Criteria, wide: Criteria)
    requires Narrows(narrow, wide) && Matches(r, narrow)
    ensures Matches(r, wide)
  {
    LowerPrefix(wide.barcode, narrow.barcode);
    ContainsPrefix(Lower(r.barcode), Lower(wide.barcode), Lower(narrow.barcode));
    LowerPrefix(wide.equipmentId, narrow.equipmentId);
    ContainsPrefix(Lower(r.equipmentId), Lower(wide.equipmentId), Lower(narrow.equipmentId));
    LowerPrefix(wide.username, narrow.username);
    if r.createdBy.Some? && Contains(Lower(r.createdBy.value), Lower(narrow.username)) {
      ContainsPrefix(Lower(r.createdBy.value), Lower(wide.username), Lower(narrow.username));
    } else {
      ContainsPrefix(Lower(r.reviewedBy.value), Lower(wide.username), Lower(narrow.username));
    }
  }

  /** Typing more into a search field, or tightening a date bound, only removes rows: the
      narrower result is the wider result filtered again. */
  lemma FilterNarrowing(reviews: seq<Review>, narrow: Criteria, wide: Criteria)
    requires Narrows(narrow, wide)
    ensures Filter(reviews, narrow) == Filter(Filter(reviews, wide), narrow)
  {
    forall i | 0 <= i < |reviews| && Matches(reviews[i], narrow)
      ensures Matches(reviews[i], wide)
    {
      NarrowingMatch(reviews[i], narrow, wide);
    }
    FilterByRefine(reviews, Callback(narrow), Callback(wide));
  }
}
