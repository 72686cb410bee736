# Equipment review list — a Dafny model

This project models the one piece of client-side logic of the equipment-review
administration frontend: the review list screen (`EquipmentReviewScreen`). The screen
fetches the list of reviews, keeps a projection `filteredData` of it, and recomputes that
projection whenever the response or one of five search fields (barcode, equipment id,
username, start date, end date) changes. An administrator can click "Assign to Me" on a row
without a reviewer; after the server confirms, the screen writes the administrator's name
into that row's reviewer locally.

Modules:

- `StableFilter` (`stable_filter.dfy`): JavaScript's `Array.prototype.filter` over a list
  and a callback, with its list laws proved once for every callback.
- `Text` (`text.dfy`): ASCII lower-casing and substring search (`Includes`), proved
  equivalent to a declarative `Contains` (some position starts a copy of the needle).
- `Reviews` (`reviews.dfy`): the `Review` record (`review_id`, `equipment_id`, `barcode`,
  `created_by`, `reviewed_by`, `created_at`, `reviewed_at`, `status`, written in camel case),
  the five `Criteria`, and the two server responses.
- `ReviewFilter` (`review_filter.dfy`): the five predicates with their exact JavaScript
  truthiness, their conjunction `Matches`, the stable `Filter`, and its list laws.
- `ReviewAssign` (`review_assign.dfy`): the row rewrite after a successful assignment,
  the reviewer cell (reviewer name or assign button), and how the two interact with the filter.
- `EquipmentReviewScreen` (`review_screen.dfy`): the screen's state as a class with a
  `seq<Review>` field and the methods `Refilter` and `Assign`.

Behaviour of the code that is easy to misread:

- With every search field empty, a review with no author and no non-empty reviewer is
  still dropped: the username test is an OR of two guarded tests, and neither guard passes
  (`FilterIdentity`, `NoUserNeverMatches`).
- The reviewer side of the username test is guarded by truthiness, so an empty-string
  reviewer never matches, like an absent one. The author side uses optional chaining, so an
  empty-string author is still searched. The same truthiness shows the assign button on a
  row whose reviewer is the empty string (`ReviewerCellOf`).
- Each date bound is met if either timestamp meets it, and the two bounds may be met by
  different timestamps: a review created before the range and reviewed after it passes
  (`DateRangeMatches`, `DateRangeAcceptsGap`).
- The assign handler does not itself check that the row has no reviewer; only the button's
  visibility does. It writes the acting user's display name, not the id sent to the server.
- The assign handler rewrites the list it captured when its button was rendered, not the
  list current when the answer arrives: a refilter during the request is overwritten
  (`RefilterDuringAssign`).

## Model

| member | source | states |
|---|---|---|
| `Text.Includes` | src/screens/dashboard/equipmentReviewScreen.jsx:31-33 | `s.includes(sub)` holds iff some position of `s` starts a copy of `sub`; in particular the empty string is included everywhere |
| `Text.EmptyContained` | src/screens/dashboard/equipmentReviewScreen.jsx:31-32 | every string contains the empty string, so an empty text criterion is satisfied |
| `ReviewFilter.BarcodeMatches` | src/screens/dashboard/equipmentReviewScreen.jsx:31 | the barcode test holds iff the lower-cased barcode contains the lower-cased criterion |
| `ReviewFilter.EquipmentIdMatches` | src/screens/dashboard/equipmentReviewScreen.jsx:32 | the equipment-id test holds iff the lower-cased equipment id text contains the lower-cased criterion |
| `ReviewFilter.UsernameMatches` | src/screens/dashboard/equipmentReviewScreen.jsx:33 | the username test holds iff the author is present and contains the criterion, or the reviewer is present, non-empty and contains it (all lower-cased) |
| `ReviewFilter.StartDateMatches` | src/screens/dashboard/equipmentReviewScreen.jsx:34 | an empty start date always holds; otherwise it holds iff the later of `created_at` and a present `reviewed_at` is at or after the start |
| `ReviewFilter.EndDateMatches` | src/screens/dashboard/equipmentReviewScreen.jsx:35 | an empty end date always holds; otherwise it holds iff the earlier of `created_at` and a present `reviewed_at` is at or before the end |
| `ReviewFilter.DateRangeMatches` | src/screens/dashboard/equipmentReviewScreen.jsx:34-35 | with both bounds set, a review passes both iff its later timestamp is at or after the start and its earlier timestamp at or before the end |
| `ReviewFilter.DateRangeAcceptsGap` | src/screens/dashboard/equipmentReviewScreen.jsx:34-35 | a review created at 0 and reviewed at 100 passes the range [10, 20] though neither timestamp lies in it |
| `StableFilter.FilterBy` | src/screens/dashboard/equipmentReviewScreen.jsx:30 | `filter` with a callback returns a list no longer than its input whose every element the callback accepts |
| `StableFilter.FilterByEmbedding` | src/screens/dashboard/equipmentReviewScreen.jsx:30 | `filter` returns a subsequence of its input at strictly increasing positions, exactly the positions whose element the callback accepts |
| `ReviewFilter.Filter` | src/screens/dashboard/equipmentReviewScreen.jsx:30-38 | the result is no longer than the input, and every element of it matches all five predicates |
| `ReviewFilter.FilterEmbedding` | src/screens/dashboard/equipmentReviewScreen.jsx:30-38 | the result is a subsequence of the input at strictly increasing positions (original order kept), and the positions kept are exactly those of the matching reviews |
| `ReviewFilter.FilterCount` | src/screens/dashboard/equipmentReviewScreen.jsx:30-38 | a matching review occurs in the result as often as in the input; a non-matching one never occurs |
| `ReviewFilter.FilterMembership` | src/screens/dashboard/equipmentReviewScreen.jsx:37 | a review is in the result iff it is in the input and all five predicates hold at once |
| `ReviewFilter.FilterAppend` | src/screens/dashboard/equipmentReviewScreen.jsx:30-38 | filtering a concatenation is concatenating the filtered parts |
| `ReviewFilter.FilterAllMatch` | src/screens/dashboard/equipmentReviewScreen.jsx:30-38 | the filter returns its input unchanged iff every review of the input matches |
| `ReviewFilter.FilterIdempotent` | src/screens/dashboard/equipmentReviewScreen.jsx:30-38 | filtering the filtered list again with the same criteria changes nothing |
| `ReviewFilter.EmptyCriteriaMatch` | src/screens/dashboard/equipmentReviewScreen.jsx:31-37 | with all five fields empty a review matches iff it has an author or a non-empty reviewer |
| `ReviewFilter.FilterIdentity` | src/screens/dashboard/equipmentReviewScreen.jsx:30-38 | with all five fields empty the list comes back unchanged iff every review has an author or a non-empty reviewer |
| `ReviewFilter.NoUserNeverMatches` | src/screens/dashboard/equipmentReviewScreen.jsx:33 | a review with neither author nor reviewer is excluded by every criteria value, the empty username included |
| `ReviewFilter.AbsentReviewerUsesAuthor` | src/screens/dashboard/equipmentReviewScreen.jsx:33 | with no (or an empty) reviewer the username test depends on the author alone |
| `ReviewFilter.FilterEquivalent` | src/screens/dashboard/equipmentReviewScreen.jsx:30-38 | two criteria that agree on every review of a list select the same result |
| `ReviewFilter.FilterCaseInsensitive` | src/screens/dashboard/equipmentReviewScreen.jsx:31-33 | lower-casing the typed text criteria does not change the result |
| `ReviewFilter.NarrowingMatch` | src/screens/dashboard/equipmentReviewScreen.jsx:31-35 | a review matching criteria extended by more typed text and tighter date bounds matches the original criteria |
| `StableFilter.FilterByRefine` | src/screens/dashboard/equipmentReviewScreen.jsx:30 | when every element a narrow callback accepts is accepted by a wide one, filtering the wide result with the narrow callback equals filtering with the narrow callback alone |
| `ReviewFilter.FilterNarrowing` | src/screens/dashboard/equipmentReviewScreen.jsx:28-41 | typing more into a search field or tightening a date bound only removes rows: the new result is the old result filtered again |
| `ReviewAssign.AssignRows` | src/screens/dashboard/equipmentReviewScreen.jsx:72-77 | the rewritten list has the same length and order; rows with the target id get the acting user as reviewer and nothing else of them changes; every other row is unchanged |
| `ReviewAssign.AssignIdempotent` | src/screens/dashboard/equipmentReviewScreen.jsx:72-77 | applying the same assignment twice gives the same list as once |
| `ReviewAssign.AssignKeepsIds` | src/screens/dashboard/equipmentReviewScreen.jsx:72-77 | the sequence of review ids is unchanged by an assignment |
| `ReviewAssign.ReviewerCellOf` | src/screens/dashboard/equipmentReviewScreen.jsx:195-207 | the assign button is shown iff the viewer is an admin and the reviewer is absent or empty; it is disabled exactly while an assignment is in flight; otherwise the cell shows the reviewer or `N/A` |
| `ReviewAssign.AssignHidesButton` | src/screens/dashboard/equipmentReviewScreen.jsx:195-196 | after a successful assignment with a non-empty name, a target row shows that name and no button, for any viewer |
| `ReviewAssign.AssignRowKeepsMatch` | src/screens/dashboard/equipmentReviewScreen.jsx:73-75 | a matching row with no reviewer still matches the same criteria after being assigned |
| `ReviewAssign.AssignStaysFiltered` | src/screens/dashboard/equipmentReviewScreen.jsx:72-78 | if the target rows had no reviewer (the button was offered), the locally rewritten list still passes the filter that produced it, row for row |
| `ReviewAssign.AssignCanBreakUsernameMatch` | src/screens/dashboard/equipmentReviewScreen.jsx:33 | without that condition a row found through its reviewer's name stops matching once another name is written |
| `EquipmentReviewScreen.ReviewScreen.constructor` | src/screens/dashboard/equipmentReviewScreen.jsx:22 | the displayed list starts empty |
| `EquipmentReviewScreen.ReviewScreen.Refilter` | src/screens/dashboard/equipmentReviewScreen.jsx:28-41 | with a response whose `success` is true the list becomes the filtered response data; with no response or an unsuccessful one it keeps its previous value |
| `EquipmentReviewScreen.ReviewScreen.RenderedRows` | src/screens/dashboard/equipmentReviewScreen.jsx:187-201 | the click handler of each row captures the list shown at that render |
| `EquipmentReviewScreen.ReviewScreen.Assign` | src/screens/dashboard/equipmentReviewScreen.jsx:66-85 | on success the list becomes the row rewrite of the list captured at render time (its length and order, only reviewers changed); on a failure body or an error the current list is unchanged |
| `EquipmentReviewScreen.ClickAssign` | src/screens/dashboard/equipmentReviewScreen.jsx:66-85 | when nothing changes the list during the request, an assignment keeps its length and order and changes only reviewers, and on success it is the row rewrite of the list |
| `EquipmentReviewScreen.RefilterDuringAssign` | src/screens/dashboard/equipmentReviewScreen.jsx:28-85 | a refilter while the request is in flight is overwritten by a late successful answer: the list becomes the rewrite of the list shown at the click |
| `EquipmentReviewScreen.AssignThenRefilter` | src/screens/dashboard/equipmentReviewScreen.jsx:28-41 | the next refilter after an assignment recomputes the list from the response, discarding the local rewrite |

## Left out

- Full Unicode `toLowerCase`: `Text.Lower` lower-cases the ASCII letters A-Z only.
- JavaScript `Date` parsing: timestamps and date bounds are already-parsed integers. An
  unparsable date (whose comparisons are all false in JavaScript) is not modelled.
- Reviews whose `barcode` or `equipment_id` is null, which would make the filter callback
  throw, are not modelled: both are non-optional text here.
- `ReviewScreen.Assign`: `userInfo` is assumed present. With no signed-in user, the rewrite
  reading `userInfo.username` would throw, and the catch would leave the list unchanged.
  The acting user's name is a parameter.
- The request itself (`assignReview`), its logging (`console.error`) and
  `event.stopPropagation()` are I/O: the method takes the awaited response as a parameter.
- React scheduling: when the effect runs is not modelled. `Refilter` is called explicitly
  with the current response and criteria, and the five `useState` search fields are its
  `Criteria` argument.
- The `isAssigning` flag is owned by the mutation hook; it enters only as the `disabled`
  state of the assign button.
- Sidebar toggle, "+ New" and row-click navigation, CSV export, status colours and date
  formatting in the table: presentation and navigation with no logic of their own.
- The login screen, the review detail screen (approve/reject), the sidebar, the header
  and the CSV export helper are not part of this model: they are network calls, routing and
  markup.
- The `reviewed_data` and `image_url` fields of a review are not read by this screen and
  are not part of the record here.
