# Job-application tracker: the browser-side application store

This project models the state logic of the tracker's page script
(`static/script.js`) in Dafny, without the DOM, Chart.js or `localStorage`.
It covers the following:

- The module-level `applications` array of records. Each record has an integer
  `id`, `company`, `title`, `status`, `date`, `link` and `notes`.
- The form's edit mode. `editApplication` stores it in `jobForm.dataset.editId`
  and swaps the submit listener from `handleFormSubmit` to `handleFormUpdate`.
  `handleFormUpdate` swaps it back.
- The handlers that change the list: add, start edit, update and delete.
- The two derived views: the rows `handleSearch` shows, and the per-status
  counts `updateChart` plots.

Modules, leaf first:

- `Text` (text.dfy): `toLowerCase` for ASCII letters, and `includes` proved
  against an independent definition of "substring".
- `Seqs` (seqs.dfy): `Array.prototype.filter` as `Keep`. It is proved to be an
  order-preserving subsequence that keeps each passing element as often as it
  occurred.
- `Records` (records.dfy): the record and form-value datatypes, the five
  statuses and the sample data.
- `Collection` (collection.dfy): `find` and `findIndex` by id, the in-place
  replacement done by an update, the filter done by a delete, and the
  id-uniqueness invariant.
- `Views` (views.dfy): the search predicate, the search view and the status
  counts as specification functions, with their lemmas.
- `Store` (store.dfy): class `Tracker`, whose fields are `applications` and
  `mode` (`Create` or `Edit(id)`). Its methods are the handlers. Each one states
  its new state in terms of the `Collection` and `Views` functions.

Quirks of the code that the model keeps:

- A new record is put at the front (`unshift`), not appended.
- An update whose id is no longer in the list does nothing and reports nothing.
  The form also stays in edit mode, because the restore steps sit inside the
  `index !== -1` branch.
- Deleting the record being edited does not leave edit mode. From then on every
  submit is such a failed update, until another record is put in edit mode or
  the page is reloaded.
- There is no cancel action that leaves edit mode without updating.
- Delete returns nothing. It removes every record with the id, not just one.
- Loading uses the stored value whenever the stored text parses to a truthy
  value, such as any array, even an empty one. It uses the sample data when nothing is stored or when the
  stored text parses to another falsy value such as `null`; the constructor's
  `None` stands for both cases. Unparsable stored text throws; it is not treated
  as empty.

## Model

| member | source | states |
|---|---|---|
| Text.LowerChar | static/script.js:181 | lower-cases exactly the ASCII capitals; the result is never a capital and equals the input up to case |
| Text.Lower | static/script.js:185-187 | same length as the input, no capital left, each character equal to the input's up to case |
| Text.LowerIdempotent | static/script.js:181 | lower-casing an already lower-cased term changes nothing |
| Text.Includes | static/script.js:185-187 | `includes` is true exactly when the term occurs at some index of the string |
| Text.IncludesEmpty | static/script.js:185 | the empty term is included in every string |
| Text.EmptyIncludesOnlyEmpty | static/script.js:187 | an empty string includes only the empty term |
| Seqs.Keep | static/script.js:171 | `filter` never lengthens the array, keeps only passing elements, and keeps every passing element |
| Seqs.KeepIsSubsequence | static/script.js:184-192 | `filter` returns an order-preserving subsequence of its input |
| Seqs.KeepMultiplicity | static/script.js:171 | each passing element occurs in the result as often as in the input; failing ones never occur |
| Seqs.KeepAll | static/script.js:171 | when every element passes, `filter` returns the input unchanged |
| Seqs.KeepNarrows | static/script.js:189-191 | a stronger callback keeps a subsequence of what a weaker one keeps |
| Records.FieldsOf | static/script.js:108-113 | the form values copied out of a record rebuild that same record under its id |
| Collection.FindIndex | static/script.js:135 | -1 exactly when no record has the id; otherwise the first index carrying it |
| Collection.Find | static/script.js:104-105 | no result exactly when the id is absent; otherwise the first record carrying the id |
| Collection.FindUnique | static/script.js:104 | with unique ids, looking up a record's id finds that record |
| Collection.FindIndexSameIds | static/script.js:135 | `findIndex` by id depends only on the sequence of ids |
| Collection.PrependUnique | static/script.js:80-90 | putting a record in front keeps ids unique if and only if its id is new |
| Collection.ReplaceById | static/script.js:135-146 | same length and ids; only the first index carrying the id can change; an absent id changes nothing; unique ids stay unique |
| Collection.ReplaceThenFind | static/script.js:137-146 | after an update, looking up the id gives the record built from the submitted values |
| Collection.ReplaceLastWins | static/script.js:134-146 | two updates of one id equal the second update alone |
| Collection.ReplaceWithOwnFields | static/script.js:138-146 | submitting the values the edit handler copied into the form leaves the list unchanged |
| Collection.KeepUnique | static/script.js:171 | any filter of a list with unique ids has unique ids |
| Collection.Without | static/script.js:171 | no record with the id remains; exactly the records with other ids remain, in their original order; unique ids stay unique |
| Collection.WithoutMultiplicity | static/script.js:171 | each record with another id keeps its number of occurrences; records with the id keep none |
| Collection.WithoutAbsent | static/script.js:171 | deleting an absent id leaves the list unchanged |
| Collection.WithoutTwice | static/script.js:171 | deleting twice equals deleting once |
| Collection.WithoutRemovesOne | static/script.js:171 | with unique ids, deleting a present id shortens the list by exactly one |
| Views.Matches | static/script.js:184-192 | a record passes iff the status filter is empty or equal to its status, and the term is a substring of its lower-cased company or title, or of its notes when they are non-empty |
| Views.Search | static/script.js:180-192 | the shown rows are an order-preserving subsequence holding exactly the records that match the lower-cased input; unique ids stay unique |
| Views.SearchMultiplicity | static/script.js:184-192 | each matching record is shown as often as it occurs in the list; a non-matching one is never shown |
| Views.NotesGuardRedundant | static/script.js:185-187 | the non-empty check on notes changes no outcome |
| Views.SearchUnconstrained | static/script.js:181-192 | an empty search box with no status selected shows the whole list in order |
| Views.SearchIgnoresCase | static/script.js:181 | searching for the input or its lower-cased form gives the same rows |
| Views.StatusFilterNarrows | static/script.js:189-191 | selecting a status shows a subsequence of the rows the term alone shows |
| Views.SampleMatchesTech | static/script.js:3 | typing "Tech" shows the sample record of "Tech Solutions Inc." |
| Views.CountStatus | static/script.js:208-212 | a status's count never exceeds the list length |
| Views.CountIsMultiplicity | static/script.js:208-212 | a status's count is its number of occurrences among the records' statuses |
| Views.TotalCountBound | static/script.js:200-212 | the five buckets sum to at most the list length, with equality exactly when every status is one of the five |
| Views.CountStatusSnoc | static/script.js:208-211 | a record added at the end raises only its own status's count, by one |
| Views.SampleCounts | static/script.js:2-8 | the sample data has distinct ids and one record in each of the five buckets |
| Store.Tracker.constructor | static/script.js:18 | starts from the stored list if one is given, else from the sample data, in create mode |
| Store.Tracker.Add | static/script.js:77-100 | the new record carries the id and the form values, sits at index 0 and the old list follows it; length grows by one; the mode is unchanged; ids stay unique iff they were unique and the id is new |
| Store.Tracker.StartEdit | static/script.js:103-128 | the list never changes; an absent id changes nothing; a present id sets the mode to `Edit(id)` and yields the record's form values |
| Store.Tracker.Update | static/script.js:131-166 | succeeds iff editing and the id is present; then the list is the by-id replacement, the id finds the new values and the mode is `Create`; otherwise list and mode are unchanged; unique ids stay unique |
| Store.Tracker.Delete | static/script.js:169-177 | after confirmation the list is the order-preserving filter without the id; without confirmation nothing changes; the mode never changes |
| Store.Tracker.Submit | static/script.js:123-158 | in create mode, adds at the front and stays in create mode; in edit mode, updates by id and returns to create mode iff the id was present |
| Store.Tracker.StatusCounts | static/script.js:198-212 | the keys are exactly the five statuses, and each count equals the number of records with exactly that status |

## Left out

- Rendering (`renderApplications`, row markup, button wiring, scrolling, submit-button text) is presentation only.
- Chart construction and the tooltip percentage are left out. The percentage is floating point and divides by zero on an empty list.
- `localStorage` reads and writes and JSON parsing are I/O. The constructor takes the parsed stored list, if any, as a parameter.
- `Date.now()` is a clock. Add and Submit take the id as a parameter. Id freshness is a hypothesis of the uniqueness statements, not a precondition.
- `parseInt` of the id stored in `dataset.editId` is left out. Ids are integers and are kept as such.
- `confirm()` is user input. Delete takes the answer as a boolean.
- `toLocaleDateString` is left out. Dates are kept as the stored strings.
- `showNotification` (timers and CSS animation) is left out.
- The form inputs, and their reset after a submit, are DOM state. The handlers take the form values as a parameter, and StartEdit returns the values it would fill in.
- Text.Lower: `toLowerCase` lower-cases all of Unicode. Only ASCII A to Z are modelled, so the search is proved case-insensitive for ASCII letters only.
- Records with a missing (`undefined`) `link` or `notes` are not modelled. Every field is a string, and empty notes stand for the falsy case.
- The server in app.py is not part of this model. The page script never calls it.
