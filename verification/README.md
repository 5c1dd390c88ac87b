# Reward catalog manager

A Dafny model of the reward-catalog manager of a pizza-shop loyalty admin
panel: the React component `RewardsManagement`. Among other things, an
operator can:

- keep a list of loyalty rewards, each with a name, description, points
  cost, quota, validity, expiry and owning store;
- create, update, delete, duplicate and preview rewards through a form;
- search the list and page through it ten rows at a time.

The model has seven modules:

- `Rewards` holds the reward record, the blank draft `InitialReward`, and
  the typed one-field edits the form makes to a draft.
- `Validation` holds the seven form rules and the error map they produce.
- `Text` holds ASCII `toLowerCase` and `String.prototype.includes`.
- `Seqs` holds `Array.prototype.filter`, the subsequence relation that
  filter establishes, and `Array.prototype.slice` with its
  negative-index rules.
- `Catalog` holds the three collection updates made after a backend
  confirmation: append, replace by id and remove by id. It also holds the
  id invariants those updates keep.
- `Search` holds the search filter, the page slice and the page-button
  count.
- `Workflow` models the component as a state machine. The state holds:
  - the collection;
  - the form and preview flags, which share one current reward;
  - the error map, the search term and the page number.

  `Step(state, event, outcome, confirmed)` returns the next state and the
  backend call the step made. The backend's answer (`Resolved(reward)` or
  `Rejected`) and the answer to the delete confirmation are inputs of the
  step.

The model follows the code as written, including these quirks:

- "Add new" does not reset the draft, and neither does cancel.
- The form and the preview show the same `currentReward`, so a preview
  opened while the form is open replaces the draft being edited.
- Changing the search term does not move the page back into range. This
  is how an empty page becomes reachable (`SearchCanLeaveEmptyPage`).
- The date rule uses JavaScript truthiness: an absent date and an empty
  date both count as missing.
- A resolved submit resets the shared current reward but leaves the
  preview flag alone, so an open preview stays open and shows the blank
  draft.
- The validity select offers only `instant` and `limited`, but the rule at
  line 85 only checks that the value is non-empty, so `validity` is a
  string here (`ValidityNotRestrictedToEnum`).
- Validation never consults the loaded store list; line 89 only checks
  `storeId === 0`.
- Neither a search (line 161) nor a delete moves the page number back into
  range.

## Model

All sources are in `src/components/RewardsManagement.tsx`.

| member | source | states |
|---|---|---|
| Rewards.Apply | src/components/RewardsManagement.tsx:69-77 | a form edit stores its value in exactly the field it targets; the id and every other field keep their values |
| Rewards.ApplyLastWins | src/components/RewardsManagement.tsx:69-77 | when two edits of the same field follow each other, the later one wins |
| Rewards.ApplyCommutes | src/components/RewardsManagement.tsx:69-77 | edits of different fields give the same draft in either order |
| Rewards.DuplicateDraft | src/components/RewardsManagement.tsx:131-132 | the duplicate has id 0 and the name "Copy of " followed by the original name; every other field is copied unchanged |
| Validation.Validate | src/components/RewardsManagement.tsx:79-92 | the error map has a key exactly for each broken rule, holding that rule's message; the never-expire checkbox never gets a key |
| Validation.CheckRules | src/components/RewardsManagement.tsx:80-89 | running a list of rule checks over a map: a key is present exactly when it was already present or its rule is listed and broken; a broken rule writes its own message, and every other key keeps its value |
| Validation.ValidateIsSequential | src/components/RewardsManagement.tsx:80-90 | the seven checks, run in the form's order from an empty map, build exactly the error map |
| Validation.ValidIff | src/components/RewardsManagement.tsx:79-91 | the form accepts a draft exactly when all seven rules hold: name, description and validity are non-empty, points > 0, quota >= 0, the date is present unless never-expire is set, and storeId != 0 |
| Validation.NeverExpireClearsDateError | src/components/RewardsManagement.tsx:86-88 | after never-expire is ticked, the draft has no date error; without never-expire, an absent or empty date is an error, and its message is the date message |
| Validation.EditIsLocal | src/components/RewardsManagement.tsx:69-89 | an edit adds or clears errors only on the rules that read the edited field |
| Validation.EmptyNameOnly | src/components/RewardsManagement.tsx:81-89 | a filled-in draft with an empty name yields exactly the error map {name: "Reward name is required"} |
| Validation.InitialRewardErrors | src/components/RewardsManagement.tsx:22-31 | the blank draft fails the name, description, points and store rules; it passes the quota, validity and date rules |
| Validation.ValidityNotRestrictedToEnum | src/components/RewardsManagement.tsx:85 | a validity other than "instant" or "limited" passes validation |
| Text.Lower | src/components/RewardsManagement.tsx:143-144 | lower-casing keeps the length and maps each character through ASCII lower-casing |
| Text.LowerIdempotent | src/components/RewardsManagement.tsx:143-144 | lower-casing twice gives the same string as lower-casing once |
| Text.Includes | src/components/RewardsManagement.tsx:143-144 | the left-to-right scan answers true exactly when the needle occurs at some position of the haystack |
| Text.IncludesEmpty | src/components/RewardsManagement.tsx:143-144 | the empty string occurs in every string |
| Seqs.Filter | src/components/RewardsManagement.tsx:142-145 | the filter result is a subsequence of its input; it holds each kept element exactly as often as the input does and no other element |
| Seqs.FilterAppend | src/components/RewardsManagement.tsx:142-145 | filtering a concatenation gives the concatenation of the filtered parts |
| Seqs.FilterKeepsAll | src/components/RewardsManagement.tsx:142-145 | a filter that keeps every element returns its input |
| Seqs.FilterDropsAll | src/components/RewardsManagement.tsx:142-145 | a filter that keeps no element returns the empty list |
| Seqs.Slice | src/components/RewardsManagement.tsx:149 | for indices 0 <= start <= end, the slice is the input between the two indices, each clamped to the length; the slice never holds an element the input does not |
| Search.Matches | src/components/RewardsManagement.tsx:142-145 | a reward matches exactly when the lower-cased term occurs in the lower-cased name or in the lower-cased description |
| Search.MatchesIgnoresTermCase | src/components/RewardsManagement.tsx:143-144 | a term and its lower-cased form match the same rewards |
| Search.FilterRewards | src/components/RewardsManagement.tsx:142-145 | the filtered list is an order-preserving subsequence of the collection; it holds every matching reward as often as the collection does, and no reward that does not match |
| Search.EmptyTermKeepsAll | src/components/RewardsManagement.tsx:142-145 | an empty search term keeps the whole collection |
| Search.PageCount | src/components/RewardsManagement.tsx:347 | the button count is the least number of ten-row pages that holds every filtered row; it is zero only when no row is left |
| Search.Page | src/components/RewardsManagement.tsx:147-149 | page p (p >= 1) is the filtered list from (p-1)*10 to min(p*10, n); it holds at most ten rows; a page with a button is never empty and a page past the last button is empty |
| Search.PagesPrefix | src/components/RewardsManagement.tsx:147-149 | pages 1 to k, read in turn, are the first min(10k, n) rows |
| Search.PagesCoverAll | src/components/RewardsManagement.tsx:147-149 | reading every page that has a button gives back the filtered list, each row once and in order |
| Search.TwentyFiveRows | src/components/RewardsManagement.tsx:147-149 | 25 rows give 3 buttons; page 1 shows rows 1 to 10 and page 3 shows the 5 rows 21 to 25 |
| Catalog.CountId | src/components/RewardsManagement.tsx:123 | the count of entries carrying an id is zero exactly when the id is absent |
| Catalog.ReplaceById | src/components/RewardsManagement.tsx:104 | an update keeps the length; each entry with the returned id becomes the returned record, and every other entry stays in place |
| Catalog.ReplaceKeepsIds | src/components/RewardsManagement.tsx:104 | an update never changes the sequence of ids |
| Catalog.ReplaceIdempotent | src/components/RewardsManagement.tsx:104 | applying the same update twice gives the same result as applying it once |
| Catalog.ReplaceInstallsRecord | src/components/RewardsManagement.tsx:104 | after an update, every entry with the returned id is the returned record; the record is present when its id was; an unknown id changes nothing |
| Catalog.RemoveById | src/components/RewardsManagement.tsx:123 | a delete leaves an order-preserving subsequence with no entry carrying the id; every other entry keeps its multiplicity, and the length drops by the number of entries with the id |
| Catalog.RemoveAbsent | src/components/RewardsManagement.tsx:123 | deleting an id that no entry carries changes nothing |
| Catalog.AppendFresh | src/components/RewardsManagement.tsx:101 | appending a record with a fresh id keeps ids unique, and exactly one entry then carries that id |
| Catalog.RemoveKeepsInvariants | src/components/RewardsManagement.tsx:123 | a delete keeps ids unique and keeps drafts out of the collection |
| Catalog.ReplaceKeepsInvariants | src/components/RewardsManagement.tsx:104 | an update keeps ids unique and keeps drafts out of the collection |
| Workflow.Step | src/components/RewardsManagement.tsx:94-372 | the backend is called exactly on a submit of a draft that passes every rule or on a confirmed delete; the collection changes only after a call that resolved |
| Workflow.SubmitStep | src/components/RewardsManagement.tsx:94-112 | a submit always replaces the error map with the draft's errors; it calls the backend exactly when every rule holds, creating an id-0 draft and updating anything else; the collection changes only after a resolved call; nothing but the collection, the form flag, the draft and the error map ever changes |
| Workflow.DeleteStep | src/components/RewardsManagement.tsx:119-129 | a delete calls the backend exactly when confirmed; the collection loses the entries with the id only when that call resolves; nothing else in the state changes |
| Workflow.LocalStep | src/components/RewardsManagement.tsx:114-372 | the actions that make no call never touch the collection or the error map; only a search changes the term and only a page button changes the page; the draft changes only on edit, duplicate, preview or a field edit |
| Workflow.SubmitBlockedByValidation | src/components/RewardsManagement.tsx:96 | when a rule is broken, a submit makes no call and changes nothing but the (non-empty) error map |
| Workflow.SubmitRejectedByBackend | src/components/RewardsManagement.tsx:98-111 | a valid draft is sent as a create when its id is 0 and as an update otherwise; on a rejection only the error map, now empty, changes |
| Workflow.SubmitCreates | src/components/RewardsManagement.tsx:99-107 | a resolved create appends exactly the returned record after the untouched existing rows, closes the form, resets the draft and leaves the error map empty; the preview flag, the search term and the page are unchanged |
| Workflow.SubmitUpdates | src/components/RewardsManagement.tsx:103-107 | a resolved update replaces each entry with the returned id and keeps the rest, the length and the ids; it closes the form, resets the draft and leaves the error map empty; the preview flag, the search term and the page are unchanged |
| Workflow.SubmitCreatesOneEntry | src/components/RewardsManagement.tsx:99-101 | with unique ids and a fresh returned id, exactly one entry carries the created id |
| Workflow.DeleteNeedsConfirmation | src/components/RewardsManagement.tsx:119-128 | an unconfirmed delete does nothing; a confirmed delete always calls the backend; a rejected delete changes nothing, and a resolved one leaves exactly the entries whose id differs, in order; nothing but the collection changes |
| Workflow.AddNewKeepsDraft | src/components/RewardsManagement.tsx:166 | "add new" only opens the form; the current draft is kept |
| Workflow.CancelKeepsDraft | src/components/RewardsManagement.tsx:277 | cancel closes the form and keeps the draft, so "add new" reopens the form on the cancelled draft |
| Workflow.EditLoadsRecord | src/components/RewardsManagement.tsx:114-117 | edit opens the form on the chosen record, id included; a valid record with a non-zero id is then submitted as an update of itself |
| Workflow.DuplicateOpensCopy | src/components/RewardsManagement.tsx:131-135 | duplicate opens the form on the copy; a valid copy is then submitted as a create |
| Workflow.PreviewReplacesDraft | src/components/RewardsManagement.tsx:137-140 | preview sets the shared current reward and leaves the form flag alone, so a submit would send the previewed record |
| Workflow.ClosePreviewOnlyClearsFlag | src/components/RewardsManagement.tsx:372 | closing the preview clears its flag and nothing else |
| Workflow.ChangeTouchesOneField | src/components/RewardsManagement.tsx:69-77 | a field edit changes only the draft, and only the targeted field of it |
| Workflow.StepKeepsGood | src/components/RewardsManagement.tsx:94-151 | if created records come back with fresh non-zero ids and page buttons offer pages from 1, every step keeps ids unique, keeps drafts out of the collection and keeps the page >= 1 |
| Workflow.SubmitKeepsGood | src/components/RewardsManagement.tsx:94-112 | a submit keeps the invariant whenever a created record comes back with a fresh non-zero id |
| Workflow.InitialIsGood | src/components/RewardsManagement.tsx:34-40 | the initial state satisfies the invariant |
| Workflow.VisibleRowsMatch | src/components/RewardsManagement.tsx:142-149 | the table shows at most ten rows, each in the collection and matching the search |
| Workflow.SearchKeepsPage | src/components/RewardsManagement.tsx:161 | typing in the search box changes the term only; the page number is untouched |
| Workflow.PastLastPageIsEmpty | src/components/RewardsManagement.tsx:147-149 | on a page past the last button, the table is empty |
| Workflow.MatchesExample | src/components/RewardsManagement.tsx:142-145 | the term "b" selects a row named "b" and not a row named "a" |
| Workflow.FilterExample | src/components/RewardsManagement.tsx:142-145 | of rows named "a" followed by one row named "b", the term "b" keeps only the "b" row |
| Workflow.SearchCanLeaveEmptyPage | src/components/RewardsManagement.tsx:142-161 | ten "a" rows and one "b" row on page 2 show the "b" row; after a search for "b" there is one page button, yet page 2 is empty |
| Workflow.SecondPageOfEleven | src/components/RewardsManagement.tsx:147-149 | with eleven rows, page 2 holds only the eleventh |

## Left out

- Rendering is not modelled: the JSX, the CSS classes, and the store-name
  lookup for the table and the preview (lines 153-381). These are
  presentation only. Which buttons are on screen is left out too: each
  handler is modelled as callable in any state.
- `fetchRewards` and `fetchStores` (lines 44-67) are left out. They are
  I/O that replaces the collection or the store list wholesale.
- The store list itself is left out. Validation never consults it.
- DOM string coercion in `handleInputChange` and `handleCheckboxChange`
  (lines 69-77) is left out. The source receives form values as strings:
  numbers arrive as text, and the "Select a store" option gives `""`,
  which passes `storeId === 0`. The model's fields are typed, and each edit
  sets one field to a typed value.
- `async`/`await` is left out. So are the render-time closures that async
  handlers capture, and the missing guard against a double submit. Each
  backend call is one atomic step whose answer is an input.
- `console.error` and `alert` (lines 54-55, 64-65, 109-110 and 125-126) are
  left out. They are output only, and the state is unchanged on these paths.
- The backend module `utils/wordpressApi` is not part of this model. Its
  calls are an outcome parameter, and the record a resolved call returns
  is arbitrary.
- Text.Lower: lower-cases ASCII letters only. JavaScript's `toLowerCase`
  also maps non-ASCII letters, and Unicode case mapping is not modelled.
- Search.PageCount: uses exact integer division in place of the
  floating-point `Math.ceil(n / 10)`. The two agree for every
  collection size that can occur.
- The analytics view, the error boundary, the header, the app shell, the
  WordPress plugin, the packaging script and the Python API client are left
  out. None of them touches the reward catalog's logic.
