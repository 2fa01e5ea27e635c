# Contact list: list-state controller and avatar initials

A Dafny model of the logic of a paginated, selectable contact directory
written as a React component. Two pieces of the component carry real logic,
and both are modelled as pure functions over immutable values:

- The list-state controller in `ContactList`. It holds the fetched contacts,
  the running total, the selection (a map from contact id to selection
  sequence number, plus the counter the numbers come from), and the loading
  and error flags. It has these parts:
  - the fetch transitions (start, success, failure, finally);
  - the selection toggle;
  - the selected count;
  - the "Load more" visibility and disabled predicates;
  - the derived display order. This is a stable sort that puts selected
    contacts first, most recently selected on top, and keeps unselected
    contacts in fetch order.
- The initials that `PersonAvatar` shows for a full name.

Modules, one per file:

| file | module | models |
|---|---|---|
| `types.dfy` | `Types` | the contact record, the data source's response, `Option` |
| `selection.dfy` | `Selection` | the selection map and counter, and the toggle |
| `display_order.dfy` | `DisplayOrder` | the sort comparator and the stable sort, with the ordering proofs |
| `contact_list.dfy` | `ContactList` | the controller state, the fetch and select transitions, the "Load more" predicates, and runs of events |
| `person_avatar.dfy` | `PersonAvatar` | `split(' ')`, first characters, `slice(0, 2)`, `join('')` |

Modelling decisions:
- A fetch is split into the steps the component takes. `FetchStart`
  raises `loading` and clears `error`. Then either `FetchSucceeded`
  (append the page, replace the total) or `FetchFailed` (store the
  message) runs, and `FetchFinally` clears `loading`.
- `Fetch` is one uninterrupted fetch. `Run` applies any interleaving of
  fetch starts, fetch completions and contact clicks.
- A rejection is either an `Error` with its message or any other value. Any
  other value is stored as "An unknown error occurred".
- The sort is a stable insertion sort driven by the source's comparator.
  JavaScript's `Array.prototype.sort` is stable, and `Compare` is shown to be
  a consistent total preorder. So the insertion sort produces the same
  sequence as the engine's sort.
- `name[0]` of an empty segment is `undefined`, modelled as `None`.
  `join('')` turns it into the empty string. `slice(0, 2)` runs before the
  join, so an empty segment still takes one of the two slots.

The code guarantees less than one might assume, and the model claims only
what it does:
- `fetchData` has no guard against running again while a fetch is in
  flight. The only guard is the `disabled` prop of the "Load more" button.
- Nothing keeps the number of fetched contacts at or below `total`.
- Nothing keeps selected ids among the ids of the fetched contacts.

The model claims none of these.

## Model

| member | source | states |
|---|---|---|
| Selection.Toggle | src/components/organisms/ContactList/ContactList.tsx:41-50 | Toggling a selected id removes exactly that key and keeps the counter. Toggling an unselected id adds it with the number one above the old counter. All other ids keep their numbers. The count goes down or up by one. Consistent numbering (positive, at most the counter, pairwise distinct) is preserved. A newly selected id holds the strictly largest number. |
| Selection.ToggleTwice | src/components/organisms/ContactList/ContactList.tsx:42-48 | Toggling the same id twice restores the set of selected ids and the count. When the id started out unselected, it restores the whole map. |
| DisplayOrder.Compare | src/components/organisms/ContactList/ContactList.tsx:67-77 | The comparator's sign always agrees with a rank order in which selected contacts come before unselected ones, higher selection numbers come first, and all unselected contacts tie. |
| DisplayOrder.ComparatorIsConsistent | src/components/organisms/ContactList/ContactList.tsx:68-76 | The comparator is reflexive (zero on equal arguments), antisymmetric (swapping the arguments negates it) and transitive. |
| DisplayOrder.Insert | src/components/organisms/ContactList/ContactList.tsx:66-78 | One insertion step of the sort adds exactly the inserted contact (multiset) and keeps a sorted sequence sorted. |
| DisplayOrder.SortContacts | src/components/organisms/ContactList/ContactList.tsx:66-78 | The displayed list is a permutation of the fetched contacts (same multiset, same length) and is in rank order. |
| DisplayOrder.SortIsStable | src/components/organisms/ContactList/ContactList.tsx:66-78 | For every rank, the contacts of that rank appear in the displayed list in the same relative order as in the fetched list. |
| DisplayOrder.SelectedBeforeUnselected | src/components/organisms/ContactList/ContactList.tsx:74-75 | In the displayed list, every selected contact comes before every unselected contact. |
| DisplayOrder.MostRecentFirst | src/components/organisms/ContactList/ContactList.tsx:71-72 | In the displayed list, selected contacts come in non-increasing selection number. |
| DisplayOrder.UnselectedKeepFetchOrder | src/components/organisms/ContactList/ContactList.tsx:76 | The unselected contacts of the displayed list are the unselected contacts of the fetched list, in fetch order. |
| DisplayOrder.SelectedThenUnselected | src/components/organisms/ContactList/ContactList.tsx:71-76 | The displayed list is its selected block followed by the fetched list's unselected contacts, in fetch order. |
| DisplayOrder.SelectedBlockIsPermutation | src/components/organisms/ContactList/ContactList.tsx:66-67 | The selected block holds exactly the fetched list's selected contacts, as a multiset. |
| DisplayOrder.SelectedBlockDescending | src/components/organisms/ContactList/ContactList.tsx:71-72 | The selected block is in non-increasing selection number. |
| DisplayOrder.NewestSelectedComesFirst | src/components/organisms/ContactList/ContactList.tsx:68-75 | A fetched contact whose id holds the strictly largest selection number is the first one displayed. |
| ContactList.FetchStart | src/components/organisms/ContactList/ContactList.tsx:23-24 | Starting a fetch shows loading and clears the error. Contacts, total and selection are untouched. |
| ContactList.FetchSucceeded | src/components/organisms/ContactList/ContactList.tsx:28-29 | On success the old contacts are an unchanged prefix and the page follows them. The total becomes the reported one. Nothing else changes. |
| ContactList.FetchFailed | src/components/organisms/ContactList/ContactList.tsx:30-32 | On failure an `Error`'s message is stored, or "An unknown error occurred" for any other value. The contacts and the total are unchanged. |
| ContactList.FetchFinally | src/components/organisms/ContactList/ContactList.tsx:34 | After either outcome, loading is off and nothing else changes. |
| ContactList.Fetch | src/components/organisms/ContactList/ContactList.tsx:22-36 | A whole fetch ends with loading off and the selection untouched. Success appends the page, sets the total and leaves no error. Failure keeps the contacts and the total and stores the error. |
| ContactList.Select | src/components/organisms/ContactList/ContactList.tsx:38-51 | Clicking a contact flips whether its id is selected. Contacts, total, loading and error are untouched, and a valid state stays valid. |
| ContactList.SelectCount | src/components/organisms/ContactList/ContactList.tsx:85 | The selected count (`selected.size`) goes up by one for an unselected contact and down by one for a selected one. Clicking the same contact twice restores the selected count and the selected ids; the sequence counter is not restored. |
| ContactList.SelectMovesToTop | src/components/organisms/ContactList/ContactList.tsx:66-78 | In a valid state, selecting a fetched contact that is not selected puts it at index 0 of the displayed list. |
| ContactList.LoadMoreAroundFetch | src/components/organisms/ContactList/ContactList.tsx:92 | "Load more" is disabled once a fetch starts and after a failed fetch, and enabled after a successful one. After success it is shown exactly when 0 < contacts held < reported total. It is never shown once the contacts held reach the total. |
| ContactList.RunAppendsPages | src/components/organisms/ContactList/ContactList.tsx:28 | Under any interleaving of fetch starts, completions and clicks, the contacts held are the old ones followed by the arrived pages in arrival order. They are never reordered or dropped. |
| ContactList.RunStaysValid | src/components/organisms/ContactList/ContactList.tsx:41-50 | Every run of events keeps the selection numbering consistent. |
| ContactList.PagesOfTen | src/tests/ContactList.test.tsx:38-58 | With pages of ten contacts, a run starting from the initial state holds ten contacts per page that arrived. |
| ContactList.FirstPagesScenario | src/tests/ContactList.test.tsx:117-134 | The walk-through: a first page of 10 out of 100 shows an enabled "Load more". A second page makes 20 contacts. Selecting the fifth contact moves it to the top, and the selected count reads 1. |
| PersonAvatar.Split | src/components/atoms/PersonAvatar/PersonAvatar.tsx:7 | Splitting on `' '` yields at least one segment, and no segment contains a space. |
| PersonAvatar.JoinSplit | src/components/atoms/PersonAvatar/PersonAvatar.tsx:7 | Joining the segments with single spaces gives the name back. |
| PersonAvatar.SplitJoin | src/components/atoms/PersonAvatar/PersonAvatar.tsx:7 | Splitting space-free segments joined by single spaces gives the segments back. |
| PersonAvatar.JoinChars | src/components/atoms/PersonAvatar/PersonAvatar.tsx:7 | Joining first characters yields no more characters than there are entries, and each one is a present entry. |
| PersonAvatar.JoinKept | src/components/atoms/PersonAvatar/PersonAvatar.tsx:7 | `join('')` over the kept first characters of at least one segment is the first segment's first character followed by the second segment's, if there is one; an empty segment contributes the empty string. |
| PersonAvatar.Initials | src/components/atoms/PersonAvatar/PersonAvatar.tsx:7 | The initials are at most two characters, and none of them is a space. |
| PersonAvatar.InitialsOfSegments | src/components/atoms/PersonAvatar/PersonAvatar.tsx:7 | For every name, given as its segments: the initials are the first segment's first character, then the second segment's, in that order. An empty segment contributes nothing. |
| PersonAvatar.InitialsOfOneWord | src/components/atoms/PersonAvatar/PersonAvatar.tsx:7 | A name without spaces yields its first character, and the empty name yields the empty string. |
| PersonAvatar.InitialsOfTwoWords | src/components/atoms/PersonAvatar/PersonAvatar.tsx:7 | `a + " " + b` with space-free `a` and `b` yields the first character of each, an empty one contributing nothing. |
| PersonAvatar.LaterWordsIgnored | src/components/atoms/PersonAvatar/PersonAvatar.tsx:7 | `initials(a + " " + b + " " + rest) == initials(a + " " + b)` for space-free `a` and `b`. |
| PersonAvatar.InitialsOfPersonName | src/components/atoms/PersonAvatar/PersonAvatar.tsx:7 | "Person 12", the name format of the test data, gives "P1". |
| PersonAvatar.InitialsWithLeadingSpace | src/components/atoms/PersonAvatar/PersonAvatar.tsx:7 | " Bob Smith" gives "B": the empty first segment still takes one of the two slots. |

## Left out

- The React hooks and the markup (`useState`, `useMemo`, `useCallback`, `useEffect`, `memo`, JSX). State is a plain value and every hook is a function.
- Saving and restoring the scroll position through `window.scrollY` and `window.scrollTo` (ContactList.tsx:39, 53-58). This is a DOM side effect.
- The fetch-once-on-mount guard (ContactList.tsx:60-64). It is mount lifecycle; a fetch is modelled from whatever state it starts in.
- The data source `src/api` and its page cursor. It is not part of this model; a fetch's outcome is an input (`FetchResult`).
- React's development-mode double call of state updaters under `StrictMode` (index.tsx). Under it the selection counter would advance twice per selection. The model advances it once. Numbers are still strictly increasing either way.
- JavaScript numbers are unbounded integers here. `total` is an `int` and the selection counter a `nat`; floating-point limits are not modelled.
- Characters are Dafny `char`s. `name[0]` in JavaScript yields one UTF-16 code unit, so a name starting with a surrogate pair would show half a character; encoding is not modelled.
- The engine's sorting algorithm itself. Any stable sort with a consistent comparator gives one result, and the model computes it by insertion sort.
- The image branch of `PersonAvatar` (`src` given) and all purely presentational components (Button, Heading, Text, LoadingState, ErrorState markup, the ContactItem class string, `stopPropagation`, the bootstrap).
