/** The list-state controller of the contact list: fetched contacts, the
    running total, the selection, and the loading and error flags, with the
    transitions that fetching a page and selecting a contact make. */
module ContactList {
  import opened Types
  import Selection
  import DisplayOrder

  /** The message stored when the data source rejects with something that is not an `Error`. */
  const UnknownErrorMessage: string := "An unknown error occurred"

  /** What a rejected fetch carries: an `Error` instance with its message, or any other value. */
  datatype Thrown = ErrorInstance(message: string) | OtherValue

  /** How one call to the data source settles. */
  datatype FetchResult = Resolved(response: ContactListResponse) | Rejected(reason: Thrown)

  /** The controller's state; `error` holds the message of the stored error. */
  datatype State = State(
    data: seq<Contact>,
    total: int,
    selection: Selection.Selection,
    loading: bool,
    error: Option<string>)

  /** The state when the list is first shown. */
  const Initial: State := State([], 0, Selection.Empty, false, None)

  /** What every reachable state satisfies: its selection numbers are consistent. */
  predicate Valid(s: State)
  {
    Selection.Consistent(s.selection)
  }

  /** The first thing a fetch does: show the loading state and drop any old error. */
  function FetchStart(s: State): (r: State)
    ensures r.loading && r.error == None
    ensures r.data == s.data && r.total == s.total && r.selection == s.selection
  {
    s.(loading := true, error := None)
  }

  /** The page arrived: its contacts go after the ones already fetched, and the
      total is replaced by the one the data source reports. */
  function FetchSucceeded(s: State, response: ContactListResponse): (r: State)
    ensures |r.data| == |s.data| + |response.contacts|
    ensures r.data[..|s.data|] == s.data && r.data[|s.data|..] == response.contacts
    ensures r.total == response.total
    ensures r.selection == s.selection && r.loading == s.loading && r.error == s.error
  {
    s.(data := s.data + response.contacts, total := response.total)
  }

  /** The message of a rejection: an `Error` keeps its own, anything else gets the generic one. */
  function ErrorMessage(reason: Thrown): string
  {
    match reason
    case ErrorInstance(message) => message
    case OtherValue => UnknownErrorMessage
  }

  /** The fetch failed: the error is stored and nothing else changes. */
  function FetchFailed(s: State, reason: Thrown): (r: State)
    ensures reason.ErrorInstance? ==> r.error == Some(reason.message)
    ensures reason.OtherValue? ==> r.error == Some("An unknown error occurred")
    ensures r.data == s.data && r.total == s.total && r.selection == s.selection && r.loading == s.loading
  {
    s.(error := Some(ErrorMessage(reason)))
  }

  /** Whatever the outcome, the fetch ends by clearing the loading flag. */
  function FetchFinally(s: State): (r: State)
    ensures !r.loading
    ensures r.data == s.data && r.total == s.total && r.selection == s.selection && r.error == s.error
  {
    s.(loading := false)
  }

  /** The data source settled: the success or failure branch, then the final step. */
  function FetchCompleted(s: State, result: FetchResult): (r: State)
  {
    match result
    case Resolved(response) => FetchFinally(FetchSucceeded(s, response))
    case Rejected(reason) => FetchFinally(FetchFailed(s, reason))
  }

  /** One fetch from start to completion, with nothing in between. */
  function Fetch(s: State, result: FetchResult): (r: State)
    ensures !r.loading && r.selection == s.selection
    ensures result.Resolved? ==>
              && r.data == s.data + result.response.contacts
              && r.total == result.response.total
              && r.error == None
    ensures result.Rejected? ==>
              && r.data == s.data
              && r.total == s.total
              && r.error == Some(ErrorMessage(result.reason))
  {
    FetchCompleted(FetchStart(s), result)
  }

  /** Clicking a contact toggles its selection; nothing but the selection changes. */
  function Select(s: State, id: string): (r: State)
    ensures r.data == s.data && r.total == s.total && r.loading == s.loading && r.error == s.error
    ensures (id in r.selection.order) <==> (id !in s.selection.order)
    ensures Valid(s) ==> Valid(r)
  {
    s.(selection := Selection.Toggle(s.selection, id))
  }

  /** The number the selection counter shows: how many ids are selected. */
  function SelectedCount(s: State): nat
  {
    |s.selection.order|
  }

  /** Whether a contact row is drawn as selected. */
  predicate IsSelected(s: State, id: string)
  {
    id in s.selection.order
  }

  /** The "Load more" control is shown while some but not all contacts are fetched. */
  predicate LoadMoreShown(s: State)
  {
    0 < |s.data| < s.total
  }

  /** The "Load more" control is disabled while a fetch runs or an error is shown. */
  predicate LoadMoreDisabled(s: State)
  {
    s.loading || s.error.Some?
  }

  /** The contacts in the order the list shows them. */
  function Displayed(s: State): seq<Contact>
  {
    DisplayOrder.SortContacts(s.selection.order, s.data)
  }

  /** Selecting changes the count by one, and selecting again restores it. */
  lemma SelectCount(s: State, id: string)
    ensures SelectedCount(Select(s, id)) == if IsSelected(s, id) then SelectedCount(s) - 1 else SelectedCount(s) + 1
    ensures SelectedCount(Select(Select(s, id), id)) == SelectedCount(s)
    ensures Select(Select(s, id), id).selection.order.Keys == s.selection.order.Keys
  {
    Selection.ToggleTwice(s.selection, id);
  }

  /** Selecting a contact that is not yet selected moves it to the top of the list. */
  lemma SelectMovesToTop(s: State, id: string)
    requires Valid(s)
    requires !IsSelected(s, id)
    requires exists k :: 0 <= k < |s.data| && s.data[k].id == id
    ensures |Displayed(Select(s, id))| > 0 && Displayed(Select(s, id))[0].id == id
  {
    var r := Select(s, id);
    DisplayOrder.NewestSelectedComesFirst(r.selection.order, r.data, id);
  }

  /** How the "Load more" control reacts to a fetch: disabled while it runs,
      disabled after a failure, enabled after a success, and shown afterwards
      exactly when the contacts now held are fewer than the reported total. */
  lemma LoadMoreAroundFetch(s: State, result: FetchResult)
    ensures LoadMoreDisabled(FetchStart(s))
    ensures result.Rejected? ==> LoadMoreDisabled(Fetch(s, result))
    ensures result.Resolved? ==> !LoadMoreDisabled(Fetch(s, result))
    ensures result.Resolved? ==>
              (LoadMoreShown(Fetch(s, result)) <==>
                 0 < |s.data| + |result.response.contacts| < result.response.total)
    ensures |Fetch(s, result).data| >= Fetch(s, result).total ==> !LoadMoreShown(Fetch(s, result))
  {
  }

  /** Everything the user or the data source can make happen. */
  datatype Event = Started | Completed(result: FetchResult) | Clicked(id: string)

  function Step(s: State, e: Event): State
  {
    match e
    case Started => FetchStart(s)
    case Completed(result) => FetchCompleted(s, result)
    case Clicked(id) => Select(s, id)
  }

  /** The state after a run of events, in order. */
  function Run(s: State, events: seq<Event>): State
    decreases |events|
  {
    if |events| == 0 then s else Run(Step(s, events[0]), events[1..])
  }

  /** The contacts of the pages that arrived during a run, in arrival order. */
  function Arrived(events: seq<Event>): seq<Contact>
    decreases |events|
  {
    if |events| == 0 then []
    else
      (if events[0].Completed? && events[0].result.Resolved? then events[0].result.response.contacts else [])
      + Arrived(events[1..])
  }

  /** How many pages arrived during a run. */
  function PagesArrived(events: seq<Event>): nat
    decreases |events|
  {
    if |events| == 0 then 0
    else (if events[0].Completed? && events[0].result.Resolved? then 1 else 0) + PagesArrived(events[1..])
  }

  /** The fetched contacts only ever grow at the end: whatever happens, the
      contacts held are the old ones followed by the arrived pages in order. */
  lemma {:induction false} RunAppendsPages(s: State, events: seq<Event>)
    ensures Run(s, events).data == s.data + Arrived(events)
    decreases |events|
  {
    if |events| > 0 {
      var next := Step(s, events[0]);
      RunAppendsPages(next, events[1..]);
      assert next.data == s.data + Arrived([events[0]]);
    }
  }

  /** Every run of events keeps the state valid. */
  lemma {:induction false} RunStaysValid(s: State, events: seq<Event>)
    requires Valid(s)
    ensures Valid(Run(s, events))
    decreases |events|
  {
    if |events| > 0 {
      RunStaysValid(Step(s, events[0]), events[1..]);
    }
  }

  /** With pages of ten contacts, the list holds ten contacts per page that arrived. */
  lemma {:induction false} PagesOfTen(events: seq<Event>)
    requires forall i :: 0 <= i < |events| && events[i].Completed? && events[i].result.Resolved? ==>
               |events[i].result.response.contacts| == 10
    ensures |Run(Initial, events).data| == 10 * PagesArrived(events)
  {
    RunAppendsPages(Initial, events);
    ArrivedCount(events);
  }

  /** Pages of ten contacts add up to ten contacts per page. */
  lemma {:induction false} ArrivedCount(events: seq<Event>)
    requires forall i :: 0 <= i < |events| && events[i].Completed? && events[i].result.Resolved? ==>
               |events[i].result.response.contacts| == 10
    ensures |Arrived(events)| == 10 * PagesArrived(events)
    decreases |events|
  {
    if |events| > 0 {
      ArrivedCount(events[1..]);
    }
  }

  /** The walk-through the component's tests take: a first page of ten
      contacts out of a hundred shows an enabled "Load more"; selecting the
      fifth contact moves it to the top and the selected count reads one; a
      second page makes twenty. */
  lemma FirstPagesScenario(page1: seq<Contact>, page2: seq<Contact>)
    requires |page1| == 10 && |page2| == 10
    ensures var s1 := Fetch(Initial, Resolved(ContactListResponse(page1, 100)));
      && LoadMoreShown(s1) && !LoadMoreDisabled(s1)
      && |Fetch(s1, Resolved(ContactListResponse(page2, 100))).data| == 20
    ensures var s1 := Fetch(Initial, Resolved(ContactListResponse(page1, 100)));
      var s2 := Select(s1, page1[4].id);
      && Displayed(s2)[0].id == page1[4].id
      && SelectedCount(s2) == 1
  {
    var s1 := Fetch(Initial, Resolved(ContactListResponse(page1, 100)));
    assert s1.data == page1;
    assert s1.data[4].id == page1[4].id;
    SelectMovesToTop(s1, page1[4].id);
  }
}
