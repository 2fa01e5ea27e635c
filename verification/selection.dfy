/** Selection bookkeeping of the contact list: every selected contact id is
    mapped to the sequence number it was selected with, and the numbers are
    drawn from a counter that only ever grows. */
module Selection {

  /** `order` maps a selected id to its selection sequence number;
      `counter` is the last number handed out. */
  datatype Selection = Selection(order: map<string, nat>, counter: nat)

  /** Nothing selected, no number handed out yet. */
  const Empty: Selection := Selection(map[], 0)

  /** Every number in use was handed out by the counter (so it is positive and
      at most the counter), and no two ids share a number. */
  predicate Consistent(s: Selection)
  {
    && (forall id :: id in s.order ==> 1 <= s.order[id] <= s.counter)
    && (forall a, b :: a in s.order && b in s.order && a != b ==> s.order[a] != s.order[b])
  }

  /** Selecting a contact when its id is already selected removes it;
      otherwise the counter advances and the id gets the new number. */
  function Toggle(s: Selection, id: string): (r: Selection)
    // a selected id is removed, and only that id
    ensures id in s.order ==> r.order.Keys == s.order.Keys - {id} && r.counter == s.counter
    // an unselected id is added with a fresh number one above the old counter
    ensures id !in s.order ==>
              && r.order.Keys == s.order.Keys + {id}
              && r.counter == s.counter + 1
              && r.order[id] == r.counter
    // every other id keeps its number
    ensures forall k :: k in r.order && k != id ==> k in s.order && r.order[k] == s.order[k]
    ensures |r.order| == if id in s.order then |s.order| - 1 else |s.order| + 1
    ensures Consistent(s) ==> Consistent(r)
    // a newly selected id holds the strictly largest number
    ensures Consistent(s) && id !in s.order ==>
              forall k :: k in r.order && k != id ==> r.order[k] < r.order[id]
  {
    if id in s.order then
      var order := s.order - {id};
      assert order.Keys == s.order.Keys - {id};
      Selection(order, s.counter)
    else
      var order := s.order[id := s.counter + 1];
      assert order.Keys == s.order.Keys + {id};
      Selection(order, s.counter + 1)
  }

  /** Toggling the same id twice gives back the original set of selected ids
      (and the original map itself when the id started out unselected). */
  lemma ToggleTwice(s: Selection, id: string)
    ensures Toggle(Toggle(s, id), id).order.Keys == s.order.Keys
    ensures |Toggle(Toggle(s, id), id).order| == |s.order|
    ensures id in Toggle(s, id).order <==> id !in s.order
    ensures id !in s.order ==> Toggle(Toggle(s, id), id).order == s.order
  {
  }
}
