/** The derived display order of the contact list: a stable sort of the
    fetched contacts that puts selected contacts first, the most recently
    selected one at the top, and leaves unselected contacts in fetch order. */
module DisplayOrder {
  import opened Types

  /** Where a contact belongs: a selected contact ranks below zero, the higher
      its selection number the lower; every unselected contact ranks zero. */
  function Rank(order: map<string, nat>, c: Contact): int
  {
    if c.id in order then -1 - (order[c.id] as int) else 0
  }

  /** The sort's comparator over selection numbers `order`: negative puts `a`
      first, positive puts `b` first, zero leaves the pair in fetch order. Its
      sign always agrees with the difference of the ranks. */
  function Compare(order: map<string, nat>, a: Contact, b: Contact): (r: int)
    ensures r < 0 <==> Rank(order, a) < Rank(order, b)
    ensures r == 0 <==> Rank(order, a) == Rank(order, b)
    ensures r > 0 <==> Rank(order, a) > Rank(order, b)
  {
    if a.id in order && b.id in order then (order[b.id] as int) - (order[a.id] as int)
    else if a.id in order then -1
    else if b.id in order then 1
    else 0
  }

  /** The comparator is consistent (a total preorder), which is what a
      JavaScript sort needs of it to have a well-defined stable result. */
  lemma ComparatorIsConsistent(order: map<string, nat>, a: Contact, b: Contact, c: Contact)
    ensures Compare(order, a, a) == 0
    ensures Compare(order, a, b) == -Compare(order, b, a)
    ensures Compare(order, a, b) <= 0 && Compare(order, b, c) <= 0 ==> Compare(order, a, c) <= 0
  {
  }

  /** `s` is in display order: ranks never decrease. */
  predicate Sorted(order: map<string, nat>, s: seq<Contact>)
  {
    forall i, j :: 0 <= i < j < |s| ==> Rank(order, s[i]) <= Rank(order, s[j])
  }

  /** Inserts `x`, which precedes every contact of `s` in fetch order, in front
      of the first contact it does not compare above; ties keep `x` first. */
  function Insert(order: map<string, nat>, x: Contact, s: seq<Contact>): (r: seq<Contact>)
    ensures multiset(r) == multiset(s) + multiset{x}
    ensures Sorted(order, s) ==> Sorted(order, r)
  {
    if |s| == 0 || Compare(order, x, s[0]) <= 0 then
      [x] + s
    else
      var t := Insert(order, x, s[1..]);
      assert s == [s[0]] + s[1..];
      InsertAfterHead(order, x, s, t);
      [s[0]] + t
  }

  /** The step of Insert's sortedness proof where `x` goes past the head. */
  lemma InsertAfterHead(order: map<string, nat>, x: Contact, s: seq<Contact>, t: seq<Contact>)
    requires |s| > 0 && Rank(order, s[0]) < Rank(order, x)
    requires multiset(t) == multiset(s[1..]) + multiset{x}
    requires Sorted(order, s) ==> Sorted(order, t)
    ensures Sorted(order, s) ==> Sorted(order, [s[0]] + t)
  {
    if Sorted(order, s) {
      var r := [s[0]] + t;
      forall i, j | 0 <= i < j < |r|
        ensures Rank(order, r[i]) <= Rank(order, r[j])
      {
        if i == 0 {
          assert r[j] == t[j - 1];
          assert r[j] in multiset(t);
          if r[j] != x {
            assert r[j] in multiset(s[1..]);
            var k :| 0 <= k < |s[1..]| && s[1..][k] == r[j];
            assert s[k + 1] == r[j];
          }
        } else {
          assert r[i] == t[i - 1] && r[j] == t[j - 1];
        }
      }
    }
  }

  /** `[...data].sort(Compare)`: the contacts in display order. */
  function SortContacts(order: map<string, nat>, data: seq<Contact>): (r: seq<Contact>)
    ensures multiset(r) == multiset(data)
    ensures |r| == |data|
    ensures Sorted(order, r)
  {
    if |data| == 0 then []
    else
      assert data == [data[0]] + data[1..];
      Insert(order, data[0], SortContacts(order, data[1..]))
  }

  /** The contacts of `s` whose id is selected, in the order they appear in `s`. */
  function SelectedIn(order: map<string, nat>, s: seq<Contact>): (r: seq<Contact>)
    ensures forall i :: 0 <= i < |r| ==> r[i].id in order
    ensures |r| <= |s|
  {
    if |s| == 0 then []
    else (if s[0].id in order then [s[0]] else []) + SelectedIn(order, s[1..])
  }

  /** The contacts of `s` whose id is not selected, in the order they appear in `s`. */
  function UnselectedIn(order: map<string, nat>, s: seq<Contact>): seq<Contact>
  {
    if |s| == 0 then []
    else (if s[0].id in order then [] else [s[0]]) + UnselectedIn(order, s[1..])
  }

  /** The contacts of `s` of rank `k`, in the order they appear in `s`. */
  function OfRank(order: map<string, nat>, s: seq<Contact>, k: int): seq<Contact>
  {
    if |s| == 0 then []
    else (if Rank(order, s[0]) == k then [s[0]] else []) + OfRank(order, s[1..], k)
  }

  /** OfRank of a sequence with a given head. */
  lemma OfRankCons(order: map<string, nat>, c: Contact, s: seq<Contact>, k: int)
    ensures OfRank(order, [c] + s, k) == (if Rank(order, c) == k then [c] else []) + OfRank(order, s, k)
  {
  }

  /** Inserting `x` adds it in front of the other contacts of its rank and
      leaves every other rank alone. */
  lemma {:induction false} InsertOfRank(order: map<string, nat>, x: Contact, s: seq<Contact>, k: int)
    ensures OfRank(order, Insert(order, x, s), k)
              == (if Rank(order, x) == k then [x] else []) + OfRank(order, s, k)
    decreases |s|
  {
    if |s| == 0 || Compare(order, x, s[0]) <= 0 {
      OfRankCons(order, x, s, k);
    } else {
      var t := Insert(order, x, s[1..]);
      assert Insert(order, x, s) == [s[0]] + t;
      OfRankCons(order, s[0], t, k);
      InsertOfRank(order, x, s[1..], k);
      assert OfRank(order, s, k) == (if Rank(order, s[0]) == k then [s[0]] else []) + OfRank(order, s[1..], k);
    }
  }

  /** The sort is stable: contacts the comparator calls equal keep their
      relative fetch order. */
  lemma {:induction false} SortIsStable(order: map<string, nat>, data: seq<Contact>, k: int)
    ensures OfRank(order, SortContacts(order, data), k) == OfRank(order, data, k)
    decreases |data|
  {
    if |data| > 0 {
      SortIsStable(order, data[1..], k);
      InsertOfRank(order, data[0], SortContacts(order, data[1..]), k);
    }
  }

  /** The unselected contacts are exactly those of rank zero. */
  lemma {:induction false} UnselectedAreRankZero(order: map<string, nat>, s: seq<Contact>)
    ensures UnselectedIn(order, s) == OfRank(order, s, 0)
    decreases |s|
  {
    if |s| > 0 {
      UnselectedAreRankZero(order, s[1..]);
    }
  }

  /** Splitting a sequence into its selected and unselected contacts keeps its multiset. */
  lemma {:induction false} PartitionKeepsMultiset(order: map<string, nat>, s: seq<Contact>)
    ensures multiset(s) == multiset(SelectedIn(order, s)) + multiset(UnselectedIn(order, s))
    decreases |s|
  {
    if |s| > 0 {
      PartitionKeepsMultiset(order, s[1..]);
      assert s == [s[0]] + s[1..];
    }
  }

  /** A sequence in display order is its selected block followed by its unselected block. */
  lemma {:induction false} SortedSplits(order: map<string, nat>, s: seq<Contact>)
    requires Sorted(order, s)
    ensures s == SelectedIn(order, s) + UnselectedIn(order, s)
    decreases |s|
  {
    if |s| > 0 {
      assert Sorted(order, s[1..]) by {
        forall i, j | 0 <= i < j < |s[1..]|
          ensures Rank(order, s[1..][i]) <= Rank(order, s[1..][j])
        {
          assert s[1..][i] == s[i + 1] && s[1..][j] == s[j + 1];
        }
      }
      SortedSplits(order, s[1..]);
      if s[0].id !in order {
        AllUnselected(order, s);
      }
    }
  }

  /** Once a sequence in display order starts with an unselected contact, it has no selected one. */
  lemma {:induction false} AllUnselected(order: map<string, nat>, s: seq<Contact>)
    requires Sorted(order, s) && |s| > 0 && s[0].id !in order
    ensures SelectedIn(order, s) == []
    ensures UnselectedIn(order, s) == s
    decreases |s|
  {
    if |s| > 1 {
      assert Rank(order, s[0]) <= Rank(order, s[1]);
      assert Sorted(order, s[1..]) by {
        forall i, j | 0 <= i < j < |s[1..]|
          ensures Rank(order, s[1..][i]) <= Rank(order, s[1..][j])
        {
          assert s[1..][i] == s[i + 1] && s[1..][j] == s[j + 1];
        }
      }
      AllUnselected(order, s[1..]);
    }
    assert s == [s[0]] + s[1..];
  }

  /** The display order is its selected block followed by the unselected
      contacts of `data` in fetch order. */
  lemma SelectedThenUnselected(order: map<string, nat>, data: seq<Contact>)
    ensures var r := SortContacts(order, data);
      r == SelectedIn(order, r) + UnselectedIn(order, data)
  {
    SortedSplits(order, SortContacts(order, data));
    UnselectedKeepFetchOrder(order, data);
  }

  /** The selected block of the display order holds exactly the selected
      contacts of `data`. */
  lemma SelectedBlockIsPermutation(order: map<string, nat>, data: seq<Contact>)
    ensures multiset(SelectedIn(order, SortContacts(order, data))) == multiset(SelectedIn(order, data))
  {
    var r := SortContacts(order, data);
    UnselectedKeepFetchOrder(order, data);
    PartitionKeepsMultiset(order, r);
    PartitionKeepsMultiset(order, data);
    var u := multiset(UnselectedIn(order, data));
    CancelRight(multiset(SelectedIn(order, r)), multiset(SelectedIn(order, data)), u);
  }

  /** Multiset addition cancels on the right. */
  lemma CancelRight(a: multiset<Contact>, b: multiset<Contact>, u: multiset<Contact>)
    requires a + u == b + u
    ensures a == b
  {
    forall c
      ensures a[c] == b[c]
    {
      assert (a + u)[c] == (b + u)[c];
    }
  }

  /** The selected block of the display order is in descending selection number. */
  lemma SelectedBlockDescending(order: map<string, nat>, data: seq<Contact>)
    ensures var sel := SelectedIn(order, SortContacts(order, data));
      forall i, j :: 0 <= i < j < |sel| ==> order[sel[i].id] >= order[sel[j].id]
  {
    var r := SortContacts(order, data);
    SelectedThenUnselected(order, data);
    var sel := SelectedIn(order, r);
    forall i, j | 0 <= i < j < |sel|
      ensures order[sel[i].id] >= order[sel[j].id]
    {
      assert r[i] == sel[i] && r[j] == sel[j];
      assert Rank(order, r[i]) <= Rank(order, r[j]);
    }
  }

  /** In the display order every selected contact comes before every unselected one. */
  lemma SelectedBeforeUnselected(order: map<string, nat>, data: seq<Contact>)
    ensures var r := SortContacts(order, data);
      forall i, j :: 0 <= i < |r| && 0 <= j < |r| && r[i].id in order && r[j].id !in order ==> i < j
  {
  }

  /** In the display order selected contacts have descending selection numbers. */
  lemma MostRecentFirst(order: map<string, nat>, data: seq<Contact>)
    ensures var r := SortContacts(order, data);
      forall i, j :: 0 <= i < j < |r| && r[i].id in order && r[j].id in order ==>
        order[r[i].id] >= order[r[j].id]
  {
  }

  /** Unselected contacts keep their relative fetch order. */
  lemma UnselectedKeepFetchOrder(order: map<string, nat>, data: seq<Contact>)
    ensures UnselectedIn(order, SortContacts(order, data)) == UnselectedIn(order, data)
  {
    SortIsStable(order, data, 0);
    UnselectedAreRankZero(order, SortContacts(order, data));
    UnselectedAreRankZero(order, data);
  }

  /** The contact whose id holds the strictly largest selection number is shown first. */
  lemma NewestSelectedComesFirst(order: map<string, nat>, data: seq<Contact>, id: string)
    requires id in order
    requires exists k :: 0 <= k < |data| && data[k].id == id
    requires forall other :: other in order && other != id ==> order[other] < order[id]
    ensures |SortContacts(order, data)| > 0 && SortContacts(order, data)[0].id == id
  {
    var r := SortContacts(order, data);
    var k :| 0 <= k < |data| && data[k].id == id;
    assert data[k] in multiset(r);
    var m :| 0 <= m < |r| && r[m] == data[k];
    if m != 0 {
      assert Rank(order, r[0]) <= Rank(order, r[m]);
    }
  }
}
