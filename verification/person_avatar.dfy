/** The initials an avatar shows for a person without a picture: the first
    characters of the first two space-separated segments of the full name. */
module PersonAvatar {
  import opened Types

  const Space: char := ' '

  /** `String.prototype.split(' ')`: the segments between single spaces.
      There is always at least one segment, and segments may be empty. */
  function Split(s: string): (parts: seq<string>)
    ensures |parts| >= 1
    ensures forall i :: 0 <= i < |parts| ==> Space !in parts[i]
    decreases |s|
  {
    if |s| == 0 then [""]
    else if s[0] == Space then [""] + Split(s[1..])
    else
      var rest := Split(s[1..]);
      [[s[0]] + rest[0]] + rest[1..]
  }

  /** `Array.prototype.join(' ')`: the segments with one space between each two. */
  function Join(parts: seq<string>): string
    requires |parts| >= 1
    decreases |parts|
  {
    if |parts| == 1 then parts[0] else parts[0] + [Space] + Join(parts[1..])
  }

  /** Joining the segments gives the original text back. */
  lemma {:induction false} JoinSplit(s: string)
    ensures Join(Split(s)) == s
    decreases |s|
  {
    if |s| > 0 {
      JoinSplit(s[1..]);
      var rest := Split(s[1..]);
      if s[0] != Space && |rest| > 1 {
        assert rest == [rest[0]] + rest[1..];
        assert Join(rest) == rest[0] + [Space] + Join(rest[1..]);
      }
      assert s == [s[0]] + s[1..];
    }
  }

  /** A segment without spaces splits into itself. */
  lemma {:induction false} SplitWord(a: string)
    requires Space !in a
    ensures Split(a) == [a]
    decreases |a|
  {
    if |a| > 0 {
      SplitWord(a[1..]);
      assert a == [a[0]] + a[1..];
    }
  }

  /** A leading segment without spaces, then a space, splits off as the first segment. */
  lemma {:induction false} SplitAfterWord(a: string, t: string)
    requires Space !in a
    ensures Split(a + [Space] + t) == [a] + Split(t)
    decreases |a|
  {
    var s := a + [Space] + t;
    if |a| == 0 {
      assert s == [Space] + t;
      assert s[1..] == t;
    } else {
      assert s[1..] == a[1..] + [Space] + t;
      SplitAfterWord(a[1..], t);
      assert a == [a[0]] + a[1..];
    }
  }

  /** Splitting joined space-free segments gives the segments back. */
  lemma {:induction false} SplitJoin(parts: seq<string>)
    requires |parts| >= 1
    requires forall i :: 0 <= i < |parts| ==> Space !in parts[i]
    ensures Split(Join(parts)) == parts
    decreases |parts|
  {
    if |parts| == 1 {
      SplitWord(parts[0]);
    } else {
      SplitJoin(parts[1..]);
      SplitAfterWord(parts[0], Join(parts[1..]));
      assert parts == [parts[0]] + parts[1..];
    }
  }

  /** `name[0]` of one segment: its first character, absent (`undefined`)
      when the segment is empty. */
  function FirstChar(segment: string): Option<char>
  {
    if |segment| == 0 then None else Some(segment[0])
  }

  /** `Array.prototype.join('')` over first characters: an absent one
      contributes the empty string. */
  function JoinChars(cs: seq<Option<char>>): (r: string)
    ensures |r| <= |cs|
    ensures forall i :: 0 <= i < |r| ==> Some(r[i]) in cs
    decreases |cs|
  {
    if |cs| == 0 then ""
    else
      var head := match cs[0] case None => "" case Some(c) => [c];
      var tail := JoinChars(cs[1..]);
      assert forall i :: 0 <= i < |tail| ==> Some(tail[i]) in cs by {
        forall i | 0 <= i < |tail|
          ensures Some(tail[i]) in cs
        {
          var k :| 0 <= k < |cs[1..]| && cs[1..][k] == Some(tail[i]);
          assert cs[k + 1] == Some(tail[i]);
        }
      }
      head + tail
  }

  /** The avatar's initials: split the full name on spaces, take the first
      character of each segment, keep the first two results and join them. */
  function Initials(fullName: string): (r: string)
    ensures |r| <= 2
    ensures forall i :: 0 <= i < |r| ==> r[i] != Space
  {
    var parts := Split(fullName);
    var kept := KeptFirstChars(parts);
    var r := JoinChars(kept);
    assert forall i :: 0 <= i < |r| ==> r[i] != Space by {
      forall i | 0 <= i < |r|
        ensures r[i] != Space
      {
        var k :| 0 <= k < |kept| && kept[k] == Some(r[i]);
        assert r[i] == parts[k][0];
      }
    }
    r
  }

  /** What one segment contributes to the initials: its first character, or nothing. */
  function Initial(segment: string): string
  {
    if |segment| == 0 then "" else [segment[0]]
  }

  /** The first characters kept from the segments `parts`: at most the first two. */
  function KeptFirstChars(parts: seq<string>): seq<Option<char>>
  {
    var firsts := seq(|parts|, i requires 0 <= i < |parts| => FirstChar(parts[i]));
    firsts[..if |firsts| < 2 then |firsts| else 2]
  }

  /** Joining one or two kept first characters. */
  lemma JoinKept(parts: seq<string>)
    requires |parts| >= 1
    ensures JoinChars(KeptFirstChars(parts)) == Initial(parts[0]) + (if |parts| >= 2 then Initial(parts[1]) else "")
  {
  }

  /** Initials of any name, given as its space-free segments: the contribution
      of the first segment followed by that of the second, if there is one. */
  lemma InitialsOfSegments(parts: seq<string>)
    requires |parts| >= 1
    requires forall i :: 0 <= i < |parts| ==> Space !in parts[i]
    ensures Initials(Join(parts)) == Initial(parts[0]) + (if |parts| >= 2 then Initial(parts[1]) else "")
  {
    SplitJoin(parts);
    assert Initials(Join(parts)) == JoinChars(KeptFirstChars(parts));
    JoinKept(parts);
  }

  /** A name without spaces gives its first character, and the empty name gives nothing. */
  lemma InitialsOfOneWord(a: string)
    requires Space !in a
    ensures Initials(a) == Initial(a)
    ensures |a| == 0 ==> Initials(a) == ""
    ensures |a| > 0 ==> Initials(a) == [a[0]]
  {
    assert Join([a]) == a;
    InitialsOfSegments([a]);
  }

  /** Two space-free segments give one initial each, an empty one giving none. */
  lemma InitialsOfTwoWords(a: string, b: string)
    requires Space !in a && Space !in b
    ensures Initials(a + [Space] + b) == Initial(a) + Initial(b)
  {
    assert Join([a, b]) == a + [Space] + b by {
      assert [a, b][1..] == [b];
    }
    InitialsOfSegments([a, b]);
  }

  /** Whatever follows the second segment never changes the initials. */
  lemma LaterWordsIgnored(a: string, b: string, rest: string)
    requires Space !in a && Space !in b
    ensures Initials(a + [Space] + b + [Space] + rest) == Initials(a + [Space] + b)
  {
    var tail := Split(rest);
    JoinSplit(rest);
    var parts := [a, b] + tail;
    assert parts[2..] == tail;
    assert Join(parts[1..]) == b + [Space] + Join(tail) by {
      assert parts[1..] == [b] + tail;
      assert parts[1..][1..] == tail;
    }
    assert Join(parts) == a + [Space] + b + [Space] + rest;
    InitialsOfSegments(parts);
    InitialsOfTwoWords(a, b);
  }

  /** A two-word name gives one initial per word. */
  lemma InitialsOfPersonName()
    ensures Initials("Person 12") == "P1"
  {
  }

  /** A leading space makes an empty first segment, which still takes one of
      the two slots: only the second word's initial is shown. */
  lemma InitialsWithLeadingSpace()
    ensures Initials(" Bob Smith") == "B"
  {
  }
}
