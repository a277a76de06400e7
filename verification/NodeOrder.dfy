/** The order in which the planner lists node IDs, and why sorting makes its
    entry and exit lists independent of map iteration order. */
module NodeOrder {
  import opened Sequences
  import opened Graphs

  /** Lexicographic order on strings. */
  predicate Before(a: string, b: string)
    decreases |a|
  {
    if b == "" then false
    else if a == "" then true
    else a[0] < b[0] || (a[0] == b[0] && Before(a[1..], b[1..]))
  }

  predicate Less(a: NodeID, b: NodeID) {
    Before(a.name, b.name)
  }

  lemma {:induction false} BeforeTrans(a: string, b: string, c: string)
    requires Before(a, b) && Before(b, c)
    ensures Before(a, c)
    decreases |a|
  {
    if a != "" && a[0] == b[0] == c[0] {
      BeforeTrans(a[1..], b[1..], c[1..]);
    }
  }

  lemma {:induction false} BeforeTotal(a: string, b: string)
    ensures a == b || Before(a, b) || Before(b, a)
    ensures !(Before(a, b) && Before(b, a)) && !Before(a, a)
    decreases |a|
  {
    if a != "" && b != "" {
      BeforeTotal(a[1..], b[1..]);
      assert a == [a[0]] + a[1..] && b == [b[0]] + b[1..];
    }
    if a != "" {
      BeforeTotal(a[1..], a[1..]);
    }
  }

  /** What decides: the first characters that differ, the smaller going first, or, if one string
      is a proper beginning of the other, the length, the shorter going first. */
  lemma {:induction false} BeforeIff(a: string, b: string)
    ensures Before(a, b) <==>
            a < b || exists i :: 0 <= i < |a| && i < |b| && a[..i] == b[..i] && a[i] < b[i]
    decreases |a|
  {
    if a != "" && b != "" && a[0] == b[0] {
      BeforeIff(a[1..], b[1..]);
      if a[1..] < b[1..] {
        assert a == [a[0]] + a[1..] && b == [b[0]] + b[1..];
      }
      if i :| 0 <= i < |a| - 1 && i < |b| - 1 && a[1..][..i] == b[1..][..i] && a[1..][i] < b[1..][i] {
        assert a[..i + 1] == [a[0]] + a[1..][..i] && b[..i + 1] == [b[0]] + b[1..][..i];
        assert a[i + 1] < b[i + 1];
      }
      if i :| 0 <= i < |a| && i < |b| && a[..i] == b[..i] && a[i] < b[i] {
        assert a[1..][..i - 1] == a[..i][1..] && b[1..][..i - 1] == b[..i][1..];
        assert a[1..][i - 1] < b[1..][i - 1];
      }
    } else if a != "" && b != "" {
      assert a[0] < b[0] ==> a[..0] == b[..0];
    }
  }

  /** So an ID goes before another exactly if its name does. */
  lemma LessIff(a: NodeID, b: NodeID)
    ensures Less(a, b) <==>
            a.name < b.name
            || exists i :: 0 <= i < |a.name| && i < |b.name| && a.name[..i] == b.name[..i] && a.name[i] < b.name[i]
  {
    BeforeIff(a.name, b.name);
  }

  ghost predicate StrictlySorted(s: seq<NodeID>) {
    forall i, j :: 0 <= i < j < |s| ==> Less(s[i], s[j])
  }

  /** The sorted enumeration of a set. */
  ghost predicate Lists(s: seq<NodeID>, nodes: set<NodeID>) {
    StrictlySorted(s) && forall x :: x in s <==> x in nodes
  }

  lemma FirstIsLeast(s: seq<NodeID>, x: NodeID)
    requires StrictlySorted(s) && x in s && s != []
    ensures x == s[0] || Less(s[0], x)
  {
  }

  /** Whatever is less than an element of a sorted list stands before it. */
  lemma StandsBefore(s: seq<NodeID>, i: nat, x: NodeID)
    requires StrictlySorted(s) && i < |s| && x in s && Less(x, s[i])
    ensures x in s[..i]
  {
    var j :| 0 <= j < |s| && s[j] == x;
    BeforeTotal(x.name, s[i].name);
    assert j < i ==> s[..i][j] == x;
  }

  lemma TailLists(s: seq<NodeID>, nodes: set<NodeID>)
    requires Lists(s, nodes) && s != []
    ensures Lists(s[1..], nodes - {s[0]})
  {
    forall x ensures x in s[1..] <==> x in nodes - {s[0]} {
      if x in s && x != s[0] {
        var i :| 0 <= i < |s| && s[i] == x;
        assert s[1..][i - 1] == x;
      }
      if x in s[1..] {
        var i :| 0 <= i < |s[1..]| && s[1..][i] == x;
        assert Less(s[0], s[i + 1]);
        BeforeTotal(x.name, x.name);
      }
    }
  }

  /** A set has one sorted enumeration, so the lists below do not depend on the
      order in which a map was visited. */
  lemma {:induction false} ListingUnique(s: seq<NodeID>, t: seq<NodeID>, nodes: set<NodeID>)
    requires Lists(s, nodes) && Lists(t, nodes)
    ensures s == t
    decreases |s|
  {
    assert |s| > 0 ==> s[0] in nodes && s[0] in t;
    assert |t| > 0 ==> t[0] in nodes && t[0] in s;
    if s != [] && t != [] {
      FirstIsLeast(s, t[0]);
      FirstIsLeast(t, s[0]);
      BeforeTotal(s[0].name, t[0].name);
      TailLists(s, nodes);
      TailLists(t, nodes);
      ListingUnique(s[1..], t[1..], nodes - {s[0]});
      assert s == [s[0]] + s[1..] && t == [t[0]] + t[1..];
    }
  }

  /** Puts a new ID at its place in a sorted list. */
  method Insert(sorted: seq<NodeID>, x: NodeID) returns (r: seq<NodeID>)
    requires StrictlySorted(sorted) && x !in sorted
    ensures StrictlySorted(r) && forall y :: y in r <==> y == x || y in sorted
  {
    var i := 0;
    while i < |sorted| && Less(sorted[i], x)
      invariant 0 <= i <= |sorted|
      invariant forall j :: 0 <= j < i ==> Less(sorted[j], x)
    {
      i := i + 1;
    }
    r := sorted[..i] + [x] + sorted[i..];
    forall j | i <= j < |sorted| ensures Less(x, sorted[j]) {
      BeforeTotal(sorted[i].name, x.name);
      if i < j {
        BeforeTrans(x.name, sorted[i].name, sorted[j].name);
      }
    }
    assert forall y :: y in sorted <==> y in sorted[..i] || y in sorted[i..] by {
      assert sorted == sorted[..i] + sorted[i..];
    }
  }

  method SortIDs(ids: seq<NodeID>) returns (result: seq<NodeID>)
    requires Distinct(ids)
    ensures Lists(result, set x | x in ids)
  {
    result := [];
    for i := 0 to |ids|
      invariant Lists(result, set x | x in ids[..i])
    {
      assert ids[..i + 1] == ids[..i] + [ids[i]];
      result := Insert(result, ids[i]);
    }
    assert ids[..|ids|] == ids;
  }

  /** Drops repeated IDs and sorts the rest. */
  method UniqueNodeIDs(ids: seq<NodeID>) returns (result: seq<NodeID>)
    ensures Lists(result, set x | x in ids)
  {
    if |ids| == 0 {
      return [];
    }
    var seen: set<NodeID> := {};
    result := [];
    for i := 0 to |ids|
      invariant forall x :: x in seen <==> x in ids[..i]
      invariant Distinct(result) && forall x :: x in result <==> x in seen
    {
      assert ids[..i + 1] == ids[..i] + [ids[i]];
      if ids[i] !in seen {
        seen := seen + {ids[i]};
        result := result + [ids[i]];
      }
    }
    assert ids[..|ids|] == ids;
    assert (set x | x in result) == (set x | x in ids);
    result := SortIDs(result);
  }
}
