/**
 * The sidebar of the replay screen: the active cars ranked by position
 * (then car number), the first six listed under the clock with their
 * driver's colour and "pos.name" label.
 */
module Sidebar {
  import opened Physics
  import Roster
  import Text
  import Sets

  /** How many cars the sidebar lists at most. */
  const Rows: nat := 6

  /** `std::pair<int, int>`'s `<`: by position first, then by car number. */
  predicate Before(a: (int, int), b: (int, int))
  {
    a.0 < b.0 || (a.0 == b.0 && a.1 < b.1)
  }

  /** The (position, car number) entries of the active cars. */
  function ActiveEntries(cars: map<int, Car>): set<(int, int)>
  {
    set id | id in cars && cars[id].active :: (cars[id].pos, id)
  }

  predicate Distinct<T(==)>(s: seq<T>)
  {
    forall i, j :: 0 <= i < j < |s| ==> s[i] != s[j]
  }

  // ---------------------------------------------------------------------
  // Facts about sequences the ranking needs

  lemma {:induction false} DistinctCount<T>(s: seq<T>)
    requires Distinct(s)
    ensures |set x | x in s| == |s|
  {
    if |s| > 0 {
      DistinctCount(s[1..]);
      assert (set x | x in s) == {s[0]} + (set x | x in s[1..]);
      assert s[0] !in (set x | x in s[1..]);
    }
  }

  lemma {:induction false} DistinctOnce<T>(s: seq<T>, x: T)
    requires Distinct(s)
    ensures multiset(s)[x] <= 1
  {
    if |s| > 0 {
      DistinctOnce(s[1..], x);
      assert s == [s[0]] + s[1..];
      assert s[0] !in s[1..];
    }
  }

  lemma Twice<T>(s: seq<T>, p: nat, q: nat)
    requires p < q < |s| && s[p] == s[q]
    ensures multiset(s)[s[p]] >= 2
  {
    assert s == s[..p] + [s[p]] + s[p + 1..q] + [s[q]] + s[q + 1..];
  }

  /** A rearrangement of a sequence without repeats has no repeats. */
  lemma PermutationDistinct<T>(s: seq<T>, t: seq<T>)
    requires Distinct(s) && multiset(s) == multiset(t)
    ensures Distinct(t)
  {
    forall p, q | 0 <= p < q < |t|
      ensures t[p] != t[q]
    {
      if t[p] == t[q] {
        Twice(t, p, q);
        DistinctOnce(s, t[p]);
        assert false;
      }
    }
  }

  // ---------------------------------------------------------------------
  // std::sort

  /** `std::sort` on the entries: ascending and a permutation of what was there. */
  method SortEntries(a: array<(int, int)>)
    modifies a
    ensures forall p, q :: 0 <= p < q < a.Length ==> !Before(a[q], a[p])
    ensures multiset(a[..]) == multiset(old(a[..]))
  {
    var i := 0;
    while i < a.Length
      invariant 0 <= i <= a.Length
      invariant forall p, q :: 0 <= p < q < i ==> !Before(a[q], a[p])
      invariant multiset(a[..]) == multiset(old(a[..]))
    {
      var j := i;
      while j > 0 && Before(a[j], a[j - 1])
        invariant 0 <= j <= i
        invariant forall p, q :: 0 <= p < q <= i && q != j ==> !Before(a[q], a[p])
        invariant multiset(a[..]) == multiset(old(a[..]))
      {
        a[j - 1], a[j] := a[j], a[j - 1];
        j := j - 1;
      }
      i := i + 1;
    }
  }

  // ---------------------------------------------------------------------
  // The ranking

  /**
   * The collecting loop of `drawSidebar`: one (position, number) pair per
   * active car, each exactly once.
   */
  method CollectEntries(cars: map<int, Car>) returns (entries: seq<(int, int)>)
    ensures forall e :: e in entries <==> e in ActiveEntries(cars)
    ensures forall i, j :: 0 <= i < j < |entries| ==> entries[i].1 != entries[j].1
    ensures |entries| == |ActiveEntries(cars)|
  {
    entries := [];
    var left := cars.Keys;
    while left != {}
      invariant left <= cars.Keys
      invariant forall i :: 0 <= i < |entries| ==> EntryOf(cars, entries[i]) && entries[i].1 !in left
      invariant forall id :: id in cars && id !in left && cars[id].active ==> (cars[id].pos, id) in entries
      invariant forall i, j :: 0 <= i < j < |entries| ==> entries[i].1 != entries[j].1
      decreases |left|
    {
      Sets.HasMember(left);
      var id :| id in left;
      if cars[id].active {
        entries := entries + [(cars[id].pos, id)];
      }
      left := left - {id};
    }
    EntriesAreActive(cars, entries);
  }

  /** `e` is the entry of an active car. */
  predicate EntryOf(cars: map<int, Car>, e: (int, int))
  {
    e.1 in cars && cars[e.1].active && e.0 == cars[e.1].pos
  }

  lemma EntriesAreActive(cars: map<int, Car>, entries: seq<(int, int)>)
    requires forall i :: 0 <= i < |entries| ==> EntryOf(cars, entries[i])
    requires forall id :: id in cars && cars[id].active ==> (cars[id].pos, id) in entries
    requires forall i, j :: 0 <= i < j < |entries| ==> entries[i].1 != entries[j].1
    ensures forall e :: e in entries <==> e in ActiveEntries(cars)
    ensures |entries| == |ActiveEntries(cars)|
  {
    forall e | e in ActiveEntries(cars)
      ensures e in entries
    {
      var id :| id in cars && cars[id].active && e == (cars[id].pos, id);
    }
    assert (set e | e in entries) == ActiveEntries(cars);
    DistinctCount(entries);
  }

  /**
   * In an ascending sequence without repeats every entry comes strictly
   * before every later one, so a prefix holds the smallest entries.
   */
  lemma SortedPrefix(s: seq<(int, int)>, limit: nat, e: (int, int), i: nat)
    requires forall p, q :: 0 <= p < q < |s| ==> !Before(s[q], s[p])
    requires Distinct(s) && limit <= |s|
    requires e in s && e !in s[..limit] && i < limit
    ensures Before(s[i], e)
  {
    var k :| 0 <= k < |s| && s[k] == e;
    assert s[i] != s[k];
  }

  /**
   * The first `limit` entries of an ascending sequence without repeats are
   * strictly ascending, and every other entry of the set it lists ranks
   * below each of them.
   */
  lemma SortedTop(sorted: seq<(int, int)>, all: set<(int, int)>, limit: nat)
    requires forall p, q :: 0 <= p < q < |sorted| ==> !Before(sorted[q], sorted[p])
    requires Distinct(sorted) && limit <= |sorted|
    requires forall e :: e in sorted <==> e in all
    ensures forall i, j :: 0 <= i < j < limit ==> Before(sorted[i], sorted[j])
    ensures forall e, i :: e in all && e !in sorted[..limit] && 0 <= i < limit ==> Before(sorted[i], e)
  {
    forall e, i | e in all && e !in sorted[..limit] && 0 <= i < limit
      ensures Before(sorted[i], e)
    {
      SortedPrefix(sorted, limit, e, i);
    }
  }

  /** A car has one entry: two active entries with the same number are the same entry. */
  lemma OneEntryPerCar(cars: map<int, Car>, e: (int, int), f: (int, int))
    requires e in ActiveEntries(cars) && f in ActiveEntries(cars) && e.1 == f.1
    ensures e == f
  {
  }

  /**
   * The order of `drawSidebar`: collect the (position, number) pair of every
   * active car, sort the pairs, keep the first six. The result is strictly
   * ascending, holds only active cars, at most one entry per car, as many as
   * there are active cars up to six, and every active car left out ranks
   * below every car listed.
   */
  method RankOrder(cars: map<int, Car>) returns (top: seq<(int, int)>)
    ensures forall i, j :: 0 <= i < j < |top| ==> Before(top[i], top[j])
    ensures forall i :: 0 <= i < |top| ==> top[i] in ActiveEntries(cars)
    ensures |top| == if |ActiveEntries(cars)| < Rows then |ActiveEntries(cars)| else Rows
    ensures forall e, i :: e in ActiveEntries(cars) && e !in top && 0 <= i < |top| ==> Before(top[i], e)
    ensures forall i, j :: 0 <= i < j < |top| ==> top[i].1 != top[j].1
  {
    var sorted := SortedEntries(cars);
    var limit := if |sorted| < Rows then |sorted| else Rows;
    SortedTop(sorted, ActiveEntries(cars), limit);
    top := sorted[..limit];
    forall i, j | 0 <= i < j < |top|
      ensures top[i].1 != top[j].1
    {
      if top[i].1 == top[j].1 {
        OneEntryPerCar(cars, top[i], top[j]);
      }
    }
  }

  /** The entries of the active cars, collected and then sorted in place. */
  method SortedEntries(cars: map<int, Car>) returns (sorted: seq<(int, int)>)
    ensures forall p, q :: 0 <= p < q < |sorted| ==> !Before(sorted[q], sorted[p])
    ensures Distinct(sorted)
    ensures forall e :: e in sorted <==> e in ActiveEntries(cars)
    ensures |sorted| == |ActiveEntries(cars)|
  {
    var entries := CollectEntries(cars);
    var a := new (int, int)[|entries|](k requires 0 <= k < |entries| => entries[k]);
    assert a[..] == entries;
    SortEntries(a);
    sorted := a[..];
    assert Distinct(entries);
    PermutationDistinct(entries, sorted);
    assert forall e :: e in sorted <==> e in ActiveEntries(cars) by {
      forall e
        ensures e in sorted <==> e in multiset(sorted)
      {
      }
    }
  }

  // ---------------------------------------------------------------------
  // The listed rows

  /** One sidebar row: a colour swatch at `y` and the label printed beside it. */
  datatype Row = Row(y: int, colour: Roster.Rgb, text: string)

  /** The label `"%d.%s"` of a row. */
  function Label(pos: int, name: string): string
  {
    Text.Printf(pos, 0) + "." + name
  }

  /**
   * The row loop of `drawSidebar`: rows 15 pixels apart from y = 25, each
   * with the first matching driver's colour and name ("???" and white when
   * the number is not in the roster).
   */
  method SidebarRows(top: seq<(int, int)>, drivers: seq<Roster.Driver>) returns (rows: seq<Row>)
    ensures |rows| == |top|
    ensures forall i :: 0 <= i < |rows| ==>
      rows[i] == Row(25 + 15 * i, Roster.Shown(drivers, top[i].1).1, Label(top[i].0, Roster.Shown(drivers, top[i].1).0))
  {
    rows := [];
    var y := 25;
    var i := 0;
    while i < |top|
      invariant 0 <= i <= |top|
      invariant y == 25 + 15 * i
      invariant |rows| == i
      invariant forall k :: 0 <= k < i ==>
        rows[k] == Row(25 + 15 * k, Roster.Shown(drivers, top[k].1).1, Label(top[k].0, Roster.Shown(drivers, top[k].1).0))
    {
      var name, colour := Roster.Lookup(drivers, top[i].1);
      rows := rows + [Row(y, colour, Label(top[i].0, name))];
      y := y + 15;
      i := i + 1;
    }
  }

  /** A row's label reads back, by `atol`, as the position it was printed from. */
  lemma LabelReadsBack(pos: int, name: string)
    requires Text.LongMin <= pos <= Text.LongMax
    ensures Text.ToInt(Label(pos, name)) == pos
  {
    assert Label(pos, name) == Text.Printf(pos, 0) + ("." + name);
    Text.ToIntPrintf(pos, 0, "." + name);
  }
}
