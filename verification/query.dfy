/**
 * The read side of the memory store: the view shown on the page is the
 * records that match the search text and the selected category, most
 * recent first. Pure: it is recomputed from the collection on every read.
 */
module MemoryQuery {
  import opened Types
  import opened Collections

  /** Lower-case form of one character (ASCII letters only). */
  function LowerChar(c: char): (l: char)
    ensures 'A' <= c <= 'Z' ==> 'a' <= l <= 'z' && l as int - c as int == 32
    ensures !('A' <= c <= 'Z') ==> l == c
  {
    if 'A' <= c <= 'Z' then (c as int + 32) as char else c
  }

  /** Lower-case form of a string, character by character. */
  function Lower(s: string): (l: string)
    ensures |l| == |s|
    ensures forall i :: 0 <= i < |s| ==> l[i] == LowerChar(s[i])
  {
    seq(|s|, i requires 0 <= i < |s| => LowerChar(s[i]))
  }

  /** Whether `needle` occurs as a contiguous part of `hay`; the empty needle occurs everywhere. */
  function Contains(hay: string, needle: string): bool
    decreases |hay|
  {
    |needle| <= |hay| && (hay[..|needle|] == needle || Contains(hay[1..], needle))
  }

  /** `needle` occurs in `hay` starting at position `i`. */
  predicate OccursAt(hay: string, needle: string, i: int)
  {
    0 <= i <= |hay| - |needle| && hay[i..i + |needle|] == needle
  }

  /** `Contains` agrees with the positional definition of a substring. */
  lemma {:induction false} ContainsAt(hay: string, needle: string)
    ensures Contains(hay, needle) <==> exists i :: OccursAt(hay, needle, i)
    decreases |hay|
  {
    if |needle| <= |hay| {
      if hay[..|needle|] == needle {
        assert OccursAt(hay, needle, 0);
      } else {
        ContainsAt(hay[1..], needle);
        if Contains(hay[1..], needle) {
          var j :| OccursAt(hay[1..], needle, j);
          assert hay[1..][j..j + |needle|] == hay[j + 1..j + 1 + |needle|];
          assert OccursAt(hay, needle, j + 1);
        }
        forall i | OccursAt(hay, needle, i) ensures OccursAt(hay[1..], needle, i - 1) {
          assert i != 0;
          assert hay[1..][i - 1..i - 1 + |needle|] == hay[i..i + |needle|];
        }
      }
    }
  }

  /** The category filter: everything, or one category of the closed set. */
  datatype Selection = All | Only(category: Category)

  /** A record matches the search when the lower-cased text occurs in its lower-cased title or description. */
  predicate MatchesSearch(m: Memory, searchQuery: string)
    ensures MatchesSearch(m, searchQuery) <==>
      (exists i :: OccursAt(Lower(m.title), Lower(searchQuery), i)) ||
      (exists i :: OccursAt(Lower(m.description), Lower(searchQuery), i))
  {
    ContainsAt(Lower(m.title), Lower(searchQuery));
    ContainsAt(Lower(m.description), Lower(searchQuery));
    Contains(Lower(m.title), Lower(searchQuery)) || Contains(Lower(m.description), Lower(searchQuery))
  }

  /** A record matches the selection when it is `All` or names the record's category string exactly. */
  predicate MatchesCategory(m: Memory, selected: Selection)
  {
    selected == All || m.category == CategoryName(selected.category)
  }

  predicate Matches(m: Memory, searchQuery: string, selected: Selection)
  {
    MatchesSearch(m, searchQuery) && MatchesCategory(m, selected)
  }

  /** The records passing both filters, in collection order. */
  function Matching(memories: seq<Memory>, searchQuery: string, selected: Selection): seq<Memory>
  {
    Filter(memories, (m: Memory) => Matches(m, searchQuery, selected))
  }

  /** The records carrying timestamp `d`, in the order given. */
  function OfDate(s: seq<Memory>, d: int): seq<Memory>
  {
    Filter(s, (m: Memory) => m.date == d)
  }

  /** Most recent first: dates never increase along the sequence. */
  predicate Sorted(s: seq<Memory>)
  {
    forall i, j :: 0 <= i < j < |s| ==> s[i].date >= s[j].date
  }

  /** Places `x` in front of the first record that is not more recent than it. */
  function Insert(x: Memory, s: seq<Memory>): (r: seq<Memory>)
    ensures multiset(r) == multiset(s) + multiset{x}
  {
    if s == [] || x.date >= s[0].date then [x] + s
    else
      assert s == [s[0]] + s[1..];
      [s[0]] + Insert(x, s[1..])
  }

  /** Inserting into a sequence sorted most recent first keeps it sorted. */
  lemma {:induction false} InsertSorted(x: Memory, s: seq<Memory>)
    requires Sorted(s)
    ensures Sorted(Insert(x, s))
  {
    if s != [] && x.date < s[0].date {
      var t := Insert(x, s[1..]);
      InsertSorted(x, s[1..]);
      SameMembers(t, s[1..] + [x]);
      var r := [s[0]] + t;
      forall i, j | 0 <= i < j < |r| ensures r[i].date >= r[j].date {
        if i == 0 {
          assert r[j] == t[j - 1] && t[j - 1] in t;
          assert r[j] in s[1..] + [x];
          if r[j] != x {
            var k :| 0 <= k < |s[1..]| && s[1..][k] == r[j];
            assert s[k + 1] == r[j];
          }
        } else {
          assert r[i] == t[i - 1] && r[j] == t[j - 1];
        }
      }
    }
  }

  /**
   * Sorting by date, most recent first, as the comparator `b - a` over
   * timestamps asks of a stable sort: an insertion sort that never moves a
   * record in front of an earlier one with the same date.
   */
  function SortByDate(s: seq<Memory>): (r: seq<Memory>)
    ensures Sorted(r)
    ensures multiset(r) == multiset(s)
  {
    if s == [] then []
    else
      assert s == [s[0]] + s[1..];
      InsertSorted(s[0], SortByDate(s[1..]));
      Insert(s[0], SortByDate(s[1..]))
  }

  /** Sequences holding the same multiset hold the same members. */
  lemma SameMembers<T>(a: seq<T>, b: seq<T>)
    requires multiset(a) == multiset(b)
    ensures forall x | x in a :: x in b
    ensures forall x | x in b :: x in a
  {
    forall x | x in a ensures x in b {
      assert x in multiset(a);
    }
    forall x | x in b ensures x in a {
      assert x in multiset(b);
    }
  }

  /** One step of `OfDate`: the head is kept exactly when it carries the date. */
  lemma OfDateCons(m: Memory, s: seq<Memory>, d: int)
    ensures OfDate([m] + s, d) == (if m.date == d then [m] else []) + OfDate(s, d)
  {
  }

  /** Records with one timestamp keep their relative order when another record is inserted. */
  lemma {:induction false} InsertKeepsDateOrder(x: Memory, s: seq<Memory>, d: int)
    ensures OfDate(Insert(x, s), d) == OfDate([x] + s, d)
  {
    if s != [] && x.date < s[0].date {
      InsertKeepsDateOrder(x, s[1..], d);
      OfDateCons(s[0], Insert(x, s[1..]), d);
      OfDateCons(x, s[1..], d);
      OfDateCons(x, s, d);
      assert s == [s[0]] + s[1..];
      OfDateCons(s[0], s[1..], d);
    }
  }

  /** The sort is stable: records with equal dates keep the order they had before sorting. */
  lemma {:induction false} SortIsStable(s: seq<Memory>, d: int)
    ensures OfDate(SortByDate(s), d) == OfDate(s, d)
  {
    if s != [] {
      SortIsStable(s[1..], d);
      InsertKeepsDateOrder(s[0], SortByDate(s[1..]), d);
      OfDateCons(s[0], SortByDate(s[1..]), d);
      assert s == [s[0]] + s[1..];
      OfDateCons(s[0], s[1..], d);
    }
  }

  /** In a sequence sorted most recent first, no record is more recent than the head. */
  lemma HeadIsLatest(s: seq<Memory>, m: Memory)
    requires Sorted(s) && m in s
    ensures s[0].date >= m.date
  {
  }

  /**
   * Two sequences sorted most recent first that agree on the order of the
   * records of every date are equal: a stable date-descending sort has only
   * one possible result.
   */
  lemma {:induction false} StableSortUnique(a: seq<Memory>, b: seq<Memory>)
    requires Sorted(a) && Sorted(b)
    requires forall d :: OfDate(a, d) == OfDate(b, d)
    ensures a == b
    decreases |a|
  {
    assert a != [] ==> a[0] in OfDate(a, a[0].date) && OfDate(b, a[0].date) != [];
    assert b != [] ==> b[0] in OfDate(b, b[0].date) && OfDate(a, b[0].date) != [];
    if a != [] && b != [] {
      var da, db := a[0].date, b[0].date;
      assert b[0] in OfDate(b, db);
      assert b[0] in a;
      HeadIsLatest(a, b[0]);
      assert a[0] in OfDate(a, da);
      assert a[0] in b;
      HeadIsLatest(b, a[0]);
      assert da == db;
      assert a == [a[0]] + a[1..] && b == [b[0]] + b[1..];
      OfDateCons(a[0], a[1..], da);
      OfDateCons(b[0], b[1..], da);
      assert a[0] == OfDate(a, da)[0] == OfDate(b, da)[0] == b[0];
      forall d ensures OfDate(a[1..], d) == OfDate(b[1..], d) {
        OfDateCons(a[0], a[1..], d);
        OfDateCons(b[0], b[1..], d);
        if a[0].date == d {
          assert OfDate(a[1..], d) == OfDate(a, d)[1..];
          assert OfDate(b[1..], d) == OfDate(b, d)[1..];
        }
      }
      StableSortUnique(a[1..], b[1..]);
      assert a == [a[0]] + a[1..] && b == [b[0]] + b[1..];
    }
  }

  /**
   * The view: the matching records, most recent first. It holds exactly the
   * matching records of the collection, each as often as the collection
   * holds it, and records sharing a date appear in collection order.
   */
  function Query(memories: seq<Memory>, searchQuery: string, selected: Selection): (r: seq<Memory>)
    ensures Sorted(r)
    ensures forall m | m in r :: m in memories && MatchesSearch(m, searchQuery) && MatchesCategory(m, selected)
    ensures forall m | m in memories && MatchesSearch(m, searchQuery) && MatchesCategory(m, selected) :: m in r
    ensures multiset(r) == multiset(Matching(memories, searchQuery, selected))
    ensures |r| == |Matching(memories, searchQuery, selected)|
  {
    var matching := Matching(memories, searchQuery, selected);
    SameMembers(SortByDate(matching), matching);
    assert |multiset(SortByDate(matching))| == |multiset(matching)|;
    SortByDate(matching)
  }

  /**
   * The records of one date appear in the view in the order the collection
   * holds them, filtered: the sort adds no order of its own among equal dates.
   */
  lemma QueryKeepsCollectionOrder(memories: seq<Memory>, searchQuery: string, selected: Selection, d: int)
    ensures OfDate(Query(memories, searchQuery, selected), d) == Matching(OfDate(memories, d), searchQuery, selected)
  {
    var matching := Matching(memories, searchQuery, selected);
    SortIsStable(matching, d);
    FilterFilter(memories, (m: Memory) => Matches(m, searchQuery, selected), (m: Memory) => m.date == d);
  }

  /** Any sequence that is sorted most recent first and stable with respect to the matching records is the view. */
  lemma QueryIsTheStableSort(memories: seq<Memory>, searchQuery: string, selected: Selection, r: seq<Memory>)
    requires Sorted(r)
    requires forall d :: OfDate(r, d) == OfDate(Matching(memories, searchQuery, selected), d)
    ensures r == Query(memories, searchQuery, selected)
  {
    var matching := Matching(memories, searchQuery, selected);
    forall d ensures OfDate(r, d) == OfDate(Query(memories, searchQuery, selected), d) {
      SortIsStable(matching, d);
    }
    StableSortUnique(r, Query(memories, searchQuery, selected));
  }

  /** The empty search occurs in every string. */
  lemma EmptySearchMatches(m: Memory)
    ensures MatchesSearch(m, "")
  {
  }

  /** An empty search under `All` shows every record of the collection, each exactly as often. */
  lemma QueryEverything(memories: seq<Memory>)
    ensures multiset(Query(memories, "", All)) == multiset(memories)
    ensures |Query(memories, "", All)| == |memories|
  {
    forall m | m in memories ensures Matches(m, "", All) {
      EmptySearchMatches(m);
    }
    FilterKeepsAll(memories, (m: Memory) => Matches(m, "", All));
  }

  /** A category no record carries gives an empty view, whatever the search. */
  lemma QueryEmptyCategory(memories: seq<Memory>, searchQuery: string, c: Category)
    requires forall m | m in memories :: m.category != CategoryName(c)
    ensures Query(memories, searchQuery, Only(c)) == []
  {
    FilterDropsAll(memories, (m: Memory) => Matches(m, searchQuery, Only(c)));
  }

  /** A record whose category string names none of the closed set is shown only under `All`. */
  lemma UncategorisedOnlyUnderAll(memories: seq<Memory>, searchQuery: string, selected: Selection, m: Memory)
    requires forall c: Category :: m.category != CategoryName(c)
    requires m in Query(memories, searchQuery, selected)
    ensures selected == All
  {
  }
}
