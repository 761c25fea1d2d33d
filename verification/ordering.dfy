/**
  Selection and ordering of entry sequences: the filter every query and every
  clear is built on, and the stable sort by `startTime` that every query applies.
*/
module Ordering {
  import opened Entries

  /** Ascending by `startTime`; equal times are allowed. */
  predicate Sorted(s: seq<Entry>)
  {
    forall i, j :: 0 <= i < j < |s| ==> s[i].startTime <= s[j].startTime
  }

  /** The ways the timeline selects entries: by name, by excluding a name, by kind, by start time. */
  datatype Selector =
    | Named(name: string)
    | NotNamed(name: string)
    | OfType(entryType: EntryType)
    | StartsAt(time: nat)

  /** Whether selector `p` keeps entry `e`. */
  predicate Selects(p: Selector, e: Entry)
  {
    match p
    case Named(n) => e.name == n
    case NotNamed(n) => e.name != n
    case OfType(t) => e.entryType == t
    case StartsAt(k) => e.startTime == k
  }

  /** The entries of `s` that satisfy `p`, in their original order. */
  function Filter(s: seq<Entry>, p: Selector): (r: seq<Entry>)
    ensures |r| <= |s|
  {
    if s == [] then []
    else if Selects(p, s[0]) then [s[0]] + Filter(s[1..], p)
    else Filter(s[1..], p)
  }

  /** A selection keeps every selected entry as often as it occurs, and nothing else. */
  lemma {:induction false} FilterMultiset(s: seq<Entry>, p: Selector)
    ensures forall e :: multiset(Filter(s, p))[e] == if Selects(p, e) then multiset(s)[e] else 0
  {
    if s != [] {
      assert s == [s[0]] + s[1..];
      FilterMultiset(s[1..], p);
    }
  }

  /** An entry is in a selection exactly when it is in the source and selected. */
  lemma FilterMembers(s: seq<Entry>, p: Selector)
    ensures forall e :: e in Filter(s, p) <==> e in s && Selects(p, e)
  {
    FilterMultiset(s, p);
    forall e ensures e in Filter(s, p) <==> e in s && Selects(p, e) {
      assert e in Filter(s, p) <==> e in multiset(Filter(s, p));
      assert e in s <==> e in multiset(s);
    }
  }

  /** Selecting with a selector that keeps every entry changes nothing. */
  lemma {:induction false} FilterAllKept(s: seq<Entry>, p: Selector)
    ensures (forall i :: 0 <= i < |s| ==> Selects(p, s[i])) ==> Filter(s, p) == s
  {
    if s != [] {
      FilterAllKept(s[1..], p);
      assert s == [s[0]] + s[1..];
    }
  }

  /** Selecting with a selector that keeps no entry gives nothing. */
  lemma {:induction false} FilterNoneKept(s: seq<Entry>, p: Selector)
    ensures (forall i :: 0 <= i < |s| ==> !Selects(p, s[i])) ==> Filter(s, p) == []
  {
    if s != [] {
      FilterNoneKept(s[1..], p);
    }
  }

  /** Appending an entry that starts no earlier than any other keeps a sequence sorted. */
  lemma AppendSorted(s: seq<Entry>, e: Entry)
    ensures Sorted(s) && (forall i :: 0 <= i < |s| ==> s[i].startTime <= e.startTime) ==> Sorted(s + [e])
  {
  }

  /** Filtering distributes over concatenation. */
  lemma {:induction false} FilterConcat(a: seq<Entry>, b: seq<Entry>, p: Selector)
    ensures Filter(a + b, p) == Filter(a, p) + Filter(b, p)
  {
    if a == [] {
      assert a + b == b;
    } else {
      assert (a + b)[1..] == a[1..] + b;
      FilterConcat(a[1..], b, p);
    }
  }

  /** A selection of a sorted sequence is sorted. */
  lemma {:induction false} FilterSorted(s: seq<Entry>, p: Selector)
    ensures Sorted(s) ==> Sorted(Filter(s, p))
  {
    if s != [] && Sorted(s) {
      FilterSorted(s[1..], p);
      var rest := Filter(s[1..], p);
      FilterMembers(s[1..], p);
      forall j | 0 <= j < |rest|
        ensures s[0].startTime <= rest[j].startTime
      {
        assert rest[j] in s[1..];
      }
    }
  }

  /** Places `e` before the first entry that does not start earlier than it. */
  function Insert(e: Entry, s: seq<Entry>): (r: seq<Entry>)
    ensures |r| == |s| + 1
  {
    if s == [] || e.startTime <= s[0].startTime then [e] + s
    else [s[0]] + Insert(e, s[1..])
  }

  /** Inserting adds exactly the one entry. */
  lemma {:induction false} InsertMultiset(e: Entry, s: seq<Entry>)
    ensures multiset(Insert(e, s)) == multiset(s) + multiset{e}
  {
    if s != [] && s[0].startTime < e.startTime {
      assert s == [s[0]] + s[1..];
      InsertMultiset(e, s[1..]);
    }
  }

  /** Inserting into a sorted sequence keeps it sorted. */
  lemma {:induction false} InsertSorted(e: Entry, s: seq<Entry>)
    requires Sorted(s)
    ensures Sorted(Insert(e, s))
  {
    if s != [] && s[0].startTime < e.startTime {
      InsertSorted(e, s[1..]);
      var tail := Insert(e, s[1..]);
      forall j | 0 <= j < |tail|
        ensures s[0].startTime <= tail[j].startTime
      {
        InsertMultiset(e, s[1..]);
        assert tail[j] in multiset(tail);
        assert tail[j] == e || tail[j] in multiset(s[1..]);
      }
    }
  }

  /** Stable insertion sort ascending by `startTime`. */
  function SortByStartTime(s: seq<Entry>): (r: seq<Entry>)
    ensures Sorted(r)
    ensures multiset(r) == multiset(s)
    ensures |r| == |s|
  {
    if s == [] then []
    else
      assert s == [s[0]] + s[1..];
      var sortedTail := SortByStartTime(s[1..]);
      InsertSorted(s[0], sortedTail);
      InsertMultiset(s[0], sortedTail);
      Insert(s[0], sortedTail)
  }

  /** Filtering a sequence with a known first entry. */
  lemma FilterCons(x: Entry, s: seq<Entry>, p: Selector)
    ensures Filter([x] + s, p) == if Selects(p, x) then [x] + Filter(s, p) else Filter(s, p)
  {
    assert ([x] + s)[0] == x;
    assert ([x] + s)[1..] == s;
  }

  /** Filtering a one-entry sequence. */
  lemma FilterSingleton(x: Entry, p: Selector)
    ensures Filter([x], p) == if Selects(p, x) then [x] else []
  {
    assert [x][1..] == [];
  }

  /** Inserting an entry that starts no later than any selected entry puts it in front. */
  lemma InsertInFront(e: Entry, t: seq<Entry>)
    requires t == [] || e.startTime <= t[0].startTime
    ensures Insert(e, t) == [e] + t
  {
  }

  /** The first entry of a selection from a sorted sequence starts no earlier than the sequence does. */
  lemma FilterHeadLater(t: seq<Entry>, p: Selector)
    requires Sorted(t) && Filter(t, p) != []
    ensures t != [] && t[0].startTime <= Filter(t, p)[0].startTime
  {
    var ft := Filter(t, p);
    FilterMembers(t, p);
    assert ft[0] in t;
    var k :| 0 <= k < |t| && t[k] == ft[0];
  }

  /** `FilterInsert` when `e` goes in front of a sorted sequence. */
  lemma FilterInsertFront(e: Entry, t: seq<Entry>, p: Selector)
    requires Sorted(t)
    requires t == [] || e.startTime <= t[0].startTime
    ensures Filter(Insert(e, t), p) == if Selects(p, e) then Insert(e, Filter(t, p)) else Filter(t, p)
  {
    var ft := Filter(t, p);
    InsertInFront(e, t);
    FilterCons(e, t, p);
    if Selects(p, e) {
      if ft != [] {
        FilterHeadLater(t, p);
      }
      InsertInFront(e, ft);
    }
  }

  /** `FilterInsert` when `e` goes past the first entry, given the fact for the rest. */
  lemma FilterInsertPast(e: Entry, t: seq<Entry>, p: Selector)
    requires t != [] && t[0].startTime < e.startTime
    requires Filter(Insert(e, t[1..]), p)
      == if Selects(p, e) then Insert(e, Filter(t[1..], p)) else Filter(t[1..], p)
    ensures Filter(Insert(e, t), p) == if Selects(p, e) then Insert(e, Filter(t, p)) else Filter(t, p)
  {
    var t1 := t[1..];
    var ft1 := Filter(t1, p);
    var tail := Insert(e, t1);
    assert Insert(e, t) == [t[0]] + tail;
    FilterCons(t[0], tail, p);
    assert t == [t[0]] + t1;
    FilterCons(t[0], t1, p);
    if Selects(p, t[0]) {
      var ft := [t[0]] + ft1;
      assert Filter(t, p) == ft;
      assert Filter(Insert(e, t), p) == [t[0]] + Filter(tail, p);
      if Selects(p, e) {
        assert ft[0] == t[0] && ft[1..] == ft1;
        assert Insert(e, ft) == [t[0]] + Insert(e, ft1);
      }
    } else {
      assert Filter(t, p) == ft1;
      assert Filter(Insert(e, t), p) == Filter(tail, p);
    }
  }

  /** Inserting and then selecting equals selecting and then inserting (when `e` is selected). */
  lemma {:induction false} FilterInsert(e: Entry, t: seq<Entry>, p: Selector)
    requires Sorted(t)
    ensures Filter(Insert(e, t), p) == if Selects(p, e) then Insert(e, Filter(t, p)) else Filter(t, p)
  {
    if t == [] || e.startTime <= t[0].startTime {
      FilterInsertFront(e, t, p);
    } else {
      FilterInsert(e, t[1..], p);
      FilterInsertPast(e, t, p);
    }
  }

  /** Sorting two entries puts the later-starting one second, keeping their order on a tie. */
  lemma SortPair(a: Entry, b: Entry)
    ensures SortByStartTime([a, b]) == if a.startTime <= b.startTime then [a, b] else [b, a]
  {
    assert [a, b][1..] == [b];
    assert SortByStartTime([b]) == [b];
  }

  /** Sorting commutes with selection: the sorted selection is the selection of the sorted sequence. */
  lemma {:induction false} FilterSort(s: seq<Entry>, p: Selector)
    ensures Filter(SortByStartTime(s), p) == SortByStartTime(Filter(s, p))
  {
    if s != [] {
      var sortedTail := SortByStartTime(s[1..]);
      FilterSort(s[1..], p);
      FilterInsert(s[0], sortedTail, p);
      assert s == [s[0]] + s[1..];
      FilterCons(s[0], s[1..], p);
      if Selects(p, s[0]) {
        var f1 := Filter(s[1..], p);
        assert ([s[0]] + f1)[0] == s[0];
        assert ([s[0]] + f1)[1..] == f1;
      }
    }
  }

  /** Sorting an already sorted sequence changes nothing. */
  lemma {:induction false} SortSortedIsIdentity(s: seq<Entry>)
    requires Sorted(s)
    ensures SortByStartTime(s) == s
  {
    if s != [] {
      SortSortedIsIdentity(s[1..]);
      assert s == [s[0]] + s[1..];
    }
  }

  /**
    The sort is stable: the entries sharing any one start time come out in
    exactly the order they went in.
  */
  lemma SortIsStable(s: seq<Entry>, k: nat)
    ensures Filter(SortByStartTime(s), StartsAt(k)) == Filter(s, StartsAt(k))
  {
    FilterSort(s, StartsAt(k));
    var f := Filter(s, StartsAt(k));
    FilterMembers(s, StartsAt(k));
    assert forall i :: 0 <= i < |f| ==> f[i].startTime == k by {
      forall i | 0 <= i < |f| ensures f[i].startTime == k {
        assert f[i] in f;
      }
    }
    SortSortedIsIdentity(f);
  }
}
