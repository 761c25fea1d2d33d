/**
  The read side of the timeline (`getEntries`, `getEntriesByType`,
  `getEntriesByName`): pure queries over a store, each returning its entries
  sorted by start time, ties kept in insertion order. They never fail.
*/
module Queries {
  import opened Results
  import opened Entries
  import opened Ordering
  import opened Timeline

  /** Every entry of the store, marks before measures, in insertion order. */
  function Recorded(st: State): seq<Entry>
  {
    st.marks + st.measures
  }

  /** `getEntries()`: every mark and every measure, sorted by start time. */
  function GetEntries(st: State): (r: seq<Entry>)
    ensures Sorted(r)
    ensures multiset(r) == multiset(st.marks) + multiset(st.measures)
  {
    SortByStartTime(Recorded(st))
  }

  /**
    `getEntriesByType(type)`: the marks for "mark", the measures for
    "measure", sorted by start time; any other type string gives nothing.
  */
  function GetEntriesByType(st: State, entryType: string): (r: seq<Entry>)
    ensures ParseType(entryType).None? ==> r == []
    ensures Sorted(r)
    ensures entryType == "mark" ==> multiset(r) == multiset(st.marks)
    ensures entryType == "measure" ==> multiset(r) == multiset(st.measures)
  {
    match ParseType(entryType)
    case None => []
    case Some(MarkType) => SortByStartTime(st.marks)
    case Some(MeasureType) => SortByStartTime(st.measures)
  }

  /**
    `getEntriesByName(name, type?)`: the entries named `name` — of both kinds
    when no type is given, of the given type otherwise — sorted by start time.
  */
  function GetEntriesByName(st: State, name: string, entryType: Option<string>): (r: seq<Entry>)
    ensures Sorted(r)
    ensures forall i :: 0 <= i < |r| ==> r[i].name == name
    ensures entryType.None? ==>
      forall e :: multiset(r)[e] == if e.name == name then multiset(Recorded(st))[e] else 0
    ensures entryType.Some? ==>
      forall e :: multiset(r)[e] == if e.name == name then multiset(GetEntriesByType(st, entryType.value))[e] else 0
  {
    var source := match entryType
      case None => GetEntries(st)
      case Some(t) => GetEntriesByType(st, t);
    FilterSorted(source, Named(name));
    FilterMultiset(source, Named(name));
    FilterMembers(source, Named(name));
    var r := Filter(source, Named(name));
    assert forall i :: 0 <= i < |r| ==> r[i] in r;
    r
  }

  /**
    The marks query lists marks in the order they were recorded: the
    monotonic clock already stamped them in start-time order.
  */
  lemma MarksQueryInRecordedOrder(st: State)
    requires Valid(st)
    ensures GetEntriesByType(st, "mark") == st.marks
  {
    SortSortedIsIdentity(st.marks);
  }

  /** Selecting one kind from everything recorded gives that kind's collection. */
  lemma RecordedOfType(st: State, k: EntryType)
    requires Valid(st)
    ensures Filter(Recorded(st), OfType(k)) == if k == MarkType then st.marks else st.measures
  {
    FilterConcat(st.marks, st.measures, OfType(k));
    assert forall i :: 0 <= i < |st.marks| ==> st.marks[i].entryType == MarkType;
    assert forall i :: 0 <= i < |st.measures| ==> st.measures[i].entryType == MeasureType;
    FilterAllKept(st.marks, OfType(k));
    FilterNoneKept(st.marks, OfType(k));
    FilterAllKept(st.measures, OfType(k));
    FilterNoneKept(st.measures, OfType(k));
    if k == MarkType {
      assert Filter(st.measures, OfType(k)) == [];
      assert Filter(st.marks, OfType(k)) == st.marks;
    } else {
      assert Filter(st.marks, OfType(k)) == [];
      assert Filter(st.measures, OfType(k)) == st.measures;
    }
  }

  /**
    Querying one type is the same as querying the whole timeline and keeping
    the entries of that type: the two collections never hold each other's kind.
  */
  lemma TypeQueryIsProjection(st: State, entryType: string)
    requires Valid(st)
    requires ParseType(entryType).Some?
    ensures GetEntriesByType(st, entryType) == Filter(GetEntries(st), OfType(ParseType(entryType).value))
  {
    var k := ParseType(entryType).value;
    FilterSort(Recorded(st), OfType(k));
    RecordedOfType(st, k);
  }

  /**
    The name query without a type is the sorted selection of every recorded
    entry with that name.
  */
  lemma NameQueryIsSortedSelection(st: State, name: string)
    ensures GetEntriesByName(st, name, None) == SortByStartTime(Filter(Recorded(st), Named(name)))
  {
    FilterSort(Recorded(st), Named(name));
  }

  /**
    The timeline is stable: entries sharing a start time appear in the order
    they were recorded (marks before measures).
  */
  lemma GetEntriesIsStable(st: State, time: nat)
    ensures Filter(GetEntries(st), StartsAt(time)) == Filter(Recorded(st), StartsAt(time))
  {
    SortIsStable(Recorded(st), time);
  }

  /**
    The type queries are stable too: marks sharing a start time come back in
    the order they were recorded, and so do measures.
  */
  lemma TypeQueryIsStable(st: State, time: nat)
    ensures Filter(GetEntriesByType(st, "mark"), StartsAt(time)) == Filter(st.marks, StartsAt(time))
    ensures Filter(GetEntriesByType(st, "measure"), StartsAt(time)) == Filter(st.measures, StartsAt(time))
  {
    SortIsStable(st.marks, time);
    SortIsStable(st.measures, time);
  }

  /**
    The name query is stable: entries of the name sharing a start time come
    back in the order they were recorded, with or without a type.
  */
  lemma NameQueryIsStable(st: State, name: string, time: nat)
    ensures Filter(GetEntriesByName(st, name, None), StartsAt(time))
         == Filter(Filter(Recorded(st), Named(name)), StartsAt(time))
    ensures Filter(GetEntriesByName(st, name, Some("mark")), StartsAt(time))
         == Filter(Filter(st.marks, Named(name)), StartsAt(time))
    ensures Filter(GetEntriesByName(st, name, Some("measure")), StartsAt(time))
         == Filter(Filter(st.measures, Named(name)), StartsAt(time))
  {
    NameQueryIsSortedSelection(st, name);
    SortIsStable(Filter(Recorded(st), Named(name)), time);
    FilterSort(st.marks, Named(name));
    SortIsStable(Filter(st.marks, Named(name)), time);
    FilterSort(st.measures, Named(name));
    SortIsStable(Filter(st.measures, Named(name)), time);
  }
}
