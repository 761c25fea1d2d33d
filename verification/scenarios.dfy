/**
  The scenarios of the timeline's test suites, stated for every starting
  store and every pattern of clock advances. Each suite first clears both
  collections, which `Cleared` models.
*/
module Scenarios {
  import opened Results
  import opened Entries
  import opened Ordering
  import opened Timeline
  import opened Queries

  /** The store after `clearMarks(); clearMeasures()`, the set-up step of every suite. */
  function Cleared(st: State): (r: State)
    ensures r.marks == [] && r.measures == [] && r.clock == st.clock
    ensures Valid(st) ==> Valid(r)
  {
    ClearMeasures(ClearMarks(st, None), None)
  }

  /** `mark(name)` repeated once per clock advance in `ticks`. */
  function MarkRepeatedly(st: State, name: string, ticks: seq<nat>): (r: Result<State, TimingError>)
    decreases |ticks|
  {
    if ticks == [] then Ok(st)
    else
      match Mark(st, Some(name), ticks[0])
      case Err(e) => Err(e)
      case Ok(next) => MarkRepeatedly(next, name, ticks[1..])
  }

  /** Each successful repetition adds one mark and keeps the store valid. */
  lemma {:induction false} MarkRepeatedlyAppends(st: State, name: string, ticks: seq<nat>)
    requires Valid(st) && MarkNameAllowed(name)
    ensures MarkRepeatedly(st, name, ticks).Ok?
    ensures Valid(MarkRepeatedly(st, name, ticks).value)
    ensures |MarkRepeatedly(st, name, ticks).value.marks| == |st.marks| + |ticks|
    ensures MarkRepeatedly(st, name, ticks).value.measures == st.measures
    decreases |ticks|
  {
    if ticks != [] {
      MarkRepeatedlyAppends(Mark(st, Some(name), ticks[0]).value, name, ticks[1..]);
    }
  }

  /** A simple mark on a cleared store is the one mark, with its name and a positive time. */
  lemma SimpleMark(st0: State, tick: nat)
    requires Valid(st0)
    ensures Mark(Cleared(st0), Some("foo"), tick).Ok?
    ensures var entries := GetEntriesByType(Mark(Cleared(st0), Some("foo"), tick).value, "mark");
            |entries| == 1 && entries[0].name == "foo" && entries[0].startTime > 0
  {
    var st1 := Mark(Cleared(st0), Some("foo"), tick).value;
    MarksQueryInRecordedOrder(st1);
    assert ValidMark(st1.marks[0], st1.clock);
  }

  /** A missing name, an empty name and the origin name are all rejected. */
  lemma MarkRejectsInvalidNames(st: State, tick: nat)
    ensures Mark(st, None, tick) == Err(InvalidArgument)
    ensures Mark(st, Some(""), tick) == Err(InvalidArgument)
    ensures Mark(st, Some("navigationStart"), tick) == Err(InvalidArgument)
  {
  }

  /**
    Any number of successive marks on a cleared store are all kept, each with
    a positive time, and the marks query returns them in non-decreasing time.
  */
  lemma RepeatedMarksAreOrdered(st0: State, ticks: seq<nat>)
    requires Valid(st0)
    ensures MarkRepeatedly(Cleared(st0), "foo", ticks).Ok?
    ensures var marks := GetEntriesByType(MarkRepeatedly(Cleared(st0), "foo", ticks).value, "mark");
            && |marks| == |ticks|
            && (forall i :: 0 <= i < |marks| ==> marks[i].startTime > 0)
            && (forall i :: 0 < i < |marks| ==> marks[i - 1].startTime <= marks[i].startTime)
  {
    MarkRepeatedlyAppends(Cleared(st0), "foo", ticks);
    var st := MarkRepeatedly(Cleared(st0), "foo", ticks).value;
    MarksQueryInRecordedOrder(st);
    assert forall i :: 0 <= i < |st.marks| ==> ValidMark(st.marks[i], st.clock);
  }

  /** Clearing all marks empties the marks query, whether or not a mark was recorded. */
  lemma ClearAllMarks(st0: State, tick: nat)
    requires Valid(st0)
    ensures |GetEntriesByType(ClearMarks(Cleared(st0), None), "mark")| == 0
    ensures Mark(Cleared(st0), Some("foo"), tick).Ok?
    ensures |GetEntriesByType(Mark(Cleared(st0), Some("foo"), tick).value, "mark")| == 1
    ensures |GetEntriesByType(ClearMarks(Mark(Cleared(st0), Some("foo"), tick).value, None), "mark")| == 0
  {
  }

  /** Clearing marks by a name no mark has leaves the marks as they were. */
  lemma ClearMarksOfAbsentName(st0: State, tick: nat)
    requires Valid(st0)
    ensures Mark(Cleared(st0), Some("1"), tick).Ok?
    ensures var st1 := Mark(Cleared(st0), Some("1"), tick).value;
            |GetEntriesByType(st1, "mark")| == 1 && |GetEntriesByType(ClearMarks(st1, Some("2")), "mark")| == 1
  {
    var st1 := Mark(Cleared(st0), Some("1"), tick).value;
    assert st1.marks[0].name == "1";
  }

  /** Clearing marks by name removes the marks of that name and keeps the others. */
  lemma ClearMarksByName(st0: State, t1: nat, t2: nat)
    requires Valid(st0)
    ensures Mark(Cleared(st0), Some("foo1"), t1).Ok?
    ensures Mark(Mark(Cleared(st0), Some("foo1"), t1).value, Some("foo2"), t2).Ok?
    ensures var st2 := Mark(Mark(Cleared(st0), Some("foo1"), t1).value, Some("foo2"), t2).value;
            && |GetEntriesByType(st2, "mark")| == 2
            && |GetEntriesByType(ClearMarks(st2, Some("foo1")), "mark")| == 1
            && |GetEntriesByType(ClearMarks(ClearMarks(st2, Some("foo1")), Some("foo2")), "mark")| == 0
  {
    var st2 := Mark(Mark(Cleared(st0), Some("foo1"), t1).value, Some("foo2"), t2).value;
    var m1 := st2.marks[0];
    var m2 := st2.marks[1];
    assert st2.marks == [m1] + [m2] && m1.name == "foo1" && m2.name == "foo2";
    FilterCons(m1, [m2], NotNamed("foo1"));
    FilterSingleton(m2, NotNamed("foo1"));
    var c1 := ClearMarks(st2, Some("foo1"));
    assert c1.marks == [m2];
    FilterSingleton(m2, NotNamed("foo2"));
  }

  /**
    Clearing marks removes only marks: after one mark and two measures of the
    same name, no mark is left and both measures remain.
  */
  lemma ClearMarksKeepsMeasures(st0: State, t1: nat, t2: nat, t3: nat)
    requires Valid(st0)
    ensures Mark(Cleared(st0), Some("foo"), t1).Ok?
    ensures Measure(Mark(Cleared(st0), Some("foo"), t1).value, Some("foo"), None, None, t2).Ok?
    ensures var st2 := Measure(Mark(Cleared(st0), Some("foo"), t1).value, Some("foo"), None, None, t2).value;
            Measure(st2, Some("foo"), None, None, t3).Ok?
    ensures var st2 := Measure(Mark(Cleared(st0), Some("foo"), t1).value, Some("foo"), None, None, t2).value;
            var st3 := Measure(st2, Some("foo"), None, None, t3).value;
            && |GetEntriesByType(st3, "mark")| == 1
            && |GetEntriesByType(ClearMarks(st3, None), "mark")| == 0
            && |GetEntriesByType(ClearMarks(st3, None), "measure")| == 2
  {
  }

  /** A measure with no references on a cleared store starts at the origin and is the only measure. */
  lemma MeasureWithoutMarks(st0: State, tick: nat)
    requires Valid(st0)
    ensures Measure(Cleared(st0), Some("foo"), None, None, tick).Ok?
    ensures var entries := GetEntriesByType(Measure(Cleared(st0), Some("foo"), None, None, tick).value, "measure");
            |entries| == 1 && entries[0].name == "foo" && entries[0].startTime == 0
  {
    var st1 := Measure(Cleared(st0), Some("foo"), None, None, tick).value;
    assert |st1.measures| == 1;
    assert SortByStartTime(st1.measures) == st1.measures;
  }

  /**
    `mark("1")` then `measure("1", "1")`: one measure named "1" that starts at
    the mark's positive time and lasts exactly until the measure's reading.
  */
  lemma MeasureFromStartMark(st0: State, t1: nat, t2: nat)
    requires Valid(st0)
    ensures Mark(Cleared(st0), Some("1"), t1).Ok?
    ensures var st1 := Mark(Cleared(st0), Some("1"), t1).value;
            Measure(st1, Some("1"), Some("1"), None, t2).Ok?
    ensures var st1 := Mark(Cleared(st0), Some("1"), t1).value;
            var st2 := Measure(st1, Some("1"), Some("1"), None, t2).value;
            var entries := GetEntriesByType(st2, "measure");
            && |entries| == 1
            && entries[0].name == "1"
            && entries[0].startTime == st1.marks[0].startTime > 0
            && entries[0].duration == st2.clock - entries[0].startTime
  {
    var st1 := Mark(Cleared(st0), Some("1"), t1).value;
    assert st1.marks[0].name == "1";
    assert IsLatest(st1.marks, "1", 0);
    MeasureToNowIsExact(st1, "1", "1", t2);
    var st2 := Measure(st1, Some("1"), Some("1"), None, t2).value;
    assert |st2.measures| == 1;
    assert SortByStartTime(st2.measures) == st2.measures;
  }

  /**
    `mark("1")`, `mark("2")`, then `measure("1", "1", "2")`: the measure starts
    at the first mark's positive time and its duration is exactly the time
    between the two marks.
  */
  lemma MeasureBetweenMarks(st0: State, t1: nat, t2: nat, t3: nat)
    requires Valid(st0)
    ensures Mark(Cleared(st0), Some("1"), t1).Ok?
    ensures Mark(Mark(Cleared(st0), Some("1"), t1).value, Some("2"), t2).Ok?
    ensures var st2 := Mark(Mark(Cleared(st0), Some("1"), t1).value, Some("2"), t2).value;
            Measure(st2, Some("1"), Some("1"), Some("2"), t3).Ok?
    ensures var st2 := Mark(Mark(Cleared(st0), Some("1"), t1).value, Some("2"), t2).value;
            var entries := GetEntriesByType(Measure(st2, Some("1"), Some("1"), Some("2"), t3).value, "measure");
            && |entries| == 1
            && entries[0].name == "1"
            && entries[0].startTime == st2.marks[0].startTime > 0
            && entries[0].duration == st2.marks[1].startTime - st2.marks[0].startTime
  {
    var st2 := Mark(Mark(Cleared(st0), Some("1"), t1).value, Some("2"), t2).value;
    assert st2.marks[0].name == "1" && st2.marks[1].name == "2";
    assert IsLatest(st2.marks, "1", 0) && IsLatest(st2.marks, "2", 1);
    MeasureBetweenMarksIsExact(st2, "1", "1", "2", 0, 1, t3);
    MeasureQueryOfOne(Measure(st2, Some("1"), Some("1"), Some("2"), t3).value);
  }

  /** With one measure recorded, the type query returns exactly it. */
  lemma MeasureQueryOfOne(st: State)
    requires |st.measures| == 1
    ensures GetEntriesByType(st, "measure") == st.measures
  {
    assert st.measures == [st.measures[0]];
  }

  /**
    `measure` fails without a name, when the start mark does not exist, and
    when the end mark does not exist even though the start mark does.
  */
  lemma MeasureErrors(st0: State, t1: nat, t2: nat)
    requires Valid(st0)
    ensures Measure(Cleared(st0), None, None, None, t1) == Err(InvalidArgument)
    ensures Measure(Cleared(st0), Some("foo"), Some("BAD_MARK!"), None, t1) == Err(MarkNotFound("BAD_MARK!", StartRef))
    ensures Mark(Cleared(st0), Some("1"), t1).Ok?
    ensures Measure(Mark(Cleared(st0), Some("1"), t1).value, Some("foo"), Some("1"), Some("BAD_MARK!"), t2)
            == Err(MarkNotFound("BAD_MARK!", EndRef))
  {
    var st1 := Mark(Cleared(st0), Some("1"), t1).value;
    assert st1.marks[0].name == "1";
    assert HasMark(st1.marks, "1");
  }

  /** Clearing all measures empties the measures query, whether or not a measure was recorded. */
  lemma ClearAllMeasures(st0: State, tick: nat)
    requires Valid(st0)
    ensures |GetEntriesByType(ClearMeasures(Cleared(st0), None), "measure")| == 0
    ensures Measure(Cleared(st0), Some("foo"), None, None, tick).Ok?
    ensures var st1 := Measure(Cleared(st0), Some("foo"), None, None, tick).value;
            |GetEntriesByType(st1, "measure")| == 1 && |GetEntriesByType(ClearMeasures(st1, None), "measure")| == 0
  {
  }

  /** Clearing measures by a name no measure has leaves the measures as they were. */
  lemma ClearMeasuresOfAbsentName(st0: State, tick: nat)
    requires Valid(st0)
    ensures Measure(Cleared(st0), Some("foo1"), None, None, tick).Ok?
    ensures var st1 := Measure(Cleared(st0), Some("foo1"), None, None, tick).value;
            |GetEntriesByType(st1, "measure")| == 1 && |GetEntriesByType(ClearMeasures(st1, Some("foo2")), "measure")| == 1
  {
    var st1 := Measure(Cleared(st0), Some("foo1"), None, None, tick).value;
    assert st1.measures[0].name == "foo1";
  }

  /** Clearing measures by name removes the measures of that name and keeps the others. */
  lemma ClearMeasuresByName(st0: State, t1: nat, t2: nat)
    requires Valid(st0)
    ensures Measure(Cleared(st0), Some("foo1"), None, None, t1).Ok?
    ensures Measure(Measure(Cleared(st0), Some("foo1"), None, None, t1).value, Some("foo2"), None, None, t2).Ok?
    ensures var st2 := Measure(Measure(Cleared(st0), Some("foo1"), None, None, t1).value, Some("foo2"), None, None, t2).value;
            && |GetEntriesByType(st2, "measure")| == 2
            && |GetEntriesByType(ClearMeasures(st2, Some("foo1")), "measure")| == 1
            && |GetEntriesByType(ClearMeasures(ClearMeasures(st2, Some("foo1")), Some("foo2")), "measure")| == 0
  {
    var st1 := Measure(Cleared(st0), Some("foo1"), None, None, t1).value;
    MeasureSinceOrigin(Cleared(st0), "foo1", t1);
    MeasureSinceOrigin(st1, "foo2", t2);
    var st2 := Measure(st1, Some("foo2"), None, None, t2).value;
    ClearMeasuresOfPair(st2, "foo1", "foo2");
  }

  /** Clearing two differently named measures one name at a time leaves one, then none. */
  lemma ClearMeasuresOfPair(st: State, first: string, second: string)
    requires |st.measures| == 2 && st.measures[0].name == first && st.measures[1].name == second
    requires first != second
    ensures |GetEntriesByType(st, "measure")| == 2
    ensures |GetEntriesByType(ClearMeasures(st, Some(first)), "measure")| == 1
    ensures |GetEntriesByType(ClearMeasures(ClearMeasures(st, Some(first)), Some(second)), "measure")| == 0
  {
    var m1 := st.measures[0];
    var m2 := st.measures[1];
    assert st.measures == [m1] + [m2];
    FilterCons(m1, [m2], NotNamed(first));
    FilterSingleton(m2, NotNamed(first));
    var c1 := ClearMeasures(st, Some(first));
    assert c1.measures == [m2];
    FilterSingleton(m2, NotNamed(second));
  }

  /** `getEntries()` succeeds on a cleared store, and is not empty once a mark is recorded. */
  lemma GetEntriesAfterMark(st0: State, tick: nat)
    requires Valid(st0)
    ensures GetEntries(Cleared(st0)) == []
    ensures Mark(Cleared(st0), Some("1"), tick).Ok?
    ensures |GetEntries(Mark(Cleared(st0), Some("1"), tick).value)| > 0
  {
  }

  /**
    Measures come back by start time, not by insertion: after `mark("1")`,
    `measure("1", "1")` and then `measure("0")`, the origin measure "0" is
    first.
  */
  lemma MeasuresSortedByStartTime(st0: State, t1: nat, t2: nat, t3: nat)
    requires Valid(st0)
    ensures Mark(Cleared(st0), Some("1"), t1).Ok?
    ensures Measure(Mark(Cleared(st0), Some("1"), t1).value, Some("1"), Some("1"), None, t2).Ok?
    ensures var st2 := Measure(Mark(Cleared(st0), Some("1"), t1).value, Some("1"), Some("1"), None, t2).value;
            Measure(st2, Some("0"), None, None, t3).Ok?
    ensures var st2 := Measure(Mark(Cleared(st0), Some("1"), t1).value, Some("1"), Some("1"), None, t2).value;
            var entries := GetEntriesByType(Measure(st2, Some("0"), None, None, t3).value, "measure");
            && |entries| == 2
            && entries[0].name == "0" && entries[0].startTime == 0
            && entries[1].name == "1" && entries[1].startTime > 0
  {
    var st1 := Mark(Cleared(st0), Some("1"), t1).value;
    assert Last(st1.marks).name == "1";
    MeasureSinceLastMark(st1, "1", t2);
    var st2 := Measure(st1, Some("1"), Some("1"), None, t2).value;
    MeasureSinceOrigin(st2, "0", t3);
    var st3 := Measure(st2, Some("0"), None, None, t3).value;
    MeasureQueryOfPair(st3);
  }

  /** With two measures recorded, the type query returns them by start time, keeping recording order on a tie. */
  lemma MeasureQueryOfPair(st: State)
    requires |st.measures| == 2
    ensures GetEntriesByType(st, "measure")
         == if st.measures[0].startTime <= st.measures[1].startTime then st.measures else [st.measures[1], st.measures[0]]
  {
    assert st.measures == [st.measures[0], st.measures[1]];
    SortPair(st.measures[0], st.measures[1]);
  }

  /**
    The type query separates the kinds: with one mark and one measure each
    type gets its own entry, and a type nothing was recorded under gets none.
  */
  lemma TypeQueriesSeparateKinds(st0: State, t1: nat, t2: nat)
    requires Valid(st0)
    ensures |GetEntriesByType(Cleared(st0), "mark")| == 0
    ensures Mark(Cleared(st0), Some("mark1"), t1).Ok?
    ensures |GetEntriesByType(Mark(Cleared(st0), Some("mark1"), t1).value, "measure")| == 0
    ensures Measure(Cleared(st0), Some("measure1"), None, None, t1).Ok?
    ensures |GetEntriesByType(Measure(Cleared(st0), Some("measure1"), None, None, t1).value, "mark")| == 0
    ensures Measure(Mark(Cleared(st0), Some("mark1"), t1).value, Some("measure1"), None, None, t2).Ok?
    ensures var st2 := Measure(Mark(Cleared(st0), Some("mark1"), t1).value, Some("measure1"), None, None, t2).value;
            var marks := GetEntriesByType(st2, "mark");
            var measures := GetEntriesByType(st2, "measure");
            && |marks| == 1 && marks[0].name == "mark1" && marks[0].startTime > 0
            && |measures| == 1 && measures[0].name == "measure1"
  {
    var st2 := Measure(Mark(Cleared(st0), Some("mark1"), t1).value, Some("measure1"), None, None, t2).value;
    MarksQueryInRecordedOrder(st2);
    assert ValidMark(st2.marks[0], st2.clock);
    assert SortByStartTime(st2.measures) == st2.measures;
  }

  /** An unknown type gives an empty result, whatever the store holds. */
  lemma UnknownTypeQueryIsEmpty(st: State)
    ensures GetEntriesByType(st, "BAD_TYPE!!!") == []
    ensures GetEntriesByName(st, "1", Some("BAD_TYPE!!!")) == []
  {
  }

  /**
    A mark and a measure sharing a name are both found by the name query;
    nothing is found on a cleared store.
  */
  lemma NameQueryFindsBothKinds(st0: State, t1: nat, t2: nat)
    requires Valid(st0)
    ensures |GetEntriesByName(Cleared(st0), "mark", None)| == 0
    ensures Mark(Cleared(st0), Some("1"), t1).Ok?
    ensures Measure(Mark(Cleared(st0), Some("1"), t1).value, Some("1"), None, None, t2).Ok?
    ensures var st2 := Measure(Mark(Cleared(st0), Some("1"), t1).value, Some("1"), None, None, t2).value;
            var both := GetEntriesByName(st2, "1", None);
            |both| == 2 && both[0].name == "1" && both[1].name == "1"
  {
    NameQueryOfEmpty(Cleared(st0), "mark");
    var st1 := Mark(Cleared(st0), Some("1"), t1).value;
    MeasureSinceOrigin(st1, "1", t2);
    var st2 := Measure(st1, Some("1"), None, None, t2).value;
    NameQueryOfPair(st2, "1");
  }

  /** With nothing recorded, the name query finds nothing. */
  lemma NameQueryOfEmpty(st: State, name: string)
    requires st.marks == [] && st.measures == []
    ensures GetEntriesByName(st, name, None) == []
  {
    assert Recorded(st) == [];
    NameQueryIsSortedSelection(st, name);
  }

  /** With one mark and one measure of the same name, the name query finds both. */
  lemma NameQueryOfPair(st: State, name: string)
    requires |st.marks| == 1 && |st.measures| == 1
    requires st.marks[0].name == name && st.measures[0].name == name
    ensures var both := GetEntriesByName(st, name, None);
            |both| == 2 && both[0].name == name && both[1].name == name
  {
    var mk := st.marks[0];
    var ms := st.measures[0];
    assert st.marks == [mk] && st.measures == [ms];
    assert Recorded(st) == [mk] + [ms];
    FilterCons(mk, [ms], Named(name));
    FilterSingleton(ms, Named(name));
    assert |Filter(Recorded(st), Named(name))| == 2;
    NameQueryIsSortedSelection(st, name);
  }

  /** The name query restricted to marks finds only the mark of a mark and measure sharing a name. */
  lemma NameQueryByType(st0: State, t1: nat, t2: nat)
    requires Valid(st0)
    ensures Mark(Cleared(st0), Some("1"), t1).Ok?
    ensures Measure(Mark(Cleared(st0), Some("1"), t1).value, Some("1"), None, None, t2).Ok?
    ensures var st2 := Measure(Mark(Cleared(st0), Some("1"), t1).value, Some("1"), None, None, t2).value;
            var marks := GetEntriesByName(st2, "1", Some("mark"));
            |marks| == 1 && marks[0].name == "1" && marks[0].entryType == MarkType
  {
    var st2 := Measure(Mark(Cleared(st0), Some("1"), t1).value, Some("1"), None, None, t2).value;
    var mk := st2.marks[0];
    assert mk.name == "1" && st2.marks == [mk];
    MarksQueryInRecordedOrder(st2);
    FilterSingleton(mk, Named("1"));
  }
}
