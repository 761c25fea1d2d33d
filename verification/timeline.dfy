/**
  The timeline store: the two collections of entries, the clock that stamps
  them, and the operations that change them (`mark`, `measure`,
  `clearMarks`, `clearMeasures`, and the clock reading `now`).

  The host clock is an input: every operation that reads the clock takes
  `tick`, the time the host clock advanced since the previous reading, so the
  readings the model sees are exactly the non-decreasing sequences a
  monotonic clock can produce.
*/
module Timeline {
  import opened Results
  import opened Entries
  import opened Ordering

  /** Which reference of a `measure` call failed to resolve. */
  datatype RefRole = StartRef | EndRef

  /** The errors `mark` and `measure` raise. */
  datatype TimingError =
    | InvalidArgument
    | MarkNotFound(mark: string, role: RefRole)

  /**
    The store: marks and measures in insertion order, each in its own
    collection, and `clock`, the most recent clock reading.
  */
  datatype State = State(marks: seq<Entry>, measures: seq<Entry>, clock: nat)

  /** A name `mark` accepts: present, non-empty and not the reserved origin name. */
  predicate MarkNameAllowed(name: string)
  {
    name != "" && name != NavigationStart
  }

  /** A recorded mark: zero duration, an allowed name, stamped after the origin and no later than `clock`. */
  predicate ValidMark(e: Entry, clock: nat)
  {
    && e.entryType == MarkType
    && MarkNameAllowed(e.name)
    && e.duration == 0
    && 0 < e.startTime <= clock
  }

  /** A recorded measure: its interval ends no later than `clock`. */
  predicate ValidMeasure(e: Entry, clock: nat)
  {
    && e.entryType == MeasureType
    && e.startTime + e.duration <= clock
  }

  /**
    The invariant of every reachable store: the clock has started, every
    entry is well formed and lies in the past, and marks, being stamped by a
    monotonic clock, are in start-time order.
  */
  predicate Valid(st: State)
  {
    && st.clock > 0
    && (forall i :: 0 <= i < |st.marks| ==> ValidMark(st.marks[i], st.clock))
    && (forall i :: 0 <= i < |st.measures| ==> ValidMeasure(st.measures[i], st.clock))
    && Sorted(st.marks)
  }

  /**
    A store with no entries whose clock has made its first reading; `first`
    is that reading, which the host clock guarantees to be positive.
  */
  function Empty(first: nat): (st: State)
    requires first > 0
    ensures Valid(st)
    ensures st.marks == [] && st.measures == [] && st.clock == first
  {
    State([], [], first)
  }

  /**
    `now()`: reads the clock, `tick` after the previous reading. The reading is
    never below the previous one, is positive once the clock has started, and
    becomes the store's latest reading; no entry changes.
  */
  function Now(st: State, tick: nat): (r: (nat, State))
    ensures r.0 >= st.clock
    ensures st.clock > 0 ==> r.0 > 0
    ensures r.1 == State(st.marks, st.measures, r.0)
    ensures Valid(st) ==> Valid(r.1)
  {
    var reading := st.clock + tick;
    (reading, st.(clock := reading))
  }

  /**
    `mark(name)`: fails with InvalidArgument when the name is missing, empty or
    the reserved origin name; otherwise reads the clock and appends one mark
    carrying that reading, leaving the measures alone.
  */
  function Mark(st: State, name: Option<string>, tick: nat): (r: Result<State, TimingError>)
    ensures r.Err? <==> name.None? || !MarkNameAllowed(name.value)
    ensures r.Err? ==> r.error == InvalidArgument
    ensures r.Ok? ==> r.value.measures == st.measures
    ensures r.Ok? ==> r.value.clock == st.clock + tick
    ensures r.Ok? ==> r.value.marks == st.marks + [Entry(name.value, MarkType, r.value.clock, 0)]
    ensures r.Ok? && Valid(st) ==> Valid(r.value)
  {
    if name.None? || !MarkNameAllowed(name.value) then Err(InvalidArgument)
    else
      var (reading, st1) := Now(st, tick);
      var m := Entry(name.value, MarkType, reading, 0);
      AppendSorted(st1.marks, m);
      Ok(st1.(marks := st1.marks + [m]))
  }

  /** Removing the entries of one name from either collection keeps a store valid. */
  lemma RemovalKeepsValid(st: State, name: string)
    ensures Valid(st) ==> Valid(st.(marks := Filter(st.marks, NotNamed(name))))
    ensures Valid(st) ==> Valid(st.(measures := Filter(st.measures, NotNamed(name))))
  {
    if Valid(st) {
      var marks := Filter(st.marks, NotNamed(name));
      var measures := Filter(st.measures, NotNamed(name));
      FilterSorted(st.marks, NotNamed(name));
      FilterMembers(st.marks, NotNamed(name));
      FilterMembers(st.measures, NotNamed(name));
      forall i | 0 <= i < |marks| ensures ValidMark(marks[i], st.clock) {
        assert marks[i] in st.marks;
      }
      forall i | 0 <= i < |measures| ensures ValidMeasure(measures[i], st.clock) {
        assert measures[i] in st.measures;
      }
    }
  }

  /**
    `clearMarks(name?)`: with no name removes every mark; with a name removes
    exactly the marks of that name, keeping the others in order. Measures
    (including those sharing the name) and the clock are untouched.
  */
  function ClearMarks(st: State, name: Option<string>): (r: State)
    ensures r.measures == st.measures && r.clock == st.clock
    ensures name.None? ==> r.marks == []
    ensures name.Some? ==> r.marks == Filter(st.marks, NotNamed(name.value))
    ensures name.Some? ==> forall e :: multiset(r.marks)[e] == if e.name == name.value then 0 else multiset(st.marks)[e]
    ensures name.Some? && (forall i :: 0 <= i < |st.marks| ==> st.marks[i].name != name.value) ==> r.marks == st.marks
    ensures Valid(st) ==> Valid(r)
  {
    match name
    case None => st.(marks := [])
    case Some(n) =>
      var kept := Filter(st.marks, NotNamed(n));
      FilterMultiset(st.marks, NotNamed(n));
      FilterAllKept(st.marks, NotNamed(n));
      RemovalKeepsValid(st, n);
      st.(marks := kept)
  }

  /**
    `clearMeasures(name?)`: the same as `clearMarks` on the measures
    collection; marks and the clock are untouched.
  */
  function ClearMeasures(st: State, name: Option<string>): (r: State)
    ensures r.marks == st.marks && r.clock == st.clock
    ensures name.None? ==> r.measures == []
    ensures name.Some? ==> r.measures == Filter(st.measures, NotNamed(name.value))
    ensures name.Some? ==> forall e :: multiset(r.measures)[e] == if e.name == name.value then 0 else multiset(st.measures)[e]
    ensures name.Some? && (forall i :: 0 <= i < |st.measures| ==> st.measures[i].name != name.value) ==> r.measures == st.measures
    ensures Valid(st) ==> Valid(r)
  {
    match name
    case None => st.(measures := [])
    case Some(n) =>
      var kept := Filter(st.measures, NotNamed(n));
      FilterMultiset(st.measures, NotNamed(n));
      FilterAllKept(st.measures, NotNamed(n));
      RemovalKeepsValid(st, n);
      st.(measures := kept)
  }

  /** Entry `i` is the most recently recorded mark named `name`. */
  predicate IsLatest(marks: seq<Entry>, name: string, i: int)
  {
    && 0 <= i < |marks|
    && marks[i].name == name
    && forall j :: i < j < |marks| ==> marks[j].name != name
  }

  /** Whether some recorded mark carries `name`. */
  predicate HasMark(marks: seq<Entry>, name: string)
  {
    exists i :: 0 <= i < |marks| && marks[i].name == name
  }

  /**
    The position of the most recent mark named `name`, or None when no mark
    has that name. Duplicate names are allowed; the newest one wins.
  */
  function LatestMark(marks: seq<Entry>, name: string): (r: Option<nat>)
    ensures r.None? <==> !HasMark(marks, name)
    ensures r.Some? ==> IsLatest(marks, name, r.value)
  {
    if marks == [] then None
    else if marks[|marks| - 1].name == name then Some(|marks| - 1)
    else
      var earlier := LatestMark(marks[..|marks| - 1], name);
      assert !HasMark(marks[..|marks| - 1], name) ==> !HasMark(marks, name) by {
        if HasMark(marks, name) {
          var i :| 0 <= i < |marks| && marks[i].name == name;
          assert marks[..|marks| - 1][i].name == name;
        }
      }
      earlier
  }

  /**
    Resolves one reference of a `measure` call. An omitted reference takes
    `default` (the origin for the start, the current reading for the end);
    the origin name resolves to 0; any other name resolves to the start time
    of the latest mark of that name, or fails with MarkNotFound naming the
    reference and its role.
  */
  function Resolve(marks: seq<Entry>, ref: Option<string>, default: nat, role: RefRole): (r: Result<nat, TimingError>)
    ensures ref.None? ==> r == Ok(default)
    ensures ref == Some(NavigationStart) ==> r == Ok(0)
    ensures ref.Some? && ref.value != NavigationStart ==> (r.Ok? <==> HasMark(marks, ref.value))
    ensures r.Err? ==> ref.Some? && r.error == MarkNotFound(ref.value, role)
    ensures r.Ok? && ref.Some? && ref.value != NavigationStart ==>
      exists i :: IsLatest(marks, ref.value, i) && marks[i].startTime == r.value
  {
    match ref
    case None => Ok(default)
    case Some(n) =>
      if n == NavigationStart then Ok(0)
      else
        match LatestMark(marks, n)
        case None => Err(MarkNotFound(n, role))
        case Some(i) => Ok(marks[i].startTime)
  }

  /** Whether a reference of a `measure` call resolves against `marks`. */
  predicate Resolvable(marks: seq<Entry>, ref: Option<string>)
  {
    ref.None? || ref.value == NavigationStart || HasMark(marks, ref.value)
  }

  /** A measure named `name` over the interval from `start` to `end`, empty when `end` is earlier. */
  function MeasureEntry(name: string, start: nat, end: nat): (e: Entry)
    ensures e.name == name && e.entryType == MeasureType && e.startTime == start
    ensures e.startTime + e.duration == if end < start then start else end
  {
    Entry(name, MeasureType, start, if end < start then 0 else end - start)
  }

  /**
    The measure a `measure` call with a present name records, given the clock
    `reading` taken by the call: it fails with MarkNotFound when the start
    reference, and then the end reference, does not resolve; otherwise its
    start is the resolved start and its end the resolved end, clamped so the
    duration is never negative.
  */
  function ResolveMeasure(marks: seq<Entry>, name: string, startRef: Option<string>, endRef: Option<string>, reading: nat)
    : (r: Result<Entry, TimingError>)
    ensures r.Ok? <==> Resolvable(marks, startRef) && Resolvable(marks, endRef)
    ensures !Resolvable(marks, startRef) ==> r == Err(MarkNotFound(startRef.value, StartRef))
    ensures Resolvable(marks, startRef) && !Resolvable(marks, endRef) ==> r == Err(MarkNotFound(endRef.value, EndRef))
    ensures r.Ok? ==> r.value.name == name && r.value.entryType == MeasureType
    ensures r.Ok? && (startRef.None? || startRef == Some(NavigationStart)) ==> r.value.startTime == 0
    ensures r.Ok? && startRef.Some? && startRef.value != NavigationStart ==>
      exists i :: IsLatest(marks, startRef.value, i) && r.value.startTime == marks[i].startTime
    ensures r.Ok? && endRef.None? ==> End(r.value) == Max(r.value.startTime, reading)
    ensures r.Ok? && endRef == Some(NavigationStart) ==> r.value.duration == 0
    ensures r.Ok? && endRef.Some? && endRef.value != NavigationStart ==>
      exists i :: IsLatest(marks, endRef.value, i) && End(r.value) == Max(r.value.startTime, marks[i].startTime)
    ensures r.Ok? && (forall i :: 0 <= i < |marks| ==> marks[i].startTime <= reading) ==> End(r.value) <= reading
  {
    match Resolve(marks, startRef, 0, StartRef)
    case Err(e) => Err(e)
    case Ok(start) =>
      match Resolve(marks, endRef, reading, EndRef)
      case Err(e) => Err(e)
      case Ok(end) => Ok(MeasureEntry(name, start, end))
  }

  /**
    `measure(name, startMark?, endMark?)`: reads the clock, fails with
    InvalidArgument when the name is missing or empty, and otherwise appends
    the measure `ResolveMeasure` computes for that reading, or fails as it
    does. Marks are untouched.
  */
  function Measure(st: State, name: Option<string>, startRef: Option<string>, endRef: Option<string>, tick: nat)
    : (r: Result<State, TimingError>)
    ensures name.None? || name.value == "" ==> r == Err(InvalidArgument)
    ensures name.Some? && name.value != "" ==>
      var resolved := ResolveMeasure(st.marks, name.value, startRef, endRef, st.clock + tick);
      && (resolved.Err? ==> r == Err(resolved.error))
      && (resolved.Ok? ==> r.Ok? && r.value.measures == st.measures + [resolved.value])
    ensures r.Ok? ==> r.value.marks == st.marks && r.value.clock == st.clock + tick
    ensures r.Ok? && Valid(st) ==> Valid(r.value)
  {
    var (reading, st1) := Now(st, tick);
    if name.None? || name.value == "" then Err(InvalidArgument)
    else
      match ResolveMeasure(st.marks, name.value, startRef, endRef, reading)
      case Err(e) => Err(e)
      case Ok(m) => Ok(st1.(measures := st1.measures + [m]))
  }

  /** The last entry of a non-empty sequence. */
  function Last(s: seq<Entry>): Entry
    requires s != []
  {
    s[|s| - 1]
  }

  /** The instant an entry's interval ends. */
  function End(e: Entry): nat
  {
    e.startTime + e.duration
  }

  /** The larger of two times. */
  function Max(a: nat, b: nat): nat
  {
    if a < b then b else a
  }

  /** Two successive readings of the clock never go backwards and are both positive. */
  lemma NowIsMonotonic(st: State, tick1: nat, tick2: nat)
    requires Valid(st)
    ensures var (first, st1) := Now(st, tick1);
            var (second, _) := Now(st1, tick2);
            0 < first <= second
  {
  }

  /** Clearing marks by name twice is the same as clearing them once. */
  lemma {:induction false} ClearMarksIdempotent(st: State, name: Option<string>)
    ensures ClearMarks(ClearMarks(st, name), name) == ClearMarks(st, name)
  {
    if name.Some? {
      var once := ClearMarks(st, name);
      FilterMembers(st.marks, NotNamed(name.value));
      assert forall i :: 0 <= i < |once.marks| ==> once.marks[i] in once.marks;
      FilterAllKept(once.marks, NotNamed(name.value));
    }
  }

  /** Clearing measures by name twice is the same as clearing them once. */
  lemma {:induction false} ClearMeasuresIdempotent(st: State, name: Option<string>)
    ensures ClearMeasures(ClearMeasures(st, name), name) == ClearMeasures(st, name)
  {
    if name.Some? {
      var once := ClearMeasures(st, name);
      FilterMembers(st.measures, NotNamed(name.value));
      assert forall i :: 0 <= i < |once.measures| ==> once.measures[i] in once.measures;
      FilterAllKept(once.measures, NotNamed(name.value));
    }
  }

  /** A mark just recorded is the latest mark of its name. */
  lemma MarkIsLatest(st: State, name: string, tick: nat)
    requires Mark(st, Some(name), tick).Ok?
    ensures LatestMark(Mark(st, Some(name), tick).value.marks, name) == Some(|st.marks|)
  {
  }

  /**
    Measuring from a recorded mark to now needs no clamping: the mark lies in
    the past, so the duration is exactly the time elapsed since it.
  */
  lemma MeasureToNowIsExact(st: State, name: string, start: string, tick: nat)
    requires Valid(st)
    requires Measure(st, Some(name), Some(start), None, tick).Ok?
    ensures var after := Measure(st, Some(name), Some(start), None, tick).value;
            Last(after.measures).startTime <= after.clock &&
            Last(after.measures).duration == after.clock - Last(after.measures).startTime
  {
    var after := Measure(st, Some(name), Some(start), None, tick).value;
    if start != NavigationStart {
      var i :| IsLatest(st.marks, start, i) && Last(after.measures).startTime == st.marks[i].startTime;
      assert ValidMark(st.marks[i], st.clock);
    }
  }

  /**
    `measure(name)` with no references records the whole span from the
    origin to the clock reading the call takes.
  */
  lemma MeasureSinceOrigin(st: State, name: string, tick: nat)
    requires name != ""
    ensures Measure(st, Some(name), None, None, tick)
         == Ok(State(st.marks, st.measures + [Entry(name, MeasureType, 0, st.clock + tick)], st.clock + tick))
  {
  }

  /**
    `measure(name, m)`, where `m` names the most recent mark, records the span
    from that mark to the clock reading the call takes; the mark is never
    later than the reading, so nothing is clamped.
  */
  lemma MeasureSinceLastMark(st: State, name: string, tick: nat)
    requires Valid(st) && st.marks != [] && name != ""
    ensures var m := Last(st.marks);
            Measure(st, Some(name), Some(m.name), None, tick)
            == Ok(State(st.marks, st.measures + [Entry(name, MeasureType, m.startTime, st.clock + tick - m.startTime)], st.clock + tick))
  {
    var m := Last(st.marks);
    assert ValidMark(m, st.clock);
    assert LatestMark(st.marks, m.name) == Some(|st.marks| - 1);
  }

  /**
    Measuring between two marks, where the start mark was recorded before the
    end mark, needs no clamping: the monotonic clock stamped the end mark no
    earlier, so the duration is exactly the difference of their times.
  */
  lemma MeasureBetweenMarksIsExact(st: State, name: string, start: string, end: string, si: nat, ei: nat, tick: nat)
    requires Valid(st) && name != ""
    requires IsLatest(st.marks, start, si) && IsLatest(st.marks, end, ei) && si <= ei
    ensures var s := st.marks[si].startTime;
            var e := st.marks[ei].startTime;
            && s <= e
            && Measure(st, Some(name), Some(start), Some(end), tick)
               == Ok(State(st.marks, st.measures + [Entry(name, MeasureType, s, e - s)], st.clock + tick))
  {
    var s := st.marks[si].startTime;
    var e := st.marks[ei].startTime;
    assert s <= e by {
      if si < ei {
        assert Sorted(st.marks);
      }
    }
    LatestIsUnique(st, start, si);
    LatestIsUnique(st, end, ei);
    assert Resolve(st.marks, Some(start), 0, StartRef) == Ok(s);
    assert Resolve(st.marks, Some(end), st.clock + tick, EndRef) == Ok(e);
    ResolvedMeasure(st.marks, name, Some(start), Some(end), st.clock + tick, s, e);
    assert MeasureEntry(name, s, e) == Entry(name, MeasureType, s, e - s);
    MeasureAppends(st, name, Some(start), Some(end), tick, Entry(name, MeasureType, s, e - s));
  }

  /** When both references resolve, the measure spans from the resolved start to the resolved end. */
  lemma ResolvedMeasure(marks: seq<Entry>, name: string, startRef: Option<string>, endRef: Option<string>, reading: nat, s: nat, e: nat)
    requires Resolve(marks, startRef, 0, StartRef) == Ok(s)
    requires Resolve(marks, endRef, reading, EndRef) == Ok(e)
    ensures ResolveMeasure(marks, name, startRef, endRef, reading) == Ok(MeasureEntry(name, s, e))
  {
  }

  /** A named measure whose references resolve appends exactly the resolved entry and advances the clock. */
  lemma MeasureAppends(st: State, name: string, startRef: Option<string>, endRef: Option<string>, tick: nat, m: Entry)
    requires name != ""
    requires ResolveMeasure(st.marks, name, startRef, endRef, st.clock + tick) == Ok(m)
    ensures Measure(st, Some(name), startRef, endRef, tick) == Ok(State(st.marks, st.measures + [m], st.clock + tick))
  {
  }

  /** The latest mark of a name is the one LatestMark finds, and its name is not the origin's. */
  lemma LatestIsUnique(st: State, name: string, i: nat)
    requires Valid(st) && IsLatest(st.marks, name, i)
    ensures LatestMark(st.marks, name) == Some(i)
    ensures name != NavigationStart
  {
    assert ValidMark(st.marks[i], st.clock);
    assert HasMark(st.marks, name);
  }
}
