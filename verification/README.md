# User-timing timeline

A Dafny model of the in-memory timeline behind the usertiming.js polyfill of
the W3C User Timing and Performance Timeline APIs. It covers:

- `mark(name)` records a named instant;
- `measure(name, startMark?, endMark?)` records a named interval between two
  references;
- `clearMarks(name?)` and `clearMeasures(name?)` forget marks and measures;
- `getEntries()`, `getEntriesByType(type)` and `getEntriesByName(name, type?)`
  return the recorded entries ordered by start time.

The behaviour modelled is what the repository's four test suites fix;
src/usertiming.js is not part of this model. Where the suites leave a case
open, the model makes a choice of its own. Most of those choices are design
decisions of this model rather than User Timing rules, and each is listed
under "Left out".

Modules, one per file:

- `Results` (results.dfy): `Option` and `Result`.
- `Entries` (entries.dfy): an entry has a name, a type (mark or measure), a
  start time and a duration. It also holds the entry-type strings and the
  reserved origin name `navigationStart`.
- `Ordering` (ordering.dfy): filtering by a first-order `Selector`, and a
  stable insertion sort by start time. The proofs cover sortedness,
  permutation, stability, and that filtering commutes with sorting.
- `Timeline` (timeline.dfy): the store `State(marks, measures, clock)` and
  the operations on it, with the reachable-state invariant `Valid`.
  - Every operation that reads the clock takes a `tick: nat` parameter, the
    amount the host clock advanced since the last reading. The clock is
    therefore monotonic by construction.
  - Errors are values: `InvalidArgument` for a missing, empty or reserved
    name, and `MarkNotFound(name, role)` for a reference that resolves to no
    mark.
  - An operation that fails returns `Err` and no new store, so the caller's
    store is unchanged.
- `Queries` (queries.dfy): the three Performance Timeline queries.
- `Scenarios` (scenarios.dfy): every test scenario, stated as a lemma for
  every starting store and every pattern of clock advances. The set-up step
  "clear marks, clear measures" is `Scenarios.Cleared`.

## Model

| member | source | states |
|---|---|---|
| Entries.ParseType | test/test-performancetimeline.js:97-102 | a type string is recognised exactly when it is "mark" or "measure"; any other string, such as "BAD_TYPE!!!", is no type rather than an error |
| Entries.ParseTypeName | test/test-performancetimeline.js:57-95 | the type string of each entry type is recognised as that same type |
| Ordering.Filter | test/test-mark.js:95-108 | a selection is never longer than the sequence it is taken from |
| Ordering.FilterMultiset | test/test-mark.js:95-108 | a selection keeps every copy of each selected entry and no copy of any other |
| Ordering.FilterMembers | test/test-performancetimeline.js:105-119 | an entry is in a selection exactly when it is in the source and is selected |
| Ordering.FilterAllKept | test/test-mark.js:88-93 | a selection that every entry passes is the whole sequence |
| Ordering.FilterNoneKept | test/test-mark.js:104-107 | a selection that no entry passes is empty |
| Ordering.FilterSorted | test/test-performancetimeline.js:105-119 | a selection of a time-ordered sequence is time-ordered |
| Ordering.FilterConcat | test/test-performancetimeline.js:105-119 | selecting from a concatenation is concatenating the selections |
| Ordering.Insert | test/test-performancetimeline.js:38-54 | inserting an entry into a sequence makes it one longer |
| Ordering.InsertSorted | test/test-performancetimeline.js:38-54 | inserting into a time-ordered sequence keeps it time-ordered |
| Ordering.InsertMultiset | test/test-performancetimeline.js:38-54 | insertion adds exactly the one entry and loses none |
| Ordering.SortByStartTime | test/test-performancetimeline.js:38-54 | the result is ordered by start time and is a permutation of the input |
| Ordering.SortSortedIsIdentity | test/test-mark.js:49-65 | a sequence already in time order comes back unchanged |
| Ordering.FilterSort | test/test-performancetimeline.js:105-119 | selecting from the sorted entries equals sorting the selection |
| Ordering.SortIsStable | test/test-performancetimeline.js:38-54 | entries with equal start times keep their recording order |
| Ordering.SortPair | test/test-performancetimeline.js:38-54 | of two entries, the earlier-starting one comes first, and on a tie the first recorded |
| Timeline.Empty | test/test-mark.js:82-86 | a fresh store with a positive clock holds nothing and satisfies the invariant |
| Timeline.Now | test/test.js:267-280 | a reading is positive and never less than the previous one; only the clock changes; the invariant is kept |
| Timeline.NowIsMonotonic | test/test.js:273-280 | two successive readings are positive and non-decreasing |
| Timeline.Mark | test/test-mark.js:21-45 | fails with InvalidArgument exactly when the name is missing, empty or navigationStart; otherwise appends one mark with that name, the new reading as start time and duration 0; the clock advances by the tick; measures untouched; the invariant is kept |
| Timeline.MarkIsLatest | test/test-measure.js:31-34 | a mark just recorded is the latest mark of its name |
| Timeline.RemovalKeepsValid | test/test-mark.js:95-108 | proof helper for ClearMarks and ClearMeasures: removing entries of one name from either collection keeps the invariant |
| Timeline.ClearMarks | test/test-mark.js:74-123 | with no name, marks become empty; with a name, the remaining marks are exactly the marks of other names, in their recorded order, so no mark of that name is left and every other copy stays; a name no mark has changes nothing; measures and clock untouched; the invariant is kept |
| Timeline.ClearMeasures | test/test-measure.js:93-127 | the same as ClearMarks for measures: the remaining measures are the others in recorded order; marks and clock untouched |
| Timeline.ClearMarksIdempotent | test/test-mark.js:82-86 | clearing marks a second time changes nothing |
| Timeline.ClearMeasuresIdempotent | test/test-measure.js:93-97 | clearing measures a second time changes nothing |
| Timeline.LatestMark | test/test-measure.js:31-42 | finds the position of the most recent mark of a name, and nothing exactly when no mark has that name |
| Timeline.Resolve | test/test-measure.js:69-84 | an omitted reference takes its default and navigationStart takes 0; any other name resolves exactly when a mark has it, to the latest such mark's time; otherwise it fails naming the reference and whether it was the start or the end |
| Timeline.MeasureEntry | test/test-measure.js:44-59 | the interval starts at the start time and ends at the end time, or at the start time when the end is earlier, so the duration is never negative |
| Timeline.ResolveMeasure | test/test-measure.js:21-84 | succeeds exactly when both references resolve, and otherwise reports the start failure before the end failure; the start is 0 or the latest start mark's time; the end is the reading or the latest end mark's time, clamped to the start; no end lies past the reading |
| Timeline.Measure | test/test-measure.js:21-84 | fails with InvalidArgument on a missing or empty name and with the resolution error on an unresolved reference; otherwise appends exactly the resolved measure, leaving the marks untouched; the clock advances; the invariant is kept |
| Timeline.MeasureSinceOrigin | test/test-measure.js:21-29 | a measure with no references spans from 0 to the call's reading |
| Timeline.MeasureSinceLastMark | test/test-measure.js:31-42 | a measure from the most recent mark spans from that mark's time to the call's reading |
| Timeline.MeasureToNowIsExact | test/test-measure.js:31-42 | a measure that succeeds without an end reference ends exactly at the store's new clock |
| Timeline.MeasureBetweenMarksIsExact | test/test-measure.js:44-59 | between the latest start mark and the latest end mark, with the start recorded no later, the start is no later than the end and the measure appended spans exactly from one to the other, with no clamping |
| Timeline.LatestIsUnique | test/test-measure.js:44-48 | a mark with no later mark of its name is the one a reference to that name resolves to, and it is never named navigationStart |
| Timeline.ResolvedMeasure | test/test-measure.js:44-48 | proof helper for MeasureBetweenMarksIsExact: when both references resolve, the measure is the interval between the two resolved times |
| Timeline.MeasureAppends | test/test-measure.js:21-29 | proof helper for MeasureBetweenMarksIsExact: the Measure contract specialised to a resolving reference, giving the whole next store |
| Queries.GetEntries | test/test-performancetimeline.js:22-36 | the result is time-ordered and holds exactly the marks and measures |
| Queries.GetEntriesByType | test/test-performancetimeline.js:57-102 | the result is time-ordered; for "mark" it holds exactly the marks, for "measure" exactly the measures, and for any other string nothing; tie order is stated by TypeQueryIsStable |
| Queries.GetEntriesByName | test/test-performancetimeline.js:105-119 | the result is time-ordered and holds exactly the recorded entries of the name, restricted to the type when one is given; tie order is stated by NameQueryIsStable |
| Queries.MarksQueryInRecordedOrder | test/test-mark.js:49-65 | on a valid store the marks query returns the marks in recording order |
| Queries.RecordedOfType | test/test-performancetimeline.js:63-95 | selecting one type from all recorded entries gives exactly that type's collection |
| Queries.TypeQueryIsProjection | test/test-performancetimeline.js:57-95 | the type query is the selection of that type from all entries |
| Queries.NameQueryIsSortedSelection | test/test-performancetimeline.js:111-119 | the name query is the sorted selection of that name from the recorded entries |
| Queries.TypeQueryIsStable | test/test-performancetimeline.js:38-54 | for every start time, the marks query and the measures query return the entries of that time in recording order |
| Queries.NameQueryIsStable | test/test-performancetimeline.js:111-119 | for every start time, the name query returns the entries of that name and time in recording order, with or without a type |
| Queries.GetEntriesIsStable | test/test-performancetimeline.js:38-54 | entries with the same start time come back from getEntries in recording order |
| Scenarios.Cleared | test/test-mark.js:16-19 | clearing both collections empties them, keeps the clock and keeps the invariant |
| Scenarios.MarkRepeatedlyAppends | test/test-mark.js:49-56 | any number of successive marks all succeed and add one mark each, leaving measures alone |
| Scenarios.SimpleMark | test/test-mark.js:21-29 | one mark on a cleared store gives one mark entry named "foo" with positive start time |
| Scenarios.MarkRejectsInvalidNames | test/test-mark.js:31-45 | a missing name, the empty name and navigationStart are each rejected with InvalidArgument |
| Scenarios.RepeatedMarksAreOrdered | test/test-mark.js:49-65 | after n marks the marks query has n entries, each with positive start time, in non-decreasing time |
| Scenarios.ClearAllMarks | test/test-mark.js:74-86 | clearing all marks leaves none, whether one mark or none was recorded |
| Scenarios.ClearMarksOfAbsentName | test/test-mark.js:88-93 | clearing marks of a name no mark has keeps the one mark |
| Scenarios.ClearMarksByName | test/test-mark.js:95-108 | two marks; clearing "foo1" leaves one; clearing "foo2" leaves none |
| Scenarios.ClearMarksKeepsMeasures | test/test.js:120-134 | one mark and two same-named measures; clearing marks leaves no mark and both measures |
| Scenarios.MeasureWithoutMarks | test/test-measure.js:21-29 | a measure on a cleared store is the only measure, named "foo", starting at 0 |
| Scenarios.MeasureFromStartMark | test/test-measure.js:31-42 | after mark "1", measure("1", "1") is the one measure; it starts at the mark's positive time and lasts until the call's reading |
| Scenarios.MeasureBetweenMarks | test/test-measure.js:44-59 | after marks "1" and "2", measure("1", "1", "2") is the one measure; it starts at mark "1" and lasts exactly until mark "2" |
| Scenarios.MeasureQueryOfOne | test/test-measure.js:21-29 | proof helper for the one-measure scenarios: with one measure recorded, the measure query returns exactly it |
| Scenarios.MeasureErrors | test/test-measure.js:61-84 | a missing name fails with InvalidArgument; an unknown start mark and an unknown end mark each fail with MarkNotFound naming the reference and its role |
| Scenarios.ClearAllMeasures | test/test-measure.js:93-105 | clearing all measures leaves none, whether one measure or none was recorded |
| Scenarios.ClearMeasuresOfAbsentName | test/test-measure.js:122-127 | clearing measures of a name no measure has keeps the one measure |
| Scenarios.ClearMeasuresByName | test/test.js:244-259 | two measures; clearing "foo1" leaves one; clearing "foo2" leaves none |
| Scenarios.ClearMeasuresOfPair | test/test-measure.js:107-120 | proof helper for ClearMeasuresByName: of two differently named measures, clearing by the first name leaves one and then clearing by the second leaves none |
| Scenarios.GetEntriesAfterMark | test/test-performancetimeline.js:22-36 | getEntries is empty on a cleared store and non-empty after a mark |
| Scenarios.MeasuresSortedByStartTime | test/test.js:361-376 | a later origin measure "0" comes before an earlier measure "1" that starts at a mark |
| Scenarios.MeasureQueryOfPair | test/test-performancetimeline.js:38-54 | with two measures, the measure query puts the earlier-starting first, and on a tie the first recorded |
| Scenarios.TypeQueriesSeparateKinds | test/test-performancetimeline.js:57-95 | each type query returns only its own kind: one mark and one measure each, none when only the other kind was recorded |
| Scenarios.UnknownTypeQueryIsEmpty | test/test-performancetimeline.js:97-102 | an unknown type gives an empty result from both the type query and the name query |
| Scenarios.NameQueryFindsBothKinds | test/test.js:327-337 | the name query finds nothing on a cleared store, and both the mark and the measure of a shared name |
| Scenarios.NameQueryOfEmpty | test/test-performancetimeline.js:106-109 | with nothing recorded, the name query returns nothing |
| Scenarios.NameQueryOfPair | test/test-performancetimeline.js:111-119 | one mark and one measure of the same name are both returned by the name query |
| Scenarios.NameQueryByType | test/test.js:340-349 | the name query restricted to "mark" returns only the mark of a shared name |

## Left out

- The host clock: a `tick` parameter stands for each clock advance. The epoch sanity bound in test/test-now.js is a property of the host clock, not of the timeline.
- Host detection and pass-through to a native `performance` object are module-loading shims with no timeline behaviour.
- Timestamps are natural-number milliseconds, not floating point, because no rounding behaviour is involved.
- The `duration < 10000` check in the two-mark measure test is a bound on how long the test ran, not an invariant. Scenarios.MeasureBetweenMarks states the exact duration instead.
- Defensive copying of query results is not modelled, because Dafny sequences are immutable values.
- Numeric (timestamp) start and end references of `measure` are not modelled; every present reference is treated as a mark name.
- Scenarios.MarkRejectsInvalidNames: the tests check the navigationStart rejection only when the host exposes Navigation Timing. The model always rejects that name.
- Timeline.Resolve: a reference naming several marks resolves to the latest of them, as User Timing prescribes (the most recent mark of that name); the tests never record a name twice before measuring.
- Timeline.MeasureEntry: an end earlier than the start gives duration 0. This clamp is a design choice of the model: User Timing computes end minus start, which may be negative, and the tests never measure an inverted interval.
- Timeline.Mark: an empty name is rejected with InvalidArgument. This is a design choice of the model: the tests only call `mark()` with no argument, and User Timing does not reject the empty string.
- Timeline.Measure: an empty name is rejected with InvalidArgument. This is a design choice of the model: the tests only call `measure()` with no argument, and User Timing does not reject the empty string.
- Timeline.Resolve: an empty reference string is looked up like any other name. Since no mark can be named "", it fails with MarkNotFound.
- Queries.GetEntries: when a mark and a measure have the same start time, the mark comes first, because the stable sort runs over the marks followed by the measures. The tests do not fix this order.
- Gruntfile.js is build configuration with no behaviour.
