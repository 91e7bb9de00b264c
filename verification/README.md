# thokr typing-test engine, modelled in Dafny

This project models the engine behind a thokr typing test: the `Thok` struct of `src/thok.rs` and its methods.

The engine keeps a keystroke log with a cursor. Each record holds the character typed, whether it matched the prompt, and when it was typed. The engine edits the log as the user types, deletes a character, or deletes a word. It counts down the time of a timed test and decides when the test is over. At the end it computes the results:

- the correct keystrokes;
- the correct words;
- the accuracy percentage;
- the per-second histogram of correct keystrokes that the speed chart is drawn from.

Modules:

- `Wrappers` (`wrappers.dfy`): `Option`.
- `Log` (`log.dfy`): the `Outcome` and `Input` records. Also the log edits as functions: insertion (`Vec::insert`), removal (`Vec::remove`), and what a word-backspace leaves (`DeleteWord`).
- `Stats` (`stats.dfy`): the correct-keystroke filter, the split of the log into words, the correct-word count and the accuracy rounding.
- `Speed` (`speed.dfy`): the second marker of a keystroke, the histogram, and the running totals behind the chart.
- `Session` (`session.dfy`): the class `Thok`. Its methods update the log, the cursor, the start time, the countdown and the results in place. `Valid()` is the class invariant: `0 <= cursorPos <= |input| <= |prompt|`, and a non-empty log means the test has started. Every method requires it and keeps it, except `DecrementCursor`. `Backspace` calls that method right after a removal, when the cursor is briefly one past the end of the log. `DecrementCursor` keeps the invariant when it held before, and brings such a cursor back within the log.

Conventions of the model:

- Times are whole milliseconds, supplied by the caller as `now`.
- `TICK_RATE_MS` is defined outside `src/thok.rs`, so it is the `tickMs` parameter of `OnTick`.
- The prompt is a `string`, assumed ASCII. `has_finished` compares against the prompt's byte length, while `get_expected_char` indexes by character. The two agree only for ASCII.

In three places the code does something other than what its intent suggests. The model follows the code:

- Accuracy of an empty log. One would expect 0. The code computes the float `0 / 0`, which is NaN. `Stats.Accuracy` returns `None` for it.
- Second markers. The intent is to clamp a late keystroke to the elapsed time in seconds. In the code, `elapsed_secs` holds milliseconds (`as_millis()`). So the limit compared against, and the clamped value, are both milliseconds. `Speed.NoClampBeforeNow` shows the consequence: once at least one millisecond has elapsed, a keystroke typed no later than the moment the results are computed is never clamped. It is marked with the whole second it falls in, or with second 1 at offset 0. With less than a millisecond elapsed, the limit is 0, and the code clamps every keystroke after the start instant to marker 0.
- `write` judges a keystroke against the prompt character at the log's length, not at the cursor. After moving the cursor back, a keystroke inserted mid-log is judged against the wrong prompt position. `Session.Thok.Write` states this behaviour as is.

## Model

| member | source | states |
|---|---|---|
| `Log.InsertAt` | src/thok.rs:215-222 | the new record sits at the cursor index; earlier records are unchanged; later ones move up by one |
| `Log.RemoveAt` | src/thok.rs:183 | the record at the index is gone; earlier records are unchanged; later ones move down by one |
| `Log.RemoveInsert` | src/thok.rs:181-186 | removing the record just inserted at an index gives back the original log, so a backspace right after a write undoes it |
| `Log.DropRun` | src/thok.rs:193-196 | the result is a prefix of the log; it is empty or ends in a space record; every record removed is a non-space |
| `Log.DeleteWord` | src/thok.rs:188-197 | a word-backspace at the end of the log leaves a prefix of it that is empty or ends in a space record; it removes at least one record from a non-empty log; only the last removed record can be a space |
| `Log.Typed` | src/thok.rs:291-300 | the test fixture `build_input!`: one record per character of the text, in order, every one `Correct`; the clock reading is replaced by time 0 |
| `Log.TypedAgainst` | src/thok.rs:301-311 | a record per typed character, in order; a record is `Correct` exactly when the typed character equals the expected character at its position |
| `Log.DeleteWordExample` | src/thok.rs:383-422 | on "one two three four", one word-backspace leaves "one two three " and a second one leaves "one two " |
| `Stats.CorrectChars` | src/thok.rs:96-101 | the correct records: each correct record appears exactly as many times as in the log, and no incorrect record appears; all records are kept exactly when no record is incorrect |
| `Stats.CorrectCharsMembers` | src/thok.rs:96-101 | a record is among the correct records exactly when it is in the log with outcome `Correct` |
| `Stats.CorrectCharsAppend` | src/thok.rs:96-101 | the filter keeps log order: the correct records of two logs joined are those of the first followed by those of the second |
| `Stats.AnyIncorrect` | src/thok.rs:283 | some record is `Incorrect` exactly when the number of incorrect records is positive |
| `Stats.CountsPartition` | src/thok.rs:174-176 | the accuracy numerator (correct records) plus the incorrect records equals the denominator (all records) |
| `Stats.IncorrectIffFewerCorrect` | src/thok.rs:281-284 | some record is `Incorrect` exactly when fewer records are correct than there are records |
| `Stats.Segments` | src/thok.rs:166 | splitting on space records gives one more segment than there are spaces, empty segments included; no segment contains a space |
| `Stats.SegmentsJoin` | src/thok.rs:166 | the segments, rejoined with the space records between them, give back the log |
| `Stats.SegmentsAtSpace` | src/thok.rs:166 | the segments of a log are those before any one of its space records followed by those after it |
| `Stats.SegmentsNoSpace` | src/thok.rs:166 | a log without space records is a single segment |
| `Stats.CorrectWords` | src/thok.rs:163-168 | the number of space-separated segments with no incorrect record; at most one more than the number of space records |
| `Stats.CorrectWordsAtSpace` | src/thok.rs:163-168 | the correct-word count is the count before a space record plus the count after it |
| `Stats.CorrectWordsBounds` | src/thok.rs:163-168 | there are at most as many correct words as segments; each incorrect record spoils at most one segment; with no incorrect record every segment, empty ones included, is a correct word |
| `Stats.ThreeWords` | src/thok.rs:163-168 | a 13-record log with spaces only at positions 3 and 7 splits into three segments, and its correct-word count is the number of those without an incorrect record |
| `Stats.Accuracy` | src/thok.rs:174-176 | no value (NaN) exactly for an empty log; otherwise `100 * correct / total` rounded to the nearest integer, halves rounded up; at most 100 when correct does not exceed total; exactly 100 when all records are correct |
| `Stats.AllCorrectAccuracy` | src/thok.rs:378-380 | a non-empty log typed without a mistake is 100% accurate |
| `Stats.AccuracyExample` | src/thok.rs:352-376 | "one two thrdd" against "one two three" has 11 correct records of 13, 2 correct words, and accuracy 85 |
| `Stats.AllCorrectExample` | src/thok.rs:323-351 | "one two three" typed correctly has 3 correct words and accuracy 100 |
| `Speed.SecondMarker` | src/thok.rs:118-129 | offset 0 gets marker 1; a positive offset whose rounded-up second is within the limit gets the second it falls in, `(b - 1) * 1000 < offset <= b * 1000`; otherwise the elapsed milliseconds |
| `Speed.NoClampBeforeNow` | src/thok.rs:103-129 | since the limit is in milliseconds, once at least one millisecond has elapsed a keystroke no later than the results time is never clamped: its marker is 1 at offset 0, else the ceiling of its offset in seconds |
| `Speed.Markers` | src/thok.rs:108-117 | one marker per correct keystroke, in order: keystroke `i` gets the `SecondMarker` of its offset from the start time, computed against the elapsed time |
| `Speed.AddMarker` | src/thok.rs:131 | counting one more keystroke adds at most one histogram entry |
| `Speed.AddMarkerCount` | src/thok.rs:131 | counting one more keystroke under a marker raises that marker's count by one and leaves every other count unchanged |
| `Speed.Tally` | src/thok.rs:108-137 | the histogram has at most one entry per marker; it is empty exactly when there are no markers |
| `Speed.TallyCorrect` | src/thok.rs:108-137 | the histogram is strictly ascending by marker; every count is positive; each marker's count is its number of occurrences; the counts add up to the number of correct keystrokes |
| `Speed.CumulativeCoords` | src/thok.rs:153-161 | one chart point per histogram entry |
| `Speed.CumulativeCoordsAt` | src/thok.rs:155-160 | point `i` has entry `i`'s marker and the running total of counts up to and including entry `i`; the running totals never decrease |
| `Speed.CumulativeCoordsStep` | src/thok.rs:153-161 | one more histogram entry adds its count to the running total and appends one chart point with its marker and the new total |
| `Speed.ChartOfHistogram` | src/thok.rs:134-161 | the chart of a histogram sorted by marker has strictly ascending markers, and its last running total is the histogram's total |
| `Speed.ChartOfMarkers` | src/thok.rs:134-161 | the chart is empty exactly when there are no correct keystrokes; its markers strictly ascend; its last running total is the number of correct keystrokes |
| `Speed.ConsistencySamples` | src/thok.rs:139-144 | the standard deviation is taken over the counts of every histogram entry except the last |
| `Session.Thok.constructor` | src/thok.rs:46-71 | a new test has an empty log and chart, cursor 0, no start time, remaining time equal to the configured duration, and accuracy 0; the invariant holds |
| `Session.Thok.OnTick` | src/thok.rs:73-77 | a timed test loses one tick of remaining time, possibly going below zero; an untimed test is unchanged; a finished test stays finished; the invariant is kept |
| `Session.Thok.GetExpectedChar` | src/thok.rs:79-81 | only defined for an index inside the prompt, where `unwrap` would not panic; returns the prompt character at that index |
| `Session.Thok.IncrementCursor` | src/thok.rs:83-87 | the cursor advances by one only when it is before the end of the log; the invariant is kept |
| `Session.Thok.DecrementCursor` | src/thok.rs:89-93 | the cursor retreats by one only when it is after position 0; the invariant is kept if it held; a cursor at most one past the end of the log ends within it |
| `Session.Thok.Backspace` | src/thok.rs:181-186 | at cursor > 0: exactly the record before the cursor is removed, the others stay in order, and the cursor moves back by one; at 0: no change; the invariant is kept |
| `Session.Thok.WordBackspace` | src/thok.rs:188-197 | callable only where `cursor_pos - 1` cannot underflow. With the cursor at the end, the log becomes `DeleteWord` of the old log and the cursor stays at the end. With the cursor inside a log ending in a space, the single record before the cursor is removed. The invariant is kept |
| `Session.Thok.Start` | src/thok.rs:199-201 | the start time becomes `now`; the invariant is kept |
| `Session.Thok.Write` | src/thok.rs:203-224 | callable only while the log is shorter than the prompt. The record is inserted at the old cursor. It is `Correct` exactly when `c` equals the prompt character at the old log length. The cursor advances by one. The start time is set only when the log was empty and the test not started, otherwise unchanged. A fatal error stays fatal. The invariant is kept |
| `Session.Thok.HasStarted` | src/thok.rs:226-228 | true exactly when a start time is set; always true once the log is non-empty |
| `Session.Thok.HasFinished` | src/thok.rs:230-237 | true exactly when the whole prompt is typed, or the remaining time of a timed test is at most 0, or a death-mode test has an incorrect record; while false, there is room for another keystroke |
| `Session.Thok.FatalError` | src/thok.rs:281-284 | true exactly when death mode is on and fewer records are correct than there are records |
| `Session.Thok.PerSecond` | src/thok.rs:96-137 | the per-second histogram of the correct keystrokes is strictly ascending by marker, every count is positive, each marker counts exactly the correct keystrokes given that marker, and the counts add up to the number of correct records |
| `Session.Thok.PushCoords` | src/thok.rs:153-161 | the chart gets one point per histogram entry appended, in order, each with its marker and the running total of counts up to it; the existing points stay; the invariant is kept |
| `Session.Thok.CalcResults` | src/thok.rs:95-179 | callable only when the `unwrap`s cannot panic: started, and no correct keystroke before the start. The chart gets the running-total points of the histogram as it stood at the call appended, not replacing the old ones, ascending by marker; the last point counts every correct keystroke. The accuracy is set from correct records over all records. The invariant is kept |

## Left out

- `src/ui.rs`: terminal layout, widgets, colours, the chart drawing, the pace caret, the image-to-ASCII conversion and its memoising cell. This is rendering and foreign-library code.
- `save_results`: the CSV log. It is filesystem I/O with local-time formatting, and its error is discarded by the caller.
- `wpm`: the ceiling of a float division of correct words by elapsed minutes. Floating point. The correct-word count it divides is modelled (`Stats.CorrectWords`).
- `std_dev`: it calls `crate::util::std_dev`; `src/util.rs` is not part of this model. Only the samples it is given are modelled (`Speed.ConsistencySamples`).
- `Session.Thok.CalcResults`: a chart point stores its marker and the running total of correct keystrokes. It does not store the float speed `(60 / marker) * total / 5` computed from them.
- `Session.Thok.CalcResults`: `calc_results` reads the clock twice, for the elapsed time behind the markers (src/thok.rs:104) and again for `wpm` (src/thok.rs:171). The model reads it once, as `now`.
- `Session.Thok.Write`: the first keystroke of a test reads the clock twice, once for the start time (src/thok.rs:200) and once for the record's timestamp (src/thok.rs:220). The model uses one `now` for both, so that keystroke's offset is exactly 0.
- `Stats.Accuracy`: rounds the exact rational `100 * correct / total`. The source rounds a float, which can land just below a `.5` boundary (for example 29 of 200) and round down where the exact value rounds up.
- `Speed.SecondMarker`: offsets are whole milliseconds. The source's durations have nanosecond precision, and its markers are floats keyed by their decimal text. One consequence: when the results are computed less than a millisecond after the start (a one-character prompt typed correctly ends the test on its first keystroke), the source gives that keystroke a positive offset. It clamps it to marker 0 and charts the point `(0.0, inf)`. In the model the keystroke shares the start's `now`, so its offset is 0, its marker is 1 and the point is `(1, 1)`.
- `Session.Thok.OnTick`: the remaining time is an integer count of milliseconds, not a float count of seconds.
- `raw_coords`, `pace` and `tabbed`: the engine only initialises them. The rendering layer reads `pace` and `tabbed`; nothing reads `raw_coords`.
- `SystemTime`: wall-clock time is replaced by caller-supplied millisecond values. The possible failure of `elapsed()` on a clock that went backwards appears only as `CalcResults`'s precondition.
