/**
 * The state of one typing test: the prompt, the keystroke log with its
 * cursor, the start time, the countdown of a timed test, and the results
 * computed when the test ends. Times are whole milliseconds supplied by
 * the caller; the prompt is taken to be ASCII, so its length in bytes and
 * in characters agree.
 */
module Session {
  import opened Wrappers
  import opened Log
  import Stats
  import Speed

  class Thok {
    const prompt: string
    const numberOfWords: nat
    /** The configured length of a timed test, in milliseconds. */
    const numberOfMs: Option<int>
    const deathMode: bool

    var input: seq<Input>
    /** Chart points: a second marker and the correct keystrokes up to it. */
    var wpmCoords: seq<(nat, nat)>
    var cursorPos: nat
    var startedAt: Option<nat>
    /** The time left in a timed test, in milliseconds. */
    var msRemaining: Option<int>
    /** The accuracy percentage; `None` is the NaN of an empty log. */
    var accuracy: Option<nat>

    /**
     * The cursor stays within the log, the log never outgrows the prompt,
     * and a non-empty log means the test has started.
     */
    ghost predicate Valid()
      reads this
    {
      && cursorPos <= |input| <= |prompt|
      && (input != [] ==> startedAt.Some?)
    }

    /** A fresh test: empty log and chart, cursor at 0, not started, full time left. */
    constructor (prompt: string, numberOfWords: nat, numberOfMs: Option<int>, deathMode: bool)
      ensures Valid()
      ensures this.prompt == prompt && this.numberOfWords == numberOfWords
      ensures this.numberOfMs == numberOfMs && this.deathMode == deathMode
      ensures input == [] && wpmCoords == [] && cursorPos == 0
      ensures startedAt == None && msRemaining == numberOfMs && accuracy == Some(0)
    {
      this.prompt := prompt;
      this.numberOfWords := numberOfWords;
      this.numberOfMs := numberOfMs;
      this.deathMode := deathMode;
      input := [];
      wpmCoords := [];
      cursorPos := 0;
      startedAt := None;
      msRemaining := numberOfMs;
      accuracy := Some(0);
    }

    /**
     * One tick of the clock: a timed test loses `tickMs` milliseconds (the
     * remaining time may go below zero); an untimed test is unaffected.
     */
    method OnTick(tickMs: nat)
      requires Valid()
      modifies this`msRemaining
      ensures Valid()
      ensures msRemaining.Some? == old(msRemaining).Some?
      ensures msRemaining.Some? ==> msRemaining.value == old(msRemaining).value - tickMs
      ensures old(HasFinished()) ==> HasFinished()
    {
      if msRemaining.Some? {
        msRemaining := Some(msRemaining.value - tickMs);
      }
    }

    /** The prompt character at `idx`; there must be one. */
    function GetExpectedChar(idx: nat): (c: char)
      reads this
      requires idx < |prompt|
      ensures c == prompt[idx]
    {
      prompt[idx]
    }

    /** Moves the cursor right, unless it is at the end of the log. */
    method IncrementCursor()
      requires Valid()
      modifies this`cursorPos
      ensures Valid()
      ensures cursorPos == if old(cursorPos) < |input| then old(cursorPos) + 1 else old(cursorPos)
    {
      if cursorPos < |input| {
        cursorPos := cursorPos + 1;
      }
    }

    /**
     * Moves the cursor left, unless it is at the start of the log. It keeps
     * the invariant, and it brings a cursor left one past the end by a
     * removal back within the log.
     */
    method DecrementCursor()
      modifies this`cursorPos
      ensures old(Valid()) ==> Valid()
      ensures old(cursorPos) <= |input| + 1 ==> cursorPos <= |input|
      ensures cursorPos == if old(cursorPos) > 0 then old(cursorPos) - 1 else 0
    {
      if cursorPos > 0 {
        cursorPos := cursorPos - 1;
      }
    }

    /** Removes the record just before the cursor and moves the cursor back; nothing at position 0. */
    method Backspace()
      requires Valid()
      modifies this`input, this`cursorPos
      ensures Valid()
      ensures old(cursorPos) > 0 ==>
        input == RemoveAt(old(input), old(cursorPos) - 1) && cursorPos == old(cursorPos) - 1
      ensures old(cursorPos) == 0 ==> input == old(input) && cursorPos == 0
    {
      if cursorPos > 0 {
        input := RemoveAt(input, cursorPos - 1);
        DecrementCursor();
      }
    }

    /**
     * Deletes the last word: a trailing space record first, then records
     * while the last one is not a space. Each removal takes the record
     * before the cursor, so the caller must not leave the cursor at 0
     * while there is something to remove: with the cursor at the end this
     * deletes the last word; with the cursor inside a log that ends in a
     * space it removes the single record before the cursor.
     */
    method WordBackspace()
      requires Valid()
      requires cursorPos == |input| || (0 < cursorPos && IsSpace(input[|input| - 1]))
      modifies this`input, this`cursorPos
      ensures Valid()
      ensures old(cursorPos) == old(|input|) ==> input == DeleteWord(old(input)) && cursorPos == |input|
      ensures old(cursorPos) < old(|input|) ==>
        input == RemoveAt(old(input), old(cursorPos) - 1) && cursorPos == old(cursorPos) - 1
    {
      ghost var s0 := input;
      var atEnd := cursorPos == |input|;
      if input != [] && IsSpace(input[|input| - 1]) {
        if atEnd {
          RemoveLast(input);
        }
        input := RemoveAt(input, cursorPos - 1);
        DecrementCursor();
      }
      ghost var afterSpace := input;
      assert atEnd ==> DeleteWord(s0) == DropRun(afterSpace);
      while input != [] && !IsSpace(input[|input| - 1])
        invariant Valid()
        invariant atEnd ==> cursorPos == |input| && DropRun(input) == DropRun(afterSpace)
        invariant !atEnd ==> input == afterSpace && input != [] && IsSpace(input[|input| - 1])
        invariant !atEnd ==> input == RemoveAt(s0, old(cursorPos) - 1) && cursorPos == old(cursorPos) - 1
        decreases |input|
      {
        RemoveLast(input);
        input := RemoveAt(input, cursorPos - 1);
        DecrementCursor();
      }
    }

    /** Records the start of the test. */
    method Start(now: nat)
      requires Valid()
      modifies this`startedAt
      ensures Valid()
      ensures startedAt == Some(now)
    {
      startedAt := Some(now);
    }

    /**
     * Types `c` at time `now`: it is judged against the prompt character at
     * the log's length (not at the cursor), inserted at the cursor, and the
     * cursor moves past it. The first keystroke of a test not yet started
     * starts it.
     */
    method Write(c: char, now: nat)
      requires Valid()
      requires |input| < |prompt|
      modifies this`input, this`cursorPos, this`startedAt
      ensures Valid()
      ensures input == InsertAt(old(input), old(cursorPos),
        Input(c, if c == prompt[old(|input|)] then Correct else Incorrect, now))
      ensures input[old(cursorPos)].outcome == Correct <==> c == prompt[old(|input|)]
      ensures cursorPos == old(cursorPos) + 1
      ensures startedAt == if old(input) == [] && old(startedAt) == None then Some(now) else old(startedAt)
      ensures old(FatalError()) ==> FatalError()
    {
      var idx := |input|;
      if idx == 0 && startedAt.None? {
        Start(now);
      }
      var outcome := if c == GetExpectedChar(idx) then Correct else Incorrect;
      ghost var before := input;
      input := InsertAt(input, cursorPos, Input(c, outcome, now));
      IncrementCursor();
      if deathMode && Stats.AnyIncorrect(before) {
        var j :| 0 <= j < |before| && before[j].outcome == Incorrect;
        assert input[if j < old(cursorPos) then j else j + 1].outcome == Incorrect;
      }
    }

    /** Whether the first keystroke has been typed. */
    function HasStarted(): (r: bool)
      reads this
      ensures Valid() && input != [] ==> r
      ensures r <==> startedAt.Some?
    {
      startedAt.Some?
    }

    /**
     * The test is over when the whole prompt is typed, the time of a timed
     * test has run out, or a death-mode test has a mistake. Until then there
     * is room in the prompt for another keystroke.
     */
    function HasFinished(): (r: bool)
      reads this
      ensures r <==> || |input| == |prompt|
                     || (msRemaining.Some? && msRemaining.value <= 0)
                     || (deathMode && Stats.AnyIncorrect(input))
      ensures Valid() && !r ==> |input| < |prompt|
    {
      var finishedPrompt := |input| == |prompt|;
      var outOfTime := msRemaining.Some? && msRemaining.value <= 0;
      finishedPrompt || outOfTime || FatalError()
    }

    /** A death-mode test with a mistake: fewer correct records than records. */
    function FatalError(): (r: bool)
      reads this
      ensures r <==> deathMode && |Stats.CorrectChars(input)| < |input|
    {
      Stats.IncorrectIffFewerCorrect(input);
      deathMode && Stats.AnyIncorrect(input)
    }

    /** The second markers of the correct keystrokes, in log order, when results are computed at `now`. */
    function CorrectMarkers(now: nat): (m: seq<nat>)
      reads this`input, this`startedAt
      requires startedAt.Some? && startedAt.value <= now
      requires forall x :: x in input && x.outcome == Correct ==> startedAt.value <= x.timestamp
      ensures |m| == |Stats.CorrectChars(input)|
    {
      Stats.CorrectCharsMembers(input);
      Speed.Markers(Stats.CorrectChars(input), startedAt.value, now - startedAt.value)
    }

    /** The per-second histogram of the correct keystrokes when results are computed at `now`. */
    function PerSecond(now: nat): (r: Speed.Histogram)
      reads this`input, this`startedAt
      requires startedAt.Some? && startedAt.value <= now
      requires forall x :: x in input && x.outcome == Correct ==> startedAt.value <= x.timestamp
      ensures Speed.Sorted(r) && Speed.Positive(r)
      ensures forall x :: Speed.CountOf(r, x) == multiset(CorrectMarkers(now))[x]
      ensures Speed.Total(r) == |Stats.CorrectChars(input)|
    {
      Speed.TallyCorrect(CorrectMarkers(now));
      Speed.Tally(CorrectMarkers(now))
    }

    /**
     * The end-of-test results at time `now`: one chart point per distinct
     * second marker is appended to the chart, ascending, each with the
     * running total of correct keystrokes, and the accuracy is set.
     */
    method CalcResults(now: nat)
      requires Valid()
      requires startedAt.Some? && startedAt.value <= now
      requires forall x :: x in input && x.outcome == Correct ==> startedAt.value <= x.timestamp
      modifies this`wpmCoords, this`accuracy
      ensures Valid()
      ensures wpmCoords == old(wpmCoords) + Speed.CumulativeCoords(old(PerSecond(now)))
      ensures var added := wpmCoords[|old(wpmCoords)|..];
        && (forall i, j :: 0 <= i < j < |added| ==> added[i].0 < added[j].0)
        && (added != [] ==> added[|added| - 1].1 == |Stats.CorrectChars(input)|)
      ensures accuracy == Stats.Accuracy(|Stats.CorrectChars(input)|, |input|)
    {
      var correct := Stats.CorrectChars(input);
      var perSec := PerSecond(now);
      PushCoords(perSec);
      Speed.ChartOfHistogram(perSec);
      assert wpmCoords[|old(wpmCoords)|..] == Speed.CumulativeCoords(perSec);
      accuracy := Stats.Accuracy(|correct|, |input|);
    }

    /**
     * Walks the histogram in order, keeping the running total of its
     * counts, and appends one chart point per entry: its marker and the
     * running total up to and including it.
     */
    method PushCoords(perSec: Speed.Histogram)
      requires Valid()
      modifies this`wpmCoords
      ensures Valid()
      ensures wpmCoords == old(wpmCoords) + Speed.CumulativeCoords(perSec)
    {
      var total := 0;
      var i := 0;
      while i < |perSec|
        invariant 0 <= i <= |perSec|
        invariant total == Speed.Total(perSec[..i])
        invariant wpmCoords == old(wpmCoords) + Speed.CumulativeCoords(perSec[..i])
      {
        Speed.CumulativeCoordsStep(perSec, i);
        total := total + perSec[i].1;
        wpmCoords := wpmCoords + [(perSec[i].0, total)];
        i := i + 1;
      }
      assert perSec[..i] == perSec;
    }
  }
}
