/**
 * The keystroke log of a typing test: one record per accepted keystroke,
 * and the sequence edits the session performs on it (insertion at the
 * cursor, removal before the cursor, deletion of the last word).
 */
module Log {

  /** Whether a keystroke matched the prompt character it was judged against. */
  datatype Outcome = Correct | Incorrect

  /** One keystroke. Timestamps are milliseconds on the caller's clock. */
  datatype Input = Input(ch: char, outcome: Outcome, timestamp: nat)

  predicate IsSpace(x: Input) {
    x.ch == ' '
  }

  /** The characters of a log, in order. */
  function Chars(s: seq<Input>): (r: string)
    ensures |r| == |s|
    ensures forall i :: 0 <= i < |s| ==> r[i] == s[i].ch
  {
    seq(|s|, i requires 0 <= i < |s| => s[i].ch)
  }

  /** `Vec::insert`: `x` lands at index `i`, later elements shift up by one. */
  function InsertAt<T>(s: seq<T>, i: nat, x: T): (r: seq<T>)
    requires i <= |s|
    ensures |r| == |s| + 1 && r[i] == x
    ensures forall j :: 0 <= j < i ==> r[j] == s[j]
    ensures forall j :: i < j < |r| ==> r[j] == s[j - 1]
  {
    s[..i] + [x] + s[i..]
  }

  /** `Vec::remove`: the element at index `i` is dropped, later elements shift down by one. */
  function RemoveAt<T>(s: seq<T>, i: nat): (r: seq<T>)
    requires i < |s|
    ensures |r| == |s| - 1
    ensures forall j :: 0 <= j < i ==> r[j] == s[j]
    ensures forall j :: i <= j < |r| ==> r[j] == s[j + 1]
  {
    s[..i] + s[i + 1..]
  }

  /** Removing what was just inserted gives back the original log. */
  lemma RemoveInsert<T>(s: seq<T>, i: nat, x: T)
    requires i <= |s|
    ensures RemoveAt(InsertAt(s, i, x), i) == s
  {
  }

  /** Removing the last element of a log is dropping it from the end. */
  lemma RemoveLast<T>(s: seq<T>)
    requires s != []
    ensures RemoveAt(s, |s| - 1) == s[..|s| - 1]
  {
  }

  /** The log with its trailing run of non-space records removed. */
  function DropRun(s: seq<Input>): (r: seq<Input>)
    ensures r <= s
    ensures r == [] || IsSpace(r[|r| - 1])
    ensures forall j :: |r| <= j < |s| ==> !IsSpace(s[j])
    decreases |s|
  {
    if s == [] || IsSpace(s[|s| - 1]) then s else DropRun(s[..|s| - 1])
  }

  /**
   * What a word-backspace leaves when the cursor is at the end of the log:
   * a trailing space record is removed first, then the trailing run of
   * non-space records.
   */
  function DeleteWord(s: seq<Input>): (r: seq<Input>)
    ensures r <= s
    ensures s != [] ==> |r| < |s|
    ensures r == [] || IsSpace(r[|r| - 1])
    ensures forall j :: |r| <= j < |s| - 1 ==> !IsSpace(s[j])
  {
    if s != [] && IsSpace(s[|s| - 1]) then DropRun(s[..|s| - 1]) else DropRun(s)
  }

  /** Records for a string typed entirely correctly, all at time 0. */
  function Typed(text: string): (r: seq<Input>)
    ensures Chars(r) == text
    ensures forall i :: 0 <= i < |r| ==> r[i].outcome == Correct && r[i].timestamp == 0
  {
    seq(|text|, i requires 0 <= i < |text| => Input(text[i], Correct, 0))
  }

  /** Records for `typed` judged position by position against `expected`, all at time 0. */
  function TypedAgainst(typed: string, expected: string): (r: seq<Input>)
    requires |typed| == |expected|
    ensures Chars(r) == typed
    ensures forall i :: 0 <= i < |r| ==> (r[i].outcome == Correct <==> typed[i] == expected[i])
  {
    seq(|typed|, i requires 0 <= i < |typed| =>
      Input(typed[i], if typed[i] == expected[i] then Correct else Incorrect, 0))
  }

  /** Deleting words from "one two three four" one at a time. */
  lemma DeleteWordExample()
    ensures Chars(DeleteWord(Typed("one two three four"))) == "one two three "
    ensures Chars(DeleteWord(DeleteWord(Typed("one two three four")))) == "one two "
  {
    var s := Typed("one two three four");
    var r := DeleteWord(s);
    assert !IsSpace(s[17]) && !IsSpace(s[16]) && !IsSpace(s[15]) && !IsSpace(s[14]) && IsSpace(s[13]);
    assert DropRun(s[..14]) == s[..14];
    assert r == s[..14];
    assert Chars(r) == "one two three ";
    var r2 := DeleteWord(r);
    assert DropRun(r[..13]) == DropRun(r[..8]) by {
      assert !IsSpace(r[12]) && !IsSpace(r[11]) && !IsSpace(r[10]) && !IsSpace(r[9]) && !IsSpace(r[8]);
      assert r[..13][..12] == r[..12];
      assert r[..12][..11] == r[..11];
      assert r[..11][..10] == r[..10];
      assert r[..10][..9] == r[..9];
      assert r[..9][..8] == r[..8];
    }
    assert IsSpace(r[7]);
    assert r2 == s[..8];
    assert Chars(r2) == "one two ";
  }
}
