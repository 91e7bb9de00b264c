/**
 * The integer-countable parts of the end-of-test results: the correct
 * keystrokes, the correct words and the accuracy percentage.
 */
module Stats {
  import opened Wrappers
  import opened Log

  // ---------------------------------------------------------------------
  // Correct keystrokes

  /** The records of the log whose outcome is `Correct`, in log order. */
  function CorrectChars(s: seq<Input>): (r: seq<Input>)
    ensures |r| <= |s|
    ensures |r| == |s| <==> forall i :: 0 <= i < |s| ==> s[i].outcome == Correct
    ensures forall x :: multiset(r)[x] == if x.outcome == Correct then multiset(s)[x] else 0
  {
    if s == [] then []
    else
      var rest := CorrectChars(s[1..]);
      assert s == [s[0]] + s[1..];
      if s[0].outcome == Correct then [s[0]] + rest else rest
  }

  /** The correct records are exactly the log's records whose outcome is `Correct`. */
  lemma CorrectCharsMembers(s: seq<Input>)
    ensures forall x :: x in CorrectChars(s) ==> x in s && x.outcome == Correct
    ensures forall x :: x in s && x.outcome == Correct ==> x in CorrectChars(s)
  {
    var r := CorrectChars(s);
    forall x | x in r ensures x in s && x.outcome == Correct {
      assert multiset(r)[x] > 0;
    }
    forall x | x in s && x.outcome == Correct ensures x in r {
      assert multiset(s)[x] > 0;
    }
  }

  /**
   * Filtering keeps log order: the correct records of two logs joined are
   * the correct records of the first followed by those of the second.
   */
  lemma {:induction false} CorrectCharsAppend(a: seq<Input>, b: seq<Input>)
    ensures CorrectChars(a + b) == CorrectChars(a) + CorrectChars(b)
  {
    if a == [] {
      assert a + b == b;
    } else {
      assert (a + b)[1..] == a[1..] + b;
      CorrectCharsAppend(a[1..], b);
    }
  }

  /** Some record of the log is `Incorrect`: exactly when the incorrect records number at least one. */
  function AnyIncorrect(s: seq<Input>): (r: bool)
    ensures r <==> IncorrectCount(s) > 0
  {
    IncorrectCountPositive(s);
    exists i :: 0 <= i < |s| && s[i].outcome == Incorrect
  }

  lemma {:induction false} IncorrectCountPositive(s: seq<Input>)
    ensures IncorrectCount(s) > 0 <==> exists i :: 0 <= i < |s| && s[i].outcome == Incorrect
  {
    if s != [] {
      IncorrectCountPositive(s[1..]);
      if s[0].outcome != Incorrect && IncorrectCount(s) == 0 {
        forall i | 0 <= i < |s| ensures s[i].outcome != Incorrect {
          if i > 0 { assert s[i] == s[1..][i - 1]; }
        }
      }
      if IncorrectCount(s[1..]) > 0 {
        var i :| 0 <= i < |s[1..]| && s[1..][i].outcome == Incorrect;
        assert s[i + 1].outcome == Incorrect;
      }
    }
  }

  /** A log has an incorrect record exactly when not all of it is counted as correct. */
  lemma IncorrectIffFewerCorrect(s: seq<Input>)
    ensures AnyIncorrect(s) <==> |CorrectChars(s)| < |s|
  {
  }

  // ---------------------------------------------------------------------
  // Words: splitting the log on space records

  /** The space records of the log, in order. */
  function Spaces(s: seq<Input>): (r: seq<Input>)
    ensures |r| <= |s|
    ensures forall i :: 0 <= i < |r| ==> IsSpace(r[i])
  {
    if s == [] then []
    else if IsSpace(s[0]) then [s[0]] + Spaces(s[1..])
    else Spaces(s[1..])
  }

  /**
   * Splitting the log on space records, like splitting a slice on a
   * predicate: `n` spaces give `n + 1` segments, empty ones included
   * (an empty log gives one empty segment).
   */
  function Segments(s: seq<Input>): (r: seq<seq<Input>>)
    ensures |r| == |Spaces(s)| + 1
    ensures forall k, j :: 0 <= k < |r| && 0 <= j < |r[k]| ==> !IsSpace(r[k][j])
  {
    if s == [] then [[]]
    else
      var rest := Segments(s[1..]);
      if IsSpace(s[0]) then [[]] + rest
      else [[s[0]] + rest[0]] + rest[1..]
  }

  /** Glues segments back together with the given separators between them. */
  function JoinWith(segs: seq<seq<Input>>, seps: seq<Input>): seq<Input>
    requires |segs| == |seps| + 1
  {
    if |segs| == 1 then segs[0]
    else segs[0] + [seps[0]] + JoinWith(segs[1..], seps[1..])
  }

  /** Splitting loses nothing: the segments, rejoined with the space records, are the log. */
  lemma {:induction false} SegmentsJoin(s: seq<Input>)
    ensures JoinWith(Segments(s), Spaces(s)) == s
  {
    if s != [] {
      SegmentsJoin(s[1..]);
      var rest := Segments(s[1..]);
      if IsSpace(s[0]) {
        assert Segments(s)[1..] == rest;
        assert Spaces(s)[1..] == Spaces(s[1..]);
      } else if |rest| == 1 {
        assert Segments(s) == [[s[0]] + rest[0]];
      } else {
        var segs := Segments(s);
        assert segs[1..] == rest[1..];
        assert JoinWith(rest, Spaces(s[1..]))
            == rest[0] + [Spaces(s[1..])[0]] + JoinWith(rest[1..], Spaces(s[1..])[1..]);
      }
    }
  }

  /** A segment counts as a correct word when none of its records is `Incorrect`. */
  predicate CleanWord(w: seq<Input>) {
    !AnyIncorrect(w)
  }

  /** How many of the given segments are correct words. */
  function CountClean(segs: seq<seq<Input>>): (n: nat)
    ensures n <= |segs|
  {
    if segs == [] then 0
    else (if CleanWord(segs[0]) then 1 else 0) + CountClean(segs[1..])
  }

  /** The correct-word count of `calc_results`. */
  function CorrectWords(s: seq<Input>): (n: nat)
    ensures n <= |Spaces(s)| + 1
  {
    CountClean(Segments(s))
  }

  /** The number of `Incorrect` records in the log. */
  function IncorrectCount(s: seq<Input>): (n: nat)
    ensures n <= |s|
  {
    if s == [] then 0
    else (if s[0].outcome == Incorrect then 1 else 0) + IncorrectCount(s[1..])
  }

  /**
   * Each incorrect record spoils at most one word, so the correct words
   * and the incorrect records together cover every segment; a log with
   * no incorrect record has every segment as a correct word.
   */
  lemma {:induction false} CorrectWordsBounds(s: seq<Input>)
    ensures CorrectWords(s) <= |Spaces(s)| + 1
    ensures CorrectWords(s) + IncorrectCount(s) >= |Spaces(s)| + 1
    ensures IncorrectCount(s) == 0 ==> CorrectWords(s) == |Spaces(s)| + 1
  {
    if s != [] {
      CorrectWordsBounds(s[1..]);
      var rest := Segments(s[1..]);
      if IsSpace(s[0]) {
        assert Segments(s) == [[]] + rest;
        assert Segments(s)[1..] == rest;
        assert CleanWord([]);
      } else {
        var w := [s[0]] + rest[0];
        assert Segments(s) == [w] + rest[1..];
        assert Segments(s)[1..] == rest[1..];
        assert CountClean(rest) == (if CleanWord(rest[0]) then 1 else 0) + CountClean(rest[1..]);
        if s[0].outcome != Incorrect {
          assert CleanWord(w) == CleanWord(rest[0]) by {
            if CleanWord(rest[0]) {
              forall j | 0 <= j < |w| ensures w[j].outcome != Incorrect {
                if j > 0 { assert w[j] == rest[0][j - 1]; }
              }
            }
            if CleanWord(w) {
              forall j | 0 <= j < |rest[0]| ensures rest[0][j].outcome != Incorrect {
                assert rest[0][j] == w[j + 1];
              }
            }
          }
        } else {
          assert !CleanWord(w) by { assert w[0].outcome == Incorrect; }
        }
      }
    }
  }

  // ---------------------------------------------------------------------
  // Accuracy

  /**
   * `round(correct / total * 100)`, rounding halves away from zero; `None`
   * stands for the NaN that a float 0 / 0 gives for an empty log.
   */
  function Accuracy(correct: nat, total: nat): (r: Option<nat>)
    ensures r.None? <==> total == 0
    ensures r.Some? ==> 2 * total * r.value <= 200 * correct + total < 2 * total * (r.value + 1)
    ensures r.Some? && correct <= total ==> r.value <= 100
    ensures r.Some? && correct == total ==> r.value == 100
  {
    if total == 0 then None
    else
      RoundedPercent(correct, total);
      Some((200 * correct + total) / (2 * total))
  }

  /** The facts about the rounded percentage that `Accuracy` promises. */
  lemma RoundedPercent(correct: nat, total: nat)
    requires total > 0
    ensures var q := (200 * correct + total) / (2 * total);
      && 2 * total * q <= 200 * correct + total < 2 * total * (q + 1)
      && (correct <= total ==> q <= 100)
      && (correct == total ==> q == 100)
  {
    var d := 2 * total;
    DivBounds(200 * correct + total, d);
    assert d * 100 <= 201 * total < d * 101;
    DivUnique(201 * total, d, 100);
    if correct <= total {
      DivMonotone(200 * correct + total, 201 * total, d);
    }
  }

  lemma DivBounds(a: nat, d: nat)
    requires d > 0
    ensures d * (a / d) <= a < d * (a / d + 1)
  {
  }

  lemma MulMonotone(d: nat, x: nat, y: nat)
    requires x <= y
    ensures d * x <= d * y
  {
  }

  /** The quotient is the only `q` with `d * q <= a < d * (q + 1)`. */
  lemma DivUnique(a: nat, d: nat, q: nat)
    requires d > 0 && d * q <= a < d * (q + 1)
    ensures a / d == q
  {
    var p := a / d;
    DivBounds(a, d);
    if p < q {
      MulMonotone(d, p + 1, q);
    } else if p > q {
      MulMonotone(d, q + 1, p);
    }
  }

  lemma DivMonotone(a: nat, b: nat, d: nat)
    requires d > 0 && a <= b
    ensures a / d <= b / d
  {
    DivBounds(a, d);
    DivBounds(b, d);
    if a / d > b / d {
      MulMonotone(d, b / d + 1, a / d);
    }
  }

  /** A log typed without a mistake is 100% accurate. */
  lemma AllCorrectAccuracy(s: seq<Input>)
    requires s != []
    requires forall i :: 0 <= i < |s| ==> s[i].outcome == Correct
    ensures Accuracy(|CorrectChars(s)|, |s|) == Some(100)
  {
  }

  /** Every record is counted either as correct or as incorrect. */
  lemma {:induction false} CountsPartition(s: seq<Input>)
    ensures |CorrectChars(s)| + IncorrectCount(s) == |s|
  {
    if s != [] {
      CountsPartition(s[1..]);
    }
  }

  /** Splitting distributes over a space record: the segments on each side, side by side. */
  lemma {:induction false} SegmentsAtSpace(s: seq<Input>, k: nat)
    requires k < |s| && IsSpace(s[k])
    ensures Segments(s) == Segments(s[..k]) + Segments(s[k + 1..])
  {
    if k > 0 {
      SegmentsAtSpace(s[1..], k - 1);
      assert s[1..][..k - 1] == s[..k][1..];
      assert s[1..][k..] == s[k + 1..];
      assert s[..k][0] == s[0];
    }
  }

  /** A log with no space record is a single segment. */
  lemma {:induction false} SegmentsNoSpace(w: seq<Input>)
    requires forall j :: 0 <= j < |w| ==> !IsSpace(w[j])
    ensures Segments(w) == [w]
  {
    if w != [] {
      SegmentsNoSpace(w[1..]);
      assert [w[0]] + w[1..] == w;
    }
  }

  lemma {:induction false} CountCleanAppend(a: seq<seq<Input>>, b: seq<seq<Input>>)
    ensures CountClean(a + b) == CountClean(a) + CountClean(b)
  {
    if a != [] {
      assert (a + b)[0] == a[0];
      assert (a + b)[1..] == a[1..] + b;
      CountCleanAppend(a[1..], b);
    } else {
      assert a + b == b;
    }
  }

  /** The correct words of a log with a space at `k`: those before it plus those after it. */
  lemma CorrectWordsAtSpace(s: seq<Input>, k: nat)
    requires k < |s| && IsSpace(s[k])
    ensures CorrectWords(s) == CorrectWords(s[..k]) + CorrectWords(s[k + 1..])
  {
    SegmentsAtSpace(s, k);
    CountCleanAppend(Segments(s[..k]), Segments(s[k + 1..]));
  }

  /** "one two thrdd" typed against "one two three": 11 of 13 correct, 2 correct words, 85%. */
  lemma AccuracyExample(s: seq<Input>)
    requires s == TypedAgainst("one two thrdd", "one two three")
    ensures |CorrectChars(s)| == 11 && CorrectWords(s) == 2
    ensures Accuracy(|CorrectChars(s)|, |s|) == Some(85)
  {
    ExampleCorrectChars(s);
    ExampleWords(s);
    assert |s| == 13;
    assert Accuracy(11, 13) == Some(85) by {
      assert (200 * 11 + 13) / (2 * 13) == 85;
    }
  }

  lemma ExampleCorrectChars(s: seq<Input>)
    requires s == TypedAgainst("one two thrdd", "one two three")
    ensures |CorrectChars(s)| == 11
  {
    assert |s| == 13;
    var bad := s[11..];
    assert bad == [s[11], s[12]];
    assert s[11].outcome == Incorrect && s[12].outcome == Incorrect;
    assert IncorrectCount(bad) == 2;
    var good := s[..11];
    forall j | 0 <= j < 11 ensures good[j].outcome == Correct {
      assert "one two thrdd"[j] == "one two three"[j];
    }
    assert |CorrectChars(good)| == |good|;
    CountsPartition(good);
    IncorrectCountAppend(good, bad);
    assert s == good + bad;
    CountsPartition(s);
  }

  lemma ExampleWords(s: seq<Input>)
    requires s == TypedAgainst("one two thrdd", "one two three")
    ensures CorrectWords(s) == 2
  {
    assert Chars(s) == "one two thrdd";
    ThreeWords(s);
    assert AnyIncorrect(s[8..]) by { assert s[8..][3] == s[11]; }
  }

  /** "one two three" typed without a mistake: three correct words and 100%. */
  lemma AllCorrectExample(s: seq<Input>)
    requires s == Typed("one two three")
    ensures CorrectWords(s) == 3
    ensures Accuracy(|CorrectChars(s)|, |s|) == Some(100)
  {
    assert Chars(s) == "one two three";
    ThreeWords(s);
    assert !AnyIncorrect(s[..3]) && !AnyIncorrect(s[4..7]) && !AnyIncorrect(s[8..]);
    AllCorrectAccuracy(s);
  }

  /**
   * A 13-record log with spaces at 3 and 7 only has three segments, and
   * each is a correct word exactly when it has no incorrect record.
   */
  lemma ThreeWords(s: seq<Input>)
    requires |s| == 13 && IsSpace(s[3]) && IsSpace(s[7])
    requires forall j :: 0 <= j < 13 && j != 3 && j != 7 ==> !IsSpace(s[j])
    ensures CorrectWords(s) == (if AnyIncorrect(s[..3]) then 0 else 1)
      + (if AnyIncorrect(s[4..7]) then 0 else 1) + (if AnyIncorrect(s[8..]) then 0 else 1)
  {
    CorrectWordsAtSpace(s, 3);
    var tail := s[4..];
    CorrectWordsAtSpace(tail, 3);
    assert tail[..3] == s[4..7] && tail[4..] == s[8..];
    var w1, w2, w3 := s[..3], s[4..7], s[8..];
    assert forall j :: 0 <= j < 3 ==> !IsSpace(w1[j]) && !IsSpace(w2[j]);
    assert forall j :: 0 <= j < 5 ==> !IsSpace(w3[j]);
    SegmentsNoSpace(w1);
    SegmentsNoSpace(w2);
    SegmentsNoSpace(w3);
  }

  lemma {:induction false} IncorrectCountAppend(a: seq<Input>, b: seq<Input>)
    ensures IncorrectCount(a + b) == IncorrectCount(a) + IncorrectCount(b)
  {
    if a != [] {
      assert (a + b)[0] == a[0];
      assert (a + b)[1..] == a[1..] + b;
      IncorrectCountAppend(a[1..], b);
    } else {
      assert a + b == b;
    }
  }
}
