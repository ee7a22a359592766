/**
 * The masks of `Correctness::check`'s unit tests, for `check` as written and
 * for the intended feedback, and the pair on which the two part ways.
 * Letters are written as their ASCII codes.
 */
module WordleExamples {
  import opened Wordle

  /** One letter more through `CharCounter::new` as written. */
  lemma TallyStep(w: seq<Byte>, k: nat, t: Tally, t': Tally)
    requires k < |w| && Shaped(t) && TallyOf(w[..k]) == t && Insert(t, w[k]) == t'
    ensures TallyOf(w[..k + 1]) == t'
  {
    assert w[..k + 1][..k] == w[..k];
  }

  /** The first three letters of a word through `CharCounter::new` as written. */
  lemma TallyFirstThree(w: ByteStr, t1: Tally, t2: Tally, t3: Tally)
    requires Shaped(t1) && Shaped(t2)
    requires Insert(EmptyTally(), w[0]) == t1 && Insert(t1, w[1]) == t2 && Insert(t2, w[2]) == t3
    ensures TallyOf(w[..3]) == t3
  {
    assert w[..0] == [];
    TallyStep(w, 0, EmptyTally(), t1);
    TallyStep(w, 1, t1, t2);
    TallyStep(w, 2, t2, t3);
  }

  /** `CharCounter::new` as written on a word, given the counter after each
      of its letters. */
  lemma TallyChain(w: ByteStr, t1: Tally, t2: Tally, t3: Tally, t4: Tally, t5: Tally)
    requires Shaped(t1) && Shaped(t2) && Shaped(t3) && Shaped(t4)
    requires Insert(EmptyTally(), w[0]) == t1 && Insert(t1, w[1]) == t2 && Insert(t2, w[2]) == t3
    requires Insert(t3, w[3]) == t4 && Insert(t4, w[4]) == t5
    ensures TallyOf(w) == t5
  {
    TallyFirstThree(w, t1, t2, t3);
    TallyLastTwo(w, t3, t4, t5);
  }

  /** The last two letters of a word through `CharCounter::new` as written. */
  lemma TallyLastTwo(w: ByteStr, t3: Tally, t4: Tally, t5: Tally)
    requires Shaped(t3) && Shaped(t4) && TallyOf(w[..3]) == t3
    requires Insert(t3, w[3]) == t4 && Insert(t4, w[4]) == t5
    ensures TallyOf(w) == t5
  {
    TallyStep(w, 3, t3, t4);
    TallyStep(w, 4, t4, t5);
    assert w[..5] == w;
  }

  /** `Insert` given the slot it lands in: every slot before `i` holds
      another letter, and slot `i` is empty or holds `c`. */
  lemma InsertAt(t: Tally, c: Byte, i: nat, t': Tally)
    requires Shaped(t) && i < Size && (t.chars[i] == 0 || t.chars[i] == c)
    requires forall k :: 0 <= k < i ==> t.chars[k] != 0 && t.chars[k] != c
    requires t' == Tally(t.chars[i := c], t.count[i := t.count[i] + 1])
    ensures Insert(t, c) == t'
  {
  }

  /** One letter more through the corrected counter. */
  lemma FixedStep(w: seq<Byte>, k: nat, t: Tally, used: nat, t': Tally, used': nat)
    requires k < |w| && Shaped(t) && used <= Size && FixedTallyOf(w[..k]).0 == t && FixedTallyOf(w[..k]).1 == used
    requires InsertFixed(t, used, w[k]).0 == t' && InsertFixed(t, used, w[k]).1 == used'
    ensures FixedTallyOf(w[..k + 1]).0 == t' && FixedTallyOf(w[..k + 1]).1 == used'
  {
    assert w[..k + 1][..k] == w[..k];
  }

  /** The corrected counter on four distinct letters, given the counter
      after each of them. */
  lemma FixedChain(w: seq<Byte>, t1: Tally, t2: Tally, t3: Tally, t4: Tally)
    requires |w| == 4 && Shaped(t1) && Shaped(t2) && Shaped(t3)
    requires InsertFixed(EmptyTally(), 0, w[0]).0 == t1 && InsertFixed(EmptyTally(), 0, w[0]).1 == 1
    requires InsertFixed(t1, 1, w[1]).0 == t2 && InsertFixed(t1, 1, w[1]).1 == 2
    requires InsertFixed(t2, 2, w[2]).0 == t3 && InsertFixed(t2, 2, w[2]).1 == 3
    requires InsertFixed(t3, 3, w[3]).0 == t4
    ensures FixedTallyOf(w).0 == t4
  {
    assert w[..0] == [];
    FixedStep(w, 0, EmptyTally(), 0, t1, 1);
    FixedStep(w, 1, t1, 1, t2, 2);
    FixedStep(w, 2, t2, 2, t3, 3);
    FixedStep(w, 3, t3, 3, t4, InsertFixed(t3, 3, w[3]).1);
    assert w[..4] == w;
  }

  /** Two masks agreeing at each of the five positions are equal. */
  lemma SameMask(a: seq<Correctness>, b: seq<Correctness>)
    requires |a| == Size && |b| == Size
    requires a[0] == b[0] && a[1] == b[1] && a[2] == b[2] && a[3] == b[3] && a[4] == b[4]
    ensures a == b
  {
  }

  /** In "hello" against "there" no letter is in place, so every answer
      letter is free. */
  lemma HelloThereUnmatched(answer: ByteStr, guess: ByteStr)
    requires answer == [104, 101, 108, 108, 111] && guess == [116, 104, 101, 114, 101]
    ensures Unmatched(answer, guess, Size) == answer
  {
    AllUnmatched(answer, guess, Size);
    assert answer[..Size] == answer;
  }

  /** "there" has no 't' left of its first letter, and "hello" has none. */
  lemma HelloThereMark0(answer: ByteStr, guess: ByteStr)
    requires answer == [104, 101, 108, 108, 111] && guess == [116, 104, 101, 114, 101]
    ensures Mark(answer, guess, 0) == Wrong
  {
    HelloThereUnmatched(answer, guess);
  }

  /** The first 'h' of "there" finds a free 'h' in "hello". */
  lemma HelloThereMark1(answer: ByteStr, guess: ByteStr)
    requires answer == [104, 101, 108, 108, 111] && guess == [116, 104, 101, 114, 101]
    ensures Mark(answer, guess, 1) == Misplaced
  {
    HelloThereUnmatched(answer, guess);
    AllUnmatched(guess, answer, 1);
    assert guess[..1] == [116];
  }

  /** The first 'e' of "there" finds the one 'e' of "hello" free. */
  lemma HelloThereMark2(answer: ByteStr, guess: ByteStr)
    requires answer == [104, 101, 108, 108, 111] && guess == [116, 104, 101, 114, 101]
    ensures Mark(answer, guess, 2) == Misplaced
  {
    HelloThereUnmatched(answer, guess);
    AllUnmatched(guess, answer, 2);
    assert guess[..2] == [116, 104];
  }

  /** "hello" has no 'r'. */
  lemma HelloThereMark3(answer: ByteStr, guess: ByteStr)
    requires answer == [104, 101, 108, 108, 111] && guess == [116, 104, 101, 114, 101]
    ensures Mark(answer, guess, 3) == Wrong
  {
    HelloThereUnmatched(answer, guess);
  }

  /** The second 'e' of "there" finds the 'e' of "hello" used up. */
  lemma HelloThereMark4(answer: ByteStr, guess: ByteStr)
    requires answer == [104, 101, 108, 108, 111] && guess == [116, 104, 101, 114, 101]
    ensures Mark(answer, guess, 4) == Wrong
  {
    HelloThereUnmatched(answer, guess);
    AllUnmatched(guess, answer, 4);
    assert guess[..4] == [116, 104, 101, 114];
  }

  /** `test_check`: "there" (116 104 101 114 101) against "hello"
      (104 101 108 108 111) is Wrong, Misplaced, Misplaced, Wrong, Wrong. */
  lemma CheckHelloThere(answer: ByteStr, guess: ByteStr)
    requires answer == [104, 101, 108, 108, 111] && guess == [116, 104, 101, 114, 101]
    ensures Feedback(answer, guess) == [Wrong, Misplaced, Misplaced, Wrong, Wrong]
  {
    HelloThereMark0(answer, guess);
    HelloThereMark1(answer, guess);
    HelloThereMark2(answer, guess);
    HelloThereMark3(answer, guess);
    HelloThereMark4(answer, guess);
    SameMask(Feedback(answer, guess), [Wrong, Misplaced, Misplaced, Wrong, Wrong]);
  }

  /** No letter of "there" is in place in "hello", so `check` as written
      gives the same mask. */
  lemma CheckHelloThereAsWritten(answer: ByteStr, guess: ByteStr)
    requires answer == [104, 101, 108, 108, 111] && guess == [116, 104, 101, 114, 101]
    ensures AsWrittenFeedback(answer, guess) == [Wrong, Misplaced, Misplaced, Wrong, Wrong]
  {
    assert forall i :: 0 <= i < Size ==> guess[i] != answer[i] && answer[i] != 0;
    AsWrittenAgrees(answer, guess);
    CheckHelloThere(answer, guess);
  }

  /** "flees" guessed for "there": `not_correct` is [116, 104, 0, 114, 101], which
      `CharCounter::new` as written turns into these slots and counts. */
  lemma ThereFleesTally(w: ByteStr)
    requires w == [116, 104, 0, 114, 101]
    ensures TallyOf(w) == Tally([116, 104, 114, 101, 0], [1, 1, 2, 1, 0])
  {
    var t3, t4 := Tally([116, 104, 0, 0, 0], [1, 1, 1, 0, 0]), Tally([116, 104, 114, 0, 0], [1, 1, 2, 0, 0]);
    ThereFleesHead(w, t3);
    InsertAt(t3, 114, 2, t4);
    InsertAt(t4, 101, 3, Tally([116, 104, 114, 101, 0], [1, 1, 2, 1, 0]));
    TallyLastTwo(w, t3, t4, Tally([116, 104, 114, 101, 0], [1, 1, 2, 1, 0]));
  }

  lemma ThereFleesHead(w: ByteStr, t3: Tally)
    requires w[..3] == [116, 104, 0] && t3 == Tally([116, 104, 0, 0, 0], [1, 1, 1, 0, 0])
    ensures TallyOf(w[..3]) == t3
  {
    var t1, t2 := Tally([116, 0, 0, 0, 0], [1, 0, 0, 0, 0]), Tally([116, 104, 0, 0, 0], [1, 1, 0, 0, 0]);
    InsertAt(EmptyTally(), 116, 0, t1);
    InsertAt(t1, 104, 1, t2);
    InsertAt(t2, 0, 2, t3);
    TallyFirstThree(w, t1, t2, t3);
  }

  lemma ThereFleesAsWritten(answer: ByteStr, guess: ByteStr)
    requires answer == [116, 104, 101, 114, 101] && guess == [102, 108, 101, 101, 115]
    ensures AsWrittenFeedback(answer, guess) == [Wrong, Wrong, Correct, Misplaced, Wrong]
  {
    assert NotCorrect(answer, guess) == [116, 104, 0, 114, 101];
    ThereFleesTally(NotCorrect(answer, guess));
    ThereFleesScan(answer, guess);
  }

  lemma ThereFleesScan(answer: ByteStr, guess: ByteStr)
    requires answer == [116, 104, 101, 114, 101] && guess == [102, 108, 101, 101, 115]
    ensures Scan(answer, guess, Tally([116, 104, 114, 101, 0], [1, 1, 2, 1, 0]), 0) == [Wrong, Wrong, Correct, Misplaced, Wrong]
  {
  }

  lemma ThereFleesUnmatched(answer: ByteStr, guess: ByteStr)
    requires answer == [116, 104, 101, 114, 101] && guess == [102, 108, 101, 101, 115]
    ensures Unmatched(answer, guess, Size) == [116, 104, 114, 101]
  {
    assert Unmatched(answer, guess, 1) == [116];
    assert Unmatched(answer, guess, 2) == [116, 104];
    assert Unmatched(answer, guess, 3) == [116, 104];
    assert Unmatched(answer, guess, 4) == [116, 104, 114];
  }

  lemma ThereFleesFeedback(answer: ByteStr, guess: ByteStr)
    requires answer == [116, 104, 101, 114, 101] && guess == [102, 108, 101, 101, 115]
    ensures Feedback(answer, guess) == [Wrong, Wrong, Correct, Misplaced, Wrong]
  {
    ThereFleesUnmatched(answer, guess);
    FixedChain([116, 104, 114, 101],
      Tally([116, 0, 0, 0, 0], [1, 0, 0, 0, 0]),
      Tally([116, 104, 0, 0, 0], [1, 1, 0, 0, 0]),
      Tally([116, 104, 114, 0, 0], [1, 1, 1, 0, 0]),
      Tally([116, 104, 114, 101, 0], [1, 1, 1, 1, 0]));
    FixedScanIsFeedback(answer, guess);
    ThereFleesFixedScan(answer, guess);
  }

  lemma ThereFleesFixedScan(answer: ByteStr, guess: ByteStr)
    requires answer == [116, 104, 101, 114, 101] && guess == [102, 108, 101, 101, 115]
    ensures Scan(answer, guess, Tally([116, 104, 114, 101, 0], [1, 1, 1, 1, 0]), 0) == [Wrong, Wrong, Correct, Misplaced, Wrong]
  {
  }

  /** "afagt" guessed for "aabcd": `not_correct` is [0, 97, 98, 99, 100], which
      `CharCounter::new` as written turns into these slots and counts. */
  lemma AabcdAfagtTally(w: ByteStr)
    requires w == [0, 97, 98, 99, 100]
    ensures TallyOf(w) == Tally([97, 98, 99, 100, 0], [2, 1, 1, 1, 0])
  {
    var t3, t4 := Tally([97, 98, 0, 0, 0], [2, 1, 0, 0, 0]), Tally([97, 98, 99, 0, 0], [2, 1, 1, 0, 0]);
    AabcdAfagtHead(w, t3);
    InsertAt(t3, 99, 2, t4);
    InsertAt(t4, 100, 3, Tally([97, 98, 99, 100, 0], [2, 1, 1, 1, 0]));
    TallyLastTwo(w, t3, t4, Tally([97, 98, 99, 100, 0], [2, 1, 1, 1, 0]));
  }

  lemma AabcdAfagtHead(w: ByteStr, t3: Tally)
    requires w[..3] == [0, 97, 98] && t3 == Tally([97, 98, 0, 0, 0], [2, 1, 0, 0, 0])
    ensures TallyOf(w[..3]) == t3
  {
    var t1, t2 := Tally([0, 0, 0, 0, 0], [1, 0, 0, 0, 0]), Tally([97, 0, 0, 0, 0], [2, 0, 0, 0, 0]);
    InsertAt(EmptyTally(), 0, 0, t1);
    InsertAt(t1, 97, 0, t2);
    InsertAt(t2, 98, 1, t3);
    TallyFirstThree(w, t1, t2, t3);
  }

  lemma AabcdAfagtAsWritten(answer: ByteStr, guess: ByteStr)
    requires answer == [97, 97, 98, 99, 100] && guess == [97, 102, 97, 103, 116]
    ensures AsWrittenFeedback(answer, guess) == [Correct, Wrong, Misplaced, Wrong, Wrong]
  {
    assert NotCorrect(answer, guess) == [0, 97, 98, 99, 100];
    AabcdAfagtTally(NotCorrect(answer, guess));
    AabcdAfagtScan(answer, guess);
  }

  lemma AabcdAfagtScan(answer: ByteStr, guess: ByteStr)
    requires answer == [97, 97, 98, 99, 100] && guess == [97, 102, 97, 103, 116]
    ensures Scan(answer, guess, Tally([97, 98, 99, 100, 0], [2, 1, 1, 1, 0]), 0) == [Correct, Wrong, Misplaced, Wrong, Wrong]
  {
  }

  lemma AabcdAfagtUnmatched(answer: ByteStr, guess: ByteStr)
    requires answer == [97, 97, 98, 99, 100] && guess == [97, 102, 97, 103, 116]
    ensures Unmatched(answer, guess, Size) == [97, 98, 99, 100]
  {
    assert Unmatched(answer, guess, 1) == [];
    assert Unmatched(answer, guess, 2) == [97];
    assert Unmatched(answer, guess, 3) == [97, 98];
    assert Unmatched(answer, guess, 4) == [97, 98, 99];
  }

  lemma AabcdAfagtFeedback(answer: ByteStr, guess: ByteStr)
    requires answer == [97, 97, 98, 99, 100] && guess == [97, 102, 97, 103, 116]
    ensures Feedback(answer, guess) == [Correct, Wrong, Misplaced, Wrong, Wrong]
  {
    AabcdAfagtUnmatched(answer, guess);
    FixedChain([97, 98, 99, 100],
      Tally([97, 0, 0, 0, 0], [1, 0, 0, 0, 0]),
      Tally([97, 98, 0, 0, 0], [1, 1, 0, 0, 0]),
      Tally([97, 98, 99, 0, 0], [1, 1, 1, 0, 0]),
      Tally([97, 98, 99, 100, 0], [1, 1, 1, 1, 0]));
    FixedScanIsFeedback(answer, guess);
    AabcdAfagtFixedScan(answer, guess);
  }

  lemma AabcdAfagtFixedScan(answer: ByteStr, guess: ByteStr)
    requires answer == [97, 97, 98, 99, 100] && guess == [97, 102, 97, 103, 116]
    ensures Scan(answer, guess, Tally([97, 98, 99, 100, 0], [1, 1, 1, 1, 0]), 0) == [Correct, Wrong, Misplaced, Wrong, Wrong]
  {
  }

  /** "afagt" guessed for "ajbcd": `not_correct` is [0, 106, 98, 99, 100], which
      `CharCounter::new` as written turns into these slots and counts. */
  lemma AjbcdAfagtTally(w: ByteStr)
    requires w == [0, 106, 98, 99, 100]
    ensures TallyOf(w) == Tally([106, 98, 99, 100, 0], [2, 1, 1, 1, 0])
  {
    var t3, t4 := Tally([106, 98, 0, 0, 0], [2, 1, 0, 0, 0]), Tally([106, 98, 99, 0, 0], [2, 1, 1, 0, 0]);
    AjbcdAfagtHead(w, t3);
    InsertAt(t3, 99, 2, t4);
    InsertAt(t4, 100, 3, Tally([106, 98, 99, 100, 0], [2, 1, 1, 1, 0]));
    TallyLastTwo(w, t3, t4, Tally([106, 98, 99, 100, 0], [2, 1, 1, 1, 0]));
  }

  lemma AjbcdAfagtHead(w: ByteStr, t3: Tally)
    requires w[..3] == [0, 106, 98] && t3 == Tally([106, 98, 0, 0, 0], [2, 1, 0, 0, 0])
    ensures TallyOf(w[..3]) == t3
  {
    var t1, t2 := Tally([0, 0, 0, 0, 0], [1, 0, 0, 0, 0]), Tally([106, 0, 0, 0, 0], [2, 0, 0, 0, 0]);
    InsertAt(EmptyTally(), 0, 0, t1);
    InsertAt(t1, 106, 0, t2);
    InsertAt(t2, 98, 1, t3);
    TallyFirstThree(w, t1, t2, t3);
  }

  lemma AjbcdAfagtAsWritten(answer: ByteStr, guess: ByteStr)
    requires answer == [97, 106, 98, 99, 100] && guess == [97, 102, 97, 103, 116]
    ensures AsWrittenFeedback(answer, guess) == [Correct, Wrong, Wrong, Wrong, Wrong]
  {
    assert NotCorrect(answer, guess) == [0, 106, 98, 99, 100];
    AjbcdAfagtTally(NotCorrect(answer, guess));
    AjbcdAfagtScan(answer, guess);
  }

  lemma AjbcdAfagtScan(answer: ByteStr, guess: ByteStr)
    requires answer == [97, 106, 98, 99, 100] && guess == [97, 102, 97, 103, 116]
    ensures Scan(answer, guess, Tally([106, 98, 99, 100, 0], [2, 1, 1, 1, 0]), 0) == [Correct, Wrong, Wrong, Wrong, Wrong]
  {
  }

  lemma AjbcdAfagtUnmatched(answer: ByteStr, guess: ByteStr)
    requires answer == [97, 106, 98, 99, 100] && guess == [97, 102, 97, 103, 116]
    ensures Unmatched(answer, guess, Size) == [106, 98, 99, 100]
  {
    assert Unmatched(answer, guess, 1) == [];
    assert Unmatched(answer, guess, 2) == [106];
    assert Unmatched(answer, guess, 3) == [106, 98];
    assert Unmatched(answer, guess, 4) == [106, 98, 99];
  }

  lemma AjbcdAfagtFeedback(answer: ByteStr, guess: ByteStr)
    requires answer == [97, 106, 98, 99, 100] && guess == [97, 102, 97, 103, 116]
    ensures Feedback(answer, guess) == [Correct, Wrong, Wrong, Wrong, Wrong]
  {
    AjbcdAfagtUnmatched(answer, guess);
    FixedChain([106, 98, 99, 100],
      Tally([106, 0, 0, 0, 0], [1, 0, 0, 0, 0]),
      Tally([106, 98, 0, 0, 0], [1, 1, 0, 0, 0]),
      Tally([106, 98, 99, 0, 0], [1, 1, 1, 0, 0]),
      Tally([106, 98, 99, 100, 0], [1, 1, 1, 1, 0]));
    FixedScanIsFeedback(answer, guess);
    AjbcdAfagtFixedScan(answer, guess);
  }

  lemma AjbcdAfagtFixedScan(answer: ByteStr, guess: ByteStr)
    requires answer == [97, 106, 98, 99, 100] && guess == [97, 102, 97, 103, 116]
    ensures Scan(answer, guess, Tally([106, 98, 99, 100, 0], [1, 1, 1, 1, 0]), 0) == [Correct, Wrong, Wrong, Wrong, Wrong]
  {
  }

  /** "xcbbc" guessed for "xbcde": `not_correct` is [0, 98, 99, 100, 101], which
      `CharCounter::new` as written turns into these slots and counts. */
  lemma XbcdeXcbbcTally(w: ByteStr)
    requires w == [0, 98, 99, 100, 101]
    ensures TallyOf(w) == Tally([98, 99, 100, 101, 0], [2, 1, 1, 1, 0])
  {
    var t3, t4 := Tally([98, 99, 0, 0, 0], [2, 1, 0, 0, 0]), Tally([98, 99, 100, 0, 0], [2, 1, 1, 0, 0]);
    XbcdeXcbbcHead(w, t3);
    InsertAt(t3, 100, 2, t4);
    InsertAt(t4, 101, 3, Tally([98, 99, 100, 101, 0], [2, 1, 1, 1, 0]));
    TallyLastTwo(w, t3, t4, Tally([98, 99, 100, 101, 0], [2, 1, 1, 1, 0]));
  }

  lemma XbcdeXcbbcHead(w: ByteStr, t3: Tally)
    requires w[..3] == [0, 98, 99] && t3 == Tally([98, 99, 0, 0, 0], [2, 1, 0, 0, 0])
    ensures TallyOf(w[..3]) == t3
  {
    var t1, t2 := Tally([0, 0, 0, 0, 0], [1, 0, 0, 0, 0]), Tally([98, 0, 0, 0, 0], [2, 0, 0, 0, 0]);
    InsertAt(EmptyTally(), 0, 0, t1);
    InsertAt(t1, 98, 0, t2);
    InsertAt(t2, 99, 1, t3);
    TallyFirstThree(w, t1, t2, t3);
  }

  lemma XbcdeXcbbcAsWritten(answer: ByteStr, guess: ByteStr)
    requires answer == [120, 98, 99, 100, 101] && guess == [120, 99, 98, 98, 99]
    ensures AsWrittenFeedback(answer, guess) == [Correct, Misplaced, Misplaced, Misplaced, Wrong]
  {
    assert NotCorrect(answer, guess) == [0, 98, 99, 100, 101];
    XbcdeXcbbcTally(NotCorrect(answer, guess));
    XbcdeXcbbcScan(answer, guess);
  }

  lemma XbcdeXcbbcScan(answer: ByteStr, guess: ByteStr)
    requires answer == [120, 98, 99, 100, 101] && guess == [120, 99, 98, 98, 99]
    ensures Scan(answer, guess, Tally([98, 99, 100, 101, 0], [2, 1, 1, 1, 0]), 0) == [Correct, Misplaced, Misplaced, Misplaced, Wrong]
  {
  }

  lemma XbcdeXcbbcUnmatched(answer: ByteStr, guess: ByteStr)
    requires answer == [120, 98, 99, 100, 101] && guess == [120, 99, 98, 98, 99]
    ensures Unmatched(answer, guess, Size) == [98, 99, 100, 101]
  {
    assert Unmatched(answer, guess, 1) == [];
    assert Unmatched(answer, guess, 2) == [98];
    assert Unmatched(answer, guess, 3) == [98, 99];
    assert Unmatched(answer, guess, 4) == [98, 99, 100];
  }

  lemma XbcdeXcbbcFeedback(answer: ByteStr, guess: ByteStr)
    requires answer == [120, 98, 99, 100, 101] && guess == [120, 99, 98, 98, 99]
    ensures Feedback(answer, guess) == [Correct, Misplaced, Misplaced, Wrong, Wrong]
  {
    XbcdeXcbbcUnmatched(answer, guess);
    FixedChain([98, 99, 100, 101],
      Tally([98, 0, 0, 0, 0], [1, 0, 0, 0, 0]),
      Tally([98, 99, 0, 0, 0], [1, 1, 0, 0, 0]),
      Tally([98, 99, 100, 0, 0], [1, 1, 1, 0, 0]),
      Tally([98, 99, 100, 101, 0], [1, 1, 1, 1, 0]));
    FixedScanIsFeedback(answer, guess);
    XbcdeXcbbcFixedScan(answer, guess);
  }

  lemma XbcdeXcbbcFixedScan(answer: ByteStr, guess: ByteStr)
    requires answer == [120, 98, 99, 100, 101] && guess == [120, 99, 98, 98, 99]
    ensures Scan(answer, guess, Tally([98, 99, 100, 101, 0], [1, 1, 1, 1, 0]), 0) == [Correct, Misplaced, Misplaced, Wrong, Wrong]
  {
  }

  /** `test_check`: "there" against "hello", both as written and as intended. */
  lemma TestCheck(answer: ByteStr, guess: ByteStr)
    requires answer == [104, 101, 108, 108, 111] && guess == [116, 104, 101, 114, 101]
    ensures AsWrittenFeedback(answer, guess) == [Wrong, Misplaced, Misplaced, Wrong, Wrong]
    ensures Feedback(answer, guess) == [Wrong, Misplaced, Misplaced, Wrong, Wrong]
  {
    CheckHelloThereAsWritten(answer, guess);
    CheckHelloThere(answer, guess);
  }

  /** `check_2letters`: "flees" against "there", both as written and as
      intended. */
  lemma CheckTwoLetters(answer: ByteStr, guess: ByteStr)
    requires answer == [116, 104, 101, 114, 101] && guess == [102, 108, 101, 101, 115]
    ensures AsWrittenFeedback(answer, guess) == [Wrong, Wrong, Correct, Misplaced, Wrong]
    ensures Feedback(answer, guess) == [Wrong, Wrong, Correct, Misplaced, Wrong]
  {
    ThereFleesAsWritten(answer, guess);
    ThereFleesFeedback(answer, guess);
  }

  /** `check_2letters_one_correct`: "afagt" against "aabcd" and against
      "ajbcd", both as written and as intended. */
  lemma CheckTwoLettersOneCorrect(answer: ByteStr, other: ByteStr, guess: ByteStr)
    requires answer == [97, 97, 98, 99, 100] && other == [97, 106, 98, 99, 100] && guess == [97, 102, 97, 103, 116]
    ensures AsWrittenFeedback(answer, guess) == [Correct, Wrong, Misplaced, Wrong, Wrong]
    ensures Feedback(answer, guess) == [Correct, Wrong, Misplaced, Wrong, Wrong]
    ensures AsWrittenFeedback(other, guess) == [Correct, Wrong, Wrong, Wrong, Wrong]
    ensures Feedback(other, guess) == [Correct, Wrong, Wrong, Wrong, Wrong]
  {
    AabcdAfagtAsWritten(answer, guess);
    AabcdAfagtFeedback(answer, guess);
    AjbcdAfagtAsWritten(other, guess);
    AjbcdAfagtFeedback(other, guess);
  }

  /** `check` as written marks both 'b's of the guess "xcbbc" (its third and
      fourth letters) `Misplaced` against "xbcde", though the answer has a
      single 'b': the zero that blanks the hit 'x' becomes an extra count for
      the 'b' that overwrites its slot, so the second 'b' is wrongly marked. */
  lemma AsWrittenOvercounts(answer: ByteStr, guess: ByteStr)
    requires answer == [120, 98, 99, 100, 101] && guess == [120, 99, 98, 98, 99]
    ensures AsWrittenFeedback(answer, guess) == [Correct, Misplaced, Misplaced, Misplaced, Wrong]
    ensures Feedback(answer, guess) == [Correct, Misplaced, Misplaced, Wrong, Wrong]
    ensures AsWrittenFeedback(answer, guess) != Feedback(answer, guess)
  {
    XbcdeXcbbcAsWritten(answer, guess);
    XbcdeXcbbcFeedback(answer, guess);
    assert AsWrittenFeedback(answer, guess)[3] != Feedback(answer, guess)[3];
  }
}
