/**
 * Wordle feedback: `Correctness::check` colours each letter of a guess
 * against the answer, using a `CharCounter` of the answer letters that were
 * not hit in place; `mask_radix` packs a mask into a base-3 number;
 * `filter_with` keeps the words still consistent with the guesses so far;
 * `str5` turns a string into a 5-byte word.
 */
module Wordle {
  import opened Wrappers

  /** `WORDLE_SIZE`. */
  const Size: nat := 5

  /** A `u8`. */
  type Byte = b: int | 0 <= b < 256

  /** `ByteStr`, a `[u8; 5]`. */
  type ByteStr = w: seq<Byte> | |w| == Size witness [0, 0, 0, 0, 0]

  datatype Correctness = Wrong | Misplaced | Correct

  /** The enum's discriminant, `*value as usize`. */
  function Value(c: Correctness): nat
  {
    match c
    case Wrong => 0
    case Misplaced => 1
    case Correct => 2
  }

  // ---------------------------------------------------------------------------
  // What the feedback means

  /** The letters `xs[j]`, `j < n`, that differ from `ys[j]`, in order. */
  function Unmatched(xs: seq<Byte>, ys: seq<Byte>, n: nat): (r: seq<Byte>)
    requires n <= |xs| && n <= |ys|
    ensures |r| <= n
  {
    if n == 0 then [] else Unmatched(xs, ys, n - 1) + (if xs[n - 1] != ys[n - 1] then [xs[n - 1]] else [])
  }

  /** The feedback Wordle gives at position `i`: a letter in place is
      `Correct`; any other letter is `Misplaced` while the answer's letters
      not hit in place hold more copies of it than the guess has already used
      at missed positions to its left, and `Wrong` otherwise. */
  function Mark(answer: ByteStr, guess: ByteStr, i: nat): Correctness
    requires i < Size
  {
    if guess[i] == answer[i] then Correct
    else if multiset(Unmatched(guess, answer, i))[guess[i]] < multiset(Unmatched(answer, guess, Size))[guess[i]] then Misplaced
    else Wrong
  }

  /** The marks from position `i` on. */
  function FeedbackFrom(answer: ByteStr, guess: ByteStr, i: nat): (mask: seq<Correctness>)
    requires i <= Size
  {
    seq(Size - i, k requires 0 <= k < Size - i => Mark(answer, guess, i + k))
  }

  /** The feedback for the whole guess. */
  function Feedback(answer: ByteStr, guess: ByteStr): (mask: seq<Correctness>)
    ensures |mask| == Size && forall i :: 0 <= i < Size ==> mask[i] == Mark(answer, guess, i)
  {
    FeedbackFrom(answer, guess, 0)
  }

  /** The marks from `i` on are the mark at `i` and those after it. */
  lemma FeedbackFromStep(answer: ByteStr, guess: ByteStr, i: nat)
    requires i < Size
    ensures FeedbackFrom(answer, guess, i) == [Mark(answer, guess, i)] + FeedbackFrom(answer, guess, i + 1)
  {
  }

  // ---------------------------------------------------------------------------
  // The counter's state

  /** The two arrays of a `CharCounter`: letters in slots and their tallies. */
  datatype Tally = Tally(chars: seq<Byte>, count: seq<int>)

  predicate Shaped(t: Tally)
  {
    |t.chars| == Size && |t.count| == Size
  }

  /** Both arrays zero, as `[0u8; WORDLE_SIZE]` makes them. */
  function EmptyTally(): (t: Tally)
    ensures Shaped(t)
  {
    Tally([0, 0, 0, 0, 0], [0, 0, 0, 0, 0])
  }

  /** The first index holding `c`, or the length when there is none. */
  function Find(chars: seq<Byte>, c: Byte): (i: nat)
    ensures i <= |chars| && (i < |chars| ==> chars[i] == c)
    ensures forall k :: 0 <= k < i ==> chars[k] != c
  {
    FindFrom(chars, c, 0)
  }

  function FindFrom(chars: seq<Byte>, c: Byte, from: nat): (i: nat)
    requires from <= |chars|
    ensures from <= i <= |chars| && (i < |chars| ==> chars[i] == c)
    ensures forall k :: from <= k < i ==> chars[k] != c
    decreases |chars| - from
  {
    if from == |chars| then from else if chars[from] == c then from else FindFrom(chars, c, from + 1)
  }

  /** The first slot that is empty (0) or already holds `c`. */
  function FirstFree(chars: seq<Byte>, c: Byte): (i: nat)
    ensures i <= |chars| && (i < |chars| ==> chars[i] == 0 || chars[i] == c)
    ensures forall k :: 0 <= k < i ==> chars[k] != 0 && chars[k] != c
  {
    FirstFreeFrom(chars, c, 0)
  }

  function FirstFreeFrom(chars: seq<Byte>, c: Byte, from: nat): (i: nat)
    requires from <= |chars|
    ensures from <= i <= |chars| && (i < |chars| ==> chars[i] == 0 || chars[i] == c)
    ensures forall k :: from <= k < i ==> chars[k] != 0 && chars[k] != c
    decreases |chars| - from
  {
    if from == |chars| then from else if chars[from] == 0 || chars[from] == c then from else FirstFreeFrom(chars, c, from + 1)
  }

  /** One letter of `CharCounter::new` as written: the first slot that is
      empty or holds the letter takes it and counts one more. */
  function Insert(t: Tally, c: Byte): (r: Tally)
    requires Shaped(t)
    ensures Shaped(r)
  {
    var i := FirstFree(t.chars, c);
    if i < Size then Tally(t.chars[i := c], t.count[i := t.count[i] + 1]) else t
  }

  /** `CharCounter::new(word)` as written, letter by letter. */
  function TallyOf(word: seq<Byte>): (t: Tally)
    ensures Shaped(t)
  {
    if word == [] then EmptyTally() else Insert(TallyOf(word[..|word| - 1]), word[|word| - 1])
  }

  /** `find_count(c)`: the tally in the first slot holding `c`, 0 if none does. */
  function CountOf(t: Tally, c: Byte): int
    requires Shaped(t)
  {
    var i := Find(t.chars, c);
    if i < Size then t.count[i] else 0
  }

  /** `decrement(c)`: one less in the first slot holding `c`, if any. */
  function Decremented(t: Tally, c: Byte): (r: Tally)
    requires Shaped(t)
    ensures Shaped(r) && r.chars == t.chars
  {
    var i := Find(t.chars, c);
    if i < Size then Tally(t.chars, t.count[i := t.count[i] - 1]) else t
  }

  /** `decrement(c)` takes one from `c`'s count, when `c` has a slot, and
      leaves every other letter's count alone; on a letter without a slot it
      changes nothing. */
  lemma DecrementedCounts(t: Tally, c: Byte)
    requires Shaped(t)
    ensures forall x: Byte :: CountOf(Decremented(t, c), x)
                              == CountOf(t, x) - (if x == c && Find(t.chars, c) < Size then 1 else 0)
    ensures Find(t.chars, c) == Size ==> Decremented(t, c) == t
  {
    forall x: Byte
      ensures CountOf(Decremented(t, c), x) == CountOf(t, x) - (if x == c && Find(t.chars, c) < Size then 1 else 0)
    {
      if x != c && Find(t.chars, c) < Size && Find(t.chars, x) < Size {
        assert Find(t.chars, x) != Find(t.chars, c);
      }
    }
  }

  /** `not_correct`: the answer's letter where the guess misses it, 0 where
      the guess hits it. */
  function NotCorrect(answer: ByteStr, guess: ByteStr): (r: ByteStr)
  {
    seq(Size, i requires 0 <= i < Size => if guess[i] == answer[i] then 0 else answer[i])
  }

  /** The marking pass of `check` from position `i` with the counter in state
      `t`: a position not `Correct` becomes `Misplaced` when the counter still
      has a positive count for its letter, which it then decrements. */
  function Scan(answer: ByteStr, guess: ByteStr, t: Tally, i: nat): (mask: seq<Correctness>)
    requires Shaped(t) && i <= Size
    ensures |mask| == Size - i
    decreases Size - i
  {
    if i == Size then []
    else if guess[i] == answer[i] then [Correct] + Scan(answer, guess, t, i + 1)
    else if CountOf(t, guess[i]) > 0 then [Misplaced] + Scan(answer, guess, Decremented(t, guess[i]), i + 1)
    else [Wrong] + Scan(answer, guess, t, i + 1)
  }

  /** `Correctness::check(answer, guess)` as written. */
  function AsWrittenFeedback(answer: ByteStr, guess: ByteStr): (mask: seq<Correctness>)
    ensures |mask| == Size
  {
    Scan(answer, guess, TallyOf(NotCorrect(answer, guess)), 0)
  }

  // ---------------------------------------------------------------------------
  // The counter, corrected: letters go into slots counted by `used`, so no
  // byte value stands for an empty slot

  /** One letter into the corrected counter: its slot if it has one among the
      `used` slots, otherwise the next free slot. */
  function InsertFixed(t: Tally, used: nat, c: Byte): (r: (Tally, nat))
    requires Shaped(t) && used <= Size
    ensures Shaped(r.0) && used <= r.1 <= used + 1 && r.1 <= Size
  {
    var k := Find(t.chars[..used], c);
    if k < used then (Tally(t.chars, t.count[k := t.count[k] + 1]), used)
    else if used < Size then (Tally(t.chars[used := c], t.count[used := t.count[used] + 1]), used + 1)
    else (t, used)
  }

  /** The corrected counter over `letters`, and the number of slots used. */
  function FixedTallyOf(letters: seq<Byte>): (r: (Tally, nat))
    ensures Shaped(r.0) && r.1 <= Size && r.1 <= |letters|
  {
    if letters == [] then (EmptyTally(), 0)
    else
      var (t, used) := FixedTallyOf(letters[..|letters| - 1]);
      InsertFixed(t, used, letters[|letters| - 1])
  }

  /** The corrected counter's invariant: the used slots hold distinct letters
      of `letters`, each with its number of occurrences; every letter has a
      slot; the other slots are zero. */
  predicate FixedInv(letters: seq<Byte>, t: Tally, used: nat)
    requires Shaped(t) && used <= Size
  {
    SlotsCounted(letters, t, used) && SlotsDistinct(t, used) && AllSlotted(letters, t, used) && RestEmpty(t, used)
  }

  predicate SlotsCounted(letters: seq<Byte>, t: Tally, used: nat)
    requires Shaped(t) && used <= Size
  {
    forall k :: 0 <= k < used ==> t.chars[k] in multiset(letters) && t.count[k] == multiset(letters)[t.chars[k]]
  }

  predicate SlotsDistinct(t: Tally, used: nat)
    requires Shaped(t) && used <= Size
  {
    forall j, k :: 0 <= j < k < used ==> t.chars[j] != t.chars[k]
  }

  predicate AllSlotted(letters: seq<Byte>, t: Tally, used: nat)
    requires Shaped(t) && used <= Size
  {
    forall x :: x in multiset(letters) ==> x in t.chars[..used]
  }

  predicate RestEmpty(t: Tally, used: nat)
    requires Shaped(t) && used <= Size
  {
    forall k :: used <= k < Size ==> t.chars[k] == 0 && t.count[k] == 0
  }

  lemma {:induction false} FixedTallyInv(letters: seq<Byte>)
    requires |letters| <= Size
    ensures FixedInv(letters, FixedTallyOf(letters).0, FixedTallyOf(letters).1)
  {
    if letters != [] {
      var init := letters[..|letters| - 1];
      var c := letters[|letters| - 1];
      assert letters == init + [c];
      FixedTallyInv(init);
      var (t, used) := FixedTallyOf(init);
      if Find(t.chars[..used], c) < used {
        InsertKnown(init, t, used, c);
      } else {
        InsertNew(init, t, used, c);
      }
    }
  }

  /** A letter that already has a slot: its count goes up by one. */
  lemma InsertKnown(init: seq<Byte>, t: Tally, used: nat, c: Byte)
    requires Shaped(t) && used <= Size && FixedInv(init, t, used)
    requires Find(t.chars[..used], c) < used
    ensures FixedInv(init + [c], InsertFixed(t, used, c).0, InsertFixed(t, used, c).1)
  {
    var k := Find(t.chars[..used], c);
    var t' := InsertFixed(t, used, c).0;
    assert InsertFixed(t, used, c).1 == used && t'.chars == t.chars && t'.count == t.count[k := t.count[k] + 1];
    KnownCounted(init, t, used, c, k, t');
    KnownSlotted(init, t, used, c, t');
  }

  lemma KnownCounted(init: seq<Byte>, t: Tally, used: nat, c: Byte, k: nat, t': Tally)
    requires Shaped(t) && used <= Size && SlotsCounted(init, t, used) && SlotsDistinct(t, used)
    requires k < used && t.chars[k] == c
    requires t'.chars == t.chars && t'.count == t.count[k := t.count[k] + 1]
    ensures Shaped(t') && SlotsCounted(init + [c], t', used)
  {
    var letters := init + [c];
    assert multiset(letters) == multiset(init) + multiset{c};
    forall j | 0 <= j < used
      ensures t'.chars[j] in multiset(letters) && t'.count[j] == multiset(letters)[t'.chars[j]]
    {
      if j != k {
        assert t.chars[j] != c;
      }
    }
  }

  lemma KnownSlotted(init: seq<Byte>, t: Tally, used: nat, c: Byte, t': Tally)
    requires Shaped(t) && used <= Size && AllSlotted(init, t, used)
    requires c in t.chars[..used] && t'.chars == t.chars && Shaped(t')
    ensures AllSlotted(init + [c], t', used)
  {
    var letters := init + [c];
    assert multiset(letters) == multiset(init) + multiset{c};
    forall x | x in multiset(letters)
      ensures x in t'.chars[..used]
    {
      if x != c {
        assert x in multiset(init);
      }
    }
  }

  /** A letter without a slot takes the next free one with a count of one. */
  lemma InsertNew(init: seq<Byte>, t: Tally, used: nat, c: Byte)
    requires Shaped(t) && used <= |init| < Size && FixedInv(init, t, used)
    requires Find(t.chars[..used], c) == used
    ensures FixedInv(init + [c], InsertFixed(t, used, c).0, InsertFixed(t, used, c).1)
  {
    var t' := InsertFixed(t, used, c).0;
    assert InsertFixed(t, used, c).1 == used + 1;
    assert t'.chars == t.chars[used := c] && t'.count == t.count[used := 1];
    assert c !in t.chars[..used];
    NewCounted(init, t, used, c, t');
    NewDistinct(t, used, c, t');
    NewSlotted(init, t, used, c, t');
  }

  lemma NewCounted(init: seq<Byte>, t: Tally, used: nat, c: Byte, t': Tally)
    requires Shaped(t) && used < Size && SlotsCounted(init, t, used) && AllSlotted(init, t, used)
    requires c !in t.chars[..used]
    requires t'.chars == t.chars[used := c] && t'.count == t.count[used := 1]
    ensures Shaped(t') && SlotsCounted(init + [c], t', used + 1)
  {
    var letters := init + [c];
    assert multiset(letters) == multiset(init) + multiset{c};
    assert c !in multiset(init);
    forall j | 0 <= j < used + 1
      ensures t'.chars[j] in multiset(letters) && t'.count[j] == multiset(letters)[t'.chars[j]]
    {
      if j < used {
        assert t.chars[..used][j] == t.chars[j];
      }
    }
  }

  lemma NewDistinct(t: Tally, used: nat, c: Byte, t': Tally)
    requires Shaped(t) && used < Size && SlotsDistinct(t, used)
    requires c !in t.chars[..used] && t'.chars == t.chars[used := c] && Shaped(t')
    ensures SlotsDistinct(t', used + 1)
  {
    forall i, j | 0 <= i < j < used + 1
      ensures t'.chars[i] != t'.chars[j]
    {
      if j == used {
        assert t.chars[..used][i] == t.chars[i];
      }
    }
  }

  lemma NewSlotted(init: seq<Byte>, t: Tally, used: nat, c: Byte, t': Tally)
    requires Shaped(t) && used < Size && AllSlotted(init, t, used)
    requires t'.chars == t.chars[used := c] && Shaped(t')
    ensures AllSlotted(init + [c], t', used + 1)
  {
    var letters := init + [c];
    assert multiset(letters) == multiset(init) + multiset{c};
    forall x | x in multiset(letters)
      ensures x in t'.chars[..used + 1]
    {
      if x != c {
        assert x in multiset(init);
        assert x in t.chars[..used];
        var j :| 0 <= j < used && t.chars[..used][j] == x;
        assert t'.chars[..used + 1][j] == x;
      } else {
        assert t'.chars[..used + 1][used] == c;
      }
    }
  }

  /** The corrected counter holds, for every letter, its number of occurrences. */
  lemma FixedCounts(letters: seq<Byte>)
    requires |letters| <= Size
    ensures forall x: Byte :: CountOf(FixedTallyOf(letters).0, x) == multiset(letters)[x]
  {
    FixedTallyInv(letters);
    var (t, used) := FixedTallyOf(letters);
    forall x: Byte
      ensures CountOf(t, x) == multiset(letters)[x]
    {
      var i := Find(t.chars, x);
      if x in multiset(letters) {
        assert x in t.chars[..used];
        var j :| 0 <= j < used && t.chars[..used][j] == x;
        assert i <= j;
      }
    }
  }

  /** How many copies of `x` the answer's letters not hit in place hold. */
  function Available(answer: ByteStr, guess: ByteStr, x: Byte): nat
  {
    multiset(Unmatched(answer, guess, Size))[x]
  }

  /** How many copies of `x` the guess has at missed positions left of `i`. */
  function UsedBefore(answer: ByteStr, guess: ByteStr, i: nat, x: Byte): nat
    requires i <= Size
  {
    multiset(Unmatched(guess, answer, i))[x]
  }

  /** The copies of `x` still free for `Misplaced` marks at position `i`. */
  function Remaining(answer: ByteStr, guess: ByteStr, i: nat, x: Byte): nat
    requires i <= Size
  {
    if UsedBefore(answer, guess, i, x) < Available(answer, guess, x)
    then Available(answer, guess, x) - UsedBefore(answer, guess, i, x) else 0
  }

  /** A letter in place leaves every count of free copies as it was. */
  lemma HitStep(answer: ByteStr, guess: ByteStr, i: nat)
    requires i < Size && guess[i] == answer[i]
    ensures Mark(answer, guess, i) == Correct
    ensures forall x: Byte :: Remaining(answer, guess, i + 1, x) == Remaining(answer, guess, i, x)
  {
    assert Unmatched(guess, answer, i + 1) == Unmatched(guess, answer, i);
  }

  /** A missed letter adds one to the copies of it used so far. */
  lemma MissUses(answer: ByteStr, guess: ByteStr, i: nat)
    requires i < Size && guess[i] != answer[i]
    ensures forall x: Byte :: UsedBefore(answer, guess, i + 1, x) == UsedBefore(answer, guess, i, x) + (if x == guess[i] then 1 else 0)
  {
    assert Unmatched(guess, answer, i + 1) == Unmatched(guess, answer, i) + [guess[i]];
  }

  /** A missed letter is `Misplaced` exactly while a copy of it is free, and
      then uses one copy up. */
  lemma MissStep(answer: ByteStr, guess: ByteStr, t: Tally, i: nat)
    requires Shaped(t) && i < Size && guess[i] != answer[i]
    requires forall x: Byte :: CountOf(t, x) == Remaining(answer, guess, i, x)
    ensures CountOf(t, guess[i]) > 0 ==>
              (Mark(answer, guess, i) == Misplaced
               && forall x: Byte :: CountOf(Decremented(t, guess[i]), x) == Remaining(answer, guess, i + 1, x))
    ensures CountOf(t, guess[i]) <= 0 ==>
              (Mark(answer, guess, i) == Wrong
               && forall x: Byte :: CountOf(t, x) == Remaining(answer, guess, i + 1, x))
  {
    var g := guess[i];
    MissUses(answer, guess, i);
    if CountOf(t, g) > 0 {
      assert Mark(answer, guess, i) == Misplaced;
      DecrementedCounts(t, g);
      forall x: Byte
        ensures CountOf(Decremented(t, g), x) == Remaining(answer, guess, i + 1, x)
      {
      }
    } else {
      assert Mark(answer, guess, i) == Wrong;
    }
  }

  /** A marking pass whose counter holds exactly the free copies of each
      letter gives Wordle's feedback from position `i` on. */
  lemma {:induction false} ScanIsFeedback(answer: ByteStr, guess: ByteStr, t: Tally, i: nat)
    requires Shaped(t) && i <= Size
    requires forall x: Byte :: CountOf(t, x) == Remaining(answer, guess, i, x)
    ensures Scan(answer, guess, t, i) == FeedbackFrom(answer, guess, i)
    decreases Size - i
  {
    if i < Size {
      var g := guess[i];
      FeedbackFromStep(answer, guess, i);
      if g == answer[i] {
        HitStep(answer, guess, i);
        ScanIsFeedback(answer, guess, t, i + 1);
      } else {
        MissStep(answer, guess, t, i);
        if CountOf(t, g) > 0 {
          DecrementedCounts(t, g);
          ScanIsFeedback(answer, guess, Decremented(t, g), i + 1);
        } else {
          ScanIsFeedback(answer, guess, t, i + 1);
        }
      }
    }
  }

  /** The corrected `check`: the counter built from the answer letters the
      guess misses gives Wordle's feedback. */
  lemma FixedScanIsFeedback(answer: ByteStr, guess: ByteStr)
    ensures Scan(answer, guess, FixedTallyOf(Unmatched(answer, guess, Size)).0, 0) == Feedback(answer, guess)
  {
    FixedCounts(Unmatched(answer, guess, Size));
    assert Unmatched(guess, answer, 0) == [];
    ScanIsFeedback(answer, guess, FixedTallyOf(Unmatched(answer, guess, Size)).0, 0);
  }

  // ---------------------------------------------------------------------------
  // The counter as written against the corrected one

  /** Without zero letters, the as-written insertion agrees with the
      corrected one: the first empty-or-equal slot is the letter's slot or
      the next free one. */
  lemma InsertAgrees(init: seq<Byte>, t: Tally, used: nat, c: Byte)
    requires Shaped(t) && used <= |init| < Size && FixedInv(init, t, used)
    requires 0 !in multiset(init) && c != 0
    ensures Insert(t, c) == InsertFixed(t, used, c).0
  {
    var k := Find(t.chars[..used], c);
    var i := FirstFree(t.chars, c);
    forall j | 0 <= j < used
      ensures t.chars[j] != 0
    {
      assert t.chars[j] in multiset(init);
    }
    if k < used {
      assert i == k;
      assert t.chars[k := c] == t.chars;
    } else {
      assert i == used;
    }
  }

  /** Without zero letters, `CharCounter::new` as written builds the
      corrected counter. */
  lemma {:induction false} SameTallyWithoutZeros(word: seq<Byte>)
    requires |word| <= Size && 0 !in multiset(word)
    ensures TallyOf(word) == FixedTallyOf(word).0
  {
    if word != [] {
      var init := word[..|word| - 1];
      var c := word[|word| - 1];
      assert word == init + [c];
      SameTallyWithoutZeros(init);
      FixedTallyInv(init);
      InsertAgrees(init, FixedTallyOf(init).0, FixedTallyOf(init).1, c);
    }
  }

  /** Where every position is missed, the unmatched letters are the whole word. */
  lemma {:induction false} AllUnmatched(xs: seq<Byte>, ys: seq<Byte>, n: nat)
    requires n <= |xs| && n <= |ys| && forall j :: 0 <= j < n ==> xs[j] != ys[j]
    ensures Unmatched(xs, ys, n) == xs[..n]
  {
    if n > 0 {
      AllUnmatched(xs, ys, n - 1);
      assert xs[..n] == xs[..n - 1] + [xs[n - 1]];
    }
  }

  /** `check` as written gives Wordle's feedback when no letter of the guess
      is in place and the answer has no zero byte: it is the zeros that
      blank the hit positions that the counter mistakes for empty slots. */
  lemma AsWrittenAgrees(answer: ByteStr, guess: ByteStr)
    requires forall i :: 0 <= i < Size ==> guess[i] != answer[i] && answer[i] != 0
    ensures AsWrittenFeedback(answer, guess) == Feedback(answer, guess)
  {
    assert NotCorrect(answer, guess) == answer;
    AllUnmatched(answer, guess, Size);
    assert answer[..Size] == answer;
    assert 0 !in multiset(answer);
    SameTallyWithoutZeros(answer);
    FixedScanIsFeedback(answer, guess);
  }

  /** The marking pass sets `Correct` exactly where the letters agree. */
  lemma {:induction false} ScanCorrect(answer: ByteStr, guess: ByteStr, t: Tally, i: nat)
    requires Shaped(t) && i <= Size
    ensures forall k :: 0 <= k < Size - i ==> (Scan(answer, guess, t, i)[k] == Correct <==> guess[i + k] == answer[i + k])
    decreases Size - i
  {
    if i < Size {
      var next := if guess[i] == answer[i] || CountOf(t, guess[i]) <= 0 then t else Decremented(t, guess[i]);
      var mark := if guess[i] == answer[i] then Correct else if CountOf(t, guess[i]) > 0 then Misplaced else Wrong;
      var rest := Scan(answer, guess, next, i + 1);
      assert Scan(answer, guess, t, i) == [mark] + rest;
      ScanCorrect(answer, guess, next, i + 1);
      assert forall k :: 0 <= k < Size - (i + 1) ==> (rest[k] == Correct <==> guess[i + 1 + k] == answer[i + 1 + k]);
    }
  }

  /** As written, a position is `Correct` exactly when the guess has the
      answer's letter there; so a word checked against itself is all `Correct`. */
  lemma AsWrittenCorrectIffEqual(answer: ByteStr, guess: ByteStr)
    ensures forall i :: 0 <= i < Size ==> (AsWrittenFeedback(answer, guess)[i] == Correct <==> guess[i] == answer[i])
    ensures AsWrittenFeedback(answer, answer) == [Correct, Correct, Correct, Correct, Correct]
  {
    ScanCorrect(answer, guess, TallyOf(NotCorrect(answer, guess)), 0);
    ScanCorrect(answer, answer, TallyOf(NotCorrect(answer, answer)), 0);
    var same := AsWrittenFeedback(answer, answer);
    assert forall k :: 0 <= k < Size ==> same[k] == Correct;
  }
}
