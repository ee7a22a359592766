/**
 * `CharCounter` and `Correctness::check` as imperative code: the counter
 * keeps its letters and their tallies in two five-slot arrays, and `check`
 * fills a mask array in two passes over the guess.
 */
module WordleCounter {
  import opened Wordle

  /** Letters of a word in slots, each with its number of occurrences. */
  class CharCounter {
    const chars: array<Byte>
    const count: array<int>

    ghost predicate Valid()
      reads this
    {
      chars.Length == Size && count.Length == Size
    }

    /** The slots and tallies as values. */
    ghost function State(): (t: Tally)
      requires Valid()
      reads this, chars, count
      ensures Shaped(t)
    {
      Tally(chars[..], count[..])
    }

    /** `CharCounter::new` as written: each letter goes to the first slot
        that is 0 or already holds it, a 0 slot taking the letter, and that
        slot counts one more. */
    constructor (word: ByteStr)
      ensures Valid() && fresh(chars) && fresh(count)
      ensures State() == TallyOf(word)
    {
      var cs := new Byte[Size](_ => 0);
      var ct := new int[Size](_ => 0);
      assert Tally(cs[..], ct[..]) == EmptyTally();
      var n := 0;
      while n < Size
        invariant 0 <= n <= Size
        invariant Tally(cs[..], ct[..]) == TallyOf(word[..n])
      {
        Place(cs, ct, word[n]);
        assert word[..n + 1][..n] == word[..n];
        n := n + 1;
      }
      assert word[..Size] == word;
      chars := cs;
      count := ct;
    }

    /** The counter the intended `check` needs: each letter goes to its own
        slot if it has one among the `used` slots filled so far, otherwise to
        the next unused slot, so no byte value stands for an empty slot. */
    constructor FromLetters(letters: seq<Byte>)
      requires |letters| <= Size
      ensures Valid() && fresh(chars) && fresh(count)
      ensures State() == FixedTallyOf(letters).0
    {
      var cs := new Byte[Size](_ => 0);
      var ct := new int[Size](_ => 0);
      assert Tally(cs[..], ct[..]) == EmptyTally();
      var used := 0;
      var n := 0;
      while n < |letters|
        invariant 0 <= n <= |letters|
        invariant Tally(cs[..], ct[..]) == FixedTallyOf(letters[..n]).0 && used == FixedTallyOf(letters[..n]).1
      {
        used := PlaceFixed(cs, ct, used, letters[n]);
        assert letters[..n + 1][..n] == letters[..n];
        n := n + 1;
      }
      assert letters[..|letters|] == letters;
      chars := cs;
      count := ct;
    }

    /** `find_count(c)`: the tally in the first slot holding `c`, 0 if none does. */
    method FindCount(c: Byte) returns (n: int)
      requires Valid()
      ensures n == CountOf(State(), c)
    {
      var index := 0;
      while index < Size && chars[index] != c
        invariant 0 <= index <= Size
        invariant forall k :: 0 <= k < index ==> chars[k] != c
      {
        index := index + 1;
      }
      assert index == Find(chars[..], c);
      n := if index < Size then count[index] else 0;
    }

    /** `decrement(c)`: one less in the first slot holding `c`, if any. */
    method Decrement(c: Byte)
      requires Valid()
      modifies count
      ensures Valid() && State() == Decremented(old(State()), c)
    {
      var index := 0;
      while index < Size && chars[index] != c
        invariant 0 <= index <= Size
        invariant forall k :: 0 <= k < index ==> chars[k] != c
      {
        index := index + 1;
      }
      assert index == Find(chars[..], c);
      if index < Size {
        count[index] := count[index] - 1;
      }
    }
  }

  /** One letter of `CharCounter::new` as written: the slots are searched
      in order, a 0 slot takes the letter, and the first slot holding it
      counts one more; a letter finding no such slot is dropped. */
  method Place(chars: array<Byte>, count: array<int>, c: Byte)
    requires chars.Length == Size && count.Length == Size
    modifies chars, count
    ensures Tally(chars[..], count[..]) == Insert(old(Tally(chars[..], count[..])), c)
  {
    ghost var before := Tally(chars[..], count[..]);
    var index := 0;
    while index < Size
      invariant 0 <= index <= Size
      invariant Tally(chars[..], count[..]) == before
      invariant forall k :: 0 <= k < index ==> chars[k] != 0 && chars[k] != c
    {
      if chars[index] == 0 {
        chars[index] := c;
      }
      if chars[index] == c {
        count[index] := count[index] + 1;
        assert index == FirstFree(before.chars, c);
        return;
      }
      index := index + 1;
    }
  }

  /** One letter of the corrected counter: its slot among the `used` ones
      counts one more, or, when it has none, the next unused slot takes it. */
  method PlaceFixed(chars: array<Byte>, count: array<int>, used: nat, c: Byte) returns (used': nat)
    requires chars.Length == Size && count.Length == Size && used <= Size
    modifies chars, count
    ensures (Tally(chars[..], count[..]), used') == InsertFixed(old(Tally(chars[..], count[..])), used, c)
  {
    ghost var before := Tally(chars[..], count[..]);
    var index := 0;
    while index < used && chars[index] != c
      invariant 0 <= index <= used
      invariant forall k :: 0 <= k < index ==> chars[k] != c
    {
      index := index + 1;
    }
    assert index == Find(before.chars[..used], c);
    used' := used;
    if index < used {
      count[index] := count[index] + 1;
    } else if used < Size {
      chars[used] := c;
      count[used] := count[used] + 1;
      used' := used + 1;
    }
  }

  /** One position of the marking pass. */
  lemma ScanUnfold(answer: ByteStr, guess: ByteStr, t: Tally, i: nat)
    requires Shaped(t) && i < Size
    ensures Scan(answer, guess, t, i)
            == [if guess[i] == answer[i] then Correct else if CountOf(t, guess[i]) > 0 then Misplaced else Wrong]
               + Scan(answer, guess, if guess[i] != answer[i] && CountOf(t, guess[i]) > 0 then Decremented(t, guess[i]) else t, i + 1)
  {
  }

  /** The counter after the marking pass has passed position `i`. */
  function NextTally(answer: ByteStr, guess: ByteStr, t: Tally, i: nat): (r: Tally)
    requires Shaped(t) && i < Size
    ensures Shaped(r)
  {
    if guess[i] != answer[i] && CountOf(t, guess[i]) > 0 then Decremented(t, guess[i]) else t
  }

  /** One position of the second pass of `check`: a position not yet
      `Correct` whose letter the counter still has becomes `Misplaced`, using
      one copy up. */
  method MarkAt(answer: ByteStr, guess: ByteStr, mask: array<Correctness>, counter: CharCounter, index: nat)
    requires counter.Valid() && mask.Length == Size && index < Size
    requires mask[index] == Correct <==> guess[index] == answer[index]
    requires mask[index] != Misplaced
    modifies mask, counter.count
    ensures counter.Valid() && counter.State() == NextTally(answer, guess, old(counter.State()), index)
    ensures Scan(answer, guess, old(counter.State()), index)
            == [mask[index]] + Scan(answer, guess, NextTally(answer, guess, old(counter.State()), index), index + 1)
    ensures mask[..] == old(mask[..])[index := mask[index]]
  {
    ScanUnfold(answer, guess, counter.State(), index);
    var n := 0;
    if mask[index] != Correct {
      n := counter.FindCount(guess[index]);
    }
    if mask[index] != Correct && n > 0 {
      counter.Decrement(guess[index]);
      mask[index] := Misplaced;
    }
  }

  lemma Regroup<T>(done: seq<T>, x: T, rest: seq<T>, tail: seq<T>)
    requires rest == [x] + tail
    ensures (done + [x]) + tail == done + rest
  {
  }

  /** Position `i` of `done + init[i..]` rewritten: the done part grows by one. */
  lemma Splice<T>(now: seq<T>, before: seq<T>, done: seq<T>, init: seq<T>, i: nat)
    requires |done| == i < |init| && before == done + init[i..] && |now| == |before| && now == before[i := now[i]]
    ensures now == (done + [now[i]]) + init[i + 1..]
  {
    assert init[i..] == [init[i]] + init[i + 1..];
  }

  /** The second pass of `check` over the whole mask. */
  method MarkMisplaced(answer: ByteStr, guess: ByteStr, mask: array<Correctness>, counter: CharCounter)
    requires counter.Valid() && mask.Length == Size
    requires forall i :: 0 <= i < Size ==> (mask[i] == Correct <==> guess[i] == answer[i])
    requires forall i :: 0 <= i < Size ==> mask[i] != Misplaced
    modifies mask, counter.count
    ensures mask[..] == Scan(answer, guess, old(counter.State()), 0)
  {
    ghost var start := counter.State();
    ghost var init := mask[..];
    ghost var t := start;
    ghost var done: seq<Correctness> := [];
    var index := 0;
    while index < Size
      invariant 0 <= index <= Size && counter.Valid() && counter.State() == t
      invariant |done| == index && mask[..] == done + init[index..]
      invariant done + Scan(answer, guess, t, index) == Scan(answer, guess, start, 0)
    {
      assert mask[index] == init[index];
      ghost var before := mask[..];
      MarkAt(answer, guess, mask, counter, index);
      ghost var t' := NextTally(answer, guess, t, index);
      Regroup(done, mask[index], Scan(answer, guess, t, index), Scan(answer, guess, t', index + 1));
      Splice(mask[..], before, done, init, index);
      done := done + [mask[index]];
      t := t';
      index := index + 1;
    }
  }

  /** `Correctness::check` as written: the first pass marks the hits and
      copies the missed answer letters into `not_correct`, leaving 0 at the
      hits, which `CharCounter::new` then counts as letters. */
  method CheckAsWritten(answer: ByteStr, guess: ByteStr) returns (mask: seq<Correctness>)
    ensures mask == AsWrittenFeedback(answer, guess)
  {
    var m := new Correctness[Size](_ => Wrong);
    var notCorrect := new Byte[Size](_ => 0);
    var index := 0;
    while index < Size
      invariant 0 <= index <= Size
      invariant forall i :: 0 <= i < index ==> (m[i] == Correct <==> guess[i] == answer[i])
      invariant forall i :: 0 <= i < Size ==> m[i] != Misplaced
      invariant forall i :: 0 <= i < index ==> notCorrect[i] == NotCorrect(answer, guess)[i]
      invariant forall i :: index <= i < Size ==> notCorrect[i] == 0 && m[i] == Wrong
    {
      if guess[index] == answer[index] {
        m[index] := Correct;
      } else {
        notCorrect[index] := answer[index];
      }
      index := index + 1;
    }
    assert notCorrect[..] == NotCorrect(answer, guess);
    var counter := new CharCounter(notCorrect[..]);
    MarkMisplaced(answer, guess, m, counter);
    mask := m[..];
  }

  /** `Correctness::check` with the counter corrected: the first pass
      collects the missed answer letters, and the counter is built over
      exactly those. Its result is Wordle's feedback. */
  method Check(answer: ByteStr, guess: ByteStr) returns (mask: seq<Correctness>)
    ensures mask == Feedback(answer, guess)
  {
    var m := new Correctness[Size](_ => Wrong);
    var missed: seq<Byte> := [];
    var index := 0;
    while index < Size
      invariant 0 <= index <= Size
      invariant forall i :: 0 <= i < index ==> (m[i] == Correct <==> guess[i] == answer[i])
      invariant forall i :: 0 <= i < Size ==> m[i] != Misplaced
      invariant forall i :: index <= i < Size ==> m[i] == Wrong
      invariant missed == Unmatched(answer, guess, index)
    {
      if guess[index] == answer[index] {
        m[index] := Correct;
      } else {
        missed := missed + [answer[index]];
      }
      index := index + 1;
    }
    var counter := new CharCounter.FromLetters(missed);
    MarkMisplaced(answer, guess, m, counter);
    mask := m[..];
    FixedScanIsFeedback(answer, guess);
  }
}
