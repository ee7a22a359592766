/**
 * The pure helpers of the Wordle crate: `Correctness::mask_radix` packs a
 * mask into a base-3 number, `filter_with` keeps the words every past guess
 * still allows, and `str5` reads a five-byte word.
 */
module WordleWords {
  import opened Wrappers
  import opened Wordle

  function Pow3(n: nat): (p: nat)
    ensures p >= 1
  {
    if n == 0 then 1 else 3 * Pow3(n - 1)
  }

  // ---------------------------------------------------------------------------
  // mask_radix

  /** The fold of `mask_radix` from position `i` with accumulator `acc`:
      each position adds its value times 3 to the power of its index. */
  function RadixFold(mask: seq<Correctness>, i: nat, acc: nat): nat
    requires i <= |mask|
    decreases |mask| - i
  {
    if i == |mask| then acc else RadixFold(mask, i + 1, acc + Value(mask[i]) * Pow3(i))
  }

  /** `Correctness::mask_radix`. */
  function MaskRadix(mask: seq<Correctness>): nat
  {
    RadixFold(mask, 0, 0)
  }

  /** The base-3 number whose digits, lowest first, are the mask's values. */
  function Digits(mask: seq<Correctness>): nat
  {
    if mask == [] then 0 else Value(mask[0]) + 3 * Digits(mask[1..])
  }

  function OfValue(d: nat): Correctness
    requires d < 3
  {
    if d == 0 then Wrong else if d == 1 then Misplaced else Correct
  }

  /** The `k`-digit mask of a base-3 number, lowest digit first. */
  function MaskOf(n: nat, k: nat): (mask: seq<Correctness>)
    ensures |mask| == k
  {
    if k == 0 then [] else [OfValue(n % 3)] + MaskOf(n / 3, k - 1)
  }

  /** The fold from `i` adds the digits of the rest of the mask, shifted by
      `3^i`. */
  lemma {:induction false} RadixFoldIsDigits(mask: seq<Correctness>, i: nat, acc: nat)
    requires i <= |mask|
    ensures RadixFold(mask, i, acc) == acc + Pow3(i) * Digits(mask[i..])
    decreases |mask| - i
  {
    if i < |mask| {
      var p, v, d := Pow3(i), Value(mask[i]), Digits(mask[i + 1..]);
      RadixFoldIsDigits(mask, i + 1, acc + v * p);
      assert mask[i..][1..] == mask[i + 1..];
      assert Digits(mask[i..]) == v + 3 * d;
      assert Pow3(i + 1) == 3 * p;
      Regroup(acc, p, v, d);
    } else {
      assert mask[i..] == [];
    }
  }

  lemma Regroup(acc: nat, p: nat, v: nat, d: nat)
    ensures acc + v * p + (3 * p) * d == acc + p * (v + 3 * d)
  {
    calc {
      p * (v + 3 * d);
      p * v + p * (3 * d);
      v * p + (3 * p) * d;
    }
  }

  /** The digits of a mask of length `k` stay below `3^k`. */
  lemma {:induction false} DigitsBound(mask: seq<Correctness>)
    ensures Digits(mask) < Pow3(|mask|)
  {
    if mask != [] {
      DigitsBound(mask[1..]);
    }
  }

  /** Reading the digits back gives the mask. */
  lemma {:induction false} DigitsRoundTrip(mask: seq<Correctness>)
    ensures MaskOf(Digits(mask), |mask|) == mask
  {
    if mask != [] {
      var n := Digits(mask);
      assert n % 3 == Value(mask[0]) && n / 3 == Digits(mask[1..]);
      DigitsRoundTrip(mask[1..]);
    }
  }

  /** `mask_radix` is the base-3 number of the mask: it stays below
      `3^|mask|` and the mask can be read back from it. */
  lemma MaskRadixRoundTrip(mask: seq<Correctness>)
    ensures MaskRadix(mask) == Digits(mask) < Pow3(|mask|)
    ensures MaskOf(MaskRadix(mask), |mask|) == mask
  {
    RadixFoldIsDigits(mask, 0, 0);
    assert mask[0..] == mask;
    assert MaskRadix(mask) == Digits(mask) by {
      assert Pow3(0) == 1;
      assert 0 + Pow3(0) * Digits(mask[0..]) == Digits(mask);
    }
    DigitsBound(mask);
    DigitsRoundTrip(mask);
  }

  /** A Wordle mask's radix lies in [0, 243). */
  lemma MaskRadixBound(mask: seq<Correctness>)
    requires |mask| == Size
    ensures MaskRadix(mask) < 243
  {
    MaskRadixRoundTrip(mask);
    assert Pow3(Size) == 243 by {
      assert Pow3(1) == 3 && Pow3(2) == 9 && Pow3(3) == 27 && Pow3(4) == 81;
    }
  }

  /** Different masks of one length have different radices. */
  lemma MaskRadixInjective(a: seq<Correctness>, b: seq<Correctness>)
    requires |a| == |b|
    ensures MaskRadix(a) == MaskRadix(b) <==> a == b
  {
    MaskRadixRoundTrip(a);
    MaskRadixRoundTrip(b);
  }

  // ---------------------------------------------------------------------------
  // filter_with

  /** A past guess: the word played and the mask it got. */
  datatype Guess = Guess(mask: seq<Correctness>, word: ByteStr)

  /** Whether `word` survives every guess of the history: each guess's
      `matches` accepts it and it is not the guessed word itself.
      `Guess::matches` is not part of this model and comes in as `matches`. */
  predicate Allowed(history: seq<Guess>, matches: (Guess, ByteStr) -> bool, word: ByteStr)
  {
    forall g :: g in history ==> matches(g, word) && g.word != word
  }

  /** `filter_with`: the words the history still allows. */
  function FilterWith(words: seq<ByteStr>, history: seq<Guess>, matches: (Guess, ByteStr) -> bool): (r: seq<ByteStr>)
    ensures |r| <= |words|
  {
    if words == [] then []
    else
      var rest := FilterWith(words[..|words| - 1], history, matches);
      var w := words[|words| - 1];
      if Allowed(history, matches, w) then rest + [w] else rest
  }

  /** A word is kept exactly when it is one of the words and the history
      allows it. */
  lemma {:induction false} FilterWithMembers(words: seq<ByteStr>, history: seq<Guess>, matches: (Guess, ByteStr) -> bool)
    ensures forall w :: w in FilterWith(words, history, matches) <==> w in words && Allowed(history, matches, w)
  {
    if words != [] {
      var init := words[..|words| - 1];
      FilterWithMembers(init, history, matches);
      assert words == init + [words[|words| - 1]];
    }
  }

  /** Filtering keeps the original order: filtering a concatenation is the
      concatenation of the filtered parts. */
  lemma {:induction false} FilterWithAppend(a: seq<ByteStr>, b: seq<ByteStr>, history: seq<Guess>, matches: (Guess, ByteStr) -> bool)
    ensures FilterWith(a + b, history, matches) == FilterWith(a, history, matches) + FilterWith(b, history, matches)
    decreases |b|
  {
    if b == [] {
      assert a + b == a;
    } else {
      var init, w := b[..|b| - 1], b[|b| - 1];
      FilterWithAppend(a, init, history, matches);
      var ab := a + b;
      assert ab[..|ab| - 1] == a + init && ab[|ab| - 1] == w;
      var kept := FilterWith(a + init, history, matches);
      assert FilterWith(ab, history, matches) == if Allowed(history, matches, w) then kept + [w] else kept;
      assert FilterWith(b, history, matches)
             == if Allowed(history, matches, w) then FilterWith(init, history, matches) + [w] else FilterWith(init, history, matches);
    }
  }

  /** No word already guessed survives. */
  lemma GuessedWordsRemoved(words: seq<ByteStr>, history: seq<Guess>, matches: (Guess, ByteStr) -> bool)
    ensures forall g :: g in history ==> g.word !in FilterWith(words, history, matches)
  {
    FilterWithMembers(words, history, matches);
  }

  /** Filtering by a longer history is filtering the earlier result by the
      new guesses. */
  lemma {:induction false} FilterWithHistory(words: seq<ByteStr>, h1: seq<Guess>, h2: seq<Guess>, matches: (Guess, ByteStr) -> bool)
    ensures FilterWith(words, h1 + h2, matches) == FilterWith(FilterWith(words, h1, matches), h2, matches)
  {
    if words != [] {
      var init := words[..|words| - 1];
      var w := words[|words| - 1];
      FilterWithHistory(init, h1, h2, matches);
      assert Allowed(h1 + h2, matches, w) <==> Allowed(h1, matches, w) && Allowed(h2, matches, w) by {
        assert forall g :: g in h1 + h2 <==> g in h1 || g in h2;
      }
      if Allowed(h1, matches, w) {
        var kept := FilterWith(init, h1, matches);
        assert (kept + [w])[..|kept + [w]| - 1] == kept;
      }
    }
  }

  // ---------------------------------------------------------------------------
  // str5

  /** `str5`: the bytes of a string as a five-byte word; the `unwrap`
      panics on any other length, which is `None` here. */
  function Str5(bytes: seq<Byte>): (r: Option<ByteStr>)
    ensures r.Some? <==> |bytes| == Size
    ensures r.Some? ==> r.value == bytes
  {
    if |bytes| == Size then Some(bytes) else None
  }
}
