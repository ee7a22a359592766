/**
 * The JavaScript string operations the path, log and CSV helpers rely on:
 * `startsWith`, `endsWith`, `indexOf`/`includes`, `split` on a one-character
 * separator, `Array.prototype.join`, and `replace` with a string pattern.
 * Strings are sequences of UTF-16 code units, one `char` each.
 */
module JsStrings {

  /** `s.startsWith(p)`. */
  predicate StartsWith(s: string, p: string)
  {
    p <= s
  }

  /** `s.endsWith(p)`. */
  predicate EndsWith(s: string, p: string)
  {
    |p| <= |s| && s[|s| - |p|..] == p
  }

  /** `p` occurs in `s` at index `i`. */
  predicate OccursAt(s: string, p: string, i: int)
  {
    0 <= i && i + |p| <= |s| && s[i..i + |p|] == p
  }

  /** `s.indexOf(p, from)`: the first index at or after `from` where `p` occurs, or -1. */
  function IndexOfFrom(s: string, p: string, from: nat): (r: int)
    ensures r == -1 || (from <= r && OccursAt(s, p, r))
    ensures r == -1 ==> forall i :: from <= i ==> !OccursAt(s, p, i)
    ensures r != -1 ==> forall i :: from <= i < r ==> !OccursAt(s, p, i)
    decreases |s| + 1 - from
  {
    if from + |p| > |s| then -1
    else if s[from..from + |p|] == p then from
    else IndexOfFrom(s, p, from + 1)
  }

  /** `s.indexOf(p)`. */
  function IndexOf(s: string, p: string): (r: int)
    ensures r == -1 || OccursAt(s, p, r)
    ensures r == -1 ==> forall i :: !OccursAt(s, p, i)
    ensures r != -1 ==> forall i :: i < r ==> !OccursAt(s, p, i)
  {
    IndexOfFrom(s, p, 0)
  }

  /** `s.includes(p)`. */
  predicate Includes(s: string, p: string)
  {
    IndexOf(s, p) != -1
  }

  /** A string that starts with `p` holds it first at index 0. */
  lemma IndexOfPrefix(s: string, p: string)
    requires StartsWith(s, p)
    ensures IndexOf(s, p) == 0
  {
    assert OccursAt(s, p, 0);
  }

  /** `c` does not occur in `s`. */
  predicate Free(s: string, c: char)
  {
    forall i :: 0 <= i < |s| ==> s[i] != c
  }

  /** The first index of `c` in `s`, or `|s|` when there is none. */
  function FindChar(s: string, c: char): (i: nat)
    ensures i <= |s| && (i < |s| ==> s[i] == c) && Free(s[..i], c)
  {
    if s == [] then 0
    else if s[0] == c then 0
    else
      var k := FindChar(s[1..], c);
      assert s[1..][..k] == s[1..k + 1];
      1 + k
  }

  /** `s.split(c)` for a one-character separator: the pieces between the
      occurrences of `c`, one more piece than there are occurrences. */
  function Split(s: string, c: char): (r: seq<string>)
    ensures |r| >= 1
    ensures forall k :: 0 <= k < |r| ==> Free(r[k], c)
    decreases |s|
  {
    var i := FindChar(s, c);
    if i == |s| then [s] else [s[..i]] + Split(s[i + 1..], c)
  }

  /** A string without the separator splits into itself alone. */
  lemma SplitFree(s: string, c: char)
    requires Free(s, c)
    ensures Split(s, c) == [s]
  {
    assert FindChar(s, c) == |s|;
  }

  /** `parts.join(sep)`: the parts with `sep` between consecutive ones. */
  function Join(parts: seq<string>, sep: string): string
  {
    if |parts| == 0 then ""
    else if |parts| == 1 then parts[0]
    else parts[0] + sep + Join(parts[1..], sep)
  }

  /** Joining two non-empty lists of parts puts the separator between their joins. */
  lemma {:induction false} JoinConcat(a: seq<string>, b: seq<string>, sep: string)
    requires |a| >= 1 && |b| >= 1
    ensures Join(a + b, sep) == Join(a, sep) + sep + Join(b, sep)
    decreases |a|
  {
    if |a| > 1 {
      assert (a + b)[1..] == a[1..] + b;
      JoinConcat(a[1..], b, sep);
    } else {
      assert (a + b)[1..] == b;
    }
  }

  /** Joining the pieces of a split gives the string back. */
  lemma {:induction false} JoinSplit(s: string, c: char)
    ensures Join(Split(s, c), [c]) == s
    decreases |s|
  {
    var i := FindChar(s, c);
    if i < |s| {
      var rest := Split(s[i + 1..], c);
      JoinSplit(s[i + 1..], c);
      assert Split(s, c) == [s[..i]] + rest;
      assert s == s[..i] + [c] + s[i + 1..];
    }
  }

  /** Splitting a join of separator-free parts gives the parts back. */
  lemma {:induction false} SplitJoin(parts: seq<string>, c: char)
    requires |parts| >= 1 && forall k :: 0 <= k < |parts| ==> Free(parts[k], c)
    ensures Split(Join(parts, [c]), c) == parts
    decreases |parts|
  {
    if |parts| == 1 {
      assert FindChar(parts[0], c) == |parts[0]|;
    } else {
      var tail := Join(parts[1..], [c]);
      SplitAt(parts[0], tail, c);
      SplitJoin(parts[1..], c);
      assert parts == [parts[0]] + parts[1..];
    }
  }

  /** The first piece of `a`, `c`, `b` is `a` when `c` is absent from `a`. */
  lemma SplitAt(a: string, b: string, c: char)
    requires Free(a, c)
    ensures Split(a + [c] + b, c) == [a] + Split(b, c)
  {
    var s := a + [c] + b;
    assert s == a + ([c] + b);
    FreePrefixFind(a, [c] + b, c);
    assert s[..|a|] == a && s[|a| + 1..] == b;
  }

  /** In `a + b` with `c` absent from `a` and starting `b`, the first `c` is right after `a`. */
  lemma FreePrefixFind(a: string, b: string, c: char)
    requires Free(a, c) && |b| > 0 && b[0] == c
    ensures FindChar(a + b, c) == |a|
  {
    assert (a + b)[|a|] == b[0];
    assert forall k :: 0 <= k < |a| ==> (a + b)[k] == a[k];
  }

  /** The separator-free pieces of a join: a join of separator-free parts
      contains the separator only between parts. */
  lemma {:induction false} JoinFree(parts: seq<string>, sep: string, c: char)
    requires Free(sep, c) && forall k :: 0 <= k < |parts| ==> Free(parts[k], c)
    ensures Free(Join(parts, sep), c)
    decreases |parts|
  {
    if |parts| > 1 {
      JoinFree(parts[1..], sep, c);
      var tail := Join(parts[1..], sep);
      assert Join(parts, sep) == parts[0] + sep + tail;
      forall i | 0 <= i < |Join(parts, sep)| ensures Join(parts, sep)[i] != c {
        if i < |parts[0]| {
          assert Join(parts, sep)[i] == parts[0][i];
        } else if i < |parts[0]| + |sep| {
          assert Join(parts, sep)[i] == sep[i - |parts[0]|];
        } else {
          assert Join(parts, sep)[i] == tail[i - |parts[0]| - |sep|];
        }
      }
    }
  }

  /** The replacement text `replace` inserts for a match of a string pattern
      (GetSubstitution with no capture groups): `$$` is `$`, `$&` the match,
      `` $` `` the text before it, `$'` the text after it; any other `$` stays. */
  function Substitution(rep: string, matched: string, before: string, after: string): string
    decreases |rep|
  {
    if |rep| < 2 || rep[0] != '$' then
      if rep == [] then "" else [rep[0]] + Substitution(rep[1..], matched, before, after)
    else if rep[1] == '$' then "$" + Substitution(rep[2..], matched, before, after)
    else if rep[1] == '&' then matched + Substitution(rep[2..], matched, before, after)
    else if rep[1] == '`' then before + Substitution(rep[2..], matched, before, after)
    else if rep[1] == '\'' then after + Substitution(rep[2..], matched, before, after)
    else "$" + Substitution(rep[1..], matched, before, after)
  }

  /** A replacement without `$` is inserted as it is. */
  lemma {:induction false} SubstitutionPlain(rep: string, matched: string, before: string, after: string)
    requires Free(rep, '$')
    ensures Substitution(rep, matched, before, after) == rep
    decreases |rep|
  {
    if rep != [] {
      assert rep[0] != '$';
      SubstitutionPlain(rep[1..], matched, before, after);
      assert rep == [rep[0]] + rep[1..];
    }
  }

  /** `s.replace(p, rep)` with a string pattern: only the first occurrence of
      `p` is replaced; without one, `s` is returned unchanged. */
  function ReplaceFirst(s: string, p: string, rep: string): (r: string)
    ensures IndexOf(s, p) == -1 ==> r == s
    ensures IndexOf(s, p) != -1 ==>
              var i := IndexOf(s, p);
              r == s[..i] + Substitution(rep, p, s[..i], s[i + |p|..]) + s[i + |p|..]
  {
    var i := IndexOf(s, p);
    if i == -1 then s else s[..i] + Substitution(rep, p, s[..i], s[i + |p|..]) + s[i + |p|..]
  }

  /** Replacing a prefix swaps it for the (`$`-free) replacement. */
  lemma ReplacePrefix(s: string, p: string, rep: string)
    requires StartsWith(s, p) && Free(rep, '$')
    ensures ReplaceFirst(s, p, rep) == rep + s[|p|..]
  {
    IndexOfPrefix(s, p);
    assert s[..0] == [] && s[0 + |p|..] == s[|p|..];
    SubstitutionPlain(rep, p, [], s[|p|..]);
    assert ReplaceFirst(s, p, rep) == [] + Substitution(rep, p, [], s[|p|..]) + s[|p|..];
  }

  /** `d` is absent from a concatenation exactly when it is absent from both parts. */
  lemma FreeConcat(a: string, b: string, d: char)
    ensures Free(a + b, d) <==> Free(a, d) && Free(b, d)
  {
    if Free(a + b, d) {
      assert forall k :: 0 <= k < |a| ==> a[k] == (a + b)[k];
      assert forall k :: 0 <= k < |b| ==> b[k] == (a + b)[|a| + k];
    }
  }

  /** A slice of a string without `d` has no `d`. */
  lemma FreeSlice(s: string, lo: nat, hi: nat, d: char)
    requires lo <= hi <= |s| && Free(s, d)
    ensures Free(s[lo..hi], d)
  {
    assert forall k :: 0 <= k < hi - lo ==> s[lo..hi][k] == s[lo + k];
  }

  /** The pieces of a split of a string without `d` have no `d`. */
  lemma {:induction false} SplitKeepsFree(s: string, c: char, d: char)
    requires Free(s, d)
    ensures forall k :: 0 <= k < |Split(s, c)| ==> Free(Split(s, c)[k], d)
    decreases |s|
  {
    var i := FindChar(s, c);
    FreeSlice(s, 0, i, d);
    if i < |s| {
      FreeSlice(s, i + 1, |s|, d);
      SplitKeepsFree(s[i + 1..], c, d);
    }
  }

  /** A substitution built from parts without `d` has no `d`. */
  lemma {:induction false} SubstitutionKeepsFree(rep: string, matched: string, before: string, after: string, d: char)
    requires Free(rep, d) && Free(matched, d) && Free(before, d) && Free(after, d)
    ensures Free(Substitution(rep, matched, before, after), d)
    decreases |rep|
  {
    if |rep| >= 2 && rep[0] == '$' {
      FreeSlice(rep, 2, |rep|, d);
      FreeSlice(rep, 1, |rep|, d);
      SubstitutionKeepsFree(rep[2..], matched, before, after, d);
      SubstitutionKeepsFree(rep[1..], matched, before, after, d);
      FreeConcat("$", Substitution(rep[2..], matched, before, after), d);
      FreeConcat(matched, Substitution(rep[2..], matched, before, after), d);
      FreeConcat(before, Substitution(rep[2..], matched, before, after), d);
      FreeConcat(after, Substitution(rep[2..], matched, before, after), d);
      FreeConcat("$", Substitution(rep[1..], matched, before, after), d);
    } else if rep != [] {
      FreeSlice(rep, 1, |rep|, d);
      SubstitutionKeepsFree(rep[1..], matched, before, after, d);
      FreeConcat([rep[0]], Substitution(rep[1..], matched, before, after), d);
    }
  }

  /** Replacing in a string without `d` by text without `d` introduces no `d`. */
  lemma ReplaceFirstKeepsFree(s: string, p: string, rep: string, d: char)
    requires Free(s, d) && Free(p, d) && Free(rep, d)
    ensures Free(ReplaceFirst(s, p, rep), d)
  {
    var i := IndexOf(s, p);
    if i != -1 {
      FreeSlice(s, 0, i, d);
      FreeSlice(s, i + |p|, |s|, d);
      var sub := Substitution(rep, p, s[..i], s[i + |p|..]);
      SubstitutionKeepsFree(rep, p, s[..i], s[i + |p|..], d);
      FreeConcat(s[..i], sub, d);
      FreeConcat(s[..i] + sub, s[i + |p|..], d);
    }
  }
}
