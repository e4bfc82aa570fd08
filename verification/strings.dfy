/** The few PHP string primitives the view finder relies on: `rtrim` with a
    single character, `strpos` for a separator and `explode`. Strings are
    `seq<char>`; no encoding is modelled. */
module Strings {
  import opened Wrappers

  /** `sep` occurs in `s` starting at index `i`. */
  predicate OccursAt(s: string, sep: string, i: nat) {
    i + |sep| <= |s| && s[i..i + |sep|] == sep
  }

  /** `sep` occurs nowhere in `s` at a start index in `[from, to)`. */
  predicate AbsentBetween(s: string, sep: string, from: nat, to: nat) {
    forall j :: from <= j < to ==> !OccursAt(s, sep, j)
  }

  /** `sep` occurs somewhere in `s` (PHP: `strpos($s, $sep) !== false`). */
  predicate Contains(s: string, sep: string) {
    exists j :: 0 <= j <= |s| && OccursAt(s, sep, j)
  }

  /** PHP `rtrim($s, $c)` for a single character: strips every trailing `c`. */
  function RTrim(s: string, c: char): (r: string)
    ensures |r| <= |s| && r == s[..|r|]
    ensures |r| == 0 || r[|r| - 1] != c
    ensures forall i :: |r| <= i < |s| ==> s[i] == c
    decreases |s|
  {
    if |s| > 0 && s[|s| - 1] == c then RTrim(s[..|s| - 1], c) else s
  }

  /** The first index at or after `from` where `sep` occurs in `s`. */
  function IndexFrom(s: string, sep: string, from: nat): (r: Option<nat>)
    ensures r.Some? ==> from <= r.value && OccursAt(s, sep, r.value)
                        && AbsentBetween(s, sep, from, r.value)
    ensures r.None? ==> AbsentBetween(s, sep, from, |s| + 1)
    decreases |s| + 1 - from
  {
    if from > |s| then None
    else if OccursAt(s, sep, from) then Some(from)
    else IndexFrom(s, sep, from + 1)
  }

  /** PHP `strpos($s, $sep)`: the first occurrence of `sep` in `s`. */
  function IndexOf(s: string, sep: string): (r: Option<nat>)
    ensures r.Some? <==> Contains(s, sep)
    ensures r.Some? ==> OccursAt(s, sep, r.value) && AbsentBetween(s, sep, 0, r.value)
  {
    IndexFrom(s, sep, 0)
  }

  /** PHP `explode($sep, $s)`: the pieces of `s` between the occurrences of
      `sep`, found left to right without overlap. */
  function Explode(s: string, sep: string): (r: seq<string>)
    requires |sep| > 0
    ensures |r| >= 1
    ensures |r| == 1 <==> IndexOf(s, sep).None?
    decreases |s|
  {
    match IndexOf(s, sep)
    case None => [s]
    case Some(i) =>
      PieceHasNoSeparator(s, sep, i);
      [s[..i]] + Explode(s[i + |sep|..], sep)
  }

  /** The text before the first occurrence of a separator does not contain it. */
  lemma PieceHasNoSeparator(s: string, sep: string, i: nat)
    requires |sep| > 0 && i <= |s|
    requires AbsentBetween(s, sep, 0, i)
    ensures !Contains(s[..i], sep)
  {
    forall j | 0 <= j <= i && OccursAt(s[..i], sep, j)
      ensures false
    {
      assert s[..i][j..j + |sep|] == s[j..j + |sep|];
      assert OccursAt(s, sep, j);
    }
  }

  /** PHP `implode($sep, $parts)`. */
  function Join(parts: seq<string>, sep: string): string
    decreases |parts|
  {
    if |parts| == 0 then ""
    else if |parts| == 1 then parts[0]
    else parts[0] + sep + Join(parts[1..], sep)
  }

  /** Exploding and joining back with the same separator gives the input. */
  lemma {:induction false} JoinExplode(s: string, sep: string)
    requires |sep| > 0
    ensures Join(Explode(s, sep), sep) == s
    decreases |s|
  {
    var idx := IndexOf(s, sep);
    if idx.Some? {
      var i := idx.value;
      var rest := s[i + |sep|..];
      var tail := Explode(rest, sep);
      assert Explode(s, sep) == [s[..i]] + tail;
      JoinCons(s[..i], tail, sep);
      JoinExplode(rest, sep);
      SplitAround(s, sep, i);
    }
  }

  /** Joining a piece in front of at least one other piece puts the
      separator between them. */
  lemma JoinCons(head: string, tail: seq<string>, sep: string)
    requires |tail| >= 1
    ensures Join([head] + tail, sep) == head + sep + Join(tail, sep)
  {
    assert ([head] + tail)[1..] == tail;
  }

  /** A string is the text before an occurrence, the separator, and the text
      after it. */
  lemma SplitAround(s: string, sep: string, i: nat)
    requires OccursAt(s, sep, i)
    ensures s == s[..i] + sep + s[i + |sep|..]
  {
    assert s == s[..i] + s[i..i + |sep|] + s[i + |sep|..];
  }

  /** Occurrences in a suffix are occurrences in the whole string, shifted. */
  lemma OccursInSuffix(s: string, sep: string, o: nat, j: nat)
    requires o <= |s|
    ensures OccursAt(s[o..], sep, j) <==> OccursAt(s, sep, o + j)
  {
    if o + j + |sep| <= |s| {
      assert s[o..][j..j + |sep|] == s[o + j..o + j + |sep|];
    }
  }

  /** Every piece `explode` returns is free of the separator. */
  lemma ExplodePiecesAreSeparatorFree(s: string, sep: string)
    requires |sep| > 0
    ensures forall k :: 0 <= k < |Explode(s, sep)| ==> !Contains(Explode(s, sep)[k], sep)
  {
    forall k | 0 <= k < |Explode(s, sep)|
      ensures !Contains(Explode(s, sep)[k], sep)
    {
      ExplodePieceIsSeparatorFree(s, sep, k);
    }
  }

  /** Piece `k` of `explode` is free of the separator. */
  lemma {:induction false} ExplodePieceIsSeparatorFree(s: string, sep: string, k: nat)
    requires |sep| > 0 && k < |Explode(s, sep)|
    ensures !Contains(Explode(s, sep)[k], sep)
    decreases |s|
  {
    var idx := IndexOf(s, sep);
    if idx.Some? {
      var i := idx.value;
      var rest := s[i + |sep|..];
      assert Explode(s, sep) == [s[..i]] + Explode(rest, sep);
      if k == 0 {
        PieceHasNoSeparator(s, sep, i);
      } else {
        ExplodePieceIsSeparatorFree(rest, sep, k - 1);
      }
    } else {
      assert Explode(s, sep) == [s];
      assert AbsentBetween(s, sep, 0, |s| + 1);
    }
  }

  /** The first two pieces of `explode` when the separator occurs: the text
      before its first occurrence, then the text up to the next one (or to
      the end). */
  lemma ExplodeHead(s: string, sep: string)
    requires |sep| > 0 && Contains(s, sep)
    ensures var i := IndexOf(s, sep).value;
            var rest := s[i + |sep|..];
            && |Explode(s, sep)| >= 2
            && Explode(s, sep)[0] == s[..i]
            && Explode(s, sep)[1] == match IndexOf(rest, sep)
                                     case Some(j) => rest[..j]
                                     case None => rest
  {
    var i := IndexOf(s, sep).value;
    var rest := s[i + |sep|..];
    assert Explode(s, sep) == [s[..i]] + Explode(rest, sep);
    match IndexOf(rest, sep)
    case None =>
    case Some(j) =>
      assert Explode(rest, sep) == [rest[..j]] + Explode(rest[j + |sep|..], sep);
  }

  /** A search may skip a stretch where the separator is known to be absent. */
  lemma {:induction false} IndexFromSkips(s: string, sep: string, lo: nat, hi: nat)
    requires lo <= hi && AbsentBetween(s, sep, lo, hi)
    ensures IndexFrom(s, sep, lo) == IndexFrom(s, sep, hi)
    decreases hi - lo
  {
    if lo < hi {
      IndexFromSkips(s, sep, lo + 1, hi);
    }
  }
}
