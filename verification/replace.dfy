/**
  Go's `strings.ReplaceAll`, as `ReplaceVariables` uses it, with `strings.Split`
  and `strings.Join` as a second description of what it computes: the text cut
  at every leftmost, non-overlapping occurrence of the pattern and glued back
  together with the replacement. `SplitCutsAtLeftmostOccurrence` and
  `SplitAfterFirstCut` pin down where every cut falls.
*/
module Replace {

  /** `pat` occurs in `s` starting at position `i`. */
  predicate OccursAt(s: string, pat: string, i: int)
  {
    0 <= i && i + |pat| <= |s| && s[i..i + |pat|] == pat
  }

  /** `pat` occurs somewhere in `s`. */
  predicate Contains(s: string, pat: string)
  {
    exists i :: 0 <= i <= |s| && OccursAt(s, pat, i)
  }

  /**
    Where gap `i` starts in the result of inserting `rep` everywhere: after `i`
    copies of `rep` and `i` original characters (`GapIsStride` gives the
    closed form `i * (|rep| + 1)`).
  */
  function Gap(i: nat, rep: string): nat
  {
    if i == 0 then 0 else Gap(i - 1, rep) + |rep| + 1
  }

  /** Gap `i` of `r` holds a copy of `rep`. */
  predicate RepAt(r: string, rep: string, i: nat)
  {
    Gap(i, rep) + |rep| <= |r| && r[Gap(i, rep)..Gap(i, rep) + |rep|] == rep
  }

  /** Character `c` follows gap `i` of `r`. */
  predicate CharAt(r: string, rep: string, i: nat, c: char)
  {
    Gap(i, rep) + |rep| < |r| && r[Gap(i, rep) + |rep|] == c
  }

  /** Go's rule for an empty pattern: `rep` before every character and at the end. */
  function InsertEverywhere(s: string, rep: string): (r: string)
    ensures |r| == Gap(|s|, rep) + |rep|
    ensures forall i: nat :: i < |s| ==> CharAt(r, rep, i, s[i])
    ensures forall i: nat :: i <= |s| ==> RepAt(r, rep, i)
  {
    if |s| == 0 then
      assert rep[0..|rep|] == rep;
      rep
    else
      var tail := InsertEverywhere(s[1..], rep);
      CharactersAfterInsert(s, rep, tail);
      ReplacementsAfterInsert(s, rep, tail);
      rep + [s[0]] + tail
  }

  /** The step of `InsertEverywhere` for the original characters. */
  lemma CharactersAfterInsert(s: string, rep: string, tail: string)
    requires 0 < |s|
    requires forall i: nat :: i < |s| - 1 ==> CharAt(tail, rep, i, s[1..][i])
    ensures forall i: nat :: i < |s| ==> CharAt(rep + [s[0]] + tail, rep, i, s[i])
  {
    var r := rep + [s[0]] + tail;
    forall i: nat | i < |s|
      ensures CharAt(r, rep, i, s[i])
    {
      if i > 0 {
        assert CharAt(tail, rep, i - 1, s[1..][i - 1]);
        assert r[Gap(i, rep) + |rep|] == tail[Gap(i - 1, rep) + |rep|];
      }
    }
  }

  /** The step of `InsertEverywhere` for the inserted replacements. */
  lemma ReplacementsAfterInsert(s: string, rep: string, tail: string)
    requires 0 < |s|
    requires forall i: nat :: i <= |s| - 1 ==> RepAt(tail, rep, i)
    ensures forall i: nat :: i <= |s| ==> RepAt(rep + [s[0]] + tail, rep, i)
  {
    var r := rep + [s[0]] + tail;
    forall i: nat | i <= |s|
      ensures RepAt(r, rep, i)
    {
      if i == 0 {
        assert r[0..|rep|] == rep;
      } else {
        assert RepAt(tail, rep, i - 1);
        assert r[Gap(i, rep)..Gap(i, rep) + |rep|] == tail[Gap(i - 1, rep)..Gap(i - 1, rep) + |rep|];
      }
    }
  }

  /** Gap `i` starts at `i * (|rep| + 1)`. */
  lemma {:induction false} GapIsStride(i: nat, rep: string)
    ensures Gap(i, rep) == i * (|rep| + 1)
  {
    if i > 0 {
      GapIsStride(i - 1, rep);
      StrideShift(i, |rep| + 1);
    }
  }

  /** One stride more than `i - 1` strides is `i` strides. */
  lemma StrideShift(i: int, n: int)
    ensures i * n == n + (i - 1) * n
  {
  }

  /** An occurrence in a suffix is an occurrence in the whole text, shifted. */
  lemma OccursInSuffix(s: string, pat: string, k: nat, i: int)
    requires k <= |s|
    requires OccursAt(s[k..], pat, i)
    ensures OccursAt(s, pat, i + k)
  {
    assert s[k..][i..i + |pat|] == s[i + k..i + k + |pat|];
  }

  /** An occurrence past the first character is an occurrence in the tail, one position earlier. */
  lemma OccursInTail(s: string, pat: string, i: int)
    requires 1 <= i && OccursAt(s, pat, i)
    ensures OccursAt(s[1..], pat, i - 1)
  {
    var t := s[1..];
    assert i - 1 + |pat| <= |t|;
    forall j | 0 <= j < |pat|
      ensures t[i - 1..i - 1 + |pat|][j] == pat[j]
    {
      assert t[i - 1 + j] == s[i + j] == s[i..i + |pat|][j];
    }
  }

  /** A text without the pattern has no tail containing it. */
  lemma TailOfFreeTextIsFree(s: string, pat: string)
    requires |s| > 0
    ensures !Contains(s, pat) ==> !Contains(s[1..], pat)
  {
    if Contains(s[1..], pat) {
      var i :| 0 <= i <= |s[1..]| && OccursAt(s[1..], pat, i);
      OccursInSuffix(s, pat, 1, i);
    }
  }

  /** Left-to-right, non-overlapping replacement of a non-empty pattern. */
  function ReplaceNonEmpty(s: string, pat: string, rep: string): string
    requires |pat| > 0
    decreases |s|
  {
    if |s| < |pat| then s
    else if s[..|pat|] == pat then rep + ReplaceNonEmpty(s[|pat|..], pat, rep)
    else [s[0]] + ReplaceNonEmpty(s[1..], pat, rep)
  }

  /** A text in which a non-empty pattern does not occur is left as it is. */
  lemma {:induction false} ReplaceNonEmptyOfFreeText(s: string, pat: string, rep: string)
    requires |pat| > 0
    ensures !Contains(s, pat) ==> ReplaceNonEmpty(s, pat, rep) == s
    decreases |s|
  {
    if |s| >= |pat| && !Contains(s, pat) {
      assert !OccursAt(s, pat, 0);
      assert s[..|pat|] != pat;
      TailOfFreeTextIsFree(s, pat);
      ReplaceNonEmptyOfFreeText(s[1..], pat, rep);
      assert s == [s[0]] + s[1..];
    }
  }

  /**
    `strings.ReplaceAll(s, pat, rep)`: a text in which a non-empty pattern does
    not occur comes back unchanged; an empty pattern inserts `rep` before every
    character and at the end.
  */
  function ReplaceAll(s: string, pat: string, rep: string): (r: string)
    ensures |pat| > 0 && !Contains(s, pat) ==> r == s
    ensures |pat| == 0 ==> |r| == Gap(|s|, rep) + |rep|
    ensures |pat| == 0 ==> forall i: nat :: i < |s| ==> CharAt(r, rep, i, s[i])
    ensures |pat| == 0 ==> forall i: nat :: i <= |s| ==> RepAt(r, rep, i)
  {
    if |pat| == 0 then InsertEverywhere(s, rep)
    else ReplaceNonEmptyOfFreeText(s, pat, rep); ReplaceNonEmpty(s, pat, rep)
  }

  /** `strings.Split(s, sep)` for a non-empty separator: the pieces between leftmost occurrences. */
  function Split(s: string, sep: string): (pieces: seq<string>)
    requires |sep| > 0
    ensures |pieces| >= 1
    decreases |s|
  {
    if |s| < |sep| then [s]
    else if s[..|sep|] == sep then [[]] + Split(s[|sep|..], sep)
    else
      var tail := Split(s[1..], sep);
      [[s[0]] + tail[0]] + tail[1..]
  }

  /** The first piece of a split is a prefix of the text. */
  lemma {:induction false} FirstPieceIsPrefix(s: string, sep: string)
    requires |sep| > 0
    ensures Split(s, sep)[0] <= s
    decreases |s|
  {
    if |s| >= |sep| && s[..|sep|] != sep {
      FirstPieceIsPrefix(s[1..], sep);
      SplitSkips(s, sep);
      assert s == [s[0]] + s[1..];
    }
  }

  /** `strings.Join(pieces, sep)`. */
  function Join(pieces: seq<string>, sep: string): string
  {
    if |pieces| == 0 then []
    else if |pieces| == 1 then pieces[0]
    else pieces[0] + sep + Join(pieces[1..], sep)
  }

  /** Prepending a character to the first piece prepends it to the joined text. */
  lemma JoinConsFirst(c: char, pieces: seq<string>, sep: string)
    requires |pieces| >= 1
    ensures Join([[c] + pieces[0]] + pieces[1..], sep) == [c] + Join(pieces, sep)
  {
  }

  /** An empty first piece puts the separator in front of the rest. */
  lemma JoinConsEmpty(pieces: seq<string>, sep: string)
    requires |pieces| >= 1
    ensures Join([[]] + pieces, sep) == sep + Join(pieces, sep)
  {
    assert ([[]] + pieces)[1..] == pieces;
  }

  /** Joining the pieces of a split with the separator gives back the text. */
  lemma {:induction false} SplitJoinRoundTrip(s: string, sep: string)
    requires |sep| > 0
    ensures Join(Split(s, sep), sep) == s
    decreases |s|
  {
    if |s| < |sep| {
    } else if s[..|sep|] == sep {
      var rest := s[|sep|..];
      SplitJoinRoundTrip(rest, sep);
      JoinConsEmpty(Split(rest, sep), sep);
      assert s == sep + rest;
    } else {
      var rest := s[1..];
      SplitJoinRoundTrip(rest, sep);
      JoinConsFirst(s[0], Split(rest, sep), sep);
      assert s == [s[0]] + rest;
    }
  }

  /** `ReplaceNonEmpty` glues the pieces of the split with the replacement. */
  lemma {:induction false} NonEmptyIsJoinOfSplit(s: string, pat: string, rep: string)
    requires |pat| > 0
    ensures ReplaceNonEmpty(s, pat, rep) == Join(Split(s, pat), rep)
    decreases |s|
  {
    if |s| < |pat| {
    } else if s[..|pat|] == pat {
      NonEmptyIsJoinOfSplit(s[|pat|..], pat, rep);
      JoinConsEmpty(Split(s[|pat|..], pat), rep);
    } else {
      NonEmptyIsJoinOfSplit(s[1..], pat, rep);
      JoinConsFirst(s[0], Split(s[1..], pat), rep);
    }
  }

  /** ReplaceAll is Join of Split: the same pieces glued with the replacement. */
  lemma ReplaceAllIsJoinOfSplit(s: string, pat: string, rep: string)
    requires |pat| > 0
    ensures ReplaceAll(s, pat, rep) == Join(Split(s, pat), rep)
  {
    NonEmptyIsJoinOfSplit(s, pat, rep);
  }

  /**
    A character followed by a pattern-free text is pattern-free when the pattern
    does not start the text it is a prefix of.
  */
  lemma ConsKeepsFree(c: char, t: string, s: string, pat: string)
    requires |pat| > 0 && |s| >= |pat| && s[..|pat|] != pat
    requires [c] + t <= s
    requires !Contains(t, pat)
    ensures !Contains([c] + t, pat)
  {
    var first := [c] + t;
    if Contains(first, pat) {
      var i :| 0 <= i <= |first| && OccursAt(first, pat, i);
      if i > 0 {
        assert first[i..i + |pat|] == t[i - 1..i - 1 + |pat|];
        assert OccursAt(t, pat, i - 1);
      }
    }
  }

  /** No piece of a split contains the separator: every occurrence was cut out. */
  lemma {:induction false} SplitPiecesAreFree(s: string, sep: string)
    requires |sep| > 0
    ensures forall k :: 0 <= k < |Split(s, sep)| ==> !Contains(Split(s, sep)[k], sep)
    decreases |s|
  {
    var pieces := Split(s, sep);
    if |s| < |sep| {
    } else if s[..|sep|] == sep {
      SplitPiecesAreFree(s[|sep|..], sep);
      var tail := Split(s[|sep|..], sep);
      forall k | 0 <= k < |pieces|
        ensures !Contains(pieces[k], sep)
      {
        if k > 0 {
          assert pieces[k] == tail[k - 1];
        }
      }
    } else {
      SplitPiecesAreFree(s[1..], sep);
      var tail := Split(s[1..], sep);
      forall k | 0 <= k < |pieces|
        ensures !Contains(pieces[k], sep)
      {
        if k == 0 {
          FirstPieceIsPrefix(s[1..], sep);
          assert s == [s[0]] + s[1..];
          ConsKeepsFree(s[0], tail[0], s, sep);
        } else {
          assert pieces[k] == tail[k];
        }
      }
    }
  }

  /**
    The first cut is at the leftmost occurrence: no occurrence of the separator
    starts inside the first piece.
  */
  lemma {:induction false} SplitCutsAtLeftmostOccurrence(s: string, sep: string)
    requires |sep| > 0
    ensures forall i :: 0 <= i < |Split(s, sep)[0]| ==> !OccursAt(s, sep, i)
    decreases |s|
  {
    if |s| >= |sep| && s[..|sep|] != sep {
      SplitCutsAtLeftmostOccurrence(s[1..], sep);
      var first := Split(s, sep)[0];
      forall i | 1 <= i < |first|
        ensures !OccursAt(s, sep, i)
      {
        if OccursAt(s, sep, i) {
          OccursInTail(s, sep, i);
        }
      }
    }
  }

  /**
    Every later cut is leftmost too: a text split into one piece holds no
    occurrence, and otherwise the first piece ends at an occurrence and the
    remaining pieces are the split of what follows it.
  */
  lemma SplitAfterFirstCut(s: string, sep: string)
    requires |sep| > 0
    ensures |Split(s, sep)| == 1 ==> !Contains(s, sep)
    ensures |Split(s, sep)| > 1 ==>
      OccursAt(s, sep, |Split(s, sep)[0]|) && Split(s, sep)[1..] == Split(s[|Split(s, sep)[0]| + |sep|..], sep)
  {
    LaterCutsFollowFirst(s, sep);
    if |Split(s, sep)| == 1 {
      SplitJoinRoundTrip(s, sep);
      SplitPiecesAreFree(s, sep);
    }
  }

  /** The induction behind `SplitAfterFirstCut` for a split into several pieces. */
  lemma {:induction false} LaterCutsFollowFirst(s: string, sep: string)
    requires |sep| > 0
    ensures |Split(s, sep)| > 1 ==>
      OccursAt(s, sep, |Split(s, sep)[0]|) && Split(s, sep)[1..] == Split(s[|Split(s, sep)[0]| + |sep|..], sep)
    decreases |s|
  {
    if |s| < |sep| {
    } else if s[..|sep|] == sep {
      PrefixCutStep(s, sep);
    } else {
      LaterCutsFollowFirst(s[1..], sep);
      SplitSkips(s, sep);
      if |Split(s[1..], sep)| > 1 {
        SkipCutOccurs(s, sep);
        SkipCutRest(s, sep, |Split(s[1..], sep)[0]| + |sep|);
      }
    }
  }

  /**
    The occurrence half of `LaterCutsFollowFirst` when the text does not start
    with the separator and its rest is cut: the first cut is that same occurrence.
  */
  lemma SkipCutOccurs(s: string, sep: string)
    requires 0 < |sep| && 0 < |s| && |Split(s[1..], sep)| > 1
    requires Split(s, sep) == [[s[0]] + Split(s[1..], sep)[0]] + Split(s[1..], sep)[1..]
    requires OccursAt(s[1..], sep, |Split(s[1..], sep)[0]|)
    ensures OccursAt(s, sep, |Split(s, sep)[0]|)
  {
    OccursInSuffix(s, sep, 1, |Split(s[1..], sep)[0]|);
  }

  /**
    The remaining-pieces half of the same case: the text and its rest share
    every piece after the first.
  */
  lemma SkipCutRest(s: string, sep: string, k: nat)
    requires 0 < |sep| && 0 < |s| && |Split(s[1..], sep)| > 1
    requires k == |Split(s[1..], sep)[0]| + |sep| <= |s| - 1
    requires Split(s, sep) == [[s[0]] + Split(s[1..], sep)[0]] + Split(s[1..], sep)[1..]
    requires Split(s[1..], sep)[1..] == Split(s[1..][k..], sep)
    ensures Split(s, sep)[1..] == Split(s[|Split(s, sep)[0]| + |sep|..], sep)
  {
    assert s[1..][k..] == s[k + 1..];
  }

  /** The case of `LaterCutsFollowFirst` where the text starts with the separator: the first piece is empty. */
  lemma PrefixCutStep(s: string, sep: string)
    requires 0 < |sep| <= |s| && s[..|sep|] == sep
    ensures |Split(s, sep)| > 1 && |Split(s, sep)[0]| == 0
    ensures OccursAt(s, sep, 0) && Split(s, sep)[1..] == Split(s[|sep|..], sep)
  {
    assert Split(s, sep) == [[]] + Split(s[|sep|..], sep);
    assert ([[]] + Split(s[|sep|..], sep))[1..] == Split(s[|sep|..], sep);
  }

  /** Unfolding `Split` past a character that does not start the separator. */
  lemma SplitSkips(s: string, sep: string)
    requires 0 < |sep| <= |s| && s[..|sep|] != sep
    ensures Split(s, sep) == [[s[0]] + Split(s[1..], sep)[0]] + Split(s[1..], sep)[1..]
  {
  }

  /** No occurrence of `pat` in `a + c` starts inside `a` and ends inside `c`. */
  predicate NoStraddle(a: string, c: string, pat: string)
  {
    forall i :: 0 <= i < |a| < i + |pat| ==> !OccursAt(a + c, pat, i)
  }

  /** Dropping a prefix of the left text keeps the boundary free of straddling occurrences. */
  lemma NoStraddleAfterDrop(a: string, c: string, pat: string, k: nat)
    requires k <= |a|
    requires NoStraddle(a, c, pat)
    ensures NoStraddle(a[k..], c, pat)
  {
    var s := a + c;
    assert a[k..] + c == s[k..];
    forall i | 0 <= i < |a[k..]| < i + |pat|
      ensures !OccursAt(a[k..] + c, pat, i)
    {
      if OccursAt(s[k..], pat, i) {
        OccursInSuffix(s, pat, k, i);
      }
    }
  }

  /** The step of `NonEmptySplitsAtBoundary` when `a` starts with the pattern. */
  lemma BoundaryStepAtMatch(a: string, c: string, pat: string, rep: string)
    requires 0 < |pat| <= |a| && a[..|pat|] == pat
    requires ReplaceNonEmpty(a[|pat|..] + c, pat, rep) == ReplaceNonEmpty(a[|pat|..], pat, rep) + ReplaceNonEmpty(c, pat, rep)
    ensures ReplaceNonEmpty(a + c, pat, rep) == ReplaceNonEmpty(a, pat, rep) + ReplaceNonEmpty(c, pat, rep)
  {
    var s := a + c;
    assert s[..|pat|] == pat;
    assert s[|pat|..] == a[|pat|..] + c;
    ReplaceNonEmptyMatches(s, pat, rep);
    ReplaceNonEmptyMatches(a, pat, rep);
  }

  /** Unfolding `ReplaceNonEmpty` at an occurrence of the pattern. */
  lemma ReplaceNonEmptyMatches(s: string, pat: string, rep: string)
    requires 0 < |pat| <= |s| && s[..|pat|] == pat
    ensures ReplaceNonEmpty(s, pat, rep) == rep + ReplaceNonEmpty(s[|pat|..], pat, rep)
  {
  }

  /** Unfolding `ReplaceNonEmpty` past a character that does not start the pattern. */
  lemma ReplaceNonEmptySkips(s: string, pat: string, rep: string)
    requires 0 < |pat| <= |s| && s[..|pat|] != pat
    ensures ReplaceNonEmpty(s, pat, rep) == [s[0]] + ReplaceNonEmpty(s[1..], pat, rep)
  {
  }

  /** The step of `NonEmptySplitsAtBoundary` when `a + c` does not start with the pattern. */
  lemma BoundaryStepPastCharacter(a: string, c: string, pat: string, rep: string)
    requires 0 < |pat| <= |a + c| && 0 < |a| && (a + c)[..|pat|] != pat
    requires ReplaceNonEmpty(a[1..] + c, pat, rep) == ReplaceNonEmpty(a[1..], pat, rep) + ReplaceNonEmpty(c, pat, rep)
    ensures ReplaceNonEmpty(a + c, pat, rep) == ReplaceNonEmpty(a, pat, rep) + ReplaceNonEmpty(c, pat, rep)
  {
    var s := a + c;
    assert s[1..] == a[1..] + c;
    assert s[0] == a[0];
    ReplaceNonEmptySkips(s, pat, rep);
    if |a| >= |pat| {
      assert a[..|pat|] == s[..|pat|];
    }
    FirstCharacterIsKept(a, pat, rep);
  }

  /** Outside a match, the first character of a text is kept and the rest is rewritten. */
  lemma FirstCharacterIsKept(a: string, pat: string, rep: string)
    requires 0 < |pat| && 0 < |a| && (|a| >= |pat| ==> a[..|pat|] != pat)
    ensures ReplaceNonEmpty(a, pat, rep) == [a[0]] + ReplaceNonEmpty(a[1..], pat, rep)
  {
    if |a| >= |pat| {
      ReplaceNonEmptySkips(a, pat, rep);
    } else {
      ReplaceNonEmptyShort(a, pat, rep);
      ReplaceNonEmptyShort(a[1..], pat, rep);
      assert a == [a[0]] + a[1..];
    }
  }

  /** A text shorter than the pattern is left as it is. */
  lemma ReplaceNonEmptyShort(s: string, pat: string, rep: string)
    requires |s| < |pat|
    ensures ReplaceNonEmpty(s, pat, rep) == s
  {
  }

  lemma {:induction false} NonEmptySplitsAtBoundary(a: string, c: string, pat: string, rep: string)
    requires |pat| > 0
    requires NoStraddle(a, c, pat)
    ensures ReplaceNonEmpty(a + c, pat, rep) == ReplaceNonEmpty(a, pat, rep) + ReplaceNonEmpty(c, pat, rep)
    decreases |a|
  {
    var s := a + c;
    if |a| == 0 {
      assert s == c;
    } else if |s| < |pat| {
    } else if s[..|pat|] == pat {
      assert OccursAt(s, pat, 0);
      assert a[..|pat|] == pat;
      NoStraddleAfterDrop(a, c, pat, |pat|);
      NonEmptySplitsAtBoundary(a[|pat|..], c, pat, rep);
      BoundaryStepAtMatch(a, c, pat, rep);
    } else {
      NoStraddleAfterDrop(a, c, pat, 1);
      NonEmptySplitsAtBoundary(a[1..], c, pat, rep);
      BoundaryStepPastCharacter(a, c, pat, rep);
    }
  }

  /**
    Replacement is local: when no occurrence straddles the boundary between `a`
    and `c`, each side is rewritten on its own.
  */
  lemma ReplaceSplitsAtBoundary(a: string, c: string, pat: string, rep: string)
    requires |pat| > 0
    requires NoStraddle(a, c, pat)
    ensures ReplaceAll(a + c, pat, rep) == ReplaceAll(a, pat, rep) + ReplaceAll(c, pat, rep)
  {
    NonEmptySplitsAtBoundary(a, c, pat, rep);
  }
}
