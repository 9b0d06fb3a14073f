/** The first and last pieces of Python's `str.split`, and where they sit in the text. */
module SplitPieces {
  import opened PyStr

  /** Python's `s.split(sep)[-1]`. */
  function LastPiece(s: string, sep: string): string
    requires sep != []
  {
    Last(Split(s, sep))
  }

  /** The last piece of a split does not contain the separator. */
  lemma LastPieceFree(s: string, sep: string)
    requires sep != []
    ensures !Contains(LastPiece(s, sep), sep)
  {
    SplitPiecesFree(s, sep);
  }

  /** Past the first separator, the last piece is that of the rest. */
  lemma LastPieceStep(s: string, sep: string, k: int)
    requires sep != [] && Contains(s, sep) && k == Find(s, sep).value + |sep|
    ensures LastPiece(s, sep) == LastPiece(s[k..], sep)
  {
    SplitStep(s, sep);
    LastOfCons(s[..Find(s, sep).value], Split(s[k..], sep));
  }

  /** The last element of a non-empty sequence. */
  function Last<T>(xs: seq<T>): T
    requires |xs| >= 1
  {
    xs[|xs| - 1]
  }

  /** Putting an element in front leaves the last element alone. */
  lemma LastOfCons<T>(x: T, rest: seq<T>)
    requires |rest| >= 1
    ensures Last([x] + rest) == Last(rest)
  {
  }

  /** `last` ends `s` and directly follows an occurrence of `sep`. */
  predicate EndsAfter(s: string, sep: string, last: string) {
    |last| + |sep| <= |s| && OccursAt(s, sep, |s| - |last| - |sep|) && s[|s| - |last|..] == last
  }

  /** What ends a suffix of `s` after a separator also ends `s` after it. */
  lemma ShiftLast(s: string, sep: string, k: nat, last: string)
    requires k <= |s| && EndsAfter(s[k..], sep, last)
    ensures EndsAfter(s, sep, last)
  {
    var t := s[k..];
    OccursShift(s, sep, k, |t| - |last| - |sep|);
    assert t[|t| - |last|..] == s[|s| - |last|..];
  }

  /** The last piece of a split is the text after an occurrence of the separator. */
  lemma {:induction false} LastPieceAfterSeparator(s: string, sep: string)
    requires sep != [] && Contains(s, sep)
    ensures EndsAfter(s, sep, LastPiece(s, sep))
    decreases |s|
  {
    var k := Find(s, sep).value + |sep|;
    if Contains(s[k..], sep) {
      LastPieceAfterSeparator(s[k..], sep);
      LastPieceAfterLaterSeparator(s, sep, k);
    } else {
      LastPieceAfterOnlySeparator(s, sep, k);
    }
  }

  /** When the separator occurs again past its first occurrence, the rest's last piece ends `s` too. */
  lemma LastPieceAfterLaterSeparator(s: string, sep: string, k: int)
    requires sep != [] && Contains(s, sep) && k == Find(s, sep).value + |sep|
    requires Contains(s[k..], sep) && EndsAfter(s[k..], sep, LastPiece(s[k..], sep))
    ensures EndsAfter(s, sep, LastPiece(s, sep))
  {
    LastPieceStep(s, sep, k);
    ShiftLast(s, sep, k, LastPiece(s[k..], sep));
  }

  /** When the separator occurs once, the last piece is what follows it. */
  lemma LastPieceAfterOnlySeparator(s: string, sep: string, k: int)
    requires sep != [] && Contains(s, sep) && k == Find(s, sep).value + |sep|
    requires !Contains(s[k..], sep)
    ensures EndsAfter(s, sep, LastPiece(s, sep))
  {
    LastPieceStep(s, sep, k);
    assert LastPiece(s[k..], sep) == s[k..];
  }

  /** The stripped last piece: free of the separator, and a substring of the text. */
  lemma StrippedLastPiece(s: string, sep: string)
    requires sep != [] && Contains(s, sep)
    ensures OccursAt(s, sep, |s| - |LastPiece(s, sep)| - |sep|)
    ensures s[|s| - |LastPiece(s, sep)|..] == LastPiece(s, sep)
    ensures !Contains(LastPiece(s, sep), sep)
    ensures !Contains(Strip(LastPiece(s, sep)), sep)
    ensures Contains(s, Strip(LastPiece(s, sep)))
  {
    LastPieceAfterSeparator(s, sep);
    LastPieceFree(s, sep);
    var last := LastPiece(s, sep);
    ContainsSlice(s, |s| - |last|, |s|);
    assert s[|s| - |last|..|s|] == last;
    StripContained(last);
    NotContainedInSubstring(last, Strip(last), sep);
    ContainsTransitive(s, last, Strip(last));
  }

  /** The last piece is what follows an occurrence of the separator beyond which it does not occur again. */
  lemma LastPieceAfterLastOccurrence(s: string, sep: string)
    requires sep != [] && Contains(s, sep)
    ensures exists i :: OccursAt(s, sep, i) && !Contains(s[i + |sep|..], sep) && LastPiece(s, sep) == s[i + |sep|..]
  {
    LastPieceAfterSeparator(s, sep);
    LastPieceFree(s, sep);
    var i := |s| - |LastPiece(s, sep)| - |sep|;
    assert s[i + |sep|..] == LastPiece(s, sep);
  }

  /** The first piece is the text before the first separator; stripped, it is free of the separator. */
  lemma StrippedFirstPiece(s: string, sep: string)
    requires sep != [] && Contains(s, sep)
    ensures Split(s, sep)[0] == s[..Find(s, sep).value]
    ensures !Contains(Strip(Split(s, sep)[0]), sep)
    ensures Contains(s, Strip(Split(s, sep)[0]))
  {
    var i := Find(s, sep).value;
    SplitStep(s, sep);
    var first := s[..i];
    BeforeFirstOccurrence(s, sep, i);
    StripContained(first);
    ContainsSlice(s, 0, i);
    assert s[0..i] == first;
    NotContainedInSubstring(first, Strip(first), sep);
    ContainsTransitive(s, first, Strip(first));
  }
}
