/**
  The Python `str` built-ins the service relies on, over `seq<char>`:
  `str.isspace` (the same class of characters the regular expression `\s`
  matches), `str.strip()`, the `in` operator and `str.find`, and
  `str.split(sep)` with an explicit, non-empty separator.
 */
module PyStr {
  import opened Wrappers

  /** Python's `str.isspace()` for one character. */
  predicate IsSpace(c: char) {
    || c == ' '
    || ('\t' <= c <= '\r')
    || ('\U{1C}' <= c <= '\U{1F}')
    || c == '\U{85}' || c == '\U{A0}' || c == '\U{1680}'
    || ('\U{2000}' <= c <= '\U{200A}')
    || c == '\U{2028}' || c == '\U{2029}' || c == '\U{202F}'
    || c == '\U{205F}' || c == '\U{3000}'
  }

  predicate AllSpace(s: string) {
    forall i :: 0 <= i < |s| ==> IsSpace(s[i])
  }

  /** `s.lstrip()`: the suffix left after dropping the leading whitespace. */
  function StripLeft(s: string): (r: string)
    ensures |r| <= |s| && r == s[|s| - |r|..]
    ensures AllSpace(s[..|s| - |r|])
    ensures r != [] ==> !IsSpace(r[0])
    decreases |s|
  {
    if s != [] && IsSpace(s[0]) then
      var r := StripLeft(s[1..]);
      LeftStep(s, s[1..], r);
      r
    else s
  }

  /** Dropping one leading space keeps the `lstrip` facts of the rest. */
  lemma LeftStep(s: string, t: string, r: string)
    requires s != [] && IsSpace(s[0]) && t == s[1..]
    requires |r| <= |t| && r == t[|t| - |r|..] && AllSpace(t[..|t| - |r|])
    ensures |r| <= |s| && r == s[|s| - |r|..] && AllSpace(s[..|s| - |r|])
  {
    var n := |s| - |r|;
    assert t[|t| - |r|..] == s[n..];
    assert s[..n] == [s[0]] + t[..n - 1];
  }

  /** `s.rstrip()`: the prefix left after dropping the trailing whitespace. */
  function StripRight(s: string): (r: string)
    ensures |r| <= |s| && r == s[..|r|]
    ensures AllSpace(s[|r|..])
    ensures r != [] ==> !IsSpace(r[|r| - 1])
    decreases |s|
  {
    if s != [] && IsSpace(s[|s| - 1]) then
      var r := StripRight(s[..|s| - 1]);
      RightStep(s, s[..|s| - 1], r);
      r
    else s
  }

  /** Dropping one trailing space keeps the `rstrip` facts of the rest. */
  lemma RightStep(s: string, t: string, r: string)
    requires s != [] && IsSpace(s[|s| - 1]) && t == s[..|s| - 1]
    requires |r| <= |t| && r == t[..|r|] && AllSpace(t[|r|..])
    ensures |r| <= |s| && r == s[..|r|] && AllSpace(s[|r|..])
  {
    assert t[..|r|] == s[..|r|];
    assert s[|r|..] == t[|r|..] + [s[|s| - 1]];
  }

  /** `r` sits at index `i` of `s` with only whitespace before and after it. */
  ghost predicate StripAt(r: string, s: string, i: int) {
    0 <= i <= |s| - |r| && s[i..i + |r|] == r && AllSpace(s[..i]) && AllSpace(s[i + |r|..])
  }

  /**
    `r` is `s` with its leading and trailing whitespace removed: an infix of
    `s` that neither starts nor ends with whitespace and has only whitespace
    around it.
   */
  ghost predicate IsStripOf(r: string, s: string) {
    && (r != [] ==> !IsSpace(r[0]) && !IsSpace(r[|r| - 1]))
    && exists i :: StripAt(r, s, i)
  }

  /** Python's `s.strip()`. */
  function Strip(s: string): (r: string)
    ensures |r| <= |s|
    ensures IsStripOf(r, s)
  {
    var l := StripLeft(s);
    var r := StripRight(l);
    StripOfParts(s, l, r);
    r
  }

  /** Stripping the right of what stripping the left leaves strips both ends. */
  lemma StripOfParts(s: string, l: string, r: string)
    requires |l| <= |s| && l == s[|s| - |l|..] && AllSpace(s[..|s| - |l|])
    requires l != [] ==> !IsSpace(l[0])
    requires |r| <= |l| && r == l[..|r|] && AllSpace(l[|r|..])
    requires r != [] ==> !IsSpace(r[|r| - 1])
    ensures IsStripOf(r, s)
  {
    var i := |s| - |l|;
    assert s[i..i + |r|] == r;
    assert s[i + |r|..] == l[|r|..];
    assert StripAt(r, s, i);
    if r != [] {
      assert r[0] == l[0];
    }
  }

  lemma StripAtChars(r: string, s: string, i: int)
    requires StripAt(r, s, i)
    ensures forall p :: 0 <= p < i ==> IsSpace(s[p])
    ensures forall p :: i + |r| <= p < |s| ==> IsSpace(s[p])
    ensures forall p :: i <= p < i + |r| ==> s[p] == r[p - i]
  {
    forall p | 0 <= p < i ensures IsSpace(s[p]) {
      assert s[..i][p] == s[p];
    }
    forall p | i + |r| <= p < |s| ensures IsSpace(s[p]) {
      assert s[i + |r|..][p - i - |r|] == s[p];
    }
    forall p | i <= p < i + |r| ensures s[p] == r[p - i] {
      assert s[i..i + |r|][p - i] == s[p];
    }
  }

  /** There is only one way to strip a string, so `IsStripOf` pins `Strip` down. */
  lemma StripUnique(r1: string, r2: string, s: string)
    requires IsStripOf(r1, s) && IsStripOf(r2, s)
    ensures r1 == r2
  {
    var i1 :| StripAt(r1, s, i1);
    var i2 :| StripAt(r2, s, i2);
    StripAtChars(r1, s, i1);
    StripAtChars(r2, s, i2);
    StripAtEmpty(r1, s, i1);
    StripAtEmpty(r2, s, i2);
    if r1 != [] {
      assert !IsSpace(s[i1]) && !IsSpace(s[i2]);
      assert i1 <= i2 && i2 <= i1;
      assert !IsSpace(s[i1 + |r1| - 1]) && !IsSpace(s[i2 + |r2| - 1]);
      assert |r1| <= |r2| && |r2| <= |r1|;
      forall p | 0 <= p < |r1| ensures r1[p] == r2[p] {
        assert r1[p] == s[i1 + p] == r2[p];
      }
    }
  }

  /** A strip is empty exactly when the string is all whitespace. */
  lemma StripAtEmpty(r: string, s: string, i: int)
    requires StripAt(r, s, i) && (r != [] ==> !IsSpace(r[0]))
    ensures r == [] <==> AllSpace(s)
  {
    StripAtChars(r, s, i);
    if r != [] {
      assert !IsSpace(s[i]);
    } else {
      forall p | 0 <= p < |s| ensures IsSpace(s[p]) {
        assert p < i || i + |r| <= p;
      }
    }
  }

  /** Stripping a string that has no whitespace at either end changes nothing. */
  lemma StripNoop(s: string)
    requires s != [] ==> !IsSpace(s[0]) && !IsSpace(s[|s| - 1])
    ensures Strip(s) == s
  {
  }

  /** `t` occurs in `s` starting at index `i`. */
  predicate OccursAt(s: string, t: string, i: int) {
    0 <= i <= |s| - |t| && s[i..i + |t|] == t
  }

  function FindFrom(s: string, t: string, from: nat): (r: Option<nat>)
    requires from <= |s|
    ensures r.Some? ==> from <= r.value && OccursAt(s, t, r.value)
    ensures r.Some? ==> forall j :: from <= j < r.value ==> !OccursAt(s, t, j)
    ensures r.None? ==> forall j :: from <= j ==> !OccursAt(s, t, j)
    decreases |s| - from
  {
    if OccursAt(s, t, from) then Some(from)
    else if from == |s| then None
    else FindFrom(s, t, from + 1)
  }

  /** Python's `s.find(t)`, with `None` for -1: the first index at which `t` occurs. */
  function Find(s: string, t: string): (r: Option<nat>)
    ensures r.Some? ==> OccursAt(s, t, r.value) && forall j :: 0 <= j < r.value ==> !OccursAt(s, t, j)
    ensures r.None? ==> forall j :: !OccursAt(s, t, j)
  {
    FindFrom(s, t, 0)
  }

  /** Python's `t in s`. */
  predicate Contains(s: string, t: string) {
    Find(s, t).Some?
  }

  /** An occurrence anywhere makes `t in s` true. */
  lemma ContainsAt(s: string, t: string, i: int)
    requires OccursAt(s, t, i)
    ensures Contains(s, t)
  {
  }

  /** Being a substring is transitive. */
  lemma ContainsTransitive(a: string, b: string, c: string)
    requires Contains(a, b) && Contains(b, c)
    ensures Contains(a, c)
  {
    var i := Find(a, b).value;
    var j := Find(b, c).value;
    forall k | 0 <= k < |c|
      ensures a[i + j + k] == c[k]
    {
      assert c[k] == b[j..j + |c|][k] == b[j + k];
      assert b[j + k] == a[i..i + |b|][j + k];
    }
    assert a[i + j..i + j + |c|] == c;
    ContainsAt(a, c, i + j);
  }

  /** The stripped string is a substring of the original. */
  lemma StripContained(s: string)
    ensures Contains(s, Strip(s))
  {
    var r := Strip(s);
    var i :| StripAt(r, s, i);
    ContainsAt(s, r, i);
  }

  /** A string is a substring of itself, and so is each of its slices. */
  lemma ContainsSlice(s: string, i: nat, j: nat)
    requires i <= j <= |s|
    ensures Contains(s, s[i..j])
  {
    ContainsAt(s, s[i..j], i);
  }

  /** Every string contains itself. */
  lemma ContainsSelf(s: string)
    ensures Contains(s, s)
  {
    ContainsAt(s, s, 0);
  }

  /** A string without `t` has no substring containing `t`. */
  lemma NotContainedInSubstring(s: string, r: string, t: string)
    requires Contains(s, r) && !Contains(s, t)
    ensures !Contains(r, t)
  {
    if Contains(r, t) {
      ContainsTransitive(s, r, t);
    }
  }

  /** Python's `sep.join(parts)`. */
  function Join(parts: seq<string>, sep: string): string
    requires |parts| >= 1
  {
    if |parts| == 1 then parts[0] else parts[0] + sep + Join(parts[1..], sep)
  }

  /** The text before the first occurrence of a separator does not contain it. */
  lemma BeforeFirstOccurrence(s: string, sep: string, i: nat)
    requires sep != []
    requires Find(s, sep) == Some(i)
    ensures !Contains(s[..i], sep)
  {
    if Contains(s[..i], sep) {
      var j := Find(s[..i], sep).value;
      assert s[j..j + |sep|] == s[..i][j..j + |sep|];
      assert OccursAt(s, sep, j);
    }
  }

  /**
    Python's `s.split(sep)`: the pieces between the non-overlapping occurrences
    of `sep`, found left to right. No piece contains `sep`, and joining the
    pieces with `sep` gives `s` back.
   */
  function Split(s: string, sep: string): (parts: seq<string>)
    requires sep != []
    ensures |parts| >= 1
    ensures |parts| == 1 <==> !Contains(s, sep)
    decreases |s|
  {
    var f := Find(s, sep);
    if f.None? then [s]
    else
      var i := f.value;
      [s[..i]] + Split(s[i + |sep|..], sep)
  }

  /** No piece of a split contains the separator. */
  lemma {:induction false} SplitPiecesFree(s: string, sep: string)
    requires sep != []
    ensures forall k :: 0 <= k < |Split(s, sep)| ==> !Contains(Split(s, sep)[k], sep)
    decreases |s|
  {
    if Contains(s, sep) {
      var i := Find(s, sep).value;
      SplitStep(s, sep);
      BeforeFirstOccurrence(s, sep, i);
      SplitPiecesFree(s[i + |sep|..], sep);
    }
  }

  /** Joining the pieces of a split with the same separator gives the text back. */
  lemma {:induction false} SplitJoin(s: string, sep: string)
    requires sep != []
    ensures Join(Split(s, sep), sep) == s
    decreases |s|
  {
    if Contains(s, sep) {
      var i := Find(s, sep).value;
      SplitStep(s, sep);
      SplitJoin(s[i + |sep|..], sep);
      SplitAround(s, sep, i);
    }
  }

  lemma SplitAround(s: string, sep: string, i: nat)
    requires OccursAt(s, sep, i)
    ensures s == s[..i] + sep + s[i + |sep|..]
  {
    assert s[i..i + |sep|] == sep;
  }

  /** One step of a split: the text before the first separator, then the split of the rest. */
  lemma SplitStep(s: string, sep: string)
    requires sep != [] && Contains(s, sep)
    ensures Split(s, sep) == [s[..Find(s, sep).value]] + Split(s[Find(s, sep).value + |sep|..], sep)
  {
  }

  /** An occurrence in a suffix is an occurrence in the whole string. */
  lemma OccursShift(s: string, t: string, k: nat, j: int)
    requires k <= |s| && OccursAt(s[k..], t, j)
    ensures OccursAt(s, t, k + j)
  {
    assert s[k..][j..j + |t|] == s[k + j..k + j + |t|];
  }
}
