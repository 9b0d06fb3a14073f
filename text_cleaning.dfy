/**
  The free-text cleaner `clean_text`: lower-case, turn every character
  outside `[a-z0-9áéíóúãõç ]` into a space, collapse each run of whitespace
  into one space, and strip the ends.
 */
module TextCleaning {
  import opened PyStr
  import opened Seqs

  const Accented: string := "áéíóúãõç"

  /** Membership in the character class `[a-z0-9áéíóúãõç ]`. */
  predicate Allowed(c: char) {
    ('a' <= c <= 'z') || ('0' <= c <= '9') || c in Accented || c == ' '
  }

  /**
    `str.lower()` on one character, for the capitals whose lower-case form is
    one character and can matter here: ASCII, Latin-1 and the Kelvin sign.
    Characters of the class are already lower-case.
   */
  function Lower(c: char): (r: char)
    ensures Allowed(c) ==> r == c
    ensures 'A' <= c <= 'Z' ==> r as int == c as int + 32
    ensures '\U{C0}' <= c <= '\U{DE}' && c != '\U{D7}' ==> r as int == c as int + 32
    ensures c == '\U{212A}' ==> r == 'k'
  {
    if ('A' <= c <= 'Z') || ('\U{C0}' <= c <= '\U{DE}' && c != '\U{D7}') then (c as int + 32) as char
    else if c == '\U{212A}' then 'k'
    else c
  }

  /** The replacement of `re.sub(r"[^a-z0-9áéíóúãõç ]", " ", ...)` for one character. */
  function Blank(c: char): (r: char)
    ensures Allowed(r)
    ensures Allowed(c) ==> r == c
    ensures !Allowed(c) ==> r == ' '
  {
    if Allowed(c) then c else ' '
  }

  /** No two neighbouring characters are both whitespace. */
  predicate SingleSpaced(s: string) {
    forall i :: 0 <= i < |s| - 1 ==> !(IsSpace(s[i]) && IsSpace(s[i + 1]))
  }

  /**
    `re.sub(r"\s+", " ", s)`: every maximal run of whitespace becomes one
    space; everything else is kept in order.
   */
  function CollapseSpaces(s: string): (r: string)
    ensures |r| <= |s|
    ensures r == [] <==> s == []
    ensures r != [] ==> r[0] == (if IsSpace(s[0]) then ' ' else s[0])
    ensures forall i :: 0 <= i < |r| ==> r[i] == ' ' || (r[i] in s && !IsSpace(r[i]))
    ensures SingleSpaced(r)
    decreases |s|
  {
    if s == [] then []
    else if IsSpace(s[0]) then
      var t := StripLeft(s[1..]);
      assert t == s[1..][|s[1..]| - |t|..];
      var c := CollapseSpaces(t);
      CollapseAfterSpace(s, t, c);
      [' '] + c
    else
      var c := CollapseSpaces(s[1..]);
      CollapseAfterKept(s, c);
      [s[0]] + c
  }

  /** A run of whitespace at the front becomes one space before the collapsed rest. */
  lemma CollapseAfterSpace(s: string, t: string, c: string)
    requires s != [] && IsSpace(s[0])
    requires |t| < |s| && t == s[|s| - |t|..]
    requires t != [] ==> !IsSpace(t[0])
    requires |c| <= |t| && (c != [] ==> c[0] == t[0])
    requires forall i :: 0 <= i < |c| ==> c[i] == ' ' || (c[i] in t && !IsSpace(c[i]))
    requires SingleSpaced(c)
    ensures forall i :: 0 <= i < |[' '] + c| ==> ([' '] + c)[i] == ' ' || (([' '] + c)[i] in s && !IsSpace(([' '] + c)[i]))
    ensures SingleSpaced([' '] + c)
  {
    var r := [' '] + c;
    forall i | 0 <= i < |r| ensures r[i] == ' ' || (r[i] in s && !IsSpace(r[i])) {
      if i > 0 && r[i] != ' ' {
        assert r[i] == c[i - 1];
        var j :| 0 <= j < |t| && t[j] == c[i - 1];
        assert s[|s| - |t| + j] == t[j];
      }
    }
    forall i | 0 <= i < |r| - 1 ensures !(IsSpace(r[i]) && IsSpace(r[i + 1])) {
      if i == 0 {
        assert r[1] == c[0] == t[0];
      } else {
        assert r[i] == c[i - 1] && r[i + 1] == c[i];
      }
    }
  }

  /** A character that is not whitespace is kept before the collapsed rest. */
  lemma CollapseAfterKept(s: string, c: string)
    requires s != [] && !IsSpace(s[0])
    requires forall i :: 0 <= i < |c| ==> c[i] == ' ' || (c[i] in s[1..] && !IsSpace(c[i]))
    requires SingleSpaced(c)
    ensures forall i :: 0 <= i < |[s[0]] + c| ==> ([s[0]] + c)[i] == ' ' || (([s[0]] + c)[i] in s && !IsSpace(([s[0]] + c)[i]))
    ensures SingleSpaced([s[0]] + c)
  {
    var r := [s[0]] + c;
    forall i | 0 <= i < |r| ensures r[i] == ' ' || (r[i] in s && !IsSpace(r[i])) {
      if i > 0 && r[i] != ' ' {
        assert r[i] == c[i - 1];
        var j :| 0 <= j < |s[1..]| && s[1..][j] == c[i - 1];
        assert s[j + 1] == c[i - 1];
      }
    }
    forall i | 0 <= i < |r| - 1 ensures !(IsSpace(r[i]) && IsSpace(r[i + 1])) {
      if i > 0 {
        assert r[i] == c[i - 1] && r[i + 1] == c[i];
      }
    }
  }

  /** Leading whitespace before text that does not start with whitespace is what `lstrip` removes. */
  lemma {:induction false} StripLeftSpaces(w: string, v: string)
    requires AllSpace(w)
    requires v != [] ==> !IsSpace(v[0])
    ensures StripLeft(w + v) == v
    decreases |w|
  {
    if w == [] {
      assert w + v == v;
    } else {
      assert (w + v)[0] == w[0];
      assert (w + v)[1..] == w[1..] + v;
      StripLeftSpaces(w[1..], v);
    }
  }

  /** `lstrip` of text holding a non-whitespace character leaves whatever follows it in place. */
  lemma {:induction false} StripLeftAppend(a: string, b: string)
    requires StripLeft(a) != []
    ensures StripLeft(a + b) == StripLeft(a) + b
    decreases |a|
  {
    assert a != [];
    assert (a + b)[0] == a[0];
    if IsSpace(a[0]) {
      assert (a + b)[1..] == a[1..] + b;
      StripLeftAppend(a[1..], b);
    }
  }

  /**
    A maximal run of whitespace becomes exactly one space: with `w` all
    whitespace and neither `u` ending nor `v` starting with whitespace, the
    collapse of `u + w + v` is the collapse of `u`, one space, and the
    collapse of `v`.
   */
  lemma {:induction false} CollapseRun(u: string, w: string, v: string)
    requires w != [] && AllSpace(w)
    requires u != [] ==> !IsSpace(u[|u| - 1])
    requires v != [] ==> !IsSpace(v[0])
    ensures CollapseSpaces(u + w + v) == CollapseSpaces(u) + [' '] + CollapseSpaces(v)
    decreases |u|
  {
    if u == [] {
      CollapseRunFirst(u, w, v);
    } else if IsSpace(u[0]) {
      var t := StripLeft(u[1..]);
      StripLeftKeepsEnd(u);
      CollapseRun(t, w, v);
      CollapseRunAfterSpace(u, w, v, t);
    } else {
      if u[1..] != [] {
        assert u[1..][|u[1..]| - 1] == u[|u| - 1];
      }
      CollapseRun(u[1..], w, v);
      CollapseRunAfterKept(u, w, v);
    }
  }

  /** A run at the very front becomes one space. */
  lemma CollapseRunFirst(u: string, w: string, v: string)
    requires u == [] && w != [] && AllSpace(w)
    requires v != [] ==> !IsSpace(v[0])
    ensures CollapseSpaces(u + w + v) == CollapseSpaces(u) + [' '] + CollapseSpaces(v)
  {
    ConcatHead(w, v);
    CollapseSpaceHead(w + v);
    StripLeftSpaces(w[1..], v);
    EmptyFront(u, w, v);
    EmptyFront(CollapseSpaces(u), [' '], CollapseSpaces(v));
  }

  /** The definition of `CollapseSpaces` at a leading whitespace character. */
  lemma CollapseSpaceHead(s: string)
    requires s != [] && IsSpace(s[0])
    ensures CollapseSpaces(s) == [' '] + CollapseSpaces(StripLeft(s[1..]))
  {
  }

  /** The definition of `CollapseSpaces` at a leading character that is not whitespace. */
  lemma CollapseKeptHead(s: string)
    requires s != [] && !IsSpace(s[0])
    ensures CollapseSpaces(s) == [s[0]] + CollapseSpaces(s[1..])
  {
  }

  /** Text ending in a character that is not whitespace is not all whitespace. */
  lemma NotAllSpace(x: string)
    requires x != [] && !IsSpace(x[|x| - 1])
    ensures !AllSpace(x)
  {
  }

  /** Text ending in a non-whitespace character keeps that end, and is not emptied, by `lstrip` of its tail. */
  lemma StripLeftKeepsEnd(u: string)
    requires u != [] && IsSpace(u[0]) && !IsSpace(u[|u| - 1])
    ensures StripLeft(u[1..]) != [] && !IsSpace(StripLeft(u[1..])[|StripLeft(u[1..])| - 1])
  {
    var x := u[1..];
    var t := StripLeft(x);
    assert x[|x| - 1] == u[|u| - 1];
    NotAllSpace(x);
    assert x[..|x|] == x;
    assert t != [];
    assert t[|t| - 1] == x[|x| - 1];
  }

  /** The step of `CollapseRun` past a leading run of `u`. */
  lemma CollapseRunAfterSpace(u: string, w: string, v: string, t: string)
    requires u != [] && IsSpace(u[0]) && t == StripLeft(u[1..]) && t != []
    requires CollapseSpaces(t + w + v) == CollapseSpaces(t) + [' '] + CollapseSpaces(v)
    ensures CollapseSpaces(u + w + v) == CollapseSpaces(u) + [' '] + CollapseSpaces(v)
  {
    Concat3Head(u, w, v);
    CollapseSpaceHead(u + w + v);
    CollapseSpaceHead(u);
    ConcatAssoc(u[1..], w, v);
    StripLeftAppend(u[1..], w + v);
    ConcatAssoc(t, w, v);
    ConsAssoc(' ', CollapseSpaces(t), [' '], CollapseSpaces(v));
  }

  /** The step of `CollapseRun` past a leading non-whitespace character of `u`. */
  lemma CollapseRunAfterKept(u: string, w: string, v: string)
    requires u != [] && !IsSpace(u[0])
    requires CollapseSpaces(u[1..] + w + v) == CollapseSpaces(u[1..]) + [' '] + CollapseSpaces(v)
    ensures CollapseSpaces(u + w + v) == CollapseSpaces(u) + [' '] + CollapseSpaces(v)
  {
    Concat3Head(u, w, v);
    CollapseKeptHead(u + w + v);
    CollapseKeptHead(u);
    ConsAssoc(u[0], CollapseSpaces(u[1..]), [' '], CollapseSpaces(v));
  }

  /** On text that is already single-spaced with plain spaces, collapsing changes nothing. */
  lemma {:induction false} CollapseNoop(s: string)
    requires forall i :: 0 <= i < |s| && IsSpace(s[i]) ==> s[i] == ' '
    requires SingleSpaced(s)
    ensures CollapseSpaces(s) == s
    decreases |s|
  {
    if s != [] {
      var t := s[1..];
      assert SingleSpaced(t) by {
        forall i | 0 <= i < |t| - 1 ensures !(IsSpace(t[i]) && IsSpace(t[i + 1])) {
          assert t[i] == s[i + 1] && t[i + 1] == s[i + 2];
        }
      }
      CollapseNoop(t);
      if IsSpace(s[0]) {
        assert t != [] ==> !IsSpace(t[0]) by {
          if t != [] { assert t[0] == s[1]; }
        }
        assert StripLeft(t) == t;
      }
      assert s == [s[0]] + t;
    }
  }

  /**
    What `clean_text` promises of its output: only characters of the class,
    never two spaces in a row, and no space at either end.
   */
  ghost predicate IsClean(t: string) {
    && (forall i :: 0 <= i < |t| ==> Allowed(t[i]))
    && (forall i :: 0 <= i < |t| - 1 ==> !(t[i] == ' ' && t[i + 1] == ' '))
    && (t != [] ==> t[0] != ' ' && t[|t| - 1] != ' ')
  }

  /** The only whitespace character of the class is the space. */
  lemma AllowedSpace(c: char)
    requires Allowed(c) && IsSpace(c)
    ensures c == ' '
  {
  }

  /** `clean_text(text)`. */
  function CleanText(text: string): (r: string)
    ensures IsClean(r)
    ensures |r| <= |text|
  {
    var lowered := Map(text, Lower);
    var replaced := Map(lowered, Blank);
    var collapsed := CollapseSpaces(replaced);
    var r := Strip(collapsed);
    assert forall i :: 0 <= i < |collapsed| ==> Allowed(collapsed[i]) by {
      forall i | 0 <= i < |collapsed| ensures Allowed(collapsed[i]) {
        if collapsed[i] != ' ' {
          var j :| 0 <= j < |replaced| && replaced[j] == collapsed[i];
        }
      }
    }
    StripKeepsClean(collapsed);
    r
  }

  /** Stripping single-spaced text over the class gives clean text. */
  lemma StripKeepsClean(s: string)
    requires forall i :: 0 <= i < |s| ==> Allowed(s[i])
    requires SingleSpaced(s)
    ensures IsClean(Strip(s))
  {
    var r := Strip(s);
    var at :| StripAt(r, s, at);
    StripAtChars(r, s, at);
    forall i | 0 <= i < |r| ensures Allowed(r[i]) {
      assert r[i] == s[at + i];
    }
    forall i | 0 <= i < |r| - 1 ensures !(r[i] == ' ' && r[i + 1] == ' ') {
      assert r[i] == s[at + i] && r[i + 1] == s[at + i + 1];
    }
  }

  /** Collapsing and stripping leave clean text as it is. */
  lemma CollapseStripNoop(t: string)
    requires IsClean(t)
    ensures Strip(CollapseSpaces(t)) == t
  {
    forall i | 0 <= i < |t| && IsSpace(t[i]) ensures t[i] == ' ' {
      AllowedSpace(t[i]);
    }
    assert SingleSpaced(t);
    CollapseNoop(t);
    StripNoop(t);
  }

  /** Cleaning clean text changes nothing. */
  lemma CleanTextFixesClean(t: string)
    requires IsClean(t)
    ensures CleanText(t) == t
  {
    assert Map(t, Lower) == t;
    assert Map(t, Blank) == t;
    CollapseStripNoop(t);
  }

  /** Idempotence: `clean_text(clean_text(s)) == clean_text(s)`. */
  lemma CleanTextIdempotent(s: string)
    ensures CleanText(CleanText(s)) == CleanText(s)
  {
    CleanTextFixesClean(CleanText(s));
  }

  /**
    A character that is outside the class even after lower-casing becomes a
    space between the clean words on either side of it; it does not vanish.
   */
  lemma DisallowedSeparates(u: string, c: char, v: string)
    requires u != [] && v != [] && IsClean(u) && IsClean(v)
    requires !Allowed(Lower(c))
    ensures CleanText(u + [c] + v) == u + [' '] + v
  {
    var w := u + [' '] + v;
    BlankedWords(u, c, v);
    SpaceJoinsClean(u, v);
    CollapseStripNoop(w);
  }

  lemma BlankedWords(u: string, c: char, v: string)
    requires IsClean(u) && IsClean(v)
    requires !Allowed(Lower(c))
    ensures Map(Map(u + [c] + v, Lower), Blank) == u + [' '] + v
  {
    var s := u + [c] + v;
    var w := u + [' '] + v;
    var lowered := Map(s, Lower);
    forall i | 0 <= i < |s| ensures Blank(lowered[i]) == w[i] {
      if i < |u| {
        assert s[i] == u[i] && w[i] == u[i];
      } else if i > |u| {
        assert s[i] == v[i - |u| - 1] && w[i] == v[i - |u| - 1];
      }
    }
  }

  lemma SpaceJoinsClean(u: string, v: string)
    requires u != [] && v != [] && IsClean(u) && IsClean(v)
    ensures IsClean(u + [' '] + v)
  {
    var w := u + [' '] + v;
    forall i | 0 <= i < |w| - 1 ensures !(w[i] == ' ' && w[i + 1] == ' ') {
      if i + 1 < |u| {
        assert w[i] == u[i] && w[i + 1] == u[i + 1];
      } else if i > |u| {
        assert w[i] == v[i - |u| - 1] && w[i + 1] == v[i - |u|];
      } else if i == |u| {
        assert w[i + 1] == v[0];
      } else {
        assert w[i] == u[|u| - 1];
      }
    }
    assert w[|w| - 1] == v[|v| - 1];
    forall i | 0 <= i < |w| ensures Allowed(w[i]) {
      if i < |u| {
        assert w[i] == u[i];
      } else if i > |u| {
        assert w[i] == v[i - |u| - 1];
      }
    }
  }

  /** `clean_text("a-b")` is `"a b"`: the hyphen becomes a space, it does not vanish. */
  lemma HyphenBecomesSpace()
    ensures CleanText("a-b") == "a b"
  {
    assert "a-b" == "a" + ['-'] + "b";
    assert "a b" == "a" + [' '] + "b";
    DisallowedSeparates("a", '-', "b");
  }
}
