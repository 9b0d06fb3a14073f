/**
  Sequence operations behind the Python comprehensions and filters of the
  service: mapping, filtering by a predicate, keeping the non-`None` values,
  and the left-to-right layout of an f-string template.
 */
module Seqs {
  import opened Wrappers

  /** `[f(x) for x in s]`. */
  function Map<T, U>(s: seq<T>, f: T -> U): (r: seq<U>)
    ensures |r| == |s|
    ensures forall i :: 0 <= i < |s| ==> r[i] == f(s[i])
  {
    if s == [] then [] else [f(s[0])] + Map(s[1..], f)
  }

  lemma {:induction false} MapAppend<T, U>(a: seq<T>, b: seq<T>, f: T -> U)
    ensures Map(a + b, f) == Map(a, f) + Map(b, f)
  {
    if a == [] {
      assert a + b == b;
    } else {
      assert (a + b)[1..] == a[1..] + b;
      MapAppend(a[1..], b, f);
    }
  }

  /** The head and the tail of a concatenation whose first part is not empty. */
  lemma ConcatHead<T>(u: seq<T>, x: seq<T>)
    requires u != []
    ensures (u + x)[0] == u[0] && (u + x)[1..] == u[1..] + x
  {
  }

  /** The head and the tail of a three-part concatenation whose first part is not empty. */
  lemma Concat3Head<T>(u: seq<T>, w: seq<T>, v: seq<T>)
    requires u != []
    ensures (u + w + v)[0] == u[0] && (u + w + v)[1..] == u[1..] + w + v
  {
    assert (u + w + v)[1..] == u[1..] + w + v;
  }

  /** An empty first part adds nothing to a concatenation. */
  lemma EmptyFront<T>(u: seq<T>, w: seq<T>, v: seq<T>)
    requires u == []
    ensures u + w + v == w + v
  {
  }

  /** Concatenation is associative. */
  lemma ConcatAssoc<T>(u: seq<T>, w: seq<T>, v: seq<T>)
    ensures u + w + v == u + (w + v)
  {
  }

  /** Concatenation is associative, for a single element in front of three parts. */
  lemma ConsAssoc<T>(a: T, x: seq<T>, y: seq<T>, z: seq<T>)
    ensures [a] + (x + y + z) == [a] + x + y + z
  {
  }

  lemma MapSingle<T, U>(x: T, f: T -> U)
    ensures Map([x], f) == [f(x)]
  {
    assert [x][1..] == [];
  }

  /** `[x for x in s if p(x)]`: the elements satisfying `p`, in order. */
  function Filter<T>(s: seq<T>, p: T -> bool): (r: seq<T>)
    ensures |r| <= |s|
    ensures forall i :: 0 <= i < |r| ==> r[i] in s && p(r[i])
    ensures forall i :: 0 <= i < |s| && p(s[i]) ==> s[i] in r
  {
    if s == [] then [] else (if p(s[0]) then [s[0]] else []) + Filter(s[1..], p)
  }

  lemma FilterSingle<T>(x: T, p: T -> bool)
    ensures Filter([x], p) == if p(x) then [x] else []
  {
    assert [x][1..] == [];
  }

  /** Filtering distributes over concatenation, so it keeps relative order. */
  lemma {:induction false} FilterAppend<T>(a: seq<T>, b: seq<T>, p: T -> bool)
    ensures Filter(a + b, p) == Filter(a, p) + Filter(b, p)
  {
    if a != [] {
      assert (a + b)[1..] == a[1..] + b;
      FilterAppend(a[1..], b, p);
    } else {
      assert a + b == b;
    }
  }

  /** Filtering keeps a sequence whose every element passes. */
  lemma {:induction false} FilterAllPass<T>(s: seq<T>, p: T -> bool)
    requires forall i :: 0 <= i < |s| ==> p(s[i])
    ensures Filter(s, p) == s
  {
    if s != [] {
      FilterAllPass(s[1..], p);
    }
  }

  /** `[x for x in s if x is not None]`, unwrapped. */
  function Somes<T>(s: seq<Option<T>>): (r: seq<T>)
    ensures |r| <= |s|
    ensures forall i :: 0 <= i < |r| ==> Some(r[i]) in s
    ensures forall i :: 0 <= i < |s| && s[i].Some? ==> s[i].value in r
  {
    if s == [] then []
    else (if s[0].Some? then [s[0].value] else []) + Somes(s[1..])
  }

  lemma {:induction false} SomesAppend<T>(a: seq<Option<T>>, b: seq<Option<T>>)
    ensures Somes(a + b) == Somes(a) + Somes(b)
  {
    if a != [] {
      assert (a + b)[1..] == a[1..] + b;
      SomesAppend(a[1..], b);
    } else {
      assert a + b == b;
    }
  }

  /** The values `fields` occur in `d` one after another, without overlapping, in this order. */
  ghost predicate InOrder<T>(d: seq<T>, fields: seq<seq<T>>)
    decreases |fields|
  {
    fields == [] || exists i :: FieldAt(d, fields, i) && InOrder(d[i + |fields[0]|..], fields[1..])
  }

  ghost predicate FieldAt<T>(d: seq<T>, fields: seq<seq<T>>, i: int)
    requires fields != []
  {
    0 <= i <= |d| - |fields[0]| && d[i..i + |fields[0]|] == fields[0]
  }

  /** Appending fixed text and one more field to a text keeps the earlier fields in order. */
  lemma {:induction false} InOrderSnoc<T>(d: seq<T>, fields: seq<seq<T>>, between: seq<T>, x: seq<T>)
    requires InOrder(d, fields)
    ensures InOrder(d + between + x, fields + [x])
    decreases |fields|
  {
    if fields == [] {
      InOrderFirst(d, between, x);
      assert fields + [x] == [x];
    } else {
      var i :| FieldAt(d, fields, i) && InOrder(d[i + |fields[0]|..], fields[1..]);
      var j := i + |fields[0]|;
      InOrderSnoc(d[j..], fields[1..], between, x);
      InOrderSnocStep(d, fields, between, x, i);
    }
  }

  lemma InOrderFirst<T>(d: seq<T>, between: seq<T>, x: seq<T>)
    ensures InOrder(d + between + x, [x])
  {
    var e := d + between + x;
    var i := |d| + |between|;
    assert e[i..i + |x|] == x;
    assert FieldAt(e, [x], i);
    assert InOrder(e[i + |x|..], ([x])[1..]);
  }

  lemma InOrderSnocStep<T>(d: seq<T>, fields: seq<seq<T>>, between: seq<T>, x: seq<T>, i: int)
    requires fields != [] && FieldAt(d, fields, i)
    requires InOrder(d[i + |fields[0]|..] + between + x, fields[1..] + [x])
    ensures InOrder(d + between + x, fields + [x])
  {
    SnocShape(d, fields, between, x, i);
    InOrderCons(d + between + x, fields + [x], i);
  }

  /** After appending, the first field still sits at `i` and what follows it is the old rest with the append. */
  lemma SnocShape<T>(d: seq<T>, fields: seq<seq<T>>, between: seq<T>, x: seq<T>, i: int)
    requires fields != [] && FieldAt(d, fields, i)
    ensures FieldAt(d + between + x, fields + [x], i)
    ensures (d + between + x)[i + |(fields + [x])[0]|..] == d[i + |fields[0]|..] + between + x
    ensures (fields + [x])[1..] == fields[1..] + [x]
  {
    var e := d + between + x;
    var j := i + |fields[0]|;
    assert (fields + [x])[0] == fields[0];
    assert e[i..j] == d[i..j];
  }

  /** A first field at `i` followed by the rest in order is the whole list in order. */
  lemma InOrderCons<T>(d: seq<T>, fields: seq<seq<T>>, i: int)
    requires fields != [] && FieldAt(d, fields, i)
    requires InOrder(d[i + |fields[0]|..], fields[1..])
    ensures InOrder(d, fields)
  {
  }

  /** Text appended after the last field does not disturb the order. */
  lemma {:induction false} InOrderAppend<T>(d: seq<T>, fields: seq<seq<T>>, tail: seq<T>)
    requires InOrder(d, fields)
    ensures InOrder(d + tail, fields)
    decreases |fields|
  {
    if fields != [] {
      var i :| FieldAt(d, fields, i) && InOrder(d[i + |fields[0]|..], fields[1..]);
      var j := i + |fields[0]|;
      InOrderAppend(d[j..], fields[1..], tail);
      assert (d + tail)[j..] == d[j..] + tail;
      assert (d + tail)[i..j] == d[i..j];
      assert FieldAt(d + tail, fields, i);
    }
  }

  /** A single value is laid out in itself. */
  lemma InOrderSingle<T>(x: seq<T>)
    ensures InOrder(x, [x])
  {
    assert FieldAt(x, [x], 0);
    assert x[|x|..] == [];
    assert InOrder(x[|x|..], ([x])[1..]);
  }
}
