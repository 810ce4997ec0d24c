/** Sequence helpers shared by the model: flattening, JavaScript-style
    `split`/`join` on a one-element separator, and duplicate-free sequences. */
module Seqs {

  /** Concatenation of all the inner sequences, in order (`Array.prototype.flat`). */
  function Flatten<T>(xss: seq<seq<T>>): (r: seq<T>)
    decreases |xss|
  {
    if |xss| == 0 then [] else xss[0] + Flatten(xss[1..])
  }

  lemma {:induction false} FlattenAppend<T>(a: seq<seq<T>>, b: seq<seq<T>>)
    ensures Flatten(a + b) == Flatten(a) + Flatten(b)
    decreases |a|
  {
    if |a| == 0 {
      assert a + b == b;
    } else {
      assert (a + b)[1..] == a[1..] + b;
      FlattenAppend(a[1..], b);
    }
  }

  /** Flattening ends with the last inner sequence. */
  lemma FlattenSnoc<T>(xss: seq<seq<T>>)
    requires |xss| > 0
    ensures Flatten(xss) == Flatten(xss[..|xss| - 1]) + xss[|xss| - 1]
  {
    var n := |xss| - 1;
    assert xss == xss[..n] + [xss[n]];
    FlattenAppend(xss[..n], [xss[n]]);
    assert [xss[n]][1..] == [];
  }

  /** Flattening nothing but empty sequences gives the empty sequence. */
  lemma {:induction false} FlattenEmpties<T>(xss: seq<seq<T>>)
    requires forall i | 0 <= i < |xss| :: xss[i] == []
    ensures Flatten(xss) == []
    decreases |xss|
  {
    if |xss| > 0 {
      assert forall i | 0 <= i < |xss| - 1 :: xss[1..][i] == xss[i + 1];
      FlattenEmpties(xss[1..]);
    }
  }

  /** Number of occurrences of `x` in `s`. */
  function Count<T(==)>(s: seq<T>, x: T): nat
    decreases |s|
  {
    if |s| == 0 then 0 else (if s[0] == x then 1 else 0) + Count(s[1..], x)
  }

  /** `s.split(sep)` for a one-element separator: the pieces between
      separators, so there is always one piece more than separators and a
      piece is empty where separators are adjacent or at either end. */
  function Split<T(==)>(s: seq<T>, sep: T): (parts: seq<seq<T>>)
    decreases |s|
    ensures |parts| == Count(s, sep) + 1
    ensures forall i, k | 0 <= i < |parts| && 0 <= k < |parts[i]| :: parts[i][k] != sep && parts[i][k] in s
  {
    if |s| == 0 then [[]]
    else
      var rest := Split(s[1..], sep);
      if s[0] == sep then [[]] + rest
      else
        var head := [s[0]] + rest[0];
        assert forall k | 1 <= k < |head| :: head[k] == rest[0][k - 1];
        [head] + rest[1..]
  }

  /** `parts.join(sep)`: the pieces with one separator between neighbours. */
  function Join<T>(parts: seq<seq<T>>, sep: T): (s: seq<T>)
    decreases |parts|
  {
    if |parts| == 0 then []
    else if |parts| == 1 then parts[0]
    else parts[0] + [sep] + Join(parts[1..], sep)
  }

  /** Joining the pieces of a split restores the original. */
  lemma {:induction false} JoinSplit<T>(s: seq<T>, sep: T)
    ensures Join(Split(s, sep), sep) == s
    decreases |s|
  {
    if |s| > 0 {
      var rest := Split(s[1..], sep);
      JoinSplit(s[1..], sep);
      if s[0] == sep {
        assert Split(s, sep) == [[]] + rest;
        assert ([[]] + rest)[1..] == rest;
      } else {
        var parts := Split(s, sep);
        assert parts == [[s[0]] + rest[0]] + rest[1..];
        if |rest| == 1 {
          assert Join(rest, sep) == rest[0];
        } else {
          assert parts[1..] == rest[1..];
          assert Join(rest, sep) == rest[0] + [sep] + Join(rest[1..], sep);
        }
      }
    }
  }

  /** One unfolding of `Split` at the front. */
  lemma SplitCons<T>(x: T, t: seq<T>, sep: T)
    ensures Split([x] + t, sep) ==
      if x == sep then [[]] + Split(t, sep)
      else [[x] + Split(t, sep)[0]] + Split(t, sep)[1..]
  {
    assert ([x] + t)[1..] == t;
  }

  /** Splitting at one separator: the pieces of what precedes it, then the
      pieces of what follows it. */
  lemma {:induction false} SplitAtSeparator<T>(a: seq<T>, b: seq<T>, sep: T)
    ensures Split(a + [sep] + b, sep) == Split(a, sep) + Split(b, sep)
    decreases |a|
  {
    if |a| == 0 {
      assert a + [sep] + b == [sep] + b;
      SplitCons(sep, b, sep);
    } else {
      var rest := a[1..] + [sep] + b;
      SplitAtSeparator(a[1..], b, sep);
      SplitConsAppend(a[0], rest, a[1..], Split(b, sep), sep);
      assert a + [sep] + b == [a[0]] + rest;
      assert a == [a[0]] + a[1..];
    }
  }

  /** The inductive step of `SplitAtSeparator`: when the pieces of `rest`
      are those of `a` followed by `m`, one more element in front of both
      keeps that so. */
  lemma SplitConsAppend<T>(x: T, rest: seq<T>, a: seq<T>, m: seq<seq<T>>, sep: T)
    requires Split(rest, sep) == Split(a, sep) + m
    ensures Split([x] + rest, sep) == Split([x] + a, sep) + m
  {
    SplitCons(x, rest, sep);
    SplitCons(x, a, sep);
    var l := Split(a, sep);
    if x == sep {
      AppendAssoc([[]], l, m);
    } else {
      GlueFirstPiece([x], l, m);
    }
  }

  /** Extending the first piece commutes with appending more pieces. */
  lemma GlueFirstPiece<T>(h: seq<T>, l: seq<seq<T>>, m: seq<seq<T>>)
    requires |l| > 0
    ensures [h + (l + m)[0]] + (l + m)[1..] == ([h + l[0]] + l[1..]) + m
  {
    assert (l + m)[0] == l[0];
    assert (l + m)[1..] == l[1..] + m;
  }

  /** A leading separator gives an empty first piece. */
  lemma LeadingSeparator<T>(b: seq<T>, sep: T)
    ensures Split([sep] + b, sep) == [[]] + Split(b, sep)
  {
    SplitCons(sep, b, sep);
  }

  /** A trailing separator gives an empty last piece. */
  lemma TrailingSeparator<T>(a: seq<T>, sep: T)
    ensures Split(a + [sep], sep) == Split(a, sep) + [[]]
  {
    SplitAtSeparator(a, [], sep);
    assert a + [sep] + [] == a + [sep];
  }

  /** Two adjacent separators give an empty piece between them. */
  lemma DoubledSeparator<T>(a: seq<T>, b: seq<T>, sep: T)
    ensures Split(a + [sep, sep] + b, sep) == Split(a, sep) + [[]] + Split(b, sep)
  {
    SplitAtSeparator(a, [sep] + b, sep);
    LeadingSeparator(b, sep);
    assert a + [sep, sep] + b == a + [sep] + ([sep] + b);
    AppendAssoc(Split(a, sep), [[]], Split(b, sep));
  }

  /** Splitting a separator-free prefix glued to `t` extends `t`'s first piece. */
  lemma {:induction false} SplitSeparatorFreePrefix<T>(a: seq<T>, t: seq<T>, sep: T)
    requires sep !in a
    ensures Split(a + t, sep) == [a + Split(t, sep)[0]] + Split(t, sep)[1..]
    decreases |a|
  {
    if |a| > 0 {
      assert (a + t)[0] == a[0];
      assert (a + t)[1..] == a[1..] + t;
      SplitSeparatorFreePrefix(a[1..], t, sep);
      assert [a[0]] + (a[1..] + Split(t, sep)[0]) == a + Split(t, sep)[0];
    } else {
      assert a + t == t;
      var r := Split(t, sep);
      assert a + r[0] == r[0];
      assert [r[0]] + r[1..] == r;
    }
  }

  /** A sequence without the separator splits into itself alone. */
  lemma SplitWithoutSeparator<T>(s: seq<T>, sep: T)
    requires sep !in s
    ensures Split(s, sep) == [s]
  {
    SplitSeparatorFreePrefix(s, [], sep);
    assert s + [] == s;
  }

  /** Splitting a join of separator-free pieces gives the pieces back. */
  lemma {:induction false} SplitJoin<T>(parts: seq<seq<T>>, sep: T)
    requires |parts| > 0
    requires forall i | 0 <= i < |parts| :: sep !in parts[i]
    ensures Split(Join(parts, sep), sep) == parts
    decreases |parts|
  {
    if |parts| == 1 {
      SplitSeparatorFreePrefix(parts[0], [], sep);
      assert parts[0] + [] == parts[0];
      assert Split([], sep) == [[]];
    } else {
      var tail := Join(parts[1..], sep);
      assert forall i | 0 <= i < |parts| - 1 :: parts[1..][i] == parts[i + 1];
      SplitJoin(parts[1..], sep);
      assert Split([sep] + tail, sep) == [[]] + parts[1..] by {
        assert ([sep] + tail)[1..] == tail;
      }
      assert Join(parts, sep) == parts[0] + ([sep] + tail);
      SplitSeparatorFreePrefix(parts[0], [sep] + tail, sep);
      assert ([[]] + parts[1..])[0] == [];
      assert ([[]] + parts[1..])[1..] == parts[1..];
      assert parts[0] + [] == parts[0];
    }
  }

  /** A join of non-empty pieces is empty exactly when there are no pieces. */
  lemma {:induction false} JoinEmptyIffNoParts<T>(parts: seq<seq<T>>, sep: T)
    requires forall i | 0 <= i < |parts| :: |parts[i]| > 0
    ensures Join(parts, sep) == [] <==> parts == []
  {
    if |parts| > 0 {
      assert |parts[0]| > 0;
      if |parts| > 1 {
        assert |Join(parts, sep)| >= |parts[0]|;
      }
    }
  }

  /** No element occurs twice. */
  predicate NoDup<T(==)>(s: seq<T>)
  {
    forall i, j | 0 <= i < j < |s| :: s[i] != s[j]
  }

  /** Position of the first occurrence of `x` in `s`. */
  function FirstIndex<T(==)>(s: seq<T>, x: T): (i: nat)
    requires x in s
    decreases |s|
    ensures i < |s| && s[i] == x
    ensures forall j | 0 <= j < i :: s[j] != x
  {
    if s[0] == x then 0 else 1 + FirstIndex(s[1..], x)
  }

  /** The elements of `s` without repetitions, each where it first occurs. */
  function Distinct<T(==)>(s: seq<T>): (d: seq<T>)
    decreases |s|
  {
    if |s| == 0 then []
    else
      var init := s[..|s| - 1];
      Distinct(init) + (if s[|s| - 1] in init then [] else [s[|s| - 1]])
  }

  lemma FirstIndexOfPrefix<T>(init: seq<T>, x: T, y: T)
    requires y in init
    ensures FirstIndex(init + [x], y) == FirstIndex(init, y)
  {
    var s := init + [x];
    var i := FirstIndex(s, y);
    var i' := FirstIndex(init, y);
    assert s[i'] == y;
  }

  /** `Distinct` keeps exactly the elements of `s`, each once. */
  lemma {:induction false} DistinctElements<T>(s: seq<T>)
    ensures NoDup(Distinct(s))
    ensures forall x: T :: x in Distinct(s) <==> x in s
    ensures forall i | 0 <= i < |Distinct(s)| :: Distinct(s)[i] in s
    decreases |s|
  {
    if |s| > 0 {
      var init := s[..|s| - 1];
      assert s == init + [s[|s| - 1]];
      DistinctElements(init);
    }
  }

  /** `Distinct` lists the elements of `s` in the order of their first occurrence. */
  lemma {:induction false} DistinctOrder<T>(s: seq<T>)
    ensures forall p, q | 0 <= p < q < |Distinct(s)| ::
      Distinct(s)[p] in s && Distinct(s)[q] in s &&
      FirstIndex(s, Distinct(s)[p]) < FirstIndex(s, Distinct(s)[q])
    decreases |s|
  {
    if |s| > 0 {
      var init := s[..|s| - 1];
      var x := s[|s| - 1];
      assert s == init + [x];
      DistinctOrder(init);
      DistinctElements(init);
      var d0 := Distinct(init);
      var d := Distinct(s);
      assert d == d0 + (if x in init then [] else [x]);
      forall p, q | 0 <= p < q < |d|
        ensures d[p] in s && d[q] in s && FirstIndex(s, d[p]) < FirstIndex(s, d[q])
      {
        assert d[p] == d0[p] && d0[p] in d0;
        FirstIndexOfPrefix(init, x, d[p]);
        if q < |d0| {
          assert d[q] == d0[q] && d0[q] in d0;
          FirstIndexOfPrefix(init, x, d[q]);
        } else {
          assert d[q] == x && x !in init;
          assert FirstIndex(s, x) == |s| - 1;
        }
      }
    }
  }

  /** Concatenation is associative. */
  lemma AppendAssoc<T>(a: seq<T>, b: seq<T>, c: seq<T>)
    ensures (a + b) + c == a + (b + c)
  {
  }
}
