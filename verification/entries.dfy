/** Plain JavaScript objects with string keys, as the ordered list of their
    own entries (the order `Object.entries` reports for non-integer keys:
    insertion order). Property assignment and object spread are modelled
    here; the emoji-specific code builds on them. */
module Entries {
  import opened Options
  import opened Seqs

  /** An object's own entries, in iteration order. */
  type Object<V> = seq<(string, V)>

  /** `Object.keys(o)`. */
  function KeysOf<V>(o: Object<V>): (ks: seq<string>)
    ensures |ks| == |o|
    ensures forall i | 0 <= i < |o| :: ks[i] == o[i].0
  {
    seq(|o|, i requires 0 <= i < |o| => o[i].0)
  }

  /** Every key occurs once, as in any object the runtime builds. */
  predicate WellFormed<V>(o: Object<V>)
  {
    NoDup(KeysOf(o))
  }

  lemma KeysOfTail<V>(o: Object<V>)
    requires |o| > 0
    ensures KeysOf(o) == [o[0].0] + KeysOf(o[1..])
  {
  }

  lemma KeysOfAppend<V>(a: Object<V>, b: Object<V>)
    ensures KeysOf(a + b) == KeysOf(a) + KeysOf(b)
  {
  }

  lemma KeysOfPrefix<V>(o: Object<V>, n: nat)
    requires n <= |o|
    ensures KeysOf(o[..n]) == KeysOf(o)[..n]
  {
  }

  /** A slice of a well-formed object is well formed. */
  lemma SliceWellFormed<V>(o: Object<V>, lo: nat, hi: nat)
    requires WellFormed(o)
    requires lo <= hi <= |o|
    ensures WellFormed(o[lo..hi])
  {
    var s := o[lo..hi];
    assert forall a | 0 <= a < |s| :: KeysOf(s)[a] == KeysOf(o)[lo + a];
  }

  /** In a well-formed object the last key does not occur before it. */
  lemma LastKeyIsNew<V>(o: Object<V>)
    requires WellFormed(o) && |o| > 0
    ensures WellFormed(o[..|o| - 1])
    ensures o[|o| - 1].0 !in KeysOf(o[..|o| - 1])
  {
    var n := |o| - 1;
    SliceWellFormed(o, 0, n);
    KeysOfPrefix(o, n);
    forall a | 0 <= a < n
      ensures KeysOf(o[..n])[a] != o[n].0
    {
      assert KeysOf(o)[a] != KeysOf(o)[n];
    }
  }

  /** Property read `o[k]`; `None` stands for `undefined`. */
  function Get<V>(o: Object<V>, k: string): (r: Option<V>)
    decreases |o|
    ensures r.Some? <==> k in KeysOf(o)
    ensures r.Some? ==> exists i | 0 <= i < |o| :: o[i] == (k, r.value)
  {
    if |o| == 0 then None
    else
      KeysOfTail(o);
      if o[0].0 == k then Some(o[0].1)
      else
        var r := Get(o[1..], k);
        assert r.Some? ==> exists i | 0 <= i < |o| - 1 :: o[1..][i] == (k, r.value);
        r
  }

  /** In a well-formed object the entry with key `k` is the one `o[k]` reads. */
  lemma {:induction false} GetEntry<V>(o: Object<V>, i: nat)
    requires WellFormed(o)
    requires i < |o|
    ensures Get(o, o[i].0) == Some(o[i].1)
    decreases |o|
  {
    if i > 0 {
      assert o[0].0 != o[i].0 by {
        assert KeysOf(o)[0] != KeysOf(o)[i];
      }
      SliceWellFormed(o, 1, |o|);
      var tail := o[1..|o|];
      assert tail[i - 1] == o[i];
      GetEntry(tail, i - 1);
      assert tail == o[1..];
    }
  }

  /** An object whose only key is `k` is the single entry `k: o[k]`. */
  lemma OnlyKey<V>(o: Object<V>, k: string, v: V)
    requires KeysOf(o) == [k]
    requires Get(o, k) == Some(v)
    ensures o == [(k, v)]
  {
    assert o[0].0 == KeysOf(o)[0];
  }

  /** Property assignment `o[k] = v`: an existing key keeps its place and
      takes the new value, a new key is appended at the end. */
  function Set<V>(o: Object<V>, k: string, v: V): (r: Object<V>)
    decreases |o|
    ensures KeysOf(r) == if k in KeysOf(o) then KeysOf(o) else KeysOf(o) + [k]
  {
    if |o| == 0 then [(k, v)]
    else
      KeysOfTail(o);
      if o[0].0 == k then
        KeysOfAppend([(k, v)], o[1..]);
        [(k, v)] + o[1..]
      else
        var rest := Set(o[1..], k, v);
        KeysOfAppend([o[0]], rest);
        AppendAssoc([o[0].0], KeysOf(o[1..]), [k]);
        [o[0]] + rest
  }

  /** After `o[k] = v`, `k` reads as `v` and every other key reads as before. */
  lemma {:induction false} SetGet<V>(o: Object<V>, k: string, v: V, k': string)
    ensures Get(Set(o, k, v), k') == if k' == k then Some(v) else Get(o, k')
    decreases |o|
  {
    if |o| > 0 {
      var r := Set(o, k, v);
      assert r[1..] == if o[0].0 == k then o[1..] else Set(o[1..], k, v);
      if o[0].0 != k {
        SetGet(o[1..], k, v, k');
      }
    }
  }

  /** Assigning a key the object does not have appends one entry. */
  lemma {:induction false} SetNew<V>(o: Object<V>, k: string, v: V)
    requires k !in KeysOf(o)
    ensures Set(o, k, v) == o + [(k, v)]
    decreases |o|
  {
    if |o| > 0 {
      KeysOfTail(o);
      assert o[0].0 != k;
      assert k !in KeysOf(o[1..]);
      SetNew(o[1..], k, v);
      calc {
        Set(o, k, v);
        [o[0]] + Set(o[1..], k, v);
        [o[0]] + (o[1..] + [(k, v)]);
        o + [(k, v)];
      }
    }
  }

  /** Assigning a new key to a well-formed object appends it and keeps the
      object well formed. */
  lemma AppendNewKey<V>(o: Object<V>, k: string, v: V)
    requires WellFormed(o)
    requires k !in KeysOf(o)
    ensures Set(o, k, v) == o + [(k, v)]
    ensures KeysOf(o + [(k, v)]) == KeysOf(o) + [k]
    ensures WellFormed(o + [(k, v)])
  {
    SetNew(o, k, v);
    KeysOfAppend(o, [(k, v)]);
  }

  /** The copy step of `{...target, ...source}`: each entry of `source` is
      assigned onto `target`, in `source`'s order. */
  function Spread<V>(target: Object<V>, source: Object<V>): (r: Object<V>)
    decreases |source|
    ensures WellFormed(target) ==> WellFormed(r)
    ensures forall k :: k in KeysOf(r) <==> k in KeysOf(target) || k in KeysOf(source)
  {
    if |source| == 0 then target
    else
      var init := source[..|source| - 1];
      var last := source[|source| - 1];
      assert source == init + [last];
      KeysOfAppend(init, [last]);
      Set(Spread(target, init), last.0, last.1)
  }

  /** Spreading two objects one after the other is spreading their entries in sequence. */
  lemma {:induction false} SpreadAppend<V>(target: Object<V>, a: Object<V>, b: Object<V>)
    ensures Spread(target, a + b) == Spread(Spread(target, a), b)
    decreases |b|
  {
    if |b| == 0 {
      assert a + b == a;
    } else {
      var init := b[..|b| - 1];
      assert (a + b)[..|a + b| - 1] == a + init;
      assert (a + b)[|a + b| - 1] == b[|b| - 1];
      SpreadAppend(target, a, init);
    }
  }

  /** After a spread, a key of `source` holds `source`'s value, and any other
      key keeps the value it had in `target`. */
  lemma {:induction false} SpreadGet<V>(target: Object<V>, source: Object<V>, k: string)
    requires WellFormed(source)
    ensures Get(Spread(target, source), k) == if k in KeysOf(source) then Get(source, k) else Get(target, k)
    decreases |source|
  {
    if |source| > 0 {
      var n := |source| - 1;
      var init := source[..n];
      var last := source[n];
      LastKeyIsNew(source);
      GetLast(source, k);
      SpreadGetLast(target, source, k);
      SpreadGet(target, init, k);
      if k == last.0 {
        assert Get(source, k) == Some(last.1);
      }
    }
  }

  /** The last entry of `source` is assigned last. */
  lemma SpreadGetLast<V>(target: Object<V>, source: Object<V>, k: string)
    requires |source| > 0
    ensures var n := |source| - 1;
      Get(Spread(target, source), k) == if k == source[n].0 then Some(source[n].1) else Get(Spread(target, source[..n]), k)
  {
    var n := |source| - 1;
    SpreadLast(target, source);
    SetGet(Spread(target, source[..n]), source[n].0, source[n].1, k);
  }

  /** Reading a key of a non-empty object through its last entry and the
      entries before it. */
  lemma GetLast<V>(o: Object<V>, k: string)
    requires |o| > 0
    ensures k in KeysOf(o) <==> k in KeysOf(o[..|o| - 1]) || k == o[|o| - 1].0
    ensures Get(o, k) ==
      if k in KeysOf(o[..|o| - 1]) then Get(o[..|o| - 1], k)
      else if k == o[|o| - 1].0 then Some(o[|o| - 1].1) else None
  {
    var n := |o| - 1;
    assert o == o[..n] + [o[n]];
    KeysOfAppend(o[..n], [o[n]]);
    GetSnoc(o[..n], o[n].0, o[n].1, k);
  }

  /** Reading a key of an object with one more entry at the end. */
  lemma {:induction false} GetSnoc<V>(o: Object<V>, k: string, v: V, k': string)
    ensures Get(o + [(k, v)], k') ==
      if k' in KeysOf(o) then Get(o, k') else if k' == k then Some(v) else None
    decreases |o|
  {
    if |o| > 0 {
      KeysOfTail(o);
      assert (o + [(k, v)])[1..] == o[1..] + [(k, v)];
      GetSnoc(o[1..], k, v, k');
    }
  }

  /** Keys reach the spread result in the order of their first occurrence:
      a key already present keeps its place, a new key goes to the end. */
  lemma {:induction false} SpreadKeyOrder<V>(source: Object<V>)
    ensures KeysOf(Spread([], source)) == Distinct(KeysOf(source))
    decreases |source|
  {
    if |source| > 0 {
      var n := |source| - 1;
      var init := source[..n];
      var last := source[n];
      SpreadKeyOrder(init);
      var before := Spread([], init);
      SpreadLast([], source);
      assert last.0 in KeysOf(before) <==> last.0 in KeysOf(init);
      var ks := KeysOf(source);
      KeysOfPrefix(source, n);
      assert Distinct(ks) == Distinct(ks[..n]) + (if ks[n] in ks[..n] then [] else [ks[n]]);
    }
  }

  /** The last entry of the source is the last one assigned. */
  lemma SpreadLast<V>(target: Object<V>, source: Object<V>)
    requires |source| > 0
    ensures var n := |source| - 1;
      Spread(target, source) == Set(Spread(target, source[..n]), source[n].0, source[n].1)
  {
  }

  /** `{...objs[0], ...objs[1], ..., ...objs[n-1]}`. */
  function MergeAll<V>(objs: seq<Object<V>>): (r: Object<V>)
    decreases |objs|
    ensures WellFormed(r)
    ensures forall k :: k in KeysOf(r) <==> exists i | 0 <= i < |objs| :: k in KeysOf(objs[i])
  {
    if |objs| == 0 then []
    else
      var init := objs[..|objs| - 1];
      var r := Spread(MergeAll(init), objs[|objs| - 1]);
      forall k | k in KeysOf(r)
        ensures exists i | 0 <= i < |objs| :: k in KeysOf(objs[i])
      {
        if k !in KeysOf(objs[|objs| - 1]) {
          var i :| 0 <= i < |init| && k in KeysOf(init[i]);
          assert init[i] == objs[i];
        }
      }
      r
  }

  /** The merge is one spread of all the objects' entries, concatenated. */
  lemma {:induction false} MergeAllIsOneSpread<V>(objs: seq<Object<V>>)
    ensures MergeAll(objs) == Spread([], Flatten(objs))
    decreases |objs|
  {
    if |objs| > 0 {
      var init := objs[..|objs| - 1];
      var last := objs[|objs| - 1];
      assert MergeAll(objs) == Spread(MergeAll(init), last);
      MergeAllIsOneSpread(init);
      SpreadAppend([], Flatten(init), last);
      FlattenSnoc(objs);
    }
  }

  /** Last write wins: a key present in some object takes its value from the
      highest-numbered object that has it. */
  lemma {:induction false} MergeAllLastWins<V>(objs: seq<Object<V>>, k: string, i: nat)
    requires forall j | 0 <= j < |objs| :: WellFormed(objs[j])
    requires i < |objs| && k in KeysOf(objs[i])
    requires forall j | i < j < |objs| :: k !in KeysOf(objs[j])
    ensures Get(MergeAll(objs), k) == Get(objs[i], k)
    decreases |objs|
  {
    var init := objs[..|objs| - 1];
    var last := objs[|objs| - 1];
    SpreadGet(MergeAll(init), last, k);
    if i < |objs| - 1 {
      MergeAllLastWins(init, k, i);
    }
  }

  /** Merged keys come in the order of their first occurrence across the
      objects, taken in order. */
  lemma MergeAllKeyOrder<V>(objs: seq<Object<V>>)
    ensures KeysOf(MergeAll(objs)) == Distinct(KeysOf(Flatten(objs)))
  {
    MergeAllIsOneSpread(objs);
    SpreadKeyOrder(Flatten(objs));
  }
}
