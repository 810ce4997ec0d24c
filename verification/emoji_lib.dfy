/** index.js: the eight segment files merged into one name-to-record object
    with object spread, the data-URI prefix taken from the first segment, and
    the three lookups of `emojiFuncs`. The segments arrive already parsed;
    reading and parsing the files is not modelled. */
module EmojiLib {
  import opened Options
  import opened Seqs
  import opened Entries
  import opened Emoji

  /** Number of segment files the module loads. */
  const SEGMENT_COUNT: nat := 8

  /** The module state after loading: `prefix` and `segmentedEmojis`. */
  datatype Library = Library(prefix: string, emojis: Object<EmojiRecord>)

  /** Eight parsed segments; a parsed JSON object never repeats a key. */
  predicate ValidSegments(segs: seq<Segment>)
  {
    && |segs| == SEGMENT_COUNT
    && forall i | 0 <= i < |segs| :: WellFormed(segs[i].emojis)
  }

  /** `emj1.emojis, ..., emj8.emojis`. */
  function EmojisOf(segs: seq<Segment>): (objs: seq<Object<EmojiRecord>>)
    ensures |objs| == |segs|
    ensures forall i | 0 <= i < |segs| :: objs[i] == segs[i].emojis
  {
    seq(|segs|, i requires 0 <= i < |segs| => segs[i].emojis)
  }

  /** Module load: `segmentedEmojis = { ...emj1.emojis, ..., ...emj8.emojis }`
      and `prefix = emj1.prefix`. The merged object has every key of every
      segment and no other, each once. */
  function Load(segs: seq<Segment>): (lib: Library)
    requires ValidSegments(segs)
    ensures WellFormed(lib.emojis)
    ensures forall k :: k in KeysOf(lib.emojis) <==> exists i | 0 <= i < |segs| :: k in KeysOf(segs[i].emojis)
  {
    Library(segs[0].prefix, MergeAll(EmojisOf(segs)))
  }

  /** `getEmojiByName(name)`: the prefixed payload of the record stored under
      `name`, or `null` when there is none. A record is an object and hence
      truthy, so a present key always yields a string. */
  function GetEmojiByName(lib: Library, name: string): (r: Option<string>)
    ensures r.Some? <==> name in KeysOf(lib.emojis)
    ensures r.Some? ==> exists i | 0 <= i < |lib.emojis| ::
      lib.emojis[i].0 == name && r.value == lib.prefix + lib.emojis[i].1.b64
  {
    match Get(lib.emojis, name)
    case None => None
    case Some(record) => Some(lib.prefix + record.b64)
  }

  /** Position of the first record, in iteration order, whose `unicode` is `u`;
      `|es|` when there is none. */
  function FirstWithUnicode(es: Object<EmojiRecord>, u: string): (i: nat)
    decreases |es|
    ensures i <= |es|
    ensures i < |es| ==> es[i].1.unicode == u
    ensures forall j | 0 <= j < i :: es[j].1.unicode != u
  {
    if |es| == 0 then 0
    else if es[0].1.unicode == u then 0
    else
      var i := FirstWithUnicode(es[1..], u);
      assert forall j | 1 <= j < i + 1 :: es[j] == es[1..][j - 1];
      1 + i
  }

  /** `getEmojiByUnicode(unicode)`: the loop over `Object.entries` that
      returns at the first record whose `unicode` is equal, and `null` after
      the loop. */
  function GetEmojiByUnicode(lib: Library, u: string): (r: Option<string>)
    ensures r.None? <==> forall i | 0 <= i < |lib.emojis| :: lib.emojis[i].1.unicode != u
    ensures r.Some? ==> exists i | 0 <= i < |lib.emojis| ::
      && lib.emojis[i].1.unicode == u
      && r.value == lib.prefix + lib.emojis[i].1.b64
      && forall j | 0 <= j < i :: lib.emojis[j].1.unicode != u
  {
    var i := FirstWithUnicode(lib.emojis, u);
    if i < |lib.emojis| then Some(lib.prefix + lib.emojis[i].1.b64) else None
  }

  /** `getAllEmojis()`: the merged object itself, its keys in the same
      order and each with the record stored under it. Every record it lists
      is what `getEmojiByName` serves for its key. */
  function GetAllEmojis(lib: Library): (all: Object<EmojiRecord>)
    requires WellFormed(lib.emojis)
    ensures KeysOf(all) == KeysOf(lib.emojis)
    ensures forall i | 0 <= i < |all| :: Get(lib.emojis, all[i].0) == Some(all[i].1)
    ensures forall i | 0 <= i < |all| :: GetEmojiByName(lib, all[i].0) == Some(lib.prefix + all[i].1.b64)
    ensures forall name :: GetEmojiByName(lib, name).Some? <==> name in KeysOf(all)
  {
    forall i | 0 <= i < |lib.emojis|
      ensures Get(lib.emojis, lib.emojis[i].0) == Some(lib.emojis[i].1)
    {
      GetEntry(lib.emojis, i);
    }
    lib.emojis
  }

  /** A name present in several segments is served with the record of the
      highest-numbered segment holding it, under the first segment's prefix. */
  lemma ByNameLastWins(segs: seq<Segment>, name: string, i: nat)
    requires ValidSegments(segs)
    requires i < |segs| && name in KeysOf(segs[i].emojis)
    requires forall j | i < j < |segs| :: name !in KeysOf(segs[j].emojis)
    ensures GetEmojiByName(Load(segs), name) == Some(segs[0].prefix + Get(segs[i].emojis, name).value.b64)
  {
    MergeAllLastWins(EmojisOf(segs), name, i);
  }

  /** A name in no segment, the empty name included, gives `null`. */
  lemma ByNameAbsent(segs: seq<Segment>, name: string)
    requires ValidSegments(segs)
    requires forall i | 0 <= i < |segs| :: name !in KeysOf(segs[i].emojis)
    ensures GetEmojiByName(Load(segs), name) == None
  {
  }

  /** Keys iterate in the order of their first occurrence across segments 1
      to 8: of two merged keys, the earlier one first appears earlier in the
      segments' keys read one after the other, even when a later segment
      supplies its value. */
  lemma MergedOrder(segs: seq<Segment>)
    requires ValidSegments(segs)
    ensures var keys := KeysOf(Load(segs).emojis);
      var stream := KeysOf(Flatten(EmojisOf(segs)));
      && keys == Distinct(stream)
      && forall p, q | 0 <= p < q < |keys| ::
        keys[p] in stream && keys[q] in stream && FirstIndex(stream, keys[p]) < FirstIndex(stream, keys[q])
  {
    var stream := KeysOf(Flatten(EmojisOf(segs)));
    MergeAllKeyOrder(EmojisOf(segs));
    DistinctOrder(stream);
    var keys := KeysOf(Load(segs).emojis);
    assert keys == Distinct(stream);
    forall p, q | 0 <= p < q < |keys|
      ensures keys[p] in stream && keys[q] in stream && FirstIndex(stream, keys[p]) < FirstIndex(stream, keys[q])
    {
      assert keys[p] == Distinct(stream)[p] && keys[q] == Distinct(stream)[q];
    }
  }

  /** Only the first segment's prefix is used: segments that agree on their
      emojis and on the first prefix load to the same library, whatever the
      other prefixes are. */
  lemma OnlyFirstPrefixMatters(segs: seq<Segment>, segs': seq<Segment>)
    requires ValidSegments(segs) && ValidSegments(segs')
    requires segs[0].prefix == segs'[0].prefix
    requires forall i | 0 <= i < SEGMENT_COUNT :: segs[i].emojis == segs'[i].emojis
    ensures Load(segs) == Load(segs')
  {
    assert EmojisOf(segs) == EmojisOf(segs');
  }

  /** Of several records sharing a code-point string, the lookup serves the
      first in iteration order, wherever it stands and whatever follows it. */
  lemma FirstMatchWins(lib: Library, u: string, i: nat)
    requires i < |lib.emojis| && lib.emojis[i].1.unicode == u
    requires forall j | 0 <= j < i :: lib.emojis[j].1.unicode != u
    ensures FirstWithUnicode(lib.emojis, u) == i
    ensures GetEmojiByUnicode(lib, u) == Some(lib.prefix + lib.emojis[i].1.b64)
  {
  }

  /** The empty string is an ordinary code-point value: it finds a record
      exactly when some record's `unicode` is empty, as for a URL in which
      `extractUnicodeCodes` matched nothing. */
  lemma EmptyUnicode(lib: Library)
    ensures GetEmojiByUnicode(lib, "").Some? <==> exists i | 0 <= i < |lib.emojis| :: lib.emojis[i].1.unicode == ""
  {
  }

  /** Two segments carry `grinning-face` with payloads `AAA` and `BBB`; the
      later segment's record is the one served, by name and by code point. */
  lemma GrinningFace(segs: seq<Segment>)
    requires ValidSegments(segs)
    requires segs[0] == Segment(PREFIX, [("grinning-face", EmojiRecord("AAA", "U+1F600"))])
    requires segs[1] == Segment(PREFIX, [("grinning-face", EmojiRecord("BBB", "U+1F600"))])
    requires forall i | 2 <= i < |segs| :: segs[i].emojis == []
    ensures GetEmojiByName(Load(segs), "grinning-face") == Some(PREFIX + "BBB")
    ensures GetEmojiByUnicode(Load(segs), "U+1F600") == Some(PREFIX + "BBB")
  {
    GrinningFaceMerged(segs);
  }

  lemma GrinningFaceMerged(segs: seq<Segment>)
    requires ValidSegments(segs)
    requires segs[0] == Segment(PREFIX, [("grinning-face", EmojiRecord("AAA", "U+1F600"))])
    requires segs[1] == Segment(PREFIX, [("grinning-face", EmojiRecord("BBB", "U+1F600"))])
    requires forall i | 2 <= i < |segs| :: segs[i].emojis == []
    ensures Load(segs) == Library(PREFIX, [("grinning-face", EmojiRecord("BBB", "U+1F600"))])
  {
    var name := "grinning-face";
    var record := EmojiRecord("BBB", "U+1F600");
    var objs := EmojisOf(segs);
    var a, b := segs[0].emojis, segs[1].emojis;
    assert objs == [a, b] + objs[2..];
    FlattenAppend([a, b], objs[2..]);
    FlattenEmpties(objs[2..]);
    assert Flatten([a, b]) == a + b by {
      assert [a, b][1..] == [b];
      assert [b][1..] == [];
    }
    assert KeysOf(a + b) == [name, name];
    MergeAllKeyOrder(objs);
    assert Distinct([name, name]) == [name] by {
      assert [name, name][..1] == [name];
      assert [name][..0] == [];
      assert Distinct([name]) == [name];
      assert name in [name];
    }
    assert KeysOf(b) == [name];
    MergeAllLastWins(objs, name, 1);
    OnlyKey(Load(segs).emojis, name, record);
  }
}
