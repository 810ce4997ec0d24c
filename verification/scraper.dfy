/** The batch side of utils/scraper.js: `convertEmojisToBase64` and the main
    loop that splits the name-to-URL list into chunks of 500 and writes one
    segment per chunk, from chunk index 6 on. The network and the image
    transcoder are parameters; writing a file is modelled as producing its
    content. */
module Scraper {
  import opened Options
  import opened Seqs
  import opened Entries
  import opened Emoji
  import opened Fetcher
  import opened UnicodeCodes
  import opened Chunking

  /** The `sharp` pipeline (resize to 72x72, PNG at quality 80) followed by
      base64 encoding; `None` when it throws, e.g. on data that is not an image. */
  type Transcoder = Bytes -> Option<string>

  /** The body of one loop iteration: the record stored under the entry's
      key, or `None` when the iteration throws and the entry is skipped.
      A `null` body makes `Buffer.from` throw, so a failed fetch is skipped too. */
  function ConvertItem(net: Network, transcode: Transcoder, url: string): (r: Option<EmojiRecord>)
    ensures r.Some? ==> r.value.unicode == ExtractUnicodeCodes(url)
    ensures r.Some? ==> exists k | 1 <= k <= RETRY_LIMIT ::
      && (forall m | 1 <= m < k :: !Succeeds(net(url, m)))
      && Succeeds(net(url, k))
      && transcode(net(url, k).response.body) == Some(r.value.b64)
    ensures (forall k | 1 <= k <= RETRY_LIMIT :: !Succeeds(net(url, k))) ==> r.None?
    ensures var f := FetchWithRetries(net, url, RETRY_LIMIT).body;
      r.Some? <==> f.Some? && transcode(f.value).Some?
  {
    match FetchWithRetries(net, url, RETRY_LIMIT).body
    case None => None
    case Some(buffer) =>
      match transcode(buffer)
      case None => None
      case Some(b64) => Some(EmojiRecord(b64, ExtractUnicodeCodes(url)))
  }

  /** The loop of `convertEmojisToBase64` over the entries, for any loop
      body `convert`: each entry is converted on its own and stored under its
      key when the body produced a record. */
  function ConvertEach(convert: string -> Option<EmojiRecord>, emojiObj: Object<string>): (result: Object<EmojiRecord>)
    requires WellFormed(emojiObj)
    decreases |emojiObj|
    ensures WellFormed(result)
    ensures forall k | k in KeysOf(result) :: k in KeysOf(emojiObj)
  {
    if |emojiObj| == 0 then []
    else
      var n := |emojiObj| - 1;
      LastKeyIsNew(emojiObj);
      var result := ConvertEach(convert, emojiObj[..n]);
      match convert(emojiObj[n].1)
      case None => result
      case Some(record) =>
        AppendNewKey(result, emojiObj[n].0, record);
        Set(result, emojiObj[n].0, record)
  }

  /** One more entry: its record, if any, goes at the end. */
  lemma ConvertEachLast(convert: string -> Option<EmojiRecord>, emojiObj: Object<string>)
    requires WellFormed(emojiObj) && |emojiObj| > 0
    ensures WellFormed(emojiObj[..|emojiObj| - 1])
    ensures var n := |emojiObj| - 1;
      var init := ConvertEach(convert, emojiObj[..n]);
      && emojiObj[n].0 !in KeysOf(init)
      && ConvertEach(convert, emojiObj) ==
        match convert(emojiObj[n].1)
        case None => init
        case Some(record) => init + [(emojiObj[n].0, record)]
  {
    var n := |emojiObj| - 1;
    LastKeyIsNew(emojiObj);
    var init := ConvertEach(convert, emojiObj[..n]);
    match convert(emojiObj[n].1)
    case None =>
    case Some(record) =>
      AppendNewKey(init, emojiObj[n].0, record);
  }

  /** `convertEmojisToBase64(emojiObj)`: an object whose keys are among
      the input's keys. */
  function ConvertEmojisToBase64(net: Network, transcode: Transcoder, emojiObj: Object<string>): (result: Object<EmojiRecord>)
    requires WellFormed(emojiObj)
    ensures WellFormed(result)
    ensures forall k | k in KeysOf(result) :: k in KeysOf(emojiObj)
  {
    ConvertEach(url => ConvertItem(net, transcode, url), emojiObj)
  }

  /** The key of entry `i` holds exactly what the loop body made of its URL,
      and nothing when the body failed. */
  lemma {:induction false} ConvertEachEntry(convert: string -> Option<EmojiRecord>, emojiObj: Object<string>, i: nat)
    requires WellFormed(emojiObj)
    requires i < |emojiObj|
    ensures Get(ConvertEach(convert, emojiObj), emojiObj[i].0) == convert(emojiObj[i].1)
    decreases |emojiObj|
  {
    var n := |emojiObj| - 1;
    if i < n {
      EarlierEntryUnchanged(convert, emojiObj, i);
      ConvertEachEntry(convert, emojiObj[..n], i);
    } else {
      ConvertEachGetStep(convert, emojiObj, emojiObj[i].0);
    }
  }

  /** An entry before the last one reads the same with or without the last
      entry converted. */
  lemma EarlierEntryUnchanged(convert: string -> Option<EmojiRecord>, emojiObj: Object<string>, i: nat)
    requires WellFormed(emojiObj)
    requires i < |emojiObj| - 1
    ensures WellFormed(emojiObj[..|emojiObj| - 1])
    ensures emojiObj[..|emojiObj| - 1][i] == emojiObj[i]
    ensures Get(ConvertEach(convert, emojiObj), emojiObj[i].0) ==
      Get(ConvertEach(convert, emojiObj[..|emojiObj| - 1]), emojiObj[i].0)
  {
    var n := |emojiObj| - 1;
    ConvertEachGetStep(convert, emojiObj, emojiObj[i].0);
    assert KeysOf(emojiObj)[i] != KeysOf(emojiObj)[n];
  }

  /** Reading a key after one more entry: the last entry's key reads as its
      own conversion, any other key as before. */
  lemma ConvertEachGetStep(convert: string -> Option<EmojiRecord>, emojiObj: Object<string>, k: string)
    requires WellFormed(emojiObj) && |emojiObj| > 0
    ensures WellFormed(emojiObj[..|emojiObj| - 1])
    ensures var n := |emojiObj| - 1;
      Get(ConvertEach(convert, emojiObj), k) ==
        if k == emojiObj[n].0 then convert(emojiObj[n].1) else Get(ConvertEach(convert, emojiObj[..n]), k)
  {
    var n := |emojiObj| - 1;
    ConvertEachLast(convert, emojiObj);
    var result := ConvertEach(convert, emojiObj[..n]);
    match convert(emojiObj[n].1)
    case None =>
    case Some(record) =>
      SetNew(result, emojiObj[n].0, record);
      SetGet(result, emojiObj[n].0, record, k);
  }

  /** Every entry is converted on its own: its key holds a record exactly
      when the fetch returned a body and the body transcoded, and then the
      record carries the transcoded image and the code points of its URL. */
  lemma ConvertedEntry(net: Network, transcode: Transcoder, emojiObj: Object<string>, i: nat)
    requires WellFormed(emojiObj)
    requires i < |emojiObj|
    ensures var result := ConvertEmojisToBase64(net, transcode, emojiObj);
      var fetched := FetchWithRetries(net, emojiObj[i].1, RETRY_LIMIT).body;
      && (emojiObj[i].0 in KeysOf(result) <==> fetched.Some? && transcode(fetched.value).Some?)
      && (emojiObj[i].0 in KeysOf(result) ==>
            Get(result, emojiObj[i].0) == Some(EmojiRecord(transcode(fetched.value).value, ExtractUnicodeCodes(emojiObj[i].1))))
  {
    ConvertEachEntry(url => ConvertItem(net, transcode, url), emojiObj, i);
  }

  /** Converting two halves separately and concatenating the results is the
      same as converting the whole: entries are handled one by one, in order,
      and a failing entry only drops itself. */
  lemma {:induction false} ConvertEachAppend(convert: string -> Option<EmojiRecord>, a: Object<string>, b: Object<string>)
    requires WellFormed(a + b)
    ensures WellFormed(a) && WellFormed(b)
    ensures ConvertEach(convert, a + b) == ConvertEach(convert, a) + ConvertEach(convert, b)
    decreases |b|
  {
    var ab := a + b;
    assert a == ab[0..|a|];
    assert b == ab[|a|..|ab|];
    SliceWellFormed(ab, 0, |a|);
    SliceWellFormed(ab, |a|, |ab|);
    if |b| == 0 {
      assert ab == a;
    } else {
      var n := |b| - 1;
      var init := b[..n];
      var key := b[n].0;
      assert ab[..|ab| - 1] == a + init;
      assert ab[|ab| - 1] == b[n];
      ConvertEachLast(convert, ab);
      ConvertEachLast(convert, b);
      ConvertEachAppend(convert, a, init);
      var ra := ConvertEach(convert, a);
      var ri := ConvertEach(convert, init);
      match convert(b[n].1)
      case None =>
      case Some(record) =>
        AppendAssoc(ra, ri, [(key, record)]);
    }
  }

  /** `ConvertEachAppend` for the scraper's own loop body. */
  lemma ConvertAppend(net: Network, transcode: Transcoder, a: Object<string>, b: Object<string>)
    requires WellFormed(a + b)
    ensures WellFormed(a) && WellFormed(b)
    ensures ConvertEmojisToBase64(net, transcode, a + b) ==
      ConvertEmojisToBase64(net, transcode, a) + ConvertEmojisToBase64(net, transcode, b)
  {
    ConvertEachAppend(url => ConvertItem(net, transcode, url), a, b);
  }

  /** Entries per segment file. */
  const SEGMENT_SIZE: nat := 500

  /** Index of the first chunk the main loop processes. */
  const FIRST_CHUNK: nat := 6

  /** `emojis_base64_segment_<number>.json` with its content. */
  datatype SegmentFile = SegmentFile(number: nat, content: Segment)

  /** What the loop writes for one chunk: the shared prefix and the
      converted entries. */
  function ChunkSegment(net: Network, transcode: Transcoder, chunk: Object<string>): (seg: Segment)
    requires WellFormed(chunk)
    ensures seg.prefix == PREFIX
    ensures WellFormed(seg.emojis)
    ensures forall k | k in KeysOf(seg.emojis) :: k in KeysOf(chunk)
  {
    Segment(PREFIX, ConvertEmojisToBase64(net, transcode, chunk))
  }

  /** The segment of every chunk, in chunk order. */
  function ChunkSegments(net: Network, transcode: Transcoder, chunks: seq<Object<string>>): (segments: seq<Segment>)
    requires forall c | 0 <= c < |chunks| :: WellFormed(chunks[c])
    ensures |segments| == |chunks|
    ensures forall c | 0 <= c < |chunks| :: segments[c] == ChunkSegment(net, transcode, chunks[c])
  {
    seq(|chunks|, c requires 0 <= c < |chunks| => ChunkSegment(net, transcode, chunks[c]))
  }

  /** The writes of the main loop from chunk index `i` on, given the
      segment each chunk yields: chunk `i` is written as segment number
      `i + 1`, then the loop moves to the next chunk. */
  function WriteFrom(segments: seq<Segment>, i: nat): (files: seq<SegmentFile>)
    decreases |segments| - i
    ensures |files| == if i < |segments| then |segments| - i else 0
  {
    if i >= |segments| then []
    else [SegmentFile(i + 1, segments[i])] + WriteFrom(segments, i + 1)
  }

  /** The `j`-th file written from chunk `i` on is segment number `i + j + 1`
      and holds the segment of chunk `i + j`. */
  lemma {:induction false} WrittenFile(segments: seq<Segment>, i: nat, j: nat)
    requires i + j < |segments|
    ensures WriteFrom(segments, i)[j] == SegmentFile(i + j + 1, segments[i + j])
    decreases j
  {
    if j > 0 {
      WrittenFile(segments, i + 1, j - 1);
    }
  }

  /** `WrittenFile` for every file at once. */
  lemma WrittenFiles(segments: seq<Segment>, i: nat)
    ensures forall j | 0 <= j < |WriteFrom(segments, i)| :: WriteFrom(segments, i)[j] == SegmentFile(i + j + 1, segments[i + j])
  {
    forall j | 0 <= j < |WriteFrom(segments, i)|
      ensures WriteFrom(segments, i)[j] == SegmentFile(i + j + 1, segments[i + j])
    {
      WrittenFile(segments, i, j);
    }
  }

  /** The main loop from chunk index `i` on: one file per remaining chunk,
      file `j` numbered `i + j + 1` and holding the prefix and the converted
      chunk `i + j`. A chunk before `i` is never written, so converting it
      here has no effect on the result. */
  function ProcessChunks(net: Network, transcode: Transcoder, chunks: seq<Object<string>>, i: nat): (files: seq<SegmentFile>)
    requires forall c | 0 <= c < |chunks| :: WellFormed(chunks[c])
    ensures |files| == if i < |chunks| then |chunks| - i else 0
    ensures forall j | 0 <= j < |files| :: files[j] == SegmentFile(i + j + 1, ChunkSegment(net, transcode, chunks[i + j]))
  {
    var segments := ChunkSegments(net, transcode, chunks);
    WrittenFiles(segments, i);
    WriteFrom(segments, i)
  }

  /** The main function: split the source list into chunks of
      `SEGMENT_SIZE` and process them from `FIRST_CHUNK` on. */
  function RunScraper(net: Network, transcode: Transcoder, source: Object<string>): (files: seq<SegmentFile>)
    requires WellFormed(source)
    ensures var chunkCount := CeilDiv(|source|, SEGMENT_SIZE);
      |files| == if chunkCount > FIRST_CHUNK then chunkCount - FIRST_CHUNK else 0
    ensures forall j | 0 <= j < |files| :: files[j].number == FIRST_CHUNK + j + 1 && files[j].content.prefix == PREFIX
  {
    var chunks := SplitObject(source, SEGMENT_SIZE);
    ChunksWellFormed(source);
    ProcessChunks(net, transcode, chunks, FIRST_CHUNK)
  }

  lemma ChunksWellFormed(source: Object<string>)
    requires WellFormed(source)
    ensures forall c | 0 <= c < |SplitObject(source, SEGMENT_SIZE)| :: WellFormed(SplitObject(source, SEGMENT_SIZE)[c])
  {
    var chunks := SplitObject(source, SEGMENT_SIZE);
    forall c | 0 <= c < |chunks|
      ensures WellFormed(chunks[c])
    {
      ChunkIsSlice(source, SEGMENT_SIZE, 0, c, c * SEGMENT_SIZE);
      SliceWellFormed(source, c * SEGMENT_SIZE, Min(c * SEGMENT_SIZE + SEGMENT_SIZE, |source|));
    }
  }

  /** A position outside `[lo, hi)` has a key that the slice does not
      contain, as no other position of `source` holds that key. */
  lemma KeyOnlyAt(source: Object<string>, p: nat, lo: nat, hi: nat)
    requires WellFormed(source)
    requires p < |source|
    requires lo <= hi <= |source|
    requires !(lo <= p < hi)
    ensures source[p].0 !in KeysOf(source[lo..hi])
  {
    var s := source[lo..hi];
    forall a | 0 <= a < |s|
      ensures KeysOf(s)[a] != source[p].0
    {
      assert KeysOf(s)[a] == KeysOf(source)[lo + a];
      assert KeysOf(source)[p] == source[p].0;
    }
  }

  /** Converting a slice of the source: the entry at position `p` is there,
      as its own conversion gives it, exactly when `p` lies in the slice. */
  lemma SliceGet(convert: string -> Option<EmojiRecord>, source: Object<string>, lo: nat, hi: nat, p: nat)
    requires WellFormed(source)
    requires lo <= hi <= |source|
    requires p < |source|
    ensures WellFormed(source[lo..hi])
    ensures Get(ConvertEach(convert, source[lo..hi]), source[p].0) == if lo <= p < hi then convert(source[p].1) else None
  {
    SliceWellFormed(source, lo, hi);
    if lo <= p < hi {
      SliceGetInside(convert, source, lo, hi, p);
    } else {
      SliceGetOutside(convert, source, lo, hi, p);
    }
  }

  lemma SliceGetInside(convert: string -> Option<EmojiRecord>, source: Object<string>, lo: nat, hi: nat, p: nat)
    requires lo <= p < hi <= |source|
    requires WellFormed(source[lo..hi])
    ensures Get(ConvertEach(convert, source[lo..hi]), source[p].0) == convert(source[p].1)
  {
    var slice := source[lo..hi];
    var entry := source[p];
    ConvertEachEntry(convert, slice, p - lo);
    assert slice[p - lo] == entry;
  }

  lemma SliceGetOutside(convert: string -> Option<EmojiRecord>, source: Object<string>, lo: nat, hi: nat, p: nat)
    requires WellFormed(source)
    requires lo <= hi <= |source|
    requires p < |source| && !(lo <= p < hi)
    requires WellFormed(source[lo..hi])
    ensures Get(ConvertEach(convert, source[lo..hi]), source[p].0) == None
  {
    KeyOnlyAt(source, p, lo, hi);
  }

  /** The converted chunk `d` holds the entry at position `p` exactly when
      `p` falls in that chunk, and then as its own conversion gives it. */
  lemma ChunkGet(net: Network, transcode: Transcoder, source: Object<string>, d: nat, p: nat)
    requires WellFormed(source)
    requires p < |source|
    requires d < |SplitObject(source, SEGMENT_SIZE)|
    ensures WellFormed(SplitObject(source, SEGMENT_SIZE)[d])
    ensures Get(ConvertEmojisToBase64(net, transcode, SplitObject(source, SEGMENT_SIZE)[d]), source[p].0) ==
      if d == p / SEGMENT_SIZE then ConvertItem(net, transcode, source[p].1) else None
  {
    var start := d * SEGMENT_SIZE;
    var end := Min(start + SEGMENT_SIZE, |source|);
    ChunkIsSlice(source, SEGMENT_SIZE, 0, d, start);
    assert d == p / SEGMENT_SIZE <==> start <= p < end by {
      if start <= p < end {
        DivUnique(p, SEGMENT_SIZE, d);
      }
      if d == p / SEGMENT_SIZE {
        DivFloor(p, SEGMENT_SIZE);
        EntryPlacement(source, SEGMENT_SIZE, p);
      }
    }
    SliceGet(url => ConvertItem(net, transcode, url), source, start, end, p);
  }

  /** Where an entry of the source list ends up: only in segment number
      `p / 500 + 1`, and there exactly as its own conversion gives it; the
      first `6 * 500` entries are in no written segment at all. */
  lemma EntryLandsInItsSegment(net: Network, transcode: Transcoder, source: Object<string>, p: nat)
    requires WellFormed(source)
    requires p < |source|
    ensures var files := RunScraper(net, transcode, source);
      forall j | 0 <= j < |files| ::
        Get(files[j].content.emojis, source[p].0) ==
          if files[j].number == p / SEGMENT_SIZE + 1 then ConvertItem(net, transcode, source[p].1) else None
    ensures var files := RunScraper(net, transcode, source);
      p / SEGMENT_SIZE >= FIRST_CHUNK <==> exists j | 0 <= j < |files| :: files[j].number == p / SEGMENT_SIZE + 1
  {
    var files := RunScraper(net, transcode, source);
    var c := p / SEGMENT_SIZE;
    forall j | 0 <= j < |files|
      ensures Get(files[j].content.emojis, source[p].0) ==
        if files[j].number == c + 1 then ConvertItem(net, transcode, source[p].1) else None
    {
      WrittenFileGet(net, transcode, source, p, j);
    }
    EntryPlacement(source, SEGMENT_SIZE, p);
    if c >= FIRST_CHUNK {
      assert files[c - FIRST_CHUNK].number == c + 1;
    }
  }

  /** The written file `j` holds chunk `FIRST_CHUNK + j`: it has the entry at
      position `p` exactly when that is the entry's chunk. */
  lemma WrittenFileGet(net: Network, transcode: Transcoder, source: Object<string>, p: nat, j: nat)
    requires WellFormed(source)
    requires p < |source|
    requires j < |RunScraper(net, transcode, source)|
    ensures Get(RunScraper(net, transcode, source)[j].content.emojis, source[p].0) ==
      if FIRST_CHUNK + j == p / SEGMENT_SIZE then ConvertItem(net, transcode, source[p].1) else None
  {
    var chunks := SplitObject(source, SEGMENT_SIZE);
    ChunksWellFormed(source);
    ChunkGet(net, transcode, source, FIRST_CHUNK + j, p);
  }
}
