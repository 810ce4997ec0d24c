# EmojiLib in Dafny

A model of the two halves of EmojiLib, with proofs about them.

- `utils/scraper.js` is the ingestion script. It splits a name-to-URL list into
  chunks of 500. For each chunk from index 6 on, it fetches every image with
  up to three attempts and transcodes it to a base64 PNG. It records the
  image's code points as `U+XXXX` tokens taken from the URL, and writes one
  segment file `{ prefix, emojis }` per chunk.
- `index.js` is the library. It loads eight segment files and merges their
  `emojis` objects with object spread. It takes the data-URI prefix from the
  first segment and serves lookups by name, lookups by code-point string, and
  the whole merged object.

The network and the image transcoder are parameters:

- A `Network` gives the outcome of attempt `k` for a URL. The outcome is a
  response with a status and a body, or a thrown request.
- A `Transcoder` maps fetched bytes to a base64 string, or to nothing when
  `sharp` throws.

Writing a file is modelled as producing its number and content. JavaScript
objects are modelled as their ordered entry lists (`Entries.Object`):

- Property assignment keeps an existing key in place and appends a new one.
- Object spread assigns the source's entries onto the target one by one.

Modules, one per concern:

| module | file | models |
|---|---|---|
| `Seqs` | seqs.dfy | flatten, JavaScript `split`/`join` on one separator, first-occurrence `Distinct` |
| `Entries` | entries.dfy | objects as entry lists: read, assignment, spread, the merge of several objects |
| `UnicodeCodes` | unicode_codes.dfy | `extractUnicodeCodes` and the global regex it runs |
| `Fetcher` | fetcher.dfy | `fetchWithRetries` over abstract attempt outcomes |
| `Chunking` | chunking.dfy | `splitObject` |
| `Emoji` | emoji.dfy | the record and segment shapes and the prefix constant |
| `Scraper` | scraper.dfy | `convertEmojisToBase64` and the main loop |
| `EmojiLib` | emoji_lib.dfy | index.js: load, merge, prefix and the three lookups |

The code has no decompression of the segments, no once-only lazy loading,
no code-point index and no count of the emojis. It reads plain JSON eagerly
at module load, and `getEmojiByUnicode` scans the merged entries and returns
the first match.

## Model

| member | source | states |
|---|---|---|
| `UnicodeCodes.OnlyMaximalRunMatches` | utils/scraper.js:19 | the regex accepts a capture from position `i` to `j` exactly when `i` holds `_`, the run after it is non-empty, and `j` is the end of the maximal hex/hyphen run, followed by `_` or `.`; a shorter run can never be followed by a delimiter |
| `UnicodeCodes.ScanFrom` | utils/scraper.js:19-20 | every group the global scan captures is a non-empty run of `[0-9a-fA-F-]` |
| `UnicodeCodes.ScanFindsEveryMatch` | utils/scraper.js:19-20 | the scan, which resumes at the delimiter after each match, captures exactly the groups at every position where the pattern matches, left to right, so `_a_b.` matches twice |
| `Seqs.Split` | utils/scraper.js:21 | `split("-")` gives one piece more than there are separators, and no piece contains the separator or anything not in the input |
| `Seqs.SplitAtSeparator` | utils/scraper.js:21 | splitting at a separator gives the pieces of what precedes it followed by the pieces of what follows it |
| `Seqs.LeadingSeparator` | utils/scraper.js:21 | a separator at the start gives an empty first piece before the pieces of the rest |
| `Seqs.TrailingSeparator` | utils/scraper.js:21 | a separator at the end gives an empty last piece after the pieces of the rest |
| `Seqs.DoubledSeparator` | utils/scraper.js:21 | two adjacent separators give an empty piece between the pieces on either side |
| `Seqs.JoinSplit` | utils/scraper.js:21-23 | joining the pieces of a split with the same separator restores the input |
| `Seqs.SplitJoin` | utils/scraper.js:21-23 | joining at least one separator-free piece and splitting the result gives the pieces back, which is how the space-joined codes are read back as tokens |
| `UnicodeCodes.Tokens` | utils/scraper.js:20-23 | one token per hyphen-separated piece of the groups, and every token is `U+` followed only by characters of `0-9A-F` |
| `UnicodeCodes.PiecesAreHex` | utils/scraper.js:20-22 | splitting the groups on `-` leaves pieces made of hexadecimal digits only |
| `UnicodeCodes.TokenCount` | utils/scraper.js:20-23 | the number of tokens is the sum over the groups of one more than their hyphen count |
| `UnicodeCodes.ExtractUnicodeCodes` | utils/scraper.js:18-24 | the result is `""` exactly when no match starts anywhere in the URL; otherwise splitting it on spaces gives back the tokens of the matches found at every position |
| `UnicodeCodes.JoinTokens` | utils/scraper.js:20-23 | joining the tokens of some groups with spaces is empty exactly when there are no groups, and otherwise splits back into the tokens, as no token holds a space |
| `UnicodeCodes.NoMatchesIff` | utils/scraper.js:19-20 | the reference finds no group exactly when no match starts at any position |
| `UnicodeCodes.AdjacentMatches` | utils/scraper.js:19-23 | `_a_b.` gives `U+A U+B`: two matches sharing the underscore between them |
| `UnicodeCodes.EmptyPiece` | utils/scraper.js:20-23 | `_-a.` gives `U+ U+A`: a leading hyphen yields a token with an empty suffix |
| `UnicodeCodes.NoMatchGivesEmpty` | utils/scraper.js:18-24 | every URL without `_`, such as `face.png`, gives the empty string |
| `Chunking.SplitFrom` | utils/scraper.js:106-108 | from index `i`, each chunk holds between 1 and `chunkSize` entries, and all but the last hold exactly `chunkSize` |
| `Chunking.SplitFromCovers` | utils/scraper.js:106-108 | from index `i`, the chunks concatenate in order to the remaining entries |
| `Chunking.SplitFromAt` | utils/scraper.js:106-108 | the first chunk from `i` is the slice at `i`, and every later chunk is a chunk of the loop resumed a full chunk further on |
| `Chunking.SplitObject` | utils/scraper.js:103-111 | `ceil(K / C)` chunks for `K` entries and chunk size `C` (none for no entries); they concatenate to the entries in order; every chunk but the last has exactly `C` entries |
| `Chunking.ChunkIsSlice` | utils/scraper.js:106-108 | chunk `c` is the slice of the entries from `c * C` to `min(c * C + C, K)` |
| `Chunking.EntryPlacement` | utils/scraper.js:106-108 | the entry at position `p` is in chunk `p / C`, which exists and starts at `p / C * C` |
| `Fetcher.FetchFrom` | utils/scraper.js:38-66 | from attempt `a` on: the attempts used stay within `a..retries`, every earlier attempt failed, a body comes from a succeeding attempt, and `null` comes only after the last attempt failed |
| `Fetcher.FetchWithRetries` | utils/scraper.js:37-67 | between 1 and `retries` attempts; the body of the first attempt with an ok (2xx) status; `null` exactly when all `retries` attempts fail, with a non-ok status counted as a failure |
| `Fetcher.FetchSeesOnlyAttemptsMade` | utils/scraper.js:38-55 | the result depends only on the attempts made: a network that agrees on those gives the same result, so nothing is fetched after the first success |
| `Fetcher.AlwaysFailingUrl` | utils/scraper.js:56-63 | with the default limit, a URL that never answers ok gives `null` after exactly three attempts |
| `Entries.Get` | index.js:54-55 | reading a key gives a value exactly when the key is present, and the value is that of an entry with that key |
| `Entries.GetEntry` | index.js:54-55 | in an object without repeated keys, reading entry `i`'s key gives entry `i`'s value |
| `Entries.Set` | utils/scraper.js:90-93 | assignment keeps an existing key in place and appends a new key at the end, so the key order changes only by that one key |
| `Entries.SetGet` | utils/scraper.js:90-93 | after assignment the key reads as the new value, and every other key reads as before |
| `Entries.SetNew` | utils/scraper.js:90-93 | assigning a key the object lacks appends exactly one entry |
| `Entries.Spread` | index.js:28-37 | spreading keeps keys unique, and the keys afterwards are those of the target and the source |
| `Entries.SpreadGet` | index.js:28-37 | after a spread, a key of the source reads as the source's value; any other key keeps the target's value |
| `Entries.SpreadKeyOrder` | index.js:28-37 | spreading onto `{}` orders keys by their first occurrence in the source |
| `Entries.MergeAll` | index.js:28-37 | the merged object has no repeated key, and its keys are the union of the objects' keys |
| `Entries.MergeAllIsOneSpread` | index.js:28-37 | spreading the objects one after another is one spread of all their entries in sequence |
| `Entries.MergeAllLastWins` | index.js:28-37 | a key takes its value from the highest-numbered object that has it |
| `Entries.MergeAllKeyOrder` | index.js:28-37 | the merged keys are the keys of all objects, in order, without repeats, each at its first occurrence |
| `Scraper.ConvertItem` | utils/scraper.js:83-93 | a record exactly when the fetch returned a body and the transcoder accepted it; then it comes from the first attempt that answered ok, its `b64` is that body transcoded and its `unicode` is `extractUnicodeCodes(url)`; no record when every attempt fails |
| `Scraper.ConvertEach` | utils/scraper.js:75-97 | the loop yields an object with unique keys, all of which are keys of the input |
| `Scraper.EarlierEntryUnchanged` | utils/scraper.js:75-97 | converting one more entry leaves the value read for every earlier entry's key unchanged |
| `Scraper.ConvertEachEntry` | utils/scraper.js:75-97 | each entry's key holds exactly what the loop body made of its own URL, and is absent when the body failed |
| `Scraper.ConvertEachLast` | utils/scraper.js:75-97 | one more entry leaves the earlier results alone and appends its own record, if any |
| `Scraper.ConvertEachAppend` | utils/scraper.js:75-97 | converting two parts separately and concatenating gives the conversion of the whole, so a failing entry removes no other |
| `Scraper.ConvertEmojisToBase64` | utils/scraper.js:70-100 | the result has unique keys, all taken from the input |
| `Scraper.ConvertedEntry` | utils/scraper.js:83-93 | a key is in the result exactly when its fetch gave a body and the body transcoded; its record then holds that base64 string and `extractUnicodeCodes(url)` |
| `Scraper.ConvertAppend` | utils/scraper.js:75-97 | converting two parts of the input separately and concatenating the results gives the conversion of the whole |
| `Scraper.ChunkSegment` | utils/scraper.js:128-135 | the content written for a chunk carries the data-URI prefix and converted entries with unique keys, all taken from the chunk |
| `Scraper.WriteFrom` | utils/scraper.js:125-135 | from chunk `i` on, exactly one file per remaining chunk, none when `i` is past the last chunk |
| `Scraper.WrittenFile` | utils/scraper.js:125-135 | the `j`-th file written from chunk `i` on is numbered `i + j + 1` and holds the segment of chunk `i + j` |
| `Scraper.WrittenFiles` | utils/scraper.js:125-135 | the same for every file written |
| `Scraper.ProcessChunks` | utils/scraper.js:125-135 | from chunk `i` on, one file per remaining chunk; file `j` is numbered `i + j + 1` and holds the prefix and the conversion of chunk `i + j` |
| `Scraper.RunScraper` | utils/scraper.js:120-136 | `max(0, ceil(K / 500) - 6)` files, numbered from 7 on, each with the data-URI prefix |
| `Scraper.ChunkGet` | utils/scraper.js:122-128 | converted chunk `d` holds the entry at position `p` exactly when `d = p / 500`, with its own conversion |
| `Scraper.WrittenFileGet` | utils/scraper.js:122-135 | written file `j` holds the entry at position `p` exactly when `p / 500 = 6 + j`, with that entry's own conversion |
| `Scraper.EntryLandsInItsSegment` | utils/scraper.js:120-136 | entry `p` appears only in the segment numbered `p / 500 + 1`, with its own conversion; such a segment is written exactly when `p / 500 >= 6`, so the first 3000 entries are in no written segment |
| `EmojiLib.Load` | index.js:28-39 | the merged object has no repeated key, and its keys are exactly the union of the eight segments' keys |
| `EmojiLib.GetEmojiByName` | index.js:53-58 | a string exactly when the name is a key, and then the prefix followed by the `b64` of the entry under that name |
| `EmojiLib.FirstWithUnicode` | index.js:44-48 | the position of the first entry whose `unicode` equals the argument, or the length when none does |
| `EmojiLib.GetEmojiByUnicode` | index.js:43-50 | `null` exactly when no merged record has that `unicode`; otherwise the prefix followed by the `b64` of the first such record in iteration order |
| `EmojiLib.GetAllEmojis` | index.js:59-61 | the merged object unchanged: the same keys in the same order, each with the record stored under it, so it lists exactly the names `getEmojiByName` serves, each with the payload served |
| `EmojiLib.ByNameLastWins` | index.js:28-58 | a name in several segments is served with the record of the highest-numbered segment holding it, under the first segment's prefix |
| `EmojiLib.ByNameAbsent` | index.js:53-58 | a name in no segment, such as `invalid_emoji` or `""`, gives `null` |
| `EmojiLib.MergedOrder` | index.js:28-37 | merged keys iterate in the order of their first occurrence across segments 1 to 8, even when a later segment supplies the value |
| `EmojiLib.OnlyFirstPrefixMatters` | index.js:39 | segments that differ only in the prefixes of segments 2 to 8 load to the same library |
| `EmojiLib.FirstMatchWins` | index.js:43-47 | in any library, the first record in iteration order with a given code-point string is the one served, whatever later records share it |
| `EmojiLib.EmptyUnicode` | index.js:43-49 | looking up `""` finds a record exactly when some record's `unicode` is empty, as it is for an image URL with no match |
| `EmojiLib.GrinningFaceMerged` | index.js:28-37 | segments 1 and 2 both hold `grinning-face`, with `AAA` and then `BBB`; the merged object is the single entry holding `BBB` |
| `EmojiLib.GrinningFace` | index.js:28-58 | in that case, both the lookup by name and the lookup by `U+1F600` serve `BBB` |

## Left out

- Reading and parsing the input list and the segment files, and writing the segments (utils/scraper.js:2,132-135; index.js:3-26). Segments arrive as parsed values; a written file is its number and content. A missing or malformed file, which makes the module load throw, is not modelled.
- The HTTPS agent, `node-fetch`, `AbortController` and the 15-second timer (utils/scraper.js:9-11,40-49). Each attempt is one abstract outcome. An aborted request and a rejected body read are both a thrown attempt.
- `sharp` resize/PNG re-encode and base64 encoding (utils/scraper.js:85-91). These are one opaque, possibly failing `Transcoder`. `Buffer.from(null)` throwing on a failed fetch is modelled as skipping the entry.
- Logging, `process.memoryUsage`, `global.gc` and the 30-second sleep (utils/scraper.js:77-82,107,126,136-150). They have no effect on data.
- The outer `try`/`catch` of the main loop, which ends the run if a write throws (utils/scraper.js:154-156). This is left out because writes are not modelled.
- The unused `getBase64` (utils/scraper.js:27-34) and the demo `console.log` lines (index.js:66-70).
- JavaScript key-ordering rules for integer-like keys, and inherited properties such as `constructor`. Such a key would pass the truthiness test of `getEmojiByName` (index.js:54). Names are treated as plain string keys, in insertion order.
- `Fetcher.FetchWithRetries`: every attempt is modelled as ending with an outcome. In the code the 15-second timer is cleared (utils/scraper.js:49) before the body is read (utils/scraper.js:55), so a body that stalls after the headers can keep an attempt, and the whole run, waiting forever.
- `EmojiLib.GetAllEmojis`: the model returns a value. The code returns the live `segmentedEmojis` object (index.js:60), so a caller that changes it changes what `getEmojiByName` and `getEmojiByUnicode` answer afterwards; this aliasing is not modelled.
- The network is a function of the URL and the attempt number, so two entries with the same URL see the same outcomes. The code fetches them separately and they could differ; no property proved here depends on this.
- A chunk size of 0 or less (a loop that never ends) and fewer than one retry (an `undefined` result). Both are excluded by preconditions.
- Characters are Dafny `char`s. `toUpperCase` is modelled for ASCII letters only, which is all a captured group can contain.
- The test suite: its stubs of `readFile` and `gunzip`, which index.js never calls, and its call to a missing `getLengthOfAllEmojis`.
- `UnicodeCodes.Tokens` does not state each token's suffix as the upper-cased piece. That is its definition; its contract states the count and the token shape, and the examples fix concrete outputs.
