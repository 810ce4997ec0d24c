/** The records the scraper writes and the library reads back: one emoji's
    encoded image and code points, and a segment of such records under the
    shared data-URI prefix. */
module Emoji {
  import opened Entries

  /** `{ b64, unicode }`: the base64 PNG and the `U+XXXX` tokens. */
  datatype EmojiRecord = EmojiRecord(b64: string, unicode: string)

  /** A segment file's content: `{ prefix, emojis }`. */
  datatype Segment = Segment(prefix: string, emojis: Object<EmojiRecord>)

  /** The data-URI prefix the scraper stores with every segment. */
  const PREFIX: string := "data:image/png;base64,"
}
