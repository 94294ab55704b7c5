/** The dictionaries the extractors build entry by entry. */
module Fields {

  /** A dictionary value: a string, Python's `None`, or the nested
      `{"link": ..., "text": ...}` of a card's source. */
  datatype Field = Str(s: string) | Null | Source(link: string, text: string)

  /** One result entry: the keys the extractor set and their values. */
  type Entry = map<string, Field>
}
