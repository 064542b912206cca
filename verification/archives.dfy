/** Archive entries: a name (the entry's relative path) and its content. */
module Archives {
  import opened Streams

  datatype Entry = Entry(name: string, bytes: Bytes)

  /** An archive, seen as its entries in stream order. */
  type Archive = seq<Entry>
}
