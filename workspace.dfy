/** The files the ingestion scripts read and write for one category directory
    (duas/, ziyarah/, books/, ...): the raw source document raw.txt, the
    category's index.json and the per-language text records
    text/<language>/<id>.json. */
module Workspace {
  import opened Wrappers
  import opened Json

  /** The location text/<language>/<id>.json. Two pairs are two files: a
      "/" or ".." inside a language or id, which could make two pairs name
      one file, is not modelled. */
  datatype TextPath = TextPath(language: string, id: string)

  /** The contents of the files at one moment. A text record that is present
      but does not decode is `None`. */
  datatype Snapshot = Snapshot(
    raw: string,
    index: JsonFile,
    texts: map<TextPath, Option<Value>>)

  class Store {
    var raw: string
    var index: JsonFile
    var texts: map<TextPath, Option<Value>>

    constructor (s: Snapshot)
      ensures State() == s
    {
      raw, index, texts := s.raw, s.index, s.texts;
    }

    function State(): Snapshot
      reads this
    {
      Snapshot(raw, index, texts)
    }
  }
}
