/** What both pipelines hand back: the recovered text and a metadata mapping
    (a Python dict from key strings to integers or booleans). */
module Content {

  datatype MetaValue = IntValue(n: int) | BoolValue(b: bool)

  type Metadata = map<string, MetaValue>

  /** The text (for legacy documents, the string held by `WordDocumentContent`)
      together with its metadata. */
  datatype Extraction = Extraction(text: string, metadata: Metadata)
}
