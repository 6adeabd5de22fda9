/** The record types the parsers exchange with the rest of the framework:
    `Document` (page text plus metadata) and `Blob` (the input file). */
module Schema {
  import opened Wrappers

  /** The kinds of Python value that occur in PDF metadata. Only the kind matters
      to the code modelled here; `Bool` is kept apart from `Int` because
      `type(True)` is `bool`, not `int`. */
  datatype Value =
    | Str(s: string)
    | Int(i: int)
    | Bool(b: bool)
    | Float(r: real)
    | NoneValue
    | Other

  type Metadata = map<string, Value>

  /** A parsed chunk of text and what is known about where it came from. */
  datatype Document = Document(pageContent: string, metadata: Metadata)

  /** The input file: its path and the `source` it reports (None when unknown). */
  datatype Blob = Blob(path: string, source: Option<string>)

  /** `blob.source` as it is stored in metadata. */
  function SourceValue(blob: Blob): (v: Value)
    ensures blob.source.Some? <==> v.Str?
    ensures blob.source.Some? ==> v == Str(blob.source.value)
    ensures blob.source.None? ==> v == NoneValue
  {
    match blob.source
    case Some(s) => Str(s)
    case None => NoneValue
  }

  /** The texts of a sequence of documents, in order. */
  function Contents(docs: seq<Document>): (texts: seq<string>)
    ensures |texts| == |docs|
    ensures forall i :: 0 <= i < |docs| ==> texts[i] == docs[i].pageContent
  {
    seq(|docs|, i requires 0 <= i < |docs| => docs[i].pageContent)
  }
}
