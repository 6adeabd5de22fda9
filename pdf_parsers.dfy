/** The PDF parsers of `langchain/document_loaders/parsers/pdf.py`. The libraries
    that read PDFs and recognise text are outside the model: what they produce
    (page texts, page counts, document metadata, OCR regions) is an input, and
    the model states how each parser turns it into `Document`s. */
module PdfParsers {
  import opened Wrappers
  import opened Schema
  import opened PyStrings
  import opened PosixPath

  /** Keyword arguments forwarded to a library's text extraction call. */
  type Kwargs = map<string, Value>

  // ---------------------------------------------------------------------------
  // PyPDFParser, PDFMinerParser, PyPDFium2Parser: plain page metadata

  /** The metadata `{"source": ..., "page": ...}` of a single page. */
  function PageMetadata(source: Value, page: int): (m: Metadata)
    ensures m.Keys == {"source", "page"}
    ensures m["source"] == source && m["page"] == Int(page)
  {
    map["source" := source, "page" := Int(page)]
  }

  /** `PyPDFParser.lazy_parse`: one document per page of the reader, in page
      order, numbered from 0; `pageTexts[i]` is what `extract_text()` returns
      for page i. */
  function PyPdfParse(blob: Blob, pageTexts: seq<string>): (docs: seq<Document>)
    ensures |docs| == |pageTexts|
    ensures Contents(docs) == pageTexts
    ensures forall i :: 0 <= i < |docs| ==> docs[i].metadata == PageMetadata(SourceValue(blob), i)
  {
    seq(|pageTexts|, i requires 0 <= i < |pageTexts| =>
      Document(pageTexts[i], PageMetadata(SourceValue(blob), i)))
  }

  /** `PDFMinerParser.lazy_parse`: the whole text as a single document whose
      metadata holds the source only. */
  function PdfMinerParse(blob: Blob, text: string): (docs: seq<Document>)
    ensures |docs| == 1
    ensures docs[0].pageContent == text
    ensures docs[0].metadata.Keys == {"source"} && docs[0].metadata["source"] == SourceValue(blob)
  {
    [Document(text, map["source" := SourceValue(blob)])]
  }

  /** `PyPDFium2Parser.lazy_parse`: the same page loop written as a loop; it
      yields exactly the documents `PyPDFParser` yields for the same page texts. */
  method PyPdfium2Parse(blob: Blob, pageTexts: seq<string>) returns (docs: seq<Document>)
    ensures docs == PyPdfParse(blob, pageTexts)
  {
    docs := [];
    var pageNumber := 0;
    while pageNumber < |pageTexts|
      invariant 0 <= pageNumber <= |pageTexts|
      invariant |docs| == pageNumber
      invariant forall i :: 0 <= i < pageNumber ==>
        docs[i] == Document(pageTexts[i], PageMetadata(SourceValue(blob), i))
    {
      var content := pageTexts[pageNumber];
      var metadata := map["source" := SourceValue(blob), "page" := Int(pageNumber)];
      docs := docs + [Document(content, metadata)];
      pageNumber := pageNumber + 1;
    }
    assert forall i :: 0 <= i < |docs| ==> docs[i] == PyPdfParse(blob, pageTexts)[i];
  }

  // ---------------------------------------------------------------------------
  // PyMuPDFParser, PDFPlumberParser: base metadata merged with document metadata

  /** `type(v) in [str, int]`: exactly strings and integers; booleans (whose type
      is `bool`), `None`, floats and everything else are dropped. */
  predicate HasStrOrIntType(v: Value)
  {
    v.Str? || v.Int?
  }

  /** The comprehension `{k: meta[k] for k in meta if type(meta[k]) in [str, int]}`. */
  function StrOrIntEntries(docMeta: Metadata): (kept: Metadata)
    ensures forall k :: k in kept <==> k in docMeta && HasStrOrIntType(docMeta[k])
    ensures forall k :: k in kept ==> kept[k] == docMeta[k]
  {
    map k | k in docMeta && HasStrOrIntType(docMeta[k]) :: docMeta[k]
  }

  /** The four entries every page starts from. */
  function BaseMetadata(source: Value, page: int, totalPages: nat): (m: Metadata)
    ensures m.Keys == {"source", "file_path", "page", "total_pages"}
    ensures m["source"] == source && m["file_path"] == source
    ensures m["page"] == Int(page) && m["total_pages"] == Int(totalPages)
  {
    map["source" := source, "file_path" := source, "page" := Int(page), "total_pages" := Int(totalPages)]
  }

  /** `dict(base, **entries)` with the str/int entries of the document metadata:
      every base key stays, a kept entry is added, and on a clash the document
      metadata wins. */
  function MergeMetadata(base: Metadata, docMeta: Metadata): (m: Metadata)
    ensures forall k :: k in m <==> k in base || (k in docMeta && HasStrOrIntType(docMeta[k]))
    ensures forall k :: k in docMeta && HasStrOrIntType(docMeta[k]) ==> m[k] == docMeta[k]
    ensures forall k :: k in base && !(k in docMeta && HasStrOrIntType(docMeta[k])) ==> m[k] == base[k]
  {
    base + StrOrIntEntries(docMeta)
  }

  /** `text_kwargs or {}`: a missing mapping becomes the empty one. */
  function NormaliseKwargs(textKwargs: Option<Kwargs>): (kwargs: Kwargs)
    ensures textKwargs.None? ==> kwargs == map[]
    ensures textKwargs.Some? ==> kwargs == textKwargs.value
  {
    match textKwargs
    case None => map[]
    case Some(m) => if m == map[] then map[] else m
  }

  /** A PyMuPDF parser keeps the keyword arguments for `fitz.Page.get_text()`. */
  datatype PyMuPdfParser = PyMuPdfParser(textKwargs: Kwargs)
  {
    /** `PyMuPDFParser.__init__`. */
    static function Create(textKwargs: Option<Kwargs>): (p: PyMuPdfParser)
      ensures p.textKwargs == NormaliseKwargs(textKwargs)
    {
      PyMuPdfParser(NormaliseKwargs(textKwargs))
    }

    /** `PyMuPDFParser.lazy_parse`: one document per page in order; `getText(i, kw)`
        stands for `page.get_text(**kw)` on page i, whose `page.number` is i. */
    function LazyParse(blob: Blob, pageCount: nat, getText: (nat, Kwargs) -> string, docMeta: Metadata)
      : (docs: seq<Document>)
      ensures |docs| == pageCount
      ensures forall i :: 0 <= i < pageCount ==> docs[i].pageContent == getText(i, textKwargs)
      ensures forall i :: 0 <= i < pageCount ==>
        docs[i].metadata == MergeMetadata(BaseMetadata(SourceValue(blob), i, pageCount), docMeta)
    {
      seq(pageCount, i requires 0 <= i < pageCount =>
        Document(getText(i, textKwargs),
                 MergeMetadata(BaseMetadata(SourceValue(blob), i, pageCount), docMeta)))
    }
  }

  /** A PDFPlumber parser keeps the keyword arguments for `Page.extract_text()`. */
  datatype PdfPlumberParser = PdfPlumberParser(textKwargs: Kwargs)
  {
    /** `PDFPlumberParser.__init__`. */
    static function Create(textKwargs: Option<Kwargs>): (p: PdfPlumberParser)
      ensures p.textKwargs == NormaliseKwargs(textKwargs)
    {
      PdfPlumberParser(NormaliseKwargs(textKwargs))
    }

    /** `PDFPlumberParser.lazy_parse`: as for PyMuPDF, except that pdfplumber's
        `page.page_number` counts from 1. */
    function LazyParse(blob: Blob, pageCount: nat, getText: (nat, Kwargs) -> string, docMeta: Metadata)
      : (docs: seq<Document>)
      ensures |docs| == pageCount
      ensures forall i :: 0 <= i < pageCount ==> docs[i].pageContent == getText(i, textKwargs)
      ensures forall i :: 0 <= i < pageCount ==>
        docs[i].metadata == MergeMetadata(BaseMetadata(SourceValue(blob), i + 1, pageCount), docMeta)
    {
      seq(pageCount, i requires 0 <= i < pageCount =>
        Document(getText(i, textKwargs),
                 MergeMetadata(BaseMetadata(SourceValue(blob), i + 1, pageCount), docMeta)))
    }
  }

  /** What the merge guarantees on every page of a PyMuPDF parse: the base keys are
      present, the document metadata's str/int entries are copied and override,
      nothing else is added, `file_path` equals `source` unless the document
      metadata overrides one of them, and all pages agree on `total_pages`. */
  lemma PyMuPdfMetadataFacts(p: PyMuPdfParser, blob: Blob, n: nat, getText: (nat, Kwargs) -> string,
                             docMeta: Metadata, i: nat, j: nat)
    requires i < n && j < n
    ensures var docs := p.LazyParse(blob, n, getText, docMeta);
      var m := docs[i].metadata;
      && {"source", "file_path", "page", "total_pages"} <= m.Keys
      && (forall k :: k in docMeta ==> (k in m && m[k] == docMeta[k] <== HasStrOrIntType(docMeta[k])))
      && (forall k :: k in m && k !in {"source", "file_path", "page", "total_pages"} ==>
            k in docMeta && HasStrOrIntType(docMeta[k]) && m[k] == docMeta[k])
      && (!(("source" in docMeta && HasStrOrIntType(docMeta["source"])) ||
            ("file_path" in docMeta && HasStrOrIntType(docMeta["file_path"])))
          ==> m["file_path"] == m["source"] == SourceValue(blob))
      && m["total_pages"] == docs[j].metadata["total_pages"]
  {
  }

  /** PDFPlumber's documents are PyMuPDF's with the page number shifted by one
      (when the document metadata does not itself carry a str/int `page`). */
  lemma PlumberPagesAreOneBased(kwargs: Kwargs, blob: Blob, n: nat, getText: (nat, Kwargs) -> string,
                                docMeta: Metadata, i: nat)
    requires i < n
    requires !("page" in docMeta && HasStrOrIntType(docMeta["page"]))
    ensures var mu := PyMuPdfParser(kwargs).LazyParse(blob, n, getText, docMeta)[i];
      var plumber := PdfPlumberParser(kwargs).LazyParse(blob, n, getText, docMeta)[i];
      && plumber.pageContent == mu.pageContent
      && mu.metadata["page"] == Int(i)
      && plumber.metadata == mu.metadata["page" := Int(i + 1)]
  {
    var src := SourceValue(blob);
    var kept := StrOrIntEntries(docMeta);
    var base0, base1 := BaseMetadata(src, i, n), BaseMetadata(src, i + 1, n);
    assert "page" !in kept;
    assert base1 == base0["page" := Int(i + 1)];
    assert base1 + kept == (base0 + kept)["page" := Int(i + 1)];
  }

  // ---------------------------------------------------------------------------
  // Pix2TextParser: OCR regions assembled into page text

  /** One entry `{'type': ..., 'text': ...}` of the OCR output for a page image. */
  datatype Region = Region(kind: string, text: string)

  /** Where a region's text goes. */
  datatype Zone = HeaderZone | BodyZone | FooterZone | Dropped

  /** How the page loop classifies a region by its type: Footer, Header, Reference
      (dropped), and every other type into the body. */
  function ZoneOf(kind: string): (z: Zone)
    ensures z == HeaderZone <==> kind == "Header"
    ensures z == FooterZone <==> kind == "Footer"
    ensures z == Dropped <==> kind == "Reference"
  {
    if kind == "Footer" then FooterZone
    else if kind == "Header" then HeaderZone
    else if kind == "Reference" then Dropped
    else BodyZone
  }

  /** The in-order concatenation of the texts of the regions that belong to zone z. */
  function ZoneText(outs: seq<Region>, z: Zone): string
  {
    if outs == [] then ""
    else
      var last := outs[|outs| - 1];
      ZoneText(outs[..|outs| - 1], z) + (if ZoneOf(last.kind) == z then last.text else "")
  }

  /** The text of a page: header, body and footer, each followed by a blank-line
      separator. */
  function PageText(outs: seq<Region>): string
  {
    ZoneText(outs, HeaderZone) + "\n\n" + ZoneText(outs, BodyZone) + "\n\n" + ZoneText(outs, FooterZone) + "\n\n"
  }

  /** The region loop of `Pix2TextParser.lazy_parse` with its three accumulators. */
  method AssemblePage(outs: seq<Region>) returns (onlyText: string)
    ensures onlyText == PageText(outs)
  {
    var headerText, footerText, bodyText := "", "", "";
    for i := 0 to |outs|
      invariant headerText == ZoneText(outs[..i], HeaderZone)
      invariant footerText == ZoneText(outs[..i], FooterZone)
      invariant bodyText == ZoneText(outs[..i], BodyZone)
    {
      assert outs[..i + 1][..i] == outs[..i];
      var out := outs[i];
      if out.kind == "Footer" {
        footerText := footerText + out.text;
      } else if out.kind == "Header" {
        headerText := headerText + out.text;
      } else if out.kind == "Reference" {
        continue;
      } else {
        bodyText := bodyText + out.text;
      }
    }
    assert outs[..|outs|] == outs;
    onlyText := headerText + "\n\n" + bodyText + "\n\n" + footerText + "\n\n";
  }

  /** Each zone's text of a concatenation is the concatenation of the zone texts:
      regions keep their input order within a zone. */
  lemma {:induction false} ZoneTextAppend(a: seq<Region>, b: seq<Region>, z: Zone)
    ensures ZoneText(a + b, z) == ZoneText(a, z) + ZoneText(b, z)
  {
    if b == [] {
      assert a + b == a;
    } else {
      var last := b[|b| - 1];
      assert (a + b)[..|a + b| - 1] == a + b[..|b| - 1];
      ZoneTextAppend(a, b[..|b| - 1], z);
    }
  }

  lemma ZoneTextSingle(r: Region, z: Zone)
    ensures ZoneText([r], z) == if ZoneOf(r.kind) == z then r.text else ""
  {
    assert [r][..0] == [];
  }

  /** A `Reference` region, wherever it stands, leaves the page text unchanged. */
  lemma ReferenceRegionIgnored(a: seq<Region>, text: string, b: seq<Region>)
    ensures PageText(a + [Region("Reference", text)] + b) == PageText(a + b)
  {
    var r := Region("Reference", text);
    forall z: Zone | z != Dropped
      ensures ZoneText(a + [r] + b, z) == ZoneText(a + b, z)
    {
      ZoneTextAppend(a + [r], b, z);
      ZoneTextAppend(a, [r], z);
      ZoneTextAppend(a, b, z);
      ZoneTextSingle(r, z);
    }
  }

  /** The total length of the texts of the regions that are not references. */
  function KeptLength(outs: seq<Region>): nat
  {
    if outs == [] then 0
    else
      var last := outs[|outs| - 1];
      KeptLength(outs[..|outs| - 1]) + (if last.kind == "Reference" then 0 else |last.text|)
  }

  /** Every non-reference region lands in exactly one of the three zones, so the page
      text is as long as those texts together plus the three separators. */
  lemma {:induction false} PageTextLength(outs: seq<Region>)
    ensures |ZoneText(outs, HeaderZone)| + |ZoneText(outs, BodyZone)| + |ZoneText(outs, FooterZone)|
            == KeptLength(outs)
    ensures |PageText(outs)| == KeptLength(outs) + 6
  {
    if outs != [] {
      PageTextLength(outs[..|outs| - 1]);
    }
  }

  /** A page always ends with a blank line, and a page without regions is six newlines. */
  lemma PageTextShape(outs: seq<Region>)
    ensures EndsWith(PageText(outs), "\n\n")
    ensures PageText([]) == "\n\n\n\n\n\n"
  {
  }

  lemma ZoneTextSnoc(a: seq<Region>, r: Region, z: Zone)
    ensures ZoneText(a + [r], z) == ZoneText(a, z) + (if ZoneOf(r.kind) == z then r.text else "")
  {
    assert (a + [r])[..|a|] == a;
  }

  function ExampleRegions(h: string, b1: string, r: string, f: string, b2: string): seq<Region>
  {
    [Region("Header", h), Region("text", b1), Region("Reference", r), Region("Footer", f), Region("isolated", b2)]
  }

  lemma ExampleZoneText(h: string, b1: string, r: string, f: string, b2: string, z: Zone)
    requires z != Dropped
    ensures ZoneText(ExampleRegions(h, b1, r, f, b2), z)
            == (if z == HeaderZone then h else "") + (if z == BodyZone then b1 else "")
               + (if z == FooterZone then f else "") + (if z == BodyZone then b2 else "")
  {
    var r0, r1, r2, r3, r4 := Region("Header", h), Region("text", b1), Region("Reference", r),
                              Region("Footer", f), Region("isolated", b2);
    assert ZoneOf("Header") == HeaderZone && ZoneOf("text") == BodyZone && ZoneOf("Reference") == Dropped;
    assert ZoneOf("Footer") == FooterZone && ZoneOf("isolated") == BodyZone;
    var s1, s2, s3, s4 := [r0], [r0, r1], [r0, r1, r2], [r0, r1, r2, r3];
    assert s2 == s1 + [r1] && s3 == s2 + [r2] && s4 == s3 + [r3];
    assert ExampleRegions(h, b1, r, f, b2) == s4 + [r4];
    ZoneTextSingle(r0, z);
    ZoneTextSnoc(s1, r1, z);
    ZoneTextSnoc(s2, r2, z);
    ZoneTextSnoc(s3, r3, z);
    ZoneTextSnoc(s4, r4, z);
  }

  /** Regions in reading order: header, body, a reference, footer, more body. The
      header comes first and the footer last whatever their position, the two body
      regions keep their order, and the reference disappears. */
  lemma PageTextExample(h: string, b1: string, r: string, f: string, b2: string)
    ensures PageText(ExampleRegions(h, b1, r, f, b2)) == h + "\n\n" + (b1 + b2) + "\n\n" + f + "\n\n"
  {
    var all := ExampleRegions(h, b1, r, f, b2);
    ExampleZoneText(h, b1, r, f, b2, HeaderZone);
    assert ZoneText(all, HeaderZone) == h;
    ExampleZoneText(h, b1, r, f, b2, BodyZone);
    assert ZoneText(all, BodyZone) == b1 + b2;
    ExampleZoneText(h, b1, r, f, b2, FooterZone);
    assert ZoneText(all, FooterZone) == f;
  }

  /** The name of the temporary image for page idx: `pdf_name + '_page_' + str(idx) + '.png'`. */
  function ImageName(pdfName: string, idx: nat): string
  {
    pdfName + "_page_" + IntToDecimal(idx) + ".png"
  }

  /** Different pages of one file never share a temporary image. */
  lemma ImageNameInjective(pdfName: string, i: nat, j: nat)
    requires ImageName(pdfName, i) == ImageName(pdfName, j)
    ensures i == j
  {
    var prefix := pdfName + "_page_";
    var a, b := ImageName(pdfName, i), ImageName(pdfName, j);
    assert |IntToDecimal(i)| == |IntToDecimal(j)|;
    assert a[|prefix|..|a| - 4] == IntToDecimal(i);
    assert b[|prefix|..|b| - 4] == IntToDecimal(j);
    IntToDecimalInjective(i, j);
  }

  /** The file-system effects of the page loop, which are not modelled otherwise. */
  datatype ImageEvent = Saved(name: string) | Recognised(name: string) | Removed(name: string)

  /** For each page in turn the image is saved, passed to OCR, and removed. */
  function ImageEvents(pdfName: string, pageCount: nat): (events: seq<ImageEvent>)
  {
    if pageCount == 0 then []
    else
      var name := ImageName(pdfName, pageCount - 1);
      ImageEvents(pdfName, pageCount - 1) + [Saved(name), Recognised(name), Removed(name)]
  }

  /** Page idx owns events 3 * idx to 3 * idx + 2, and they all name the same image. */
  lemma {:induction false} ImageEventsOfPage(pdfName: string, pageCount: nat, idx: nat)
    requires idx < pageCount
    ensures var events := ImageEvents(pdfName, pageCount);
      var name := ImageName(pdfName, idx);
      && |events| == 3 * pageCount
      && events[3 * idx] == Saved(name)
      && events[3 * idx + 1] == Recognised(name)
      && events[3 * idx + 2] == Removed(name)
  {
    ImageEventsLength(pdfName, pageCount - 1);
    if idx < pageCount - 1 {
      ImageEventsOfPage(pdfName, pageCount - 1, idx);
    }
  }

  lemma ImageEventsSnoc(pdfName: string, n: nat)
    ensures var name := ImageName(pdfName, n);
      ImageEvents(pdfName, n + 1) == ImageEvents(pdfName, n) + [Saved(name), Recognised(name), Removed(name)]
  {
  }

  lemma {:induction false} ImageEventsLength(pdfName: string, pageCount: nat)
    ensures |ImageEvents(pdfName, pageCount)| == 3 * pageCount
  {
    if pageCount > 0 {
      ImageEventsLength(pdfName, pageCount - 1);
    }
  }

  /** One iteration of the page loop: the image of page idx is saved, recognised
      (`outs` is the OCR output) and removed, and the page becomes a document
      numbered idx + 1. */
  method ParsePage(blob: Blob, pdfName: string, idx: nat, outs: seq<Region>)
    returns (doc: Document, pageEvents: seq<ImageEvent>)
    ensures doc == Document(PageText(outs), PageMetadata(SourceValue(blob), idx + 1))
    ensures var name := ImageName(pdfName, idx); pageEvents == [Saved(name), Recognised(name), Removed(name)]
  {
    var image := ImageName(pdfName, idx);
    pageEvents := [Saved(image)];
    pageEvents := pageEvents + [Recognised(image)];
    var onlyText := AssemblePage(outs);
    pageEvents := pageEvents + [Removed(image)];
    doc := Document(onlyText, PageMetadata(SourceValue(blob), idx + 1));
  }

  /** The page loop of `Pix2TextParser.lazy_parse` for a file whose images are named
      after pdfName. */
  method ParsePages(blob: Blob, pdfName: string, pageRegions: seq<seq<Region>>)
    returns (docs: seq<Document>, events: seq<ImageEvent>)
    ensures |docs| == |pageRegions|
    ensures forall idx :: 0 <= idx < |docs| ==>
      docs[idx] == Document(PageText(pageRegions[idx]), PageMetadata(SourceValue(blob), idx + 1))
    ensures events == ImageEvents(pdfName, |pageRegions|)
  {
    docs, events := [], [];
    for idx := 0 to |pageRegions|
      invariant |docs| == idx
      invariant forall k :: 0 <= k < idx ==>
        docs[k] == Document(PageText(pageRegions[k]), PageMetadata(SourceValue(blob), k + 1))
      invariant events == ImageEvents(pdfName, idx)
    {
      var doc, pageEvents := ParsePage(blob, pdfName, idx, pageRegions[idx]);
      ImageEventsSnoc(pdfName, idx);
      ghost var before := docs;
      docs := docs + [doc];
      assert forall k :: 0 <= k < idx ==> docs[k] == before[k];
      events := events + pageEvents;
    }
  }

  /** `Pix2TextParser.lazy_parse`: for each page, in order, render the image under
      the name built from the file's stem, recognise its regions (`pageRegions[idx]`
      is the OCR output for page idx), assemble the page text, remove the image and
      yield a document numbered from 1. */
  method Pix2TextParse(blob: Blob, pageRegions: seq<seq<Region>>)
    returns (docs: seq<Document>, events: seq<ImageEvent>)
    ensures |docs| == |pageRegions|
    ensures forall idx :: 0 <= idx < |docs| ==>
      docs[idx] == Document(PageText(pageRegions[idx]), PageMetadata(SourceValue(blob), idx + 1))
    ensures events == ImageEvents(StripExtension(Basename(blob.path)), |pageRegions|)
  {
    var pdfNameExt := Basename(blob.path);
    var pdfName := StripExtension(pdfNameExt);
    docs, events := ParsePages(blob, pdfName, pageRegions);
  }
}
