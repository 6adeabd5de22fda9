# PDF parsers and the batch OCR driver of custom_langchain, in Dafny

This project models two parts of the repository and proves properties of them:

- **The PDF parsers** of `langchain/document_loaders/parsers/pdf.py`. These are
  `PyPDFParser`, `PDFMinerParser`, `PyMuPDFParser`, `PyPDFium2Parser`,
  `PDFPlumberParser` and the OCR-based `Pix2TextParser`. Each turns a `Blob` into
  a sequence of `Document`s, each a page text plus a metadata map.
- **The batch OCR driver** `chat_pdf.py`. It reads the device list from `--on`,
  selects the PDFs in `/pdfs/` that have no `ocr_results/<name>.json` yet, and
  starts one worker per device. It deals the files round-robin onto the workers'
  queues, closes every queue with a `None` sentinel, and lets each worker write
  the joined page texts of each of its files.

The PDF and OCR libraries are not modelled; their outputs are inputs. Page texts
are a sequence or a function `(page, kwargs) -> text`. Page counts and document
metadata are plain values. The OCR output of a page is a sequence of
`Region(kind, text)`. The loader used by a worker is a function from a path to
its documents.

Modules, one concept each:

- `Wrappers` (`wrappers.dfy`): `Option` and `Result`.
- `Arith` (`arith.dfy`): Euclidean division facts for the round-robin index
  arithmetic.
- `PyStrings` (`strings.dfy`): Python's `str(n)`, `int(s)`, `s.split(sep)`,
  `sep.join(parts)` and `s.endswith(suffix)`.
- `PosixPath` (`paths.dfy`): `os.path.basename` (also `os.path.split(p)[1]`),
  `os.path.splitext(p)[0]` and two-argument `os.path.join`.
- `Schema` (`schema.dfy`): `Document`, `Blob` and the metadata value kinds. A
  `bool` is kept apart from an `int`, because `type(True) in [str, int]` is false.
- `PdfParsers` (`pdf_parsers.dfy`): the six parsers.
- `ChatPdf` (`chat_pdf.py` → `chat_pdf.dfy`): the driver.

Where the source updates state step by step, the model does too, as a method
proved against a specification function:

- the PDFium2 page loop;
- the Pix2Text region loop with its three accumulators and its page loop;
- the worker start-up loop that pops devices;
- the round-robin `put` loop and the sentinel loop;
- the worker's `while True` loop and its `s += ...` loop.

The comprehensions of the other parsers, the `--on` lambda and the two file
filters are functions.

Two points of fidelity:

- `file_path` equals `source` on every PyMuPDF page whenever the document
  metadata does not itself carry a `str`/`int` `source` or `file_path`. The
  merge `dict(base, **kept)` lets such an entry override the base.
  `PyMuPdfMetadataFacts` states it with that condition.
- `--on` absent leaves `args.on` as `None`, and `len(None)` raises. The model
  reports this as `Failure(MissingOnArgument)`. An item that `int()` rejects
  makes argparse refuse the value: `Failure(InvalidOnValue(arg))`.

## Model

| member | source | states |
|---|---|---|
| PyStrings.NatToDecimal | chat_pdf.py:26 | `str(n)` of a natural number is non-empty, all digits, and starts with `0` only for `"0"` |
| PyStrings.IntToDecimal | chat_pdf.py:26 | `str(n)`: a minus sign for negatives, then the decimal digits of the magnitude; `ParseIntOfDecimal`, `IntToDecimalInjective` and `IntToDecimalCanonical` are its properties |
| PyStrings.DigitsValueOfDecimal | chat_pdf.py:26 | the decimal rendering of a natural number is a digit group whose value is that number |
| PyStrings.TrimLeft | chat_pdf.py:26 | the result is a suffix of the input, only whitespace was removed, and it does not start with whitespace |
| PyStrings.TrimRight | chat_pdf.py:26 | the result is a prefix of the input, only whitespace was removed, and it does not end with whitespace |
| PyStrings.Strip | chat_pdf.py:26 | removes the whitespace `int()` skips around its argument (space and `\t`..`\r`), the left and the right trim together; `TrimLeft` and `TrimRight` state what each removes |
| PyStrings.ParseInt | chat_pdf.py:26 | `int(s)`: surrounding whitespace stripped, one optional sign, then a digit group, otherwise `ValueError` as `None`; `ParseIntOfDecimal`, `ParseIntOfDigitGroup`, `ParseIntLeadingZero`, `ParseIntRejects` and `ParseIntRejectsEmpty` are its properties |
| PyStrings.ParseIntOfDecimal | chat_pdf.py:26 | `int(str(n)) == n` for every integer n (Python's limit on the number of digits aside, see "Left out") |
| PyStrings.IntToDecimalInjective | chat_pdf.py:26 | different integers render as different strings |
| PyStrings.IntToDecimalCanonical | chat_pdf.py:26 | `str(n)` has a sign exactly for negatives and no leading zero except the string `"0"` |
| PyStrings.ParseIntOfDigitGroup | chat_pdf.py:26 | a digit group (digits with single underscores between them) reads as its value |
| PyStrings.ParseIntLeadingZero | chat_pdf.py:26 | `int("0" + t) == int(t)` for a digit group t, so `"01"` and `"1"` name the same device |
| PyStrings.DigitsValueLeadingZero | chat_pdf.py:26 | a leading zero does not change the value of a digit string |
| PyStrings.ParseIntRejects | chat_pdf.py:26 | a single character that is not a digit, whitespace or a sign is rejected by `int()` |
| PyStrings.ParseIntRejectsEmpty | chat_pdf.py:26 | the empty string is rejected by `int()` |
| PyStrings.Split | chat_pdf.py:26 | `s.split(sep)` always has at least one part |
| PyStrings.SplitPartsHaveNoSeparator | chat_pdf.py:26 | no part of a split contains the separator |
| PyStrings.JoinSplit | chat_pdf.py:26 | joining the parts of a split gives back the original string |
| PyStrings.SplitJoin | chat_pdf.py:26 | splitting a join gives back the parts when no part holds the separator |
| PyStrings.SplitWithoutSeparator | chat_pdf.py:26 | a string without the separator splits into itself, and a separator after it starts a new part |
| PyStrings.EndsWith | chat_pdf.py:36 | `s.endswith(suffix)`: the suffix is no longer than s and equals its tail; `PdfFilesMembership` uses it for the `.pdf` test |
| PosixPath.RFind | langchain/document_loaders/parsers/pdf.py:177 | the result is the last index holding the character, or -1 when there is none |
| PosixPath.Basename | langchain/document_loaders/parsers/pdf.py:177 | the basename is a suffix of the path, holds no `/`, and is preceded by `/` when shorter than the path |
| PosixPath.StripExtension | langchain/document_loaders/parsers/pdf.py:178 | the stem is a prefix of the path; when it differs, the cut is at a dot and the removed extension holds neither `.` nor `/` |
| PosixPath.StripExtensionOf | langchain/document_loaders/parsers/pdf.py:178 | `splitext(name + "." + ext)[0] == name` for a one-component name that is not all dots |
| PosixPath.StripExtensionDotFile | langchain/document_loaders/parsers/pdf.py:178 | `".bashrc"` keeps its name, and `"a/report.v2.pdf"` loses only `".pdf"` |
| PosixPath.Join | chat_pdf.py:36 | two-argument `os.path.join`: an absolute second part replaces the first, otherwise a `/` is inserted unless the first part is empty or ends with one; `BasenameOfJoin` and `ResultPathOfListed` are its properties |
| PosixPath.BasenameAfterSeparator | chat_pdf.py:37 | the basename of `dir/ + name` is `name` |
| PosixPath.BasenameOfJoin | chat_pdf.py:36-37 | `basename(join(dir, name)) == name` for a name without `/` |
| Schema.SourceValue | langchain/document_loaders/parsers/pdf.py:25 | the stored `source` is the blob's source string, or `None` exactly when the blob has none |
| Schema.Contents | langchain/document_loaders/parsers/pdf.py:24 | the texts of the documents, one per document, in order |
| PdfParsers.PageMetadata | langchain/document_loaders/parsers/pdf.py:25 | the page metadata has exactly the keys `source` and `page`, with the given values |
| PdfParsers.PyPdfParse | langchain/document_loaders/parsers/pdf.py:22-27 | one document per page in page order; the texts are the extracted texts, and page i has metadata `{source, page: i}` (0-based) |
| PdfParsers.PdfMinerParse | langchain/document_loaders/parsers/pdf.py:38-41 | exactly one document; it holds the whole text, and its metadata is only `{source}` |
| PdfParsers.PyPdfium2Parse | langchain/document_loaders/parsers/pdf.py:105-111 | the page loop yields exactly the documents of `PyPdfParse` for the same page texts: same order, 0-based pages |
| PdfParsers.StrOrIntEntries | langchain/document_loaders/parsers/pdf.py:72-76 | an entry is kept iff its value is a `str` or an `int` (bool, None, float and others are dropped), and kept values are unchanged |
| PdfParsers.BaseMetadata | langchain/document_loaders/parsers/pdf.py:66-71 | exactly the keys `source`, `file_path`, `page`, `total_pages`; `file_path` equals `source` |
| PdfParsers.MergeMetadata | langchain/document_loaders/parsers/pdf.py:65-77 | the merged keys are the base keys plus the kept keys; a kept document entry overrides the base on a clash, and every other base entry is unchanged |
| PdfParsers.NormaliseKwargs | langchain/document_loaders/parsers/pdf.py:53 | a missing `text_kwargs` becomes the empty mapping; a given one is kept |
| PdfParsers.PyMuPdfParser.Create | langchain/document_loaders/parsers/pdf.py:47-53 | the parser stores the normalised keyword arguments |
| PdfParsers.PyMuPdfParser.LazyParse | langchain/document_loaders/parsers/pdf.py:62-80 | one document per page; page i's text is `get_text(**text_kwargs)` of page i, and its metadata is the base with page i and the page count, merged with the document metadata |
| PdfParsers.PdfPlumberParser.Create | langchain/document_loaders/parsers/pdf.py:119-125 | the parser stores the normalised keyword arguments |
| PdfParsers.PdfPlumberParser.LazyParse | langchain/document_loaders/parsers/pdf.py:134-152 | as for PyMuPDF, with page numbers counted from 1 |
| PdfParsers.PyMuPdfMetadataFacts | langchain/document_loaders/parsers/pdf.py:62-80 | on every page: the four base keys are present; str/int entries are copied and override; no other key appears; `file_path == source` unless overridden; all pages share `total_pages` |
| PdfParsers.PlumberPagesAreOneBased | langchain/document_loaders/parsers/pdf.py:134-152 | when the document metadata has no `str`/`int` entry `page`, a PDFPlumber document is the PyMuPDF document for the same page with `page` i + 1 in place of i (such an entry would override `page` in both) |
| PdfParsers.ZoneOf | langchain/document_loaders/parsers/pdf.py:190-198 | a region goes to the header iff its type is `Header`, to the footer iff `Footer`, and is dropped iff `Reference` |
| PdfParsers.ZoneText | langchain/document_loaders/parsers/pdf.py:190-198 | the in-order concatenation of the texts of the regions in one zone; `ZoneTextAppend`, `ZoneTextSingle` and `ZoneTextSnoc` are its properties |
| PdfParsers.PageText | langchain/document_loaders/parsers/pdf.py:200 | header zone, body zone and footer zone, each followed by `"\n\n"`; `AssemblePage` is proved to compute it, and `PageTextLength`, `PageTextShape` and `ReferenceRegionIgnored` are its properties |
| PdfParsers.AssemblePage | langchain/document_loaders/parsers/pdf.py:186-200 | the region loop computes `header + "\n\n" + body + "\n\n" + footer + "\n\n"`, each zone the in-order concatenation of its regions' texts |
| PdfParsers.ZoneTextAppend | langchain/document_loaders/parsers/pdf.py:190-198 | a zone's text of a concatenation is the concatenation of the zone texts, so order is kept within a zone |
| PdfParsers.ZoneTextSingle | langchain/document_loaders/parsers/pdf.py:190-198 | a single region contributes its text to its own zone and nothing to any other |
| PdfParsers.ZoneTextSnoc | langchain/document_loaders/parsers/pdf.py:190-198 | appending a region appends its text to its own zone only |
| PdfParsers.ReferenceRegionIgnored | langchain/document_loaders/parsers/pdf.py:195-196 | inserting a `Reference` region anywhere leaves the page text unchanged |
| PdfParsers.PageTextLength | langchain/document_loaders/parsers/pdf.py:186-200 | the three zones together are as long as the non-reference texts, and the page text is six characters longer |
| PdfParsers.PageTextShape | langchain/document_loaders/parsers/pdf.py:186-188 | a page text always ends with `"\n\n"`, and a page without regions is six newlines |
| PdfParsers.ExampleZoneText | langchain/document_loaders/parsers/pdf.py:190-198 | in a five-region page (`Header`, `text`, `Reference`, `Footer`, `isolated`), each zone collects exactly its regions' texts in order, `text` and `isolated` both going to the body |
| PdfParsers.PageTextExample | langchain/document_loaders/parsers/pdf.py:186-200 | header h, body b1, reference r, footer f, body b2 give `h + "\n\n" + b1 + b2 + "\n\n" + f + "\n\n"` |
| PdfParsers.ImageName | langchain/document_loaders/parsers/pdf.py:182 | `pdf_name + "_page_" + str(idx) + ".png"`; `ImageNameInjective` is its property |
| PdfParsers.ImageEvents | langchain/document_loaders/parsers/pdf.py:180-206 | for each page in turn, its image saved, recognised and removed; `ImageEventsOfPage`, `ImageEventsSnoc` and `ImageEventsLength` are its properties |
| PdfParsers.ImageNameInjective | langchain/document_loaders/parsers/pdf.py:182 | different pages of one file never share a temporary image name |
| PdfParsers.ImageEventsOfPage | langchain/document_loaders/parsers/pdf.py:182-206 | page idx's image is saved, recognised and removed, in that order, as events 3·idx to 3·idx + 2, all under one name |
| PdfParsers.ImageEventsSnoc | langchain/document_loaders/parsers/pdf.py:180-206 | one more page adds exactly its three image events at the end |
| PdfParsers.ImageEventsLength | langchain/document_loaders/parsers/pdf.py:180-206 | a file with n pages has 3·n image events |
| PdfParsers.ParsePage | langchain/document_loaders/parsers/pdf.py:181-211 | one page: its image is saved, recognised and removed under `stem_page_<idx>.png`, and the page becomes `Document(PageText(regions), {source, page: idx + 1})` |
| PdfParsers.ParsePages | langchain/document_loaders/parsers/pdf.py:180-211 | one document per page in order, numbered from 1, with the page's assembled text; the image events of every page, in page order |
| PdfParsers.Pix2TextParse | langchain/document_loaders/parsers/pdf.py:171-211 | as `ParsePages`, with images named after the basename of `blob.path` without its extension |
| ChatPdf.ParseDevices | chat_pdf.py:26 | succeeds iff every comma-separated item is accepted by `int()`, otherwise fails with `InvalidOnValue`; device i has the integer value of item i, in canonical decimal |
| ChatPdf.ParseDevicesIdempotent | chat_pdf.py:26 | passing the parsed devices back as `--on` gives the same devices |
| ChatPdf.CanonicalDevicesReparse | chat_pdf.py:26 | canonical renderings joined with commas parse back to themselves |
| ChatPdf.DecimalHasNoComma | chat_pdf.py:26 | `str(n)` never contains a comma |
| ChatPdf.ParseDevicesOfValues | chat_pdf.py:26 | when item i reads as value i, device i is `str(value i)`; for example `"01"` becomes `"1"` |
| ChatPdf.ParseDevicesRejectsEmpty | chat_pdf.py:26 | an empty `--on` is rejected |
| ChatPdf.ParseDevicesRejectsNonNumeric | chat_pdf.py:26 | `--on 0,x` is rejected because of the non-numeric item |
| ChatPdf.ResultPath | chat_pdf.py:15 | `ocr_results/<basename>.json` for a file; `ResultPathOfListed` is its property |
| ChatPdf.Map | chat_pdf.py:36 | the list comprehension applies f to every element, keeping length and order |
| ChatPdf.FilterAppend | chat_pdf.py:36-37 | a filtering comprehension distributes over concatenation, so the listing order is kept |
| ChatPdf.FilterMembership | chat_pdf.py:36-37 | an element survives a filter iff it is in the input and passes the test |
| ChatPdf.PdfFiles | chat_pdf.py:36 | the listed names ending in `.pdf`, joined to `/pdfs/`, in listing order; `PdfFilesMembership` is its property |
| ChatPdf.Unprocessed | chat_pdf.py:37 | the files whose result path is not among the existing paths, in order; `FilterMembership` and `FilterAppend` are its properties |
| ChatPdf.Pending | chat_pdf.py:36-37 | the two filters one after the other; `PendingMembership` and `PendingAppend` are its properties |
| ChatPdf.PendingAppend | chat_pdf.py:36-37 | the pending selection of a concatenated listing is the concatenation of the selections |
| ChatPdf.PdfFilesMembership | chat_pdf.py:36 | a path is a candidate iff it is the directory joined with a listed name ending in `.pdf` |
| ChatPdf.ResultPathOfListed | chat_pdf.py:15 | the file `/pdfs/<name>` has its result at `ocr_results/<name>.json` |
| ChatPdf.PendingMembership | chat_pdf.py:35-37 | a path is scheduled iff it is `/pdfs/<name>` for a listed name ending in `.pdf` whose `ocr_results/<name>.json` does not exist |
| ChatPdf.StartWorkers | chat_pdf.py:44-51 | one empty queue and one worker per device; worker i serves queue i and runs on `devices[procs - 1 - i]`, because `pop()` takes from the end |
| ChatPdf.Stride | chat_pdf.py:53-54 | the files at positions i, i + p, i + 2p, … of the pending list; `StrideAt` and `StrideSnoc` are its properties |
| ChatPdf.StrideAt | chat_pdf.py:53-54 | position j of queue i holds file i + j·p, and the queue is as long as there are such files |
| ChatPdf.StrideSnoc | chat_pdf.py:53-54 | appending a file extends exactly the queue whose turn it is |
| ChatPdf.Enqueued | chat_pdf.py:54 | the items put for a list of files are those files, in order |
| ChatPdf.Distribute | chat_pdf.py:53-58 | queue q receives, after what it held, files q, q + p, q + 2p, … in order, then exactly one `None`; with no queue nothing is put |
| ChatPdf.RoundRobinPlacement | chat_pdf.py:53-54 | pending file k is on queue k mod p, at position k div p |
| ChatPdf.RoundRobinOrigin | chat_pdf.py:53-54 | entry j of queue q is file q + j·p, whose remainder is q and quotient j, so no entry comes from elsewhere |
| ChatPdf.QueuedCountSnoc | chat_pdf.py:53-54 | one more file adds one to the count of queues 0 .. m − 1 exactly when its turn falls among them |
| ChatPdf.QueuedCountEmpty | chat_pdf.py:53-54 | with no files the queues hold nothing |
| ChatPdf.RoundRobinTotal | chat_pdf.py:53-54 | the queues together hold as many files as the pending list, so every file lands on one queue |
| ChatPdf.ResultString | chat_pdf.py:16-19 | the text of every document, each followed by `"\n\n"`; `JoinPages` is proved to compute it, and `ResultStringLength` and `ResultStringAppend` are its properties |
| ChatPdf.JoinPages | chat_pdf.py:16-19 | the worker's loop builds the concatenation of every document's content followed by `"\n\n"` |
| ChatPdf.ResultStringLength | chat_pdf.py:16-19 | the result string is as long as the contents plus 2 per document, and ends with `"\n\n"` when there is a document |
| ChatPdf.ResultStringAppend | chat_pdf.py:16-19 | the result string of a concatenation is the concatenation of the result strings |
| ChatPdf.FilesBeforeSentinel | chat_pdf.py:7-10 | the files a worker takes from its queue before the first `None`; `SentinelStopsWorker` and `FilesBeforeSentinelAt` are its properties |
| ChatPdf.SentinelStopsWorker | chat_pdf.py:7-10 | a queue of files closed by `None` yields exactly those files, whatever follows the sentinel |
| ChatPdf.FilesBeforeSentinelAt | chat_pdf.py:7-10 | when the first m items are files and item m is `None` or the end, the worker takes exactly those m files |
| ChatPdf.ProcessQueue | chat_pdf.py:1-21 | the worker stops iff the queue holds `None`; it writes one result per file before the first `None`, in order, each the joined page texts at `ocr_results/<basename>.json` |
| ChatPdf.RunWorkers | chat_pdf.py:60-61 | every worker drains its own queue; worker w's results are those of the files before its sentinel |
| ChatPdf.RunBatch | chat_pdf.py:30-64 | `--on` absent or rejected gives the matching error; otherwise one worker per device with popped devices, queue w holds exactly the pending files w, w + p, … followed by one `None`, worker w's results are those files' results in order, and together the results satisfy `ResultsOfShares`, so `ResultForFile` and `FileForResult` apply to them |
| ChatPdf.ResultForFile | chat_pdf.py:53-61 | for results satisfying `ResultsOfShares`, as those of `RunBatch` do: every pending file k has its result written by worker k mod p, as its (k div p)-th result |
| ChatPdf.FileForResult | chat_pdf.py:53-61 | for results satisfying `ResultsOfShares`, as those of `RunBatch` do: worker w's j-th result exists exactly when there is a pending file w + j·p, and it is that file's result |
| Arith.DivModUnique | chat_pdf.py:53 | k = a·p + r with 0 ≤ r < p determines k div p = a and k mod p = r |
| Arith.ModResidue | chat_pdf.py:53 | k has remainder q mod p exactly when k ≥ q and p divides k − q |
| Arith.ModSucc | chat_pdf.py:53 | the cycling cursor: (k + 1) mod p is k mod p + 1, wrapping to 0 at p |

## Left out

- The PDF and OCR libraries (pypdf, pdfminer, fitz/PyMuPDF, pypdfium2,
  pdfplumber, Pix2Text, cv2) are foreign code. Their page texts, page counts,
  document metadata and OCR regions are inputs.
- The password passed to `pypdf.PdfReader` only matters inside the library, so
  it is not modelled.
- Page rendering at 300 dpi, the CUDA device string and the Pix2Text model
  configuration are GPU and numeric work. The import checks in the `__init__`
  methods guard installation only.
- File I/O is not modelled: `blob.as_bytes_io`, `pix.save`, `os.remove`,
  `os.listdir`, `os.path.exists`, `open` and `json.dump`.
  - The directory listing and the set of existing result paths are parameters.
  - The Pix2Text image file operations are recorded as a trace of
    `Saved`/`Recognised`/`Removed` events.
  - A worker's written result is the Python string given to `json.dump`; the
    JSON encoding of that string is left out.
- `Pix2TextLoader.load` is not part of this model. A worker's loader is a
  function from a path to its documents.
- The `multiprocessing` `Process`/`Queue` machinery, `worker.start`/`join` and
  the `os.environ['CUDA_VISIBLE_DEVICES']` assignment are concurrency and
  process environment. The model fills the queues first and then runs the
  workers one after another.
  - ChatPdf.ProcessQueue: a queue without `None` would make the real worker
    block in `q.get()`. The model returns `stopped == false` at the end of the
    queue instead.
  - RunBatch always closes every queue, so this case does not arise there.
- ChatPdf.ProcessQueue: the loader is a total function, so no `loader.load()`
  or `open(...)` call raises. In the source such an exception ends that worker's
  process: the files after it on its queue get no result, and the other workers
  carry on. `ProcessQueue`, `RunWorkers`, `RunBatch`, `ResultForFile` and
  `FileForResult` describe runs in which no such call raises.
- Timing and printing (`time.time`, `print`) are left out, and so is argparse
  beyond the per-item type function and the missing-argument case.
- PyStrings.ParseInt: `int()` also strips Unicode whitespace (e.g. U+0085,
  U+00A0) and accepts non-ASCII decimal digits. The model knows ASCII
  whitespace and the digits `0`–`9` only. Python also refuses to convert a
  decimal string of more than 4300 digits (`sys.get_int_max_str_digits()`);
  the model has no such limit.
- PyStrings.ParseIntOfDecimal: holds in the model for every integer. In Python,
  `str(n)` raises `ValueError` once n has more than 4300 digits, so there the
  round trip applies only below that limit.
- The laziness of the parsers' generators is left out; each parser returns a
  finite sequence of documents.
- The two-column layout cache described in a comment of
  `Pix2TextParser.lazy_parse` is not implemented in the source, so it is not
  modelled. The commented-out text splitter at the end of `chat_pdf.py` is dead
  code.
