/** The batch OCR driver `chat_pdf.py`: parse the device list, select the PDFs that
    have no result yet, start one worker per device, deal the files round-robin
    onto the workers' queues, close each queue with a `None` sentinel, and let each
    worker turn its files into result strings. Processes and queues are modelled
    as the sequence of items each queue receives; the workers run one after another. */
module ChatPdf {
  import opened Wrappers
  import opened Arith
  import opened PyStrings
  import PosixPath
  import opened Schema

  datatype Error =
    | MissingOnArgument          // `--on` absent: `len(None)` raises
    | InvalidOnValue(arg: string) // argparse rejects the value of `--on`

  // ---------------------------------------------------------------------------
  // parse_command

  /** Every item is accepted by `int()`. */
  predicate AllIntegers(items: seq<string>)
  {
    forall i :: 0 <= i < |items| ==> ParseInt(items[i]).Some?
  }

  /** The type function of `--on`, `[str(int(item)) for item in s.split(',')]`:
      every comma-separated item must be an integer, and is re-rendered in
      canonical decimal. A `ValueError` from `int` makes argparse reject the value. */
  function ParseDevices(arg: string): (r: Result<seq<string>, Error>)
    ensures r.Success? <==> AllIntegers(Split(arg, ','))
    ensures r.Failure? ==> r.error == InvalidOnValue(arg)
    ensures r.Success? ==> |r.value| == |Split(arg, ',')|
    ensures r.Success? ==> forall i :: 0 <= i < |r.value| ==>
      && ParseInt(r.value[i]) == ParseInt(Split(arg, ',')[i])
      && r.value[i] == IntToDecimal(ParseInt(r.value[i]).value)
  {
    var items := Split(arg, ',');
    if AllIntegers(items) then
      var devices := seq(|items|, i requires 0 <= i < |items| => IntToDecimal(ParseInt(items[i]).value));
      assert forall i :: 0 <= i < |items| ==> ParseInt(devices[i]) == ParseInt(items[i]) by {
        forall i | 0 <= i < |items| {
          ParseIntOfDecimal(ParseInt(items[i]).value);
        }
      }
      Success(devices)
    else
      Failure(InvalidOnValue(arg))
  }

  /** Normalising the device list is idempotent: feeding the rendered devices back
      as `--on` gives them unchanged. */
  lemma ParseDevicesIdempotent(arg: string)
    requires ParseDevices(arg).Success?
    ensures ParseDevices(Join(ParseDevices(arg).value, ',')) == ParseDevices(arg)
  {
    var devices := ParseDevices(arg).value;
    assert |devices| == |Split(arg, ',')| > 0;
    CanonicalDevicesReparse(devices);
  }

  /** A non-empty list of canonical integer renderings, joined with commas, parses
      back to itself. */
  lemma CanonicalDevicesReparse(devices: seq<string>)
    requires |devices| > 0
    requires forall i :: 0 <= i < |devices| ==>
      ParseInt(devices[i]).Some? && devices[i] == IntToDecimal(ParseInt(devices[i]).value)
    ensures ParseDevices(Join(devices, ',')) == Success(devices)
  {
    forall i | 0 <= i < |devices|
      ensures ',' !in devices[i]
    {
      DecimalHasNoComma(ParseInt(devices[i]).value);
    }
    SplitJoin(devices, ',');
    assert AllIntegers(devices);
    var again := ParseDevices(Join(devices, ','));
    assert |again.value| == |devices|;
    forall i | 0 <= i < |devices|
      ensures again.value[i] == devices[i]
    {
      assert ParseInt(again.value[i]) == ParseInt(devices[i]);
    }
    assert again.value == devices;
  }

  lemma DecimalHasNoComma(n: int)
    ensures ',' !in IntToDecimal(n)
  {
    var s := IntToDecimal(n);
    if n < 0 {
      assert s == "-" + NatToDecimal(-n);
      assert forall k :: 1 <= k < |s| ==> s[k] == NatToDecimal(-n)[k - 1];
    }
  }

  /** When item i of the argument reads as integer values[i], the devices are the
      canonical renderings of those values. */
  lemma ParseDevicesOfValues(arg: string, values: seq<int>)
    requires |Split(arg, ',')| == |values|
    requires forall i :: 0 <= i < |values| ==> ParseInt(Split(arg, ',')[i]) == Some(values[i])
    ensures ParseDevices(arg).Success?
    ensures ParseDevices(arg).value == seq(|values|, i requires 0 <= i < |values| => IntToDecimal(values[i]))
  {
    var r := ParseDevices(arg);
    assert AllIntegers(Split(arg, ','));
    forall i | 0 <= i < |values|
      ensures r.value[i] == IntToDecimal(values[i])
    {
      assert ParseInt(r.value[i]) == Some(values[i]);
    }
  }

  /** An empty `--on` is rejected: its one item "" is not an integer. */
  lemma ParseDevicesRejectsEmpty()
    ensures ParseDevices("") == Failure(InvalidOnValue(""))
  {
    assert Split("", ',') == [""];
    var items := Split("", ',');
    ParseIntRejectsEmpty();
    assert items[0] == "";
    assert !ParseInt(items[0]).Some?;
  }

  /** A non-numeric item rejects the whole argument. */
  lemma ParseDevicesRejectsNonNumeric()
    ensures ParseDevices("0,x") == Failure(InvalidOnValue("0,x"))
  {
    var bad := ["0", "x"];
    assert Join(bad, ',') == "0,x";
    SplitJoin(bad, ',');
    ParseIntRejects("x");
    assert !AllIntegers(bad);
  }

  // ---------------------------------------------------------------------------
  // Selecting the pending files

  const PdfDirectory := "/pdfs/"
  const ResultsDirectory := "ocr_results"

  /** Where the result for a file is written: `ocr_results/<basename>.json`. */
  function ResultPath(file: string): string
  {
    PosixPath.Join(ResultsDirectory, PosixPath.Basename(file) + ".json")
  }

  /** The elements of s that satisfy keep, in order. */
  function Filter<T>(s: seq<T>, keep: T -> bool): seq<T>
  {
    if s == [] then []
    else Filter(s[..|s| - 1], keep) + (if keep(s[|s| - 1]) then [s[|s| - 1]] else [])
  }

  /** f applied to every element of s. */
  function Map<T, U>(s: seq<T>, f: T -> U): (r: seq<U>)
    ensures |r| == |s|
    ensures forall i :: 0 <= i < |s| ==> r[i] == f(s[i])
  {
    seq(|s|, i requires 0 <= i < |s| => f(s[i]))
  }

  lemma {:induction false} FilterAppend<T>(a: seq<T>, b: seq<T>, keep: T -> bool)
    ensures Filter(a + b, keep) == Filter(a, keep) + Filter(b, keep)
  {
    if b == [] {
      assert a + b == a;
    } else {
      assert (a + b)[..|a + b| - 1] == a + b[..|b| - 1];
      FilterAppend(a, b[..|b| - 1], keep);
    }
  }

  lemma {:induction false} FilterMembership<T>(s: seq<T>, keep: T -> bool, x: T)
    ensures x in Filter(s, keep) <==> x in s && keep(x)
  {
    if s != [] {
      FilterMembership(s[..|s| - 1], keep, x);
      assert s == s[..|s| - 1] + [s[|s| - 1]];
    }
  }

  predicate IsPdfName(name: string)
  {
    EndsWith(name, ".pdf")
  }

  function InPdfDirectory(name: string): string
  {
    PosixPath.Join(PdfDirectory, name)
  }

  /** The listing step of the main block: the directory entries ending in `.pdf`, joined to the directory,
      in listing order. */
  function PdfFiles(listing: seq<string>): seq<string>
  {
    Map(Filter(listing, IsPdfName), InPdfDirectory)
  }

  /** The existence test of the main block: `ocr_results/<basename>.json` does not exist yet. */
  function HasNoResult(existing: set<string>): string -> bool
  {
    f => ResultPath(f) !in existing
  }

  /** The files whose result does not exist yet, in order. */
  function Unprocessed(files: seq<string>, existing: set<string>): seq<string>
  {
    Filter(files, HasNoResult(existing))
  }

  /** The files the batch will process. */
  function Pending(listing: seq<string>, existing: set<string>): seq<string>
  {
    Unprocessed(PdfFiles(listing), existing)
  }

  /** The selection keeps the listing's order: it distributes over concatenation. */
  lemma PendingAppend(a: seq<string>, b: seq<string>, existing: set<string>)
    ensures Pending(a + b, existing) == Pending(a, existing) + Pending(b, existing)
  {
    FilterAppend(a, b, IsPdfName);
    var fa, fb := Filter(a, IsPdfName), Filter(b, IsPdfName);
    assert Map(fa + fb, InPdfDirectory) == Map(fa, InPdfDirectory) + Map(fb, InPdfDirectory);
    FilterAppend(PdfFiles(a), PdfFiles(b), HasNoResult(existing));
  }

  lemma PdfFilesMembership(listing: seq<string>, f: string)
    ensures f in PdfFiles(listing) <==>
      exists i :: 0 <= i < |listing| && IsPdfName(listing[i]) && f == InPdfDirectory(listing[i])
  {
    var names := Filter(listing, IsPdfName);
    if f in PdfFiles(listing) {
      var j :| 0 <= j < |names| && f == InPdfDirectory(names[j]);
      FilterMembership(listing, IsPdfName, names[j]);
    }
    if exists i :: 0 <= i < |listing| && IsPdfName(listing[i]) && f == InPdfDirectory(listing[i]) {
      var i :| 0 <= i < |listing| && IsPdfName(listing[i]) && f == InPdfDirectory(listing[i]);
      FilterMembership(listing, IsPdfName, listing[i]);
      var j :| 0 <= j < |names| && names[j] == listing[i];
      assert PdfFiles(listing)[j] == f;
    }
  }

  lemma ResultPathOfListed(name: string)
    requires '/' !in name
    ensures InPdfDirectory(name) == PdfDirectory + name
    ensures ResultPath(PdfDirectory + name) == "ocr_results/" + name + ".json"
  {
    PosixPath.BasenameOfJoin(PdfDirectory, name);
  }

  /** A path is pending iff it is the directory joined with a listed name that ends
      in `.pdf` and whose `ocr_results/<name>.json` does not exist. */
  lemma PendingMembership(listing: seq<string>, existing: set<string>, f: string)
    requires forall i :: 0 <= i < |listing| ==> '/' !in listing[i]
    ensures f in Pending(listing, existing) <==>
      exists i :: 0 <= i < |listing| && IsPdfName(listing[i]) && f == PdfDirectory + listing[i]
                  && "ocr_results/" + listing[i] + ".json" !in existing
  {
    FilterMembership(PdfFiles(listing), HasNoResult(existing), f);
    PdfFilesMembership(listing, f);
    forall i | 0 <= i < |listing|
      ensures InPdfDirectory(listing[i]) == PdfDirectory + listing[i]
      ensures ResultPath(PdfDirectory + listing[i]) == "ocr_results/" + listing[i] + ".json"
    {
      ResultPathOfListed(listing[i]);
    }
  }

  // ---------------------------------------------------------------------------
  // Workers and queues

  /** A queue item: a file path, or the `None` that tells the worker to stop. */
  type QueueItem = Option<string>

  /** A worker process: the device it runs on and the index of its queue. */
  datatype Worker = Worker(device: string, queue: nat)

  /** Starting the workers: for each device one empty queue and one worker; the worker's
      device comes from `devices.pop()`, so worker i gets the i-th device from the end. */
  method StartWorkers(devices: seq<string>) returns (queues: seq<seq<QueueItem>>, workers: seq<Worker>)
    ensures |queues| == |devices| && forall q :: 0 <= q < |queues| ==> queues[q] == []
    ensures |workers| == |devices|
    ensures forall i :: 0 <= i < |workers| ==> workers[i].queue == i
    ensures forall j :: 0 <= j < |devices| ==> workers[|devices| - 1 - j].device == devices[j]
  {
    var remaining := devices;
    var procs := |devices|;
    queues, workers := [], [];
    for i := 0 to procs
      invariant remaining == devices[..procs - i]
      invariant |queues| == i && forall q :: 0 <= q < i ==> queues[q] == []
      invariant |workers| == i
      invariant forall k :: 0 <= k < i ==> workers[k] == Worker(devices[procs - 1 - k], k)
    {
      var q: seq<QueueItem> := [];
      queues := queues + [q];
      var device := remaining[|remaining| - 1];
      remaining := remaining[..|remaining| - 1];
      workers := workers + [Worker(device, i)];
    }
  }

  /** The elements of s at positions i, i + p, i + 2p, ...: the files that the
      round-robin deal gives to queue i of p. */
  function Stride<T>(s: seq<T>, p: nat, i: nat): seq<T>
    requires p > 0
    decreases if i < |s| then |s| - i else 0
  {
    if i >= |s| then [] else [s[i]] + Stride(s, p, i + p)
  }

  /** Position j of queue i holds element i + j * p, and the queue is exactly as
      long as there are such elements. */
  lemma {:induction false} StrideAt<T>(s: seq<T>, p: nat, i: nat, j: nat)
    requires p > 0
    ensures j < |Stride(s, p, i)| <==> i + j * p < |s|
    ensures j < |Stride(s, p, i)| ==> Stride(s, p, i)[j] == s[i + j * p]
    decreases j
  {
    if i < |s| && j > 0 {
      StrideAt(s, p, i + p, j - 1);
      assert (i + p) + (j - 1) * p == i + j * p;
    } else if i >= |s| {
      assert i + j * p >= i;
    }
  }

  /** Appending an element to the list extends exactly the queue whose turn it is. */
  lemma {:induction false} StrideSnoc<T>(t: seq<T>, x: T, p: nat, i: nat)
    requires p > 0
    ensures Stride(t + [x], p, i) == Stride(t, p, i) + (if i <= |t| && (|t| - i) % p == 0 then [x] else [])
    decreases if i < |t| then |t| - i else 0
  {
    var s := t + [x];
    if i < |t| {
      StrideSnoc(t, x, p, i + p);
      var d := |t| - i;
      ModMinusDivisor(d, p);
      if d < p {
        DivModUnique(d, p, 0, d);
      }
      assert s[i] == t[i];
    } else if i == |t| {
      assert Stride(s, p, i + p) == [];
    }
  }

  /** The items a queue receives for a list of files. */
  function Enqueued(files: seq<string>): (items: seq<QueueItem>)
    ensures |items| == |files|
    ensures forall k :: 0 <= k < |files| ==> items[k] == Some(files[k])
  {
    seq(|files|, k requires 0 <= k < |files| => Some(files[k]))
  }

  /** Dealing the files: `zip(pdf_files, cycle(q_list))` puts file k on queue k mod procs
      (and nothing at all when there are no queues); then every queue gets `None`. */
  method Distribute(queues: seq<seq<QueueItem>>, files: seq<string>) returns (filled: seq<seq<QueueItem>>)
    ensures |filled| == |queues|
    ensures forall q :: 0 <= q < |queues| ==>
      filled[q] == queues[q] + Enqueued(Stride(files, |queues|, q)) + [None]
  {
    var procs := |queues|;
    filled := queues;
    if procs > 0 {
      var k, c := 0, 0;
      while k < |files|
        invariant 0 <= k <= |files| && c == k % procs
        invariant |filled| == procs
        invariant forall q :: 0 <= q < procs ==> filled[q] == queues[q] + Enqueued(Stride(files[..k], procs, q))
      {
        var before := filled;
        filled := filled[c := filled[c] + [Some(files[k])]];
        forall q | 0 <= q < procs
          ensures filled[q] == queues[q] + Enqueued(Stride(files[..k + 1], procs, q))
        {
          assert files[..k + 1] == files[..k] + [files[k]];
          StrideSnoc(files[..k], files[k], procs, q);
          ModResidue(k, procs, q);
          if q == c {
            assert Enqueued(Stride(files[..k + 1], procs, q))
                == Enqueued(Stride(files[..k], procs, q)) + [Some(files[k])];
          }
        }
        ModSucc(k, procs);
        k, c := k + 1, if c + 1 == procs then 0 else c + 1;
      }
      assert files[..|files|] == files;
    }
    for q := 0 to procs
      invariant |filled| == procs
      invariant forall r :: 0 <= r < q ==> filled[r] == queues[r] + Enqueued(Stride(files, procs, r)) + [None]
      invariant forall r :: q <= r < procs ==> filled[r] == queues[r] + Enqueued(Stride(files, procs, r))
    {
      filled := filled[q := filled[q] + [None]];
    }
  }

  /** File k of the pending list is on queue k mod p, at position k div p. */
  lemma RoundRobinPlacement(files: seq<string>, p: nat, k: nat)
    requires p > 0 && k < |files|
    ensures k / p < |Stride(files, p, k % p)|
    ensures Stride(files, p, k % p)[k / p] == files[k]
  {
    assert k % p + (k / p) * p == k;
    StrideAt(files, p, k % p, k / p);
  }

  /** Conversely, entry j of queue q is the file whose index has remainder q and
      quotient j, so no entry comes from anywhere else. */
  lemma RoundRobinOrigin(files: seq<string>, p: nat, q: nat, j: nat)
    requires q < p && j < |Stride(files, p, q)|
    ensures var k := q + j * p;
      k < |files| && k % p == q && k / p == j && Stride(files, p, q)[j] == files[k]
  {
    StrideAt(files, p, q, j);
    DivModUnique(q + j * p, p, j, q);
  }

  /** The total number of files on queues 0 .. m - 1. */
  function QueuedCount(files: seq<string>, p: nat, m: nat): nat
    requires p > 0
  {
    if m == 0 then 0 else QueuedCount(files, p, m - 1) + |Stride(files, p, m - 1)|
  }

  lemma {:induction false} QueuedCountSnoc(t: seq<string>, x: string, p: nat, m: nat)
    requires 0 < p && m <= p
    ensures QueuedCount(t + [x], p, m) == QueuedCount(t, p, m) + (if |t| % p < m then 1 else 0)
  {
    if m > 0 {
      QueuedCountSnoc(t, x, p, m - 1);
      StrideSnoc(t, x, p, m - 1);
      ModResidue(|t|, p, m - 1);
    }
  }

  /** Every file lands on exactly one queue: together the queues hold as many files
      as the list. */
  lemma {:induction false} RoundRobinTotal(files: seq<string>, p: nat)
    requires p > 0
    ensures QueuedCount(files, p, p) == |files|
  {
    if files == [] {
      QueuedCountEmpty(p, p);
    } else {
      var t := files[..|files| - 1];
      assert files == t + [files[|files| - 1]];
      RoundRobinTotal(t, p);
      QueuedCountSnoc(t, files[|files| - 1], p, p);
    }
  }

  lemma {:induction false} QueuedCountEmpty(p: nat, m: nat)
    requires p > 0
    ensures QueuedCount([], p, m) == 0
  {
    if m > 0 {
      QueuedCountEmpty(p, m - 1);
    }
  }

  // ---------------------------------------------------------------------------
  // process_pdf

  /** What a worker writes for one file: the path and the string passed to `json.dump`. */
  datatype ResultFile = ResultFile(path: string, content: string)

  /** The string a worker writes: the text of every document, each followed by a blank line. */
  function ResultString(docs: seq<Document>): string
  {
    if docs == [] then ""
    else ResultString(docs[..|docs| - 1]) + docs[|docs| - 1].pageContent + "\n\n"
  }

  /** The loop that builds the string `s` in `process_pdf`. */
  method JoinPages(documents: seq<Document>) returns (s: string)
    ensures s == ResultString(documents)
  {
    s := "";
    for i := 0 to |documents|
      invariant s == ResultString(documents[..i])
    {
      assert documents[..i + 1][..i] == documents[..i];
      s := s + documents[i].pageContent;
      s := s + "\n\n";
    }
    assert documents[..|documents|] == documents;
  }

  function ContentLength(docs: seq<Document>): nat
  {
    if docs == [] then 0 else ContentLength(docs[..|docs| - 1]) + |docs[|docs| - 1].pageContent|
  }

  /** The result string is the contents plus two characters per document, and it
      ends with a blank line unless there are no documents. */
  lemma {:induction false} ResultStringLength(docs: seq<Document>)
    ensures |ResultString(docs)| == ContentLength(docs) + 2 * |docs|
    ensures docs != [] ==> EndsWith(ResultString(docs), "\n\n")
  {
    if docs != [] {
      ResultStringLength(docs[..|docs| - 1]);
    }
  }

  /** The result string of a concatenation is the concatenation of the result strings. */
  lemma {:induction false} ResultStringAppend(a: seq<Document>, b: seq<Document>)
    ensures ResultString(a + b) == ResultString(a) + ResultString(b)
  {
    if b == [] {
      assert a + b == a;
    } else {
      assert (a + b)[..|a + b| - 1] == a + b[..|b| - 1];
      ResultStringAppend(a, b[..|b| - 1]);
    }
  }

  /** The files a worker takes from its queue before the first `None`. */
  function FilesBeforeSentinel(queue: seq<QueueItem>): seq<string>
  {
    if queue == [] || queue[0].None? then [] else [queue[0].value] + FilesBeforeSentinel(queue[1..])
  }

  /** A queue of files closed by `None` yields exactly those files, whatever follows. */
  lemma {:induction false} SentinelStopsWorker(files: seq<string>, rest: seq<QueueItem>)
    ensures FilesBeforeSentinel(Enqueued(files) + [None] + rest) == files
  {
    var queue := Enqueued(files) + [None] + rest;
    if files != [] {
      assert queue[1..] == Enqueued(files[1..]) + [None] + rest;
      SentinelStopsWorker(files[1..], rest);
    }
  }

  lemma {:induction false} FilesBeforeSentinelAt(queue: seq<QueueItem>, m: nat)
    requires m <= |queue|
    requires forall k :: 0 <= k < m ==> queue[k].Some?
    requires m == |queue| || queue[m].None?
    ensures |FilesBeforeSentinel(queue)| == m
    ensures forall k :: 0 <= k < m ==> FilesBeforeSentinel(queue)[k] == queue[k].value
  {
    if m > 0 {
      FilesBeforeSentinelAt(queue[1..], m - 1);
    }
  }

  /** The result a worker writes for one file. */
  function ResultOf(file: string, load: string -> seq<Document>): ResultFile
  {
    ResultFile(ResultPath(file), ResultString(load(file)))
  }

  /** `process_pdf`: take items in order, stop at the first `None`, and for each
      file write the joined page texts of `load(file)` (what `Pix2TextLoader.load`
      returns for it) to its result path. `stopped` is false when the queue ran out
      without a `None`, where the real worker would block in `q.get()`. */
  method ProcessQueue(queue: seq<QueueItem>, load: string -> seq<Document>)
    returns (written: seq<ResultFile>, stopped: bool)
    ensures stopped <==> None in queue
    ensures |written| == |FilesBeforeSentinel(queue)|
    ensures forall k :: 0 <= k < |written| ==> written[k] == ResultOf(FilesBeforeSentinel(queue)[k], load)
  {
    written, stopped := [], false;
    var pos := 0;
    while pos < |queue|
      invariant 0 <= pos <= |queue|
      invariant forall k :: 0 <= k < pos ==> queue[k].Some?
      invariant |written| == pos
      invariant forall k :: 0 <= k < pos ==> written[k] == ResultOf(queue[k].value, load)
    {
      var filePath := queue[pos];
      if filePath.None? {
        FilesBeforeSentinelAt(queue, pos);
        stopped := true;
        return;
      }
      pos := pos + 1;
      var documents := load(filePath.value);
      var s := JoinPages(documents);
      written := written + [ResultFile(ResultPath(filePath.value), s)];
    }
    FilesBeforeSentinelAt(queue, pos);
  }

  // ---------------------------------------------------------------------------
  // The whole batch

  /** Every worker process drains its own queue: worker w's results are those of
      the files its queue holds before the sentinel. */
  method RunWorkers(queues: seq<seq<QueueItem>>, load: string -> seq<Document>)
    returns (results: seq<seq<ResultFile>>)
    ensures |results| == |queues|
    ensures forall w :: 0 <= w < |queues| ==> |results[w]| == |FilesBeforeSentinel(queues[w])|
    ensures forall w, j :: 0 <= w < |queues| && 0 <= j < |results[w]| ==>
      results[w][j] == ResultOf(FilesBeforeSentinel(queues[w])[j], load)
  {
    results := [];
    for w := 0 to |queues|
      invariant |results| == w
      invariant forall v :: 0 <= v < w ==> |results[v]| == |FilesBeforeSentinel(queues[v])|
      invariant forall v, j :: 0 <= v < w && 0 <= j < |results[v]| ==>
        results[v][j] == ResultOf(FilesBeforeSentinel(queues[v])[j], load)
    {
      var written, _ := ProcessQueue(queues[w], load);
      results := results + [written];
    }
  }

  datatype Batch = Batch(workers: seq<Worker>, queues: seq<seq<QueueItem>>, results: seq<seq<ResultFile>>)

  /** The main block with the processes run one after another: worker w serves
      queue w, which holds pending files w, w + p, w + 2p, ... and ends with `None`. */
  method RunBatch(listing: seq<string>, existing: set<string>, on: Option<string>, load: string -> seq<Document>)
    returns (r: Result<Batch, Error>)
    ensures on.None? ==> r == Failure(MissingOnArgument)
    ensures on.Some? && ParseDevices(on.value).Failure? ==> r == Failure(InvalidOnValue(on.value))
    ensures on.Some? && ParseDevices(on.value).Success? ==> r.Success?
    ensures r.Success? ==>
      var devices := ParseDevices(on.value).value;
      var pending := Pending(listing, existing);
      var p := |devices|;
      && |r.value.workers| == p && |r.value.queues| == p && |r.value.results| == p
      && (forall w :: 0 <= w < p ==> r.value.workers[w] == Worker(devices[p - 1 - w], w))
      && (forall w :: 0 <= w < p ==> r.value.queues[w] == Enqueued(Stride(pending, p, w)) + [None])
      && (forall w :: 0 <= w < p ==> FilesBeforeSentinel(r.value.queues[w]) == Stride(pending, p, w))
      && (forall w :: 0 <= w < p ==> |r.value.results[w]| == |Stride(pending, p, w)|)
      && (forall w, j :: 0 <= w < p && 0 <= j < |r.value.results[w]| ==>
            r.value.results[w][j] == ResultOf(Stride(pending, p, w)[j], load))
    ensures r.Success? ==>
      ResultsOfShares(Pending(listing, existing), |ParseDevices(on.value).value|, f => ResultOf(f, load), r.value.results)
  {
    var pdfFiles := Pending(listing, existing);
    if on.None? {
      return Failure(MissingOnArgument);
    }
    var parsed := ParseDevices(on.value);
    if parsed.Failure? {
      return Failure(parsed.error);
    }
    var devices := parsed.value;
    var procs := |devices|;
    var emptyQueues, workers := StartWorkers(devices);
    var queues := Distribute(emptyQueues, pdfFiles);
    forall w | 0 <= w < procs
      ensures FilesBeforeSentinel(queues[w]) == Stride(pdfFiles, procs, w)
    {
      assert queues[w] == Enqueued(Stride(pdfFiles, procs, w)) + [None] + [];
      SentinelStopsWorker(Stride(pdfFiles, procs, w), []);
    }
    var results := RunWorkers(queues, load);
    r := Success(Batch(workers, queues, results));
  }

  /** What a worker computes, lifted to all workers: worker w's results are the
      results of its round-robin share of the pending files. */
  ghost predicate ResultsOfShares<R>(pending: seq<string>, p: nat, result: string -> R, results: seq<seq<R>>)
  {
    && |results| == p
    && (p > 0 ==> forall w :: 0 <= w < p ==> |results[w]| == |Stride(pending, p, w)|)
    && (p > 0 ==> forall w, j :: 0 <= w < p && 0 <= j < |results[w]| ==>
          results[w][j] == result(Stride(pending, p, w)[j]))
  }

  lemma ResultForFile<R>(pending: seq<string>, p: nat, result: string -> R, results: seq<seq<R>>, k: nat)
    requires ResultsOfShares(pending, p, result, results)
    requires p > 0 && k < |pending|
    ensures k / p < |results[k % p]| && results[k % p][k / p] == result(pending[k])
  {
    RoundRobinPlacement(pending, p, k);
    var w, j := k % p, k / p;
    assert |results[w]| == |Stride(pending, p, w)|;
    assert results[w][j] == result(Stride(pending, p, w)[j]);
  }

  /** End to end, for any results that are the results of the round-robin shares,
      which `RunBatch` promises of its own with `result` as `ResultOf(_, load)`:
      worker w's j-th result exists exactly when there is a pending file w + j * p,
      and it is that file's result. */
  lemma FileForResult<R>(pending: seq<string>, p: nat, result: string -> R, results: seq<seq<R>>, w: nat, j: nat)
    requires ResultsOfShares(pending, p, result, results)
    requires w < p
    ensures j < |results[w]| <==> w + j * p < |pending|
    ensures j < |results[w]| ==> results[w][j] == result(pending[w + j * p])
  {
    StrideAt(pending, p, w, j);
  }
}
