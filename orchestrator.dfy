/**
 * `PDFMetadataExtractor` of src/main.py: one PDF through validation, rendering,
 * extraction and the optional copy; and a directory of PDFs, one record per
 * discovered file, with the incremental results file and the spacing between
 * model calls. Time is an integer number of milliseconds supplied per file.
 */
module Orchestrator {
  import opened Wrappers
  import opened Text
  import opened Json
  import Config
  import opened FileNaming
  import opened FileManager
  import opened PdfProcessor
  import opened MetadataExtractor

  /** A Python argument that should be a path: `None`, a string, or some other
      object with its truthiness. */
  datatype Arg = NoArg | StrArg(s: string) | OtherArg(truthy: bool)

  /** `bool(arg)`. */
  predicate ArgTruthy(a: Arg) {
    match a
    case NoArg => false
    case StrArg(s) => s != ""
    case OtherArg(t) => t
  }

  /** Everything about one PDF that lies outside the program: the file on disk,
      the converter, the model's replies, and whether `mkdir`/`copy2` raise. */
  datatype Env = Env(file: PdfFile, convert: int -> Conversion, replies: nat -> Reply,
                     mkdirError: Option<string>, copyError: Option<string>)

  // --------------------------------------------------------- one PDF

  /** The checks `process_pdf` makes before doing any work (src/main.py:55-66), with
      the error message of the first that fails. */
  function Validation(pdfPath: Arg, outputDir: Arg, copyFiles: bool, maxPages: int): (r: Option<string>)
    ensures r.None? <==> && pdfPath.StrArg? && pdfPath.s != "" && maxPages >= 1
                         && !(copyFiles && ArgTruthy(outputDir) && !outputDir.StrArg?)
    ensures r.Some? ==> r.value in {"Invalid PDF path provided", "max_pages must be at least 1",
                                    "Invalid output directory provided"}
  {
    if !ArgTruthy(pdfPath) || !pdfPath.StrArg? then Some("Invalid PDF path provided")
    else if maxPages < 1 then Some("max_pages must be at least 1")
    else if copyFiles && ArgTruthy(outputDir) && !outputDir.StrArg? then Some("Invalid output directory provided")
    else None
  }

  /** `copy_files and output_dir and "error" not in metadata` (src/main.py:85). */
  predicate CopyGate(copyFiles: bool, outputDir: Arg, metadata: Dict) {
    copyFiles && ArgTruthy(outputDir) && !Has(metadata, "error")
  }

  /** The record after a copy (src/main.py:89-92): the copy's dictionary under
      `copy_info`, and the output name under `output_filename` when it copied. */
  function Annotated(metadata: Dict, r: CopyResult): Dict {
    var info := CopyInfo(r);
    var m := Put(metadata, "copy_info", JObject(info));
    if Truthy(GetOr(info, "copied", JNull)) then Put(m, "output_filename", GetOr(info, "output_filename", JNull))
    else m
  }

  /** The copy's dictionary is stored under `copy_info`; `output_filename` names the
      copy exactly when the copy happened and is otherwise as before; nothing else
      changes. */
  lemma AnnotatedLaws(metadata: Dict, r: CopyResult, key: string)
    ensures Get(Annotated(metadata, r), "copy_info") == Some(JObject(CopyInfo(r)))
    ensures r.Copied? ==> Get(Annotated(metadata, r), "output_filename") == Some(JStr(r.outputFilename))
    ensures r.CopyFailed? ==> Get(Annotated(metadata, r), "output_filename") == Get(metadata, "output_filename")
    ensures key != "copy_info" && key != "output_filename" ==> Get(Annotated(metadata, r), key) == Get(metadata, key)
  {
    var info := CopyInfo(r);
    var m := Put(metadata, "copy_info", JObject(info));
    GetPut(metadata, "copy_info", JObject(info), key);
    GetPut(metadata, "copy_info", JObject(info), "output_filename");
    if r.Copied? {
      GetPut(m, "output_filename", GetOr(info, "output_filename", JNull), key);
      GetPut(m, "output_filename", GetOr(info, "output_filename", JNull), "copy_info");
    }
  }

  /** What `process_pdf(pdf_path, output_dir, copy_files, max_pages)` (src/main.py:46-95)
      returns and leaves in an output directory at `dir` that held `before`. A failed
      check or an empty rendering gives an error record at once; otherwise the
      extractor's record is returned, copied and annotated when the gate opens. */
  ghost predicate Processed(pdfPath: Arg, outputDir: Arg, copyFiles: bool, maxPages: int, env: Env,
                            decode: string -> Decoded, dir: string, before: set<string>,
                            metadata: Dict, after: set<string>)
  {
    match Validation(pdfPath, outputDir, copyFiles, maxPages)
    case Some(message) =>
      && metadata == ErrorRecord(message, if pdfPath.StrArg? && pdfPath.s != "" then Basename(pdfPath.s) else "unknown")
      && after == before
    case None =>
      var filename := Basename(pdfPath.s);
      var images := Rendered(env.file, maxPages, env.convert);
      if images == [] then metadata == ErrorRecord("Failed to convert PDF to images", filename) && after == before
      else
        var extracted := ExtractedRecord(images, filename, Config.MaxRetries, Config.RetryBaseDelay, env.replies, decode);
        if !CopyGate(copyFiles, outputDir, extracted) then metadata == extracted && after == before
        else exists r :: CopiedAs(dir, pdfPath.s, CreateNewFilename(extracted), env.mkdirError, env.copyError, before, r, after)
                         && metadata == Annotated(extracted, r)
  }

  /** `process_pdf` is deterministic: the inputs and the directory's contents fix the
      record and the new contents. */
  lemma ProcessedDeterministic(pdfPath: Arg, outputDir: Arg, copyFiles: bool, maxPages: int, env: Env,
                               decode: string -> Decoded, dir: string, before: set<string>,
                               m1: Dict, after1: set<string>, m2: Dict, after2: set<string>)
    requires Processed(pdfPath, outputDir, copyFiles, maxPages, env, decode, dir, before, m1, after1)
    requires Processed(pdfPath, outputDir, copyFiles, maxPages, env, decode, dir, before, m2, after2)
    ensures m1 == m2 && after1 == after2
  {
    if Validation(pdfPath, outputDir, copyFiles, maxPages).None? {
      var filename := Basename(pdfPath.s);
      var images := Rendered(env.file, maxPages, env.convert);
      if images != [] {
        var extracted := ExtractedRecord(images, filename, Config.MaxRetries, Config.RetryBaseDelay, env.replies, decode);
        if CopyGate(copyFiles, outputDir, extracted) {
          var r1 :| CopiedAs(dir, pdfPath.s, CreateNewFilename(extracted), env.mkdirError, env.copyError, before, r1, after1)
                    && m1 == Annotated(extracted, r1);
          var r2 :| CopiedAs(dir, pdfPath.s, CreateNewFilename(extracted), env.mkdirError, env.copyError, before, r2, after2)
                    && m2 == Annotated(extracted, r2);
          CopiedAsDeterministic(dir, pdfPath.s, CreateNewFilename(extracted), env.mkdirError, env.copyError, before, r1, after1, r2, after2);
        }
      }
    }
  }

  /** Every record `process_pdf` returns names its file: the base name of the path,
      or "unknown" when the path is not a non-empty string. */
  lemma ProcessedNamesFile(pdfPath: Arg, outputDir: Arg, copyFiles: bool, maxPages: int, env: Env,
                           decode: string -> Decoded, dir: string, before: set<string>,
                           metadata: Dict, after: set<string>)
    requires Processed(pdfPath, outputDir, copyFiles, maxPages, env, decode, dir, before, metadata, after)
    ensures Get(metadata, "source_filename")
            == Some(JStr(if pdfPath.StrArg? && pdfPath.s != "" then Basename(pdfPath.s) else "unknown"))
  {
    if Validation(pdfPath, outputDir, copyFiles, maxPages).None? {
      var filename := Basename(pdfPath.s);
      var images := Rendered(env.file, maxPages, env.convert);
      if images != [] {
        var extracted := ExtractedRecord(images, filename, Config.MaxRetries, Config.RetryBaseDelay, env.replies, decode);
        ExtractedRecordFilename(images, filename, Config.MaxRetries, Config.RetryBaseDelay, env.replies, decode);
        if CopyGate(copyFiles, outputDir, extracted) {
          var r :| CopiedAs(dir, pdfPath.s, CreateNewFilename(extracted), env.mkdirError, env.copyError, before, r, after)
                   && metadata == Annotated(extracted, r);
          AnnotatedLaws(extracted, r, "source_filename");
        }
      }
    }
  }

  /** `process_pdf`. `calls` is the number of model calls it makes: none unless
      every check passes and the PDF renders to at least one page. */
  method ProcessPdf(pdfPath: Arg, outputDir: Arg, copyFiles: bool, maxPages: int, env: Env,
                    decode: string -> Decoded, out: OutputDirectory)
    returns (metadata: Dict, calls: nat)
    requires outputDir.StrArg? ==> out.path == outputDir.s
    modifies out
    ensures Processed(pdfPath, outputDir, copyFiles, maxPages, env, decode, out.path, old(out.names), metadata, out.names)
    ensures calls <= Config.MaxRetries
    ensures calls > 0 ==> Validation(pdfPath, outputDir, copyFiles, maxPages).None?
                          && Rendered(env.file, maxPages, env.convert) != []
  {
    calls := 0;
    var problem := CheckArguments(pdfPath, outputDir, copyFiles, maxPages);
    if problem.Some? {
      var name := if pdfPath.StrArg? && pdfPath.s != "" then Basename(pdfPath.s) else "unknown";
      return ErrorRecord(problem.value, name), 0;
    }
    var path := pdfPath.s;
    var filename := Basename(path);
    var images, _ := PdfToImages(env.file, maxPages, env.convert);
    if images == [] {
      return ErrorRecord("Failed to convert PDF to images", filename), 0;
    }
    var request;
    ghost var delays;
    metadata, calls, request, delays :=
      ExtractMetadataFromImages(images, filename, Some(maxPages), Config.MaxRetries, Config.RetryBaseDelay,
                                env.replies, decode);
    ExtractedBounds(images, Config.MaxRetries, Config.RetryBaseDelay, env.replies);
    ghost var extracted := metadata;
    metadata := CopyStep(path, outputDir, copyFiles, metadata, env, out);
    assert Validation(pdfPath, outputDir, copyFiles, maxPages).None?;
    assert extracted == ExtractedRecord(Rendered(env.file, maxPages, env.convert), Basename(pdfPath.s),
                                        Config.MaxRetries, Config.RetryBaseDelay, env.replies, decode);
  }

  /** The argument checks at the start of `process_pdf` (src/main.py:55-66), in
      order: the first that fails gives its message. */
  method CheckArguments(pdfPath: Arg, outputDir: Arg, copyFiles: bool, maxPages: int) returns (problem: Option<string>)
    ensures problem == Validation(pdfPath, outputDir, copyFiles, maxPages)
  {
    if !ArgTruthy(pdfPath) || !pdfPath.StrArg? {
      return Some("Invalid PDF path provided");
    }
    if maxPages < 1 {
      return Some("max_pages must be at least 1");
    }
    if copyFiles && ArgTruthy(outputDir) && !outputDir.StrArg? {
      return Some("Invalid output directory provided");
    }
    return None;
  }

  /** The copy at the end of `process_pdf` (src/main.py:85-92): when the gate opens the
      PDF is copied and the record annotated; otherwise the record and the directory
      stay as they were. */
  method CopyStep(path: string, outputDir: Arg, copyFiles: bool, extracted: Dict, env: Env, out: OutputDirectory)
    returns (metadata: Dict)
    modifies out
    ensures !CopyGate(copyFiles, outputDir, extracted) ==> metadata == extracted && out.names == old(out.names)
    ensures CopyGate(copyFiles, outputDir, extracted) ==>
              exists r :: CopiedAs(out.path, path, CreateNewFilename(extracted), env.mkdirError, env.copyError,
                                   old(out.names), r, out.names)
                          && metadata == Annotated(extracted, r)
  {
    metadata := extracted;
    if copyFiles && ArgTruthy(outputDir) && !Has(metadata, "error") {
      var copyResult := out.CopyPdfFile(path, metadata, env.mkdirError, env.copyError);
      var info := CopyInfo(copyResult);
      metadata := Put(metadata, "copy_info", JObject(info));
      if Truthy(GetOr(info, "copied", JNull)) {
        metadata := Put(metadata, "output_filename", GetOr(info, "output_filename", JNull));
      }
      assert metadata == Annotated(extracted, copyResult);
    }
  }

  // ------------------------------------------------------- a directory

  /** One entry of the directory: its name, whether it is a regular file, the world
      of the PDF, how the results file write after it ends, and how long its
      processing takes. */
  datatype Entry = Entry(name: string, isFile: bool, env: Env, write: WriteOutcome, elapsedMs: nat)

  /** The directory as `process_directory` finds it; `scanError` stands for
      `iterdir` raising. */
  datatype Directory = Directory(present: bool, isDir: bool, readable: bool, scanError: bool, entries: seq<Entry>)

  /** The checks of src/main.py:106-143 under which `process_directory` returns `[]`
      having done nothing. */
  predicate Rejected(directoryPath: Arg, maxPages: int, dir: Directory) {
    || !ArgTruthy(directoryPath) || !directoryPath.StrArg?
    || maxPages < 1
    || !dir.present || !dir.isDir || !dir.readable
    || dir.scanError
  }

  /** `[ext.lower() for ext in [e.replace("*", "") for e in PDF_EXTENSIONS]]`. */
  function PdfSuffixes(): seq<string> {
    seq(|Config.PdfPatterns|, i requires 0 <= i < |Config.PdfPatterns| => Lower(Without(Config.PdfPatterns[i], {'*'})))
  }

  /** The discovery test of src/main.py:134-136. */
  predicate IsPdfEntry(e: Entry) {
    e.isFile && Lower(PathSuffix(e.name)) in PdfSuffixes()
  }

  lemma PdfSuffixesValue()
    ensures PdfSuffixes() == [".pdf", ".pdf"]
  {
    assert Config.PdfPatterns[0] == "*.pdf" && Config.PdfPatterns[1] == "*.PDF";
    assert Without("*.pdf", {'*'}) == ".pdf";
    assert Without("*.PDF", {'*'}) == ".PDF";
    assert Lower(".pdf") == ".pdf";
    assert Lower(".PDF") == ".pdf";
    assert PdfSuffixes()[0] == ".pdf" && PdfSuffixes()[1] == ".pdf";
  }

  /** An entry is discovered exactly when it is a regular file whose last suffix,
      lower-cased, is ".pdf": so "a.PDF" and "a.Pdf" are found, "a.pdf.txt" and
      ".pdf" are not. */
  lemma IsPdfEntryIff(e: Entry)
    ensures IsPdfEntry(e) <==> e.isFile && Lower(PathSuffix(e.name)) == ".pdf"
  {
    PdfSuffixesValue();
  }

  /** The discovered files, in directory order. */
  function Discovered(entries: seq<Entry>): seq<Entry> {
    if entries == [] then []
    else Discovered(entries[..|entries| - 1]) + (if IsPdfEntry(entries[|entries| - 1]) then [entries[|entries| - 1]] else [])
  }

  /** Discovery keeps exactly the PDF entries, each once, in order. */
  lemma {:induction false} DiscoveredLaws(entries: seq<Entry>)
    ensures forall e :: e in Discovered(entries) <==> e in entries && IsPdfEntry(e)
    ensures |Discovered(entries)| <= |entries|
    ensures forall i :: 0 <= i < |Discovered(entries)| ==> IsPdfEntry(Discovered(entries)[i])
  {
    if entries != [] {
      DiscoveredLaws(entries[..|entries| - 1]);
      assert entries == entries[..|entries| - 1] + [entries[|entries| - 1]];
    }
  }

  /** The discovery loop of src/main.py:131-137. */
  method DiscoverPdfs(entries: seq<Entry>) returns (pdfs: seq<Entry>)
    ensures pdfs == Discovered(entries)
  {
    pdfs := [];
    var i := 0;
    while i < |entries|
      invariant 0 <= i <= |entries|
      invariant pdfs == Discovered(entries[..i])
    {
      assert entries[..i + 1][..i] == entries[..i];
      if IsPdfEntry(entries[i]) {
        pdfs := pdfs + [entries[i]];
      }
      i := i + 1;
    }
    assert entries[..i] == entries;
  }

  /** The spacing between model calls, in milliseconds. */
  const SpacingMs: nat := Config.RateLimitDelaySeconds * 1000

  /** The wait after the `i`-th of `n` files (src/main.py:187-194):
      `max(0, DEFAULT_RATE_LIMIT_DELAY - processing_time)` after a file that is
      neither the last nor an error, none otherwise. */
  function Spacing(i: nat, n: nat, result: Dict, elapsedMs: nat): nat {
    if i + 1 < n && !Has(result, "error") then (if elapsedMs < SpacingMs then SpacingMs - elapsedMs else 0) else 0
  }

  /** A wait never exceeds the spacing; there is none after the last file or an
      error record; and processing plus waiting spans at least the spacing after
      every other file. */
  lemma SpacingLaws(i: nat, n: nat, result: Dict, elapsedMs: nat)
    ensures Spacing(i, n, result, elapsedMs) <= SpacingMs
    ensures i + 1 >= n || Has(result, "error") ==> Spacing(i, n, result, elapsedMs) == 0
    ensures i + 1 < n && !Has(result, "error") ==> elapsedMs + Spacing(i, n, result, elapsedMs) >= SpacingMs
    ensures elapsedMs >= SpacingMs ==> Spacing(i, n, result, elapsedMs) == 0
  {
  }

  /** The results file after saving `results`: the `i`-th is appended when the write
      after file `i` succeeds, a write failing before the file is opened changes
      nothing, and one failing while the list is dumped leaves an undecodable file. */
  function Saved(prev: Option<seq<Json>>, results: seq<Dict>, pdfs: seq<Entry>): Option<seq<Json>>
    requires |results| == |pdfs|
  {
    if results == [] then prev
    else
      var n := |results| - 1;
      var before := Saved(prev, results[..n], pdfs[..n]);
      match pdfs[n].write
      case Written => Some(before.GetOr([]) + [JObject(results[n])])
      case FailedBeforeOpen(_) => before
      case FailedAfterOpen(_) => None
  }

  /** When every write succeeds the file holds what it held (or nothing) followed by
      every record of the batch, in order. */
  lemma {:induction false} SavedAll(prev: Option<seq<Json>>, results: seq<Dict>, pdfs: seq<Entry>)
    requires |results| == |pdfs| && |results| > 0
    requires forall i :: 0 <= i < |pdfs| ==> pdfs[i].write.Written?
    ensures Saved(prev, results, pdfs).Some?
    ensures Saved(prev, results, pdfs).value == prev.GetOr([]) + seq(|results|, i requires 0 <= i < |results| => JObject(results[i]))
  {
    var n := |results| - 1;
    if n > 0 {
      SavedAll(prev, results[..n], pdfs[..n]);
    }
    var before := Saved(prev, results[..n], pdfs[..n]);
    assert before.GetOr([]) == prev.GetOr([]) + seq(n, i requires 0 <= i < n => JObject(results[i]));
  }

  /** A dump that fails after file `k` truncates the results file: the records saved
      before it are lost, the file is undecodable until the next successful write,
      and from then on it holds only the records of later files. */
  lemma {:induction false} SavedAfterTruncation(prev: Option<seq<Json>>, results: seq<Dict>, pdfs: seq<Entry>, k: nat)
    requires |results| == |pdfs| && k < |pdfs| && pdfs[k].write.FailedAfterOpen?
    requires forall i :: k < i < |pdfs| ==> pdfs[i].write.Written?
    ensures k + 1 == |results| ==> Saved(prev, results, pdfs) == None
    ensures k + 1 < |results| ==>
              Saved(prev, results, pdfs) == Some(seq(|results| - k - 1, i requires 0 <= i < |results| - k - 1 => JObject(results[k + 1 + i])))
  {
    var n := |results| - 1;
    if n > k {
      SavedAfterTruncation(prev, results[..n], pdfs[..n], k);
      var before := Saved(prev, results[..n], pdfs[..n]);
      var head := seq(n - k - 1, i requires 0 <= i < n - k - 1 => JObject(results[k + 1 + i]));
      assert before.GetOr([]) == head;
      assert seq(|results| - k - 1, i requires 0 <= i < |results| - k - 1 => JObject(results[k + 1 + i]))
             == head + [JObject(results[n])];
    }
  }

  /** `process_directory(directory_path, output_dir, results_file_path, max_pages)`
      (src/main.py:97-196). `trace` holds the output directory's names before each
      file and after the last; `waits` the wait after each file. */
  method ProcessDirectory(directoryPath: Arg, dir: Directory, outputDir: Arg, resultsPath: Arg, maxPages: int,
                          decode: string -> Decoded, out: OutputDirectory, rf: ResultsFile)
    returns (results: seq<Dict>, ghost waits: seq<nat>, ghost trace: seq<set<string>>)
    requires outputDir.StrArg? ==> out.path == outputDir.s
    modifies out, rf
    ensures Rejected(directoryPath, maxPages, dir) ==>
              results == [] && out.names == old(out.names) && rf.records == old(rf.records)
    ensures !Rejected(directoryPath, maxPages, dir) ==>
              var pdfs := Discovered(dir.entries);
              && |results| == |pdfs| && |waits| == |pdfs|
              && |trace| == |pdfs| + 1 && trace[0] == old(out.names) && trace[|pdfs|] == out.names
              && AllProcessed(directoryPath.s, pdfs, outputDir, maxPages, decode, out.path, trace, results, |pdfs|)
              && AllSpaced(pdfs, results, waits, |pdfs|)
              && rf.records == if ArgTruthy(resultsPath) then Saved(old(rf.records), results, pdfs) else old(rf.records)
  {
    results := [];
    waits := [];
    trace := [out.names];
    if !ArgTruthy(directoryPath) || !directoryPath.StrArg? || maxPages < 1 {
      return;
    }
    if !dir.present || !dir.isDir || !dir.readable || dir.scanError {
      return;
    }
    var pdfs := DiscoverPdfs(dir.entries);
    results, waits, trace := ProcessFiles(directoryPath.s, pdfs, outputDir, resultsPath, maxPages, decode, out, rf);
  }

  /** The loop of src/main.py:166-194 over the discovered files, recording the
      output directory's names before each file and after the last. */
  method ProcessFiles(dirPath: string, pdfs: seq<Entry>, outputDir: Arg, resultsPath: Arg, maxPages: int,
                      decode: string -> Decoded, out: OutputDirectory, rf: ResultsFile)
    returns (results: seq<Dict>, ghost waits: seq<nat>, ghost trace: seq<set<string>>)
    requires outputDir.StrArg? ==> out.path == outputDir.s
    modifies out, rf
    ensures |results| == |pdfs| && |waits| == |pdfs|
    ensures |trace| == |pdfs| + 1 && trace[0] == old(out.names) && trace[|pdfs|] == out.names
    ensures AllProcessed(dirPath, pdfs, outputDir, maxPages, decode, out.path, trace, results, |pdfs|)
    ensures AllSpaced(pdfs, results, waits, |pdfs|)
    ensures rf.records == if ArgTruthy(resultsPath) then Saved(old(rf.records), results, pdfs) else old(rf.records)
  {
    results := [];
    waits := [];
    trace := [out.names];
    ghost var prev := rf.records;
    var i := 0;
    while i < |pdfs|
      invariant 0 <= i <= |pdfs|
      invariant |results| == i && |waits| == i && |trace| == i + 1
      invariant trace[0] == old(out.names) && trace[i] == out.names
      invariant AllProcessed(dirPath, pdfs, outputDir, maxPages, decode, out.path, trace, results, i)
      invariant AllSpaced(pdfs, results, waits, i)
      invariant rf.records == if ArgTruthy(resultsPath) then Saved(prev, results, pdfs[..i]) else prev
    {
      var result;
      ghost var wait;
      result, wait := ProcessEntry(dirPath, pdfs, i, outputDir, maxPages, resultsPath, decode, out, rf,
                                   trace, results, waits, prev);
      results := results + [result];
      trace := trace + [out.names];
      waits := waits + [wait];
      i := i + 1;
    }
    assert pdfs[..i] == pdfs;
  }

  /** The `j`-th file gave `result` and took the output directory from `before`
      to `after`. */
  ghost predicate ProcessedAt(j: nat, dirPath: string, pdfs: seq<Entry>, outputDir: Arg, maxPages: int,
                              decode: string -> Decoded, dir: string, before: set<string>, result: Dict, after: set<string>)
  {
    && j < |pdfs|
    && Processed(StrArg(JoinPath(dirPath, pdfs[j].name)), outputDir, outputDir != NoArg, maxPages,
                 pdfs[j].env, decode, dir, before, result, after)
  }

  /** The first `k` files were processed in turn. */
  ghost predicate AllProcessed(dirPath: string, pdfs: seq<Entry>, outputDir: Arg, maxPages: int,
                               decode: string -> Decoded, dir: string, trace: seq<set<string>>, results: seq<Dict>, k: nat)
  {
    && k <= |pdfs| && k <= |results| && k < |trace|
    && forall j :: 0 <= j < k ==> ProcessedAt(j, dirPath, pdfs, outputDir, maxPages, decode, dir, trace[j], results[j], trace[j + 1])
  }

  /** The waits after the first `k` files follow the spacing rule. */
  ghost predicate AllSpaced(pdfs: seq<Entry>, results: seq<Dict>, waits: seq<nat>, k: nat) {
    && k <= |pdfs| && k <= |results| && k <= |waits|
    && forall j :: 0 <= j < k ==> waits[j] == Spacing(j, |pdfs|, results[j], pdfs[j].elapsedMs)
  }

  /** A run of steps, each relating `trace[j]`, `results[j]` and `trace[j + 1]`, is
      extended by one more step. */
  lemma StepsExtend<S, R>(P: (nat, S, R, S) -> bool, trace: seq<S>, results: seq<R>, i: nat, result: R, after: S)
    requires |results| == i && |trace| == i + 1
    requires forall j :: 0 <= j < i ==> P(j, trace[j], results[j], trace[j + 1])
    requires P(i, trace[i], result, after)
    ensures var t, r := trace + [after], results + [result];
      forall j :: 0 <= j < i + 1 ==> P(j, t[j], r[j], t[j + 1])
  {
    var t, r := trace + [after], results + [result];
    forall j | 0 <= j < i + 1 ensures P(j, t[j], r[j], t[j + 1]) {
      if j < i {
        assert t[j] == trace[j] && r[j] == results[j] && t[j + 1] == trace[j + 1];
      } else {
        assert t[j] == trace[i] && r[j] == result && t[j + 1] == after;
      }
    }
  }

  lemma ProcessedExtend(dirPath: string, pdfs: seq<Entry>, outputDir: Arg, maxPages: int, decode: string -> Decoded,
                        dir: string, trace: seq<set<string>>, results: seq<Dict>, i: nat, result: Dict, after: set<string>)
    requires i < |pdfs| && |results| == i && |trace| == i + 1
    requires AllProcessed(dirPath, pdfs, outputDir, maxPages, decode, dir, trace, results, i)
    requires Processed(StrArg(JoinPath(dirPath, pdfs[i].name)), outputDir, outputDir != NoArg, maxPages,
                       pdfs[i].env, decode, dir, trace[i], result, after)
    ensures AllProcessed(dirPath, pdfs, outputDir, maxPages, decode, dir, trace + [after], results + [result], i + 1)
  {
    var P := (j: nat, b: set<string>, res: Dict, a: set<string>) =>
      ProcessedAt(j, dirPath, pdfs, outputDir, maxPages, decode, dir, b, res, a);
    forall j | 0 <= j < i ensures P(j, trace[j], results[j], trace[j + 1]) {
      assert ProcessedAt(j, dirPath, pdfs, outputDir, maxPages, decode, dir, trace[j], results[j], trace[j + 1]);
    }
    StepsExtend(P, trace, results, i, result, after);
    var t, r := trace + [after], results + [result];
    forall j | 0 <= j < i + 1
      ensures ProcessedAt(j, dirPath, pdfs, outputDir, maxPages, decode, dir, t[j], r[j], t[j + 1])
    {
      assert P(j, t[j], r[j], t[j + 1]);
    }
  }

  lemma SpacedExtend(pdfs: seq<Entry>, results: seq<Dict>, waits: seq<nat>, i: nat, result: Dict, wait: nat)
    requires i < |pdfs| && |results| == i && |waits| == i
    requires AllSpaced(pdfs, results, waits, i)
    requires wait == Spacing(i, |pdfs|, result, pdfs[i].elapsedMs)
    ensures AllSpaced(pdfs, results + [result], waits + [wait], i + 1)
  {
    var r := results + [result];
    var w := waits + [wait];
    forall j | 0 <= j < i + 1 ensures w[j] == Spacing(j, |pdfs|, r[j], pdfs[j].elapsedMs) {
      if j < i {
        assert r[j] == results[j] && w[j] == waits[j];
      }
    }
  }

  lemma SavedExtend(prev: Option<seq<Json>>, pdfs: seq<Entry>, results: seq<Dict>, i: nat, result: Dict)
    requires i < |pdfs| && |results| == i
    ensures Saved(prev, results + [result], pdfs[..i + 1])
            == match pdfs[i].write
               case Written => Some(Saved(prev, results, pdfs[..i]).GetOr([]) + [JObject(result)])
               case FailedBeforeOpen(_) => Saved(prev, results, pdfs[..i])
               case FailedAfterOpen(_) => None
  {
    assert (results + [result])[..i] == results;
    assert pdfs[..i + 1][..i] == pdfs[..i];
  }

  /** One iteration of the batch loop (src/main.py:166-194) for the `i`-th file:
      process it, save its record when a results path is given, and wait as the
      spacing rule says. `prev` is what the results file held before the batch. */
  method ProcessEntry(dirPath: string, pdfs: seq<Entry>, i: nat, outputDir: Arg, maxPages: int, resultsPath: Arg,
                      decode: string -> Decoded, out: OutputDirectory, rf: ResultsFile,
                      ghost trace: seq<set<string>>, ghost results: seq<Dict>, ghost waits: seq<nat>,
                      ghost prev: Option<seq<Json>>)
    returns (result: Dict, ghost wait: nat)
    requires outputDir.StrArg? ==> out.path == outputDir.s
    requires i < |pdfs| && |results| == i && |trace| == i + 1 && |waits| == i && trace[i] == out.names
    requires AllProcessed(dirPath, pdfs, outputDir, maxPages, decode, out.path, trace, results, i)
    requires AllSpaced(pdfs, results, waits, i)
    requires rf.records == if ArgTruthy(resultsPath) then Saved(prev, results, pdfs[..i]) else prev
    modifies out, rf
    ensures AllProcessed(dirPath, pdfs, outputDir, maxPages, decode, out.path, trace + [out.names], results + [result], i + 1)
    ensures AllSpaced(pdfs, results + [result], waits + [wait], i + 1)
    ensures rf.records == if ArgTruthy(resultsPath) then Saved(prev, results + [result], pdfs[..i + 1]) else prev
  {
    var entry := pdfs[i];
    var calls;
    result, calls := ProcessPdf(StrArg(JoinPath(dirPath, entry.name)), outputDir, outputDir != NoArg, maxPages,
                                entry.env, decode, out);
    ProcessedExtend(dirPath, pdfs, outputDir, maxPages, decode, out.path, trace, results, i, result, out.names);
    ghost var before := rf.records;
    if ArgTruthy(resultsPath) {
      var _ := rf.UpdateResultsFile(result, entry.write);
    }
    SavedExtend(prev, pdfs, results, i, result);
    wait := 0;
    if i + 1 < |pdfs| && !Has(result, "error") {
      var remaining := if entry.elapsedMs < SpacingMs then SpacingMs - entry.elapsedMs else 0;
      if remaining > 0 {
        wait := remaining;
      }
    }
    SpacedExtend(pdfs, results, waits, i, result, wait);
  }

  /** A directory entry's path `directory / name` has the entry's name as its base
      name, so every record of a batch names its own file. */
  lemma BasenameOfJoin(dir: string, name: string)
    requires '/' !in name
    ensures Basename(JoinPath(dir, name)) == name
  {
    if dir != "" {
      RFindCharLast(dir, '/', name);
      assert (dir + ['/'] + name)[|dir| + 1..] == name;
      assert JoinPath(dir, name) == dir + ['/'] + name;
    }
  }

  /** In a processed batch of a non-empty directory path, the `j`-th record names
      the `j`-th discovered file. */
  lemma BatchNamesFiles(dirPath: string, pdfs: seq<Entry>, outputDir: Arg, maxPages: int, decode: string -> Decoded,
                        dir: string, trace: seq<set<string>>, results: seq<Dict>, j: nat)
    requires AllProcessed(dirPath, pdfs, outputDir, maxPages, decode, dir, trace, results, |pdfs|)
    requires dirPath != "" && j < |pdfs| && '/' !in pdfs[j].name
    ensures Get(results[j], "source_filename") == Some(JStr(pdfs[j].name))
  {
    assert ProcessedAt(j, dirPath, pdfs, outputDir, maxPages, decode, dir, trace[j], results[j], trace[j + 1]);
    ProcessedNamesFile(StrArg(JoinPath(dirPath, pdfs[j].name)), outputDir, outputDir != NoArg, maxPages,
                       pdfs[j].env, decode, dir, trace[j], results[j], trace[j + 1]);
    BasenameOfJoin(dirPath, pdfs[j].name);
  }

  /** The output directory changes only through a copy, which needs every check to
      pass, pages to render and the gate to open on the extracted record; and then it
      gains exactly one name. */
  lemma ProcessedCopyGate(pdfPath: Arg, outputDir: Arg, copyFiles: bool, maxPages: int, env: Env,
                          decode: string -> Decoded, dir: string, before: set<string>,
                          metadata: Dict, after: set<string>)
    requires Processed(pdfPath, outputDir, copyFiles, maxPages, env, decode, dir, before, metadata, after)
    ensures after != before ==>
              && Validation(pdfPath, outputDir, copyFiles, maxPages).None?
              && Rendered(env.file, maxPages, env.convert) != []
              && CopyGate(copyFiles, outputDir,
                          ExtractedRecord(Rendered(env.file, maxPages, env.convert), Basename(pdfPath.s),
                                          Config.MaxRetries, Config.RetryBaseDelay, env.replies, decode))
              && exists name :: name !in before && after == before + {name}
  {
    if after != before {
      var images := Rendered(env.file, maxPages, env.convert);
      var extracted := ExtractedRecord(images, Basename(pdfPath.s), Config.MaxRetries, Config.RetryBaseDelay,
                                       env.replies, decode);
      var r :| CopiedAs(dir, pdfPath.s, CreateNewFilename(extracted), env.mkdirError, env.copyError, before, r, after)
               && metadata == Annotated(extracted, r);
      var k :| FirstFree(before, CreateNewFilename(extracted).value, k, r.outputFilename);
      assert r.outputFilename !in before && after == before + {r.outputFilename};
    }
  }
}
